/** Outboxes filled during one broker call (proto/queue.py), and the connections they are sent to. */
module SendQueue {
  import opened Model
  import opened Reduce
  import opened Messages
  import S = Store

  /** A client connection, with the frames sent to it so far. */
  class Connection {
    var sent: seq<seq<Msg>>

    constructor ()
      ensures sent == []
    {
      sent := [];
    }

    method Send(msgs: seq<NetfindMessage>)
      modifies this
      ensures sent == old(sent) + [Snap(msgs)]
    {
      sent := sent + [Snap(msgs)];
    }
  }

  ghost predicate DistinctKeys(vals: seq<Msg>)
  {
    forall i, j :: 0 <= i < j < |vals| ==> GroupKey(vals[i]) != GroupKey(vals[j])
  }

  lemma {:induction false} OneInGroup(vals: seq<Msg>, k: Key)
    requires DistinctKeys(vals)
    ensures |GroupOf(vals, k)| <= 1
  {
    hide GroupKey;
    if vals != [] {
      var n := |vals| - 1;
      OneInGroup(vals[..n], k);
      if GroupKey(vals[n]) == k {
        GroupNone(vals[..n], k);
      }
    }
  }

  /** Reducing messages without equal keys only sorts them: the same messages, each once. */
  lemma ReductionOfDistinct(vals: seq<Msg>)
    requires DistinctKeys(vals)
    ensures StrictlySorted(ReduceMsgs(vals))
    ensures forall m :: m in ReduceMsgs(vals) <==> m in vals
  {
    hide GroupKey, DistinctKeys, ReduceMsgs, GroupOf;
    var out := ReduceMsgs(vals);
    ReduceIsReduction(vals);
    forall m ensures m in out <==> m in vals {
      var k := GroupKey(m);
      OneInGroup(vals, k);
      assert Merged(GroupOf(vals, k)) == GroupOf(vals, k);
      GroupMembers(vals, k);
      GroupMembers(out, k);
    }
  }

  /** The outbox of a connection, empty until something is put in it. */
  function Box(boxes: map<Connection, seq<NetfindMessage>>, c: Connection): seq<NetfindMessage>
  {
    if c in boxes then boxes[c] else []
  }

  lemma NoBox(c: Connection)
    ensures Box(map[], c) == []
  {
  }

  // ---------- Several outboxes over one batch ----------

  /** The values whose keys are in `ks`. */
  ghost function ValuesBy(vals: seq<Msg>, ks: iset<Key>): seq<Msg>
  {
    if vals == [] then []
    else ValuesBy(vals[..|vals| - 1], ks) + (if GroupKey(vals[|vals| - 1]) in ks then [vals[|vals| - 1]] else [])
  }

  /** The same selection on the message objects, `vals` being their contents. */
  ghost function PickBy(batch: seq<NetfindMessage>, vals: seq<Msg>, ks: iset<Key>): seq<NetfindMessage>
    requires |batch| == |vals|
  {
    if vals == [] then []
    else PickBy(batch[..|vals| - 1], vals[..|vals| - 1], ks)
         + (if GroupKey(vals[|vals| - 1]) in ks then [batch[|vals| - 1]] else [])
  }

  /** What merging leaves at position `x`, once the whole group has been merged into its first message. */
  function MergedAt(vals: seq<Msg>, x: nat): Msg
    requires x < |vals|
  {
    var k := GroupKey(vals[x]);
    if FirstAt(vals, k) == x && GroupOf(vals, k) != [] then MergeAll(GroupOf(vals, k)) else vals[x]
  }

  /** Some of the groups have been merged. */
  ghost predicate Between(vals: seq<Msg>, cur: seq<Msg>)
  {
    |cur| == |vals| && forall x :: 0 <= x < |vals| ==> cur[x] == vals[x] || cur[x] == MergedAt(vals, x)
  }

  lemma MergedKeepsKey(vals: seq<Msg>, x: nat)
    requires x < |vals| && S.AllComplete(vals)
    ensures Complete(MergedAt(vals, x)) && GroupKey(MergedAt(vals, x)) == GroupKey(vals[x])
  {
    hide GroupKey, GroupOf, MergeAll, FirstAt, Complete;
    var k := GroupKey(vals[x]);
    var g := GroupOf(vals, k);
    GroupHasKey(vals, k);
    if g != [] {
      MergeAllShape(g);
      assert g[0] in g;
    }
  }

  /** A merged group merged once more with its other members is still the merged group. */
  lemma {:induction false} MergedAgain(g: seq<Msg>, h: seq<Msg>)
    requires g != [] && forall j :: 0 <= j < |g| ==> Complete(g[j]) && GroupKey(g[j]) == GroupKey(g[0])
    requires forall m :: m in h ==> m in g
    ensures MergeAll([MergeAll(g)] + h) == MergeAll(g)
    decreases |h|
  {
    hide MergeAll, GroupKey, Complete;
    var s := [MergeAll(g)] + h;
    if h == [] {
      assert s == [MergeAll(g)];
      MergeOne(MergeAll(g));
    } else {
      var n := |h| - 1;
      MergedAgain(g, h[..n]);
      assert s[..|h|] == [MergeAll(g)] + h[..n];
      MergeLast(s);
      assert h[n] in g;
      var i :| 0 <= i < |g| && g[i] == h[n];
      MergeAbsorbs(g, i);
    }
  }

  lemma MergeOne(m: Msg)
    ensures MergeAll([m]) == m
  {
  }

  lemma MergeLast(s: seq<Msg>)
    requires |s| > 1
    ensures MergeAll(s) == Merge(MergeAll(s[..|s| - 1]), s[|s| - 1])
  {
  }

  lemma {:induction false} SameGroup(a: seq<Msg>, b: seq<Msg>, k: Key)
    requires |a| == |b|
    requires forall i :: 0 <= i < |a| ==> GroupKey(a[i]) == GroupKey(b[i]) && (GroupKey(a[i]) == k ==> a[i] == b[i])
    ensures GroupOf(a, k) == GroupOf(b, k)
  {
    hide GroupKey;
    if a != [] {
      SameGroup(a[..|a| - 1], b[..|b| - 1], k);
    }
  }

  lemma GroupFrom(s: seq<Msg>, k: Key, f: nat)
    requires f == FirstAt(s, k) && f < |s|
    ensures GroupOf(s, k) == [s[f]] + GroupOf(s[f + 1..], k)
  {
    hide FirstAt, GroupKey, GroupOf;
    assert s == s[..f] + ([s[f]] + s[f + 1..]);
    GroupOfConcat(s[..f], [s[f]] + s[f + 1..], k);
    GroupOfConcat([s[f]], s[f + 1..], k);
    GroupNone(s[..f], k);
    GroupOfOne(s[f], k);
  }

  lemma FirstWithSameKeys(a: seq<Msg>, b: seq<Msg>, k: Key)
    requires |a| == |b| && forall i :: 0 <= i < |a| ==> GroupKey(a[i]) == GroupKey(b[i])
    ensures FirstAt(a, k) == FirstAt(b, k)
  {
    hide FirstAt, GroupKey;
    var x, y := FirstAt(a, k), FirstAt(b, k);
    assert x < |a| ==> GroupKey(b[x]) == k;
    assert y < |b| ==> GroupKey(a[y]) == k;
  }

  /** However many groups have been merged so far, every group still merges to the same. */
  lemma MergesTheSame(vals: seq<Msg>, cur: seq<Msg>, k: Key)
    requires S.AllComplete(vals) && Between(vals, cur)
    ensures forall x :: 0 <= x < |vals| ==> GroupKey(cur[x]) == GroupKey(vals[x])
    ensures Merged(GroupOf(cur, k)) == Merged(GroupOf(vals, k))
  {
    hide FirstAt, GroupKey, GroupOf, MergeAll, MergedAt, Complete;
    forall x | 0 <= x < |vals| ensures GroupKey(cur[x]) == GroupKey(vals[x]) {
      MergedKeepsKey(vals, x);
    }
    FirstWithSameKeys(vals, cur, k);
    var f := FirstAt(vals, k);
    if f < |vals| {
      GroupFrom(vals, k, f);
      GroupFrom(cur, k, f);
      var rest, rest' := vals[f + 1..], cur[f + 1..];
      forall i | 0 <= i < |rest|
        ensures GroupKey(rest[i]) == GroupKey(rest'[i]) && (GroupKey(rest[i]) == k ==> rest[i] == rest'[i])
      {
        if GroupKey(vals[f + 1 + i]) == k {
          NotFirst(vals, f + 1 + i);
        }
      }
      SameGroup(rest, rest', k);
      FirstMerged(vals, f);
      RestMembers(vals, k, f);
      MergedAgain(GroupOf(vals, k), GroupOf(vals[f + 1..], k));
    } else {
      GroupNone(vals, k);
      GroupNone(cur, k);
    }
  }

  lemma NotFirst(vals: seq<Msg>, x: nat)
    requires x < |vals| && FirstAt(vals, GroupKey(vals[x])) != x
    ensures MergedAt(vals, x) == vals[x]
  {
  }

  lemma FirstMerged(vals: seq<Msg>, x: nat)
    requires x < |vals| && FirstAt(vals, GroupKey(vals[x])) == x
    ensures GroupOf(vals, GroupKey(vals[x])) != [] && MergedAt(vals, x) == MergeAll(GroupOf(vals, GroupKey(vals[x])))
  {
    hide FirstAt, GroupKey, MergeAll;
    GroupHolds(vals, x);
  }

  lemma RestMembers(vals: seq<Msg>, k: Key, f: nat)
    requires S.AllComplete(vals) && f == FirstAt(vals, k) && f < |vals|
    ensures forall m :: m in GroupOf(vals[f + 1..], k) ==> m in GroupOf(vals, k)
    ensures var g := GroupOf(vals, k);
            g != [] && forall j :: 0 <= j < |g| ==> Complete(g[j]) && GroupKey(g[j]) == GroupKey(g[0])
  {
    hide FirstAt, GroupKey, GroupOf, Complete;
    GroupFrom(vals, k, f);
    GroupHasKey(vals, k);
    var g := GroupOf(vals, k);
    forall j | 0 <= j < |g| ensures Complete(g[j]) && GroupKey(g[j]) == k {
      assert g[j] in g && g[j] in vals;
    }
  }

  lemma {:induction false} GroupBy(vals: seq<Msg>, ks: iset<Key>, k: Key)
    ensures GroupOf(ValuesBy(vals, ks), k) == if k in ks then GroupOf(vals, k) else []
  {
    hide GroupKey;
    if vals != [] {
      var n := |vals| - 1;
      GroupBy(vals[..n], ks, k);
      var last := if GroupKey(vals[n]) in ks then [vals[n]] else [];
      GroupOfConcat(ValuesBy(vals[..n], ks), last, k);
      GroupOfOne(vals[n], k);
    }
  }

  /** Every outbox reduces to the same before and after others have been sent. */
  lemma ReducesTheSame(vals: seq<Msg>, cur: seq<Msg>, ks: iset<Key>)
    requires S.AllComplete(vals) && Between(vals, cur)
    ensures ReduceMsgs(ValuesBy(cur, ks)) == ReduceMsgs(ValuesBy(vals, ks))
  {
    hide ValuesBy, GroupOf, Merged, ReduceMsgs, MergedAt, StrictlySorted;
    ReduceIsReduction(ValuesBy(cur, ks));
    forall k ensures Merged(GroupOf(ValuesBy(cur, ks), k)) == Merged(GroupOf(ValuesBy(vals, ks), k)) {
      MergesTheSame(vals, cur, k);
      GroupBy(vals, ks, k);
      GroupBy(cur, ks, k);
    }
    ReductionIsUnique(ValuesBy(cur, ks), ValuesBy(vals, ks), ReduceMsgs(ValuesBy(cur, ks)));
  }

  lemma {:induction false} PickedValues(batch: seq<NetfindMessage>, vals: seq<Msg>, ks: iset<Key>)
    requires |batch| == |vals| && forall x :: 0 <= x < |vals| ==> GroupKey(batch[x].data) == GroupKey(vals[x])
    ensures Snap(PickBy(batch, vals, ks)) == ValuesBy(Snap(batch), ks)
    decreases |vals|
  {
    hide GroupKey;
    if vals != [] {
      var n := |vals| - 1;
      assert Snap(batch)[..n] == Snap(batch[..n]);
      PickedValues(batch[..n], vals[..n], ks);
    }
  }

  lemma {:induction false} PickedMembers(batch: seq<NetfindMessage>, vals: seq<Msg>, ks: iset<Key>)
    requires |batch| == |vals|
    ensures forall m :: m in PickBy(batch, vals, ks) <==>
              exists x :: 0 <= x < |vals| && batch[x] == m && GroupKey(vals[x]) in ks
    decreases |vals|
  {
    hide GroupKey;
    if vals != [] {
      PickedMembers(batch[..|vals| - 1], vals[..|vals| - 1], ks);
    }
  }

  /** The first message of a key stands first in every outbox that holds the key. */
  lemma {:induction false} PickedFirst(batch: seq<NetfindMessage>, vals: seq<Msg>, ks: iset<Key>, k: Key)
    requires |batch| == |vals| && k in ks
    ensures |PickBy(batch, vals, ks)| == |ValuesBy(vals, ks)|
    ensures var f, y := FirstAt(vals, k), FirstAt(ValuesBy(vals, ks), k);
            (f < |vals| <==> y < |ValuesBy(vals, ks)|) && (f < |vals| ==> PickBy(batch, vals, ks)[y] == batch[f])
    decreases |vals|
  {
    hide GroupKey, FirstAt;
    if vals != [] {
      var n := |vals| - 1;
      PickedFirst(batch[..n], vals[..n], ks, k);
      FirstAppend(vals[..n], vals[n], k);
      assert vals[..n] + [vals[n]] == vals;
      var p, v := PickBy(batch[..n], vals[..n], ks), ValuesBy(vals[..n], ks);
      if GroupKey(vals[n]) in ks {
        FirstAppend(v, vals[n], k);
        assert (p + [batch[n]])[|v|] == batch[n];
      } else {
        assert v + [] == v && p + [] == p;
      }
    }
  }

  lemma FirstAppend(s: seq<Msg>, m: Msg, k: Key)
    ensures FirstAt(s + [m], k)
            == if FirstAt(s, k) < |s| then FirstAt(s, k) else if GroupKey(m) == k then |s| else |s| + 1
  {
    hide FirstAt, GroupKey;
    var t := s + [m];
    var x, y := FirstAt(s, k), FirstAt(t, k);
    assert x < |s| ==> GroupKey(t[x]) == k;
    assert y < |s| ==> GroupKey(s[y]) == k;
    assert t[|s|] == m;
  }

  lemma {:induction false} PickSameKeys(batch: seq<NetfindMessage>, a: seq<Msg>, b: seq<Msg>, ks: iset<Key>)
    requires |batch| == |a| == |b| && forall i :: 0 <= i < |a| ==> GroupKey(a[i]) == GroupKey(b[i])
    ensures PickBy(batch, a, ks) == PickBy(batch, b, ks)
    decreases |a|
  {
    hide GroupKey;
    if a != [] {
      PickSameKeys(batch[..|a| - 1], a[..|a| - 1], b[..|a| - 1], ks);
    }
  }

  /** Sending an outbox leaves each of its messages merged as far as it will ever be. */
  lemma BoxMerged(batch: seq<NetfindMessage>, vals: seq<Msg>, cur: seq<Msg>, ks: iset<Key>, x: nat, y: nat)
    requires |batch| == |vals| && x < |vals| && S.AllComplete(vals) && Between(vals, cur)
    requires forall i, j :: 0 <= i < j < |batch| ==> batch[i] != batch[j]
    requires var box, bv := PickBy(batch, vals, ks), ValuesBy(cur, ks);
             |box| == |bv| && y < |box| && box[y] == batch[x] && bv[y] == cur[x] && GroupKey(vals[x]) in ks
    ensures DataAfter(PickBy(batch, vals, ks), ValuesBy(cur, ks), y) == MergedAt(vals, x)
  {
    hide GroupKey, FirstAt, GroupOf, MergeAll, ValuesBy, PickBy;
    var box, bv, k := PickBy(batch, vals, ks), ValuesBy(cur, ks), GroupKey(vals[x]);
    MergesTheSame(vals, cur, k);
    PickSameKeys(batch, vals, cur, ks);
    PickedFirst(batch, cur, ks, k);
    FirstWithSameKeys(vals, cur, k);
    GroupBy(cur, ks, k);
    GroupHolds(vals, x);
    if FirstAt(vals, k) == x {
      FirstMerged(vals, x);
    } else {
      NotFirst(vals, x);
    }
  }

  /** The keys that these connections want. */
  ghost function ToldBy(done: set<Connection>, wants: map<Connection, iset<Key>>): iset<Key>
  {
    iset k | AnyWants(done, wants, k)
  }

  ghost predicate AnyWants(done: set<Connection>, wants: map<Connection, iset<Key>>, k: Key)
  {
    exists c :: c in done && c in wants && k in wants[c]
  }

  lemma NothingTold(done: set<Connection>, wants: map<Connection, iset<Key>>)
    requires done == {}
    ensures ToldBy(done, wants) == iset{}
  {
  }

  lemma ToldOneMore(keys: set<Connection>, left: set<Connection>, c: Connection, wants: map<Connection, iset<Key>>)
    requires c in left && left <= keys && c in wants
    ensures ToldBy(keys - (left - {c}), wants) == ToldBy(keys - left, wants) + wants[c]
  {
  }

  lemma EveryoneTold(keys: set<Connection>, left: set<Connection>, wants: map<Connection, iset<Key>>)
    requires left == {} && forall c :: c in keys ==> c in wants
    ensures forall k :: k in ToldBy(keys - left, wants) <==> exists c :: c in keys && k in wants[c]
  {
  }

  class SendQueue {
    var msgs: map<Connection, seq<NetfindMessage>>

    constructor ()
      ensures msgs == map[]
    {
      msgs := map[];
    }

    method Append(c: Connection, m: NetfindMessage)
      modifies this
      ensures msgs == old(msgs)[c := Box(old(msgs), c) + [m]]
    {
      msgs := msgs[c := Box(msgs, c) + [m]];
    }

    method Extend(c: Connection, ms: seq<NetfindMessage>)
      modifies this
      ensures msgs == old(msgs)[c := Box(old(msgs), c) + ms]
    {
      msgs := msgs[c := Box(msgs, c) + ms];
    }

    method Discard(c: Connection?)
      modifies this
      ensures msgs == if c == null then old(msgs) else old(msgs) - {c}
    {
      if c != null {
        msgs := msgs - {c};
      }
    }

    /** The outboxes are selections by key from one batch of separate objects. */
    ghost predicate Spread(batch: seq<NetfindMessage>, vals: seq<Msg>, wants: map<Connection, iset<Key>>)
      reads this
    {
      && |batch| == |vals| && S.AllComplete(vals) && (forall i, j :: 0 <= i < j < |batch| ==> batch[i] != batch[j])
      && forall c :: c in msgs ==> c in wants && msgs[c] == PickBy(batch, vals, wants[c])
    }

    /** Sends one outbox: its reduction, with the merging that this does to the messages themselves. Of a
        batch spread over several outboxes, of which `told` were merged before, it sends what was due. */
    method SendBox(c: Connection, ghost batch: seq<NetfindMessage>, ghost vals: seq<Msg>,
                   ghost wants: map<Connection, iset<Key>>, ghost told: iset<Key>)
      requires c in msgs && forall m :: m in msgs[c] ==> Complete(m.data)
      requires Spread(batch, vals, wants) ==> Told(batch, vals, told)
      modifies c, msgs[c]
      ensures c.sent == old(c.sent) + [ReduceMsgs(old(Snap(msgs[c])))]
      ensures forall x :: 0 <= x < |msgs[c]| ==> msgs[c][x].data == DataAfter(msgs[c], old(Snap(msgs[c])), x)
      ensures forall m :: m in msgs[c] ==> Complete(m.data) && GroupKey(m.data) == old(GroupKey(m.data))
      ensures Spread(batch, vals, wants) ==>
                && c in wants && c.sent == old(c.sent) + [ReduceMsgs(ValuesBy(vals, wants[c]))]
                && Told(batch, vals, told + wants[c])
    {
      hide DataAfter, ReduceMsgs, Complete, Snap, GroupKey, MergedAt, ValuesBy, PickBy, Spread;
      ghost var spread, cur, bv := Spread(batch, vals, wants), Snap(batch), Snap(msgs[c]);
      assert Held(msgs[c], batch, bv, cur);
      if spread {
        ToldIsBetween(batch, vals, told);
        SpreadBox(c, batch, vals, wants);
      }
      var out := ReduceInPlace(msgs[c]);
      c.Send(out);
      forall m | m in msgs[c] ensures Complete(m.data) && GroupKey(m.data) == old(GroupKey(m.data)) {
        var x :| 0 <= x < |msgs[c]| && msgs[c][x] == m;
        DataStaysComplete(msgs[c], bv, x);
      }
      if spread {
        ToldMore(c, batch, vals, wants, cur, told);
      }
    }

    /** What an outbox holds when some groups of its batch have been merged. */
    lemma SpreadBox(c: Connection, batch: seq<NetfindMessage>, vals: seq<Msg>, wants: map<Connection, iset<Key>>)
      requires c in msgs && Spread(batch, vals, wants) && Between(vals, Snap(batch))
      ensures c in wants && Snap(msgs[c]) == ValuesBy(Snap(batch), wants[c])
      ensures ReduceMsgs(Snap(msgs[c])) == ReduceMsgs(ValuesBy(vals, wants[c]))
      ensures forall m :: m in msgs[c]
                          <==> exists x :: 0 <= x < |vals| && batch[x] == m && GroupKey(vals[x]) in wants[c]
    {
      hide ReduceMsgs, GroupKey, MergedAt, PickBy, ValuesBy;
      var cur := Snap(batch);
      forall x | 0 <= x < |vals| ensures GroupKey(cur[x]) == GroupKey(vals[x]) {
        MergesTheSame(vals, cur, GroupKey(vals[x]));
      }
      PickedMembers(batch, vals, wants[c]);
      PickedValues(batch, vals, wants[c]);
      ReducesTheSame(vals, cur, wants[c]);
    }

    /** Sending it merges the groups that it holds, and leaves the others alone. */
    lemma ToldMore(c: Connection, batch: seq<NetfindMessage>, vals: seq<Msg>, wants: map<Connection, iset<Key>>,
                   cur: seq<Msg>, told: iset<Key>)
      requires c in msgs && Spread(batch, vals, wants) && |cur| == |vals|
      requires forall x :: 0 <= x < |vals| ==>
                 cur[x] == if GroupKey(vals[x]) in told then MergedAt(vals, x) else vals[x]
      requires Held(msgs[c], batch, ValuesBy(cur, wants[c]), cur)
      requires forall y :: 0 <= y < |msgs[c]| ==> msgs[c][y].data == DataAfter(msgs[c], ValuesBy(cur, wants[c]), y)
      requires forall x :: 0 <= x < |batch| && batch[x] !in msgs[c] ==> batch[x].data == cur[x]
      ensures Told(batch, vals, told + wants[c])
    {
      hide GroupKey, MergedAt, PickBy, ValuesBy, DataAfter;
      PickedMembers(batch, vals, wants[c]);
      forall x | 0 <= x < |batch|
        ensures batch[x].data == if GroupKey(vals[x]) in told + wants[c] then MergedAt(vals, x) else vals[x]
      {
        if GroupKey(vals[x]) in wants[c] {
          assert batch[x] in msgs[c];
          var y :| 0 <= y < |msgs[c]| && msgs[c][y] == batch[x];
          BoxMerged(batch, vals, cur, wants[c], x, y);
        } else {
          assert batch[x] !in msgs[c];
        }
      }
    }

    /** Sends every outbox. When they are selections by key from one batch, as get_subs makes them, every
        connection is sent the reduction of the messages it was due, whatever was sent before it, although
        merging one outbox changes messages that stand in others. A single outbox is always sent reduced. */
    method Send(ghost all: set<NetfindMessage>, ghost batch: seq<NetfindMessage>,
                ghost wants: map<Connection, iset<Key>>)
      requires forall c, m :: c in msgs && m in msgs[c] ==> m in all
      requires forall m :: m in all ==> Complete(m.data)
      requires forall m :: m in batch ==> m in all
      modifies msgs.Keys, all
      ensures forall m :: m in all ==> Complete(m.data) && GroupKey(m.data) == old(GroupKey(m.data))
      ensures old(Spread(batch, Snap(batch), wants)) ==>
                && (forall c :: c in msgs ==>
                      c.sent == old(c.sent) + [ReduceMsgs(ValuesBy(old(Snap(batch)), wants[c]))])
                && forall x :: 0 <= x < |batch| ==>
                     batch[x].data == if exists c :: c in msgs && GroupKey(old(batch[x].data)) in wants[c]
                                      then MergedAt(old(Snap(batch)), x) else old(batch[x].data)
      ensures forall c :: msgs.Keys == {c} ==>
                && c.sent == old(c.sent) + [ReduceMsgs(old(Snap(msgs[c])))]
                && forall x :: 0 <= x < |msgs[c]| ==> msgs[c][x].data == DataAfter(msgs[c], old(Snap(msgs[c])), x)
    {
      hide DataAfter, ReduceMsgs, Complete, Snap, GroupKey, MergedAt, ValuesBy, PickBy;
      hide Spread, S.AllComplete, Told, ToldBy;
      var left := msgs.Keys;
      ghost var vals := Snap(batch);
      ghost var spread := Spread(batch, vals, wants);
      NobodyTold(batch);
      NothingTold(msgs.Keys - left, wants);
      while left != {}
        invariant left <= msgs.Keys && spread == Spread(batch, vals, wants)
        invariant left == msgs.Keys ==> forall m :: m in all ==> m.data == old(m.data)
        invariant forall m :: m in all ==> Complete(m.data) && GroupKey(m.data) == old(GroupKey(m.data))
        invariant forall c :: c in left ==> c.sent == old(c.sent)
        invariant spread ==> Told(batch, vals, ToldBy(msgs.Keys - left, wants))
        invariant spread ==> forall c :: c in msgs && c !in left ==>
                    c in wants && c.sent == old(c.sent) + [ReduceMsgs(ValuesBy(vals, wants[c]))]
        invariant forall c :: msgs.Keys == {c} && c !in left ==>
                    && c.sent == old(c.sent) + [ReduceMsgs(old(Snap(msgs[c])))]
                    && forall x :: 0 <= x < |msgs[c]| ==> msgs[c][x].data == DataAfter(msgs[c], old(Snap(msgs[c])), x)
      {
        var c :| c in left;
        assert left == msgs.Keys ==> Snap(msgs[c]) == old(Snap(msgs[c]));
        SendBox(c, batch, vals, wants, ToldBy(msgs.Keys - left, wants));
        if spread {
          ToldOneMore(msgs.Keys, left, c, wants);
        }
        left := left - {c};
      }
      if spread {
        ToldIs(batch, vals, ToldBy(msgs.Keys - left, wants));
        EveryoneTold(msgs.Keys, left, wants);
      }
    }
  }

  /** The groups told about have been merged, the others have not. */
  ghost predicate Told(batch: seq<NetfindMessage>, vals: seq<Msg>, told: iset<Key>)
    reads batch
  {
    |batch| == |vals|
    && forall x :: 0 <= x < |batch| ==>
         batch[x].data == if GroupKey(vals[x]) in told then MergedAt(vals, x) else vals[x]
  }

  /** `bv` and `cur` are contents of the same objects. */
  ghost predicate Held(box: seq<NetfindMessage>, batch: seq<NetfindMessage>, bv: seq<Msg>, cur: seq<Msg>)
  {
    |bv| == |box| && |cur| == |batch|
    && forall y, x :: 0 <= y < |box| && 0 <= x < |batch| && box[y] == batch[x] ==> bv[y] == cur[x]
  }

  lemma NobodyTold(batch: seq<NetfindMessage>)
    ensures Told(batch, Snap(batch), iset{})
  {
  }

  lemma ToldIs(batch: seq<NetfindMessage>, vals: seq<Msg>, told: iset<Key>)
    requires Told(batch, vals, told)
    ensures |batch| == |vals|
    ensures forall x :: 0 <= x < |batch| ==>
              batch[x].data == if GroupKey(vals[x]) in told then MergedAt(vals, x) else vals[x]
  {
  }

  lemma ToldIsBetween(batch: seq<NetfindMessage>, vals: seq<Msg>, told: iset<Key>)
    requires Told(batch, vals, told)
    ensures Between(vals, Snap(batch))
  {
  }

  lemma DataStaysComplete(msgs: seq<NetfindMessage>, vals: seq<Msg>, x: nat)
    requires |msgs| == |vals| && x < |msgs| && forall i :: 0 <= i < |vals| ==> Complete(vals[i])
    ensures Complete(DataAfter(msgs, vals, x)) && GroupKey(DataAfter(msgs, vals, x)) == GroupKey(vals[x])
  {
    var k := GroupKey(vals[x]);
    GroupHasKey(vals, k);
    if GroupOf(vals, k) != [] {
      MergeAllShape(GroupOf(vals, k));
      assert GroupOf(vals, k)[0] in GroupOf(vals, k);
    }
  }
}
