/** One received frame (blueprints/websocket.py): reduce, fill in the client name, group by type, and
    hand each group to the broker. */
module Frame {
  import opened Text
  import opened Model
  import opened Seqs
  import opened Messages
  import opened SendQueue
  import opened Broker
  import S = Store
  import Reduce

  // ---------- The frame as values ----------

  /** "/@" in a topic stands for the client's name. */
  function Name(m: Msg, name: string): Msg
  {
    m.(topic := ReplacePair(m.topic, '/', '@', "/" + name))
  }

  /** The client's name takes the place of every "@" that starts a segment, from the left. */
  lemma {:induction false} NameFills(m: Msg, name: string, a: string, b: string)
    requires m.topic == a + "/@" + b && !HasPair(a, '/', '@')
    ensures Name(m, name).topic == a + "/" + name + Name(m.(topic := b), name).topic
    decreases |a|
  {
    if a == "" {
      assert m.topic[2..] == b && m.topic == "/@" + b;
      assert "/" + name + Name(m.(topic := b), name).topic == a + "/" + name + Name(m.(topic := b), name).topic;
    } else {
      var rest := m.(topic := a[1..] + "/@" + b);
      HasPairSlice(a, 1, |a|, '/', '@');
      assert a[1..|a|] == a[1..] && m.topic[1..] == rest.topic && m.topic[0] == a[0];
      assert |a| > 1 ==> m.topic[1] == a[1];
      assert |a| == 1 ==> m.topic[1] == '/';
      NameFills(rest, name, a[1..], b);
      assert [a[0]] + (a[1..] + "/" + name + Name(m.(topic := b), name).topic)
          == a + "/" + name + Name(m.(topic := b), name).topic;
    }
  }

  /** Nothing else of the message changes, and without such a segment nothing does. */
  lemma NameKeeps(m: Msg, name: string)
    ensures Name(m, name) == m.(topic := Name(m, name).topic)
    ensures !HasPair(m.topic, '/', '@') ==> Name(m, name) == m
  {
    if !HasPair(m.topic, '/', '@') {
      ReplacePairNone(m.topic, '/', '@', "/" + name);
    }
  }

  function NameAll(ms: seq<Msg>, name: string): (r: seq<Msg>)
    ensures |r| == |ms| && forall i :: 0 <= i < |ms| ==> r[i] == Name(ms[i], name)
  {
    seq(|ms|, i requires 0 <= i < |ms| => Name(ms[i], name))
  }

  function IsPubDel(): Msg -> bool { (m: Msg) => m.typ.PUB? || m.typ.DEL? }

  function IsGetSubUnsub(): Msg -> bool { (m: Msg) => m.typ.GET? || m.typ.SUB? || m.typ.UNSUB? }

  function IsLwt(): Msg -> bool { (m: Msg) => m.typ.LWT? }

  /** The messages of a frame in the order the broker sees them. */
  function Ordered(frame: seq<Msg>, name: string): seq<Msg>
  {
    NameAll(Reduce.ReduceMsgs(frame), name)
  }

  ghost predicate TypeOrdered(ms: seq<Msg>)
  {
    forall i, j :: 0 <= i < j < |ms| ==> ms[i].typ.Rank() <= ms[j].typ.Rank()
  }

  /** Reduction orders a frame by message type, and filling in the name keeps that order. */
  lemma OrderedByType(frame: seq<Msg>, name: string)
    ensures TypeOrdered(Ordered(frame, name))
  {
    hide Reduce.ReduceMsgs, Reduce.GroupKey, Reduce.KeyLess, Reduce.GroupOf, Reduce.MergeAll, ReplacePair;
    var r := Reduce.ReduceMsgs(frame);
    Reduce.ReduceIsReduction(frame);
    forall i, j | 0 <= i < j < |r| ensures r[i].typ.Rank() <= r[j].typ.Rank() {
      KeysByType(r[i], r[j]);
    }
  }

  lemma KeysByType(a: Msg, b: Msg)
    requires Reduce.KeyLess(Reduce.GroupKey(a), Reduce.GroupKey(b))
    ensures a.typ.Rank() <= b.typ.Rank()
  {
  }

  lemma {:induction false} FilterKeepsTypeOrder(f: Msg -> bool, ms: seq<Msg>)
    requires TypeOrdered(ms)
    ensures TypeOrdered(Filter(f, ms))
  {
    if ms != [] {
      FilterKeepsTypeOrder(f, ms[1..]);
      FilterMembers(f, ms[1..]);
      var rest := Filter(f, ms[1..]);
      forall i | 0 <= i < |rest| ensures ms[0].typ.Rank() <= rest[i].typ.Rank() {
        assert rest[i] in ms[1..];
      }
    }
  }

  /** A type and topic occur in the ordered frame exactly when they occur in the frame. */
  lemma OrderedHas(frame: seq<Msg>, name: string, typ: MessageType, topic: string)
    ensures (exists m :: m in Ordered(frame, name) && m.typ == typ && m.topic == topic)
            <==> (exists m :: m in frame && m.typ == typ && Name(m, name).topic == topic)
  {
    hide ReplacePair, Reduce.ReduceMsgs, Reduce.MergeAll, Reduce.GroupKey, Reduce.GroupOf;
    var r := Reduce.ReduceMsgs(frame);
    var ordered := Ordered(frame, name);
    Reduce.ReduceIsReduction(frame);
    if m :| m in ordered && m.typ == typ && m.topic == topic {
      var i :| 0 <= i < |ordered| && ordered[i] == m;
      var j := Reduce.ReductionKey(frame, r, i);
      SameKeySameName(frame[j], r[i], name);
      assert frame[j] in frame;
    }
    if m :| m in frame && m.typ == typ && Name(m, name).topic == topic {
      var j :| 0 <= j < |frame| && frame[j] == m;
      var k := Reduce.GroupKey(m);
      Reduce.GroupHolds(frame, j);
      Reduce.GroupHasKey(r, k);
      var x := Reduce.MergeAll(Reduce.GroupOf(frame, k));
      assert x in Reduce.GroupOf(r, k);
      var i :| 0 <= i < |r| && r[i] == x;
      SameKeySameName(m, x, name);
      assert ordered[i] in ordered;
    }
  }

  lemma SameKeySameName(a: Msg, b: Msg, name: string)
    requires Reduce.GroupKey(a) == Reduce.GroupKey(b)
    ensures a.typ == b.typ && Name(a, name).topic == Name(b, name).topic
  {
  }

  // ---------- Subscriptions ignore the order of the frame ----------

  ghost predicate Has(ms: seq<Msg>, typ: MessageType, p: string)
  {
    exists m :: m in ms && m.typ == typ && m.topic == p
  }

  /** In a batch ordered by type every SUB comes before every UNSUB, so UNSUB has the last word. */
  lemma {:induction false} SubscribedAfter(sub: map<string, set<Connection>>, c: Connection, ms: seq<Msg>, p: string)
    requires TypeOrdered(ms)
    ensures c in PatternSubs(SubAfter(sub, c, ms), p)
            <==> !Has(ms, UNSUB, p) && (Has(ms, SUB, p) || c in PatternSubs(sub, p))
  {
    hide Has;
    if ms == [] {
      HasNothing(SUB, p);
      HasNothing(UNSUB, p);
    } else {
      var n := |ms| - 1;
      SubscribedAfter(sub, c, ms[..n], p);
      HasLast(ms, SUB, p);
      HasLast(ms, UNSUB, p);
      if ms[n].typ.SUB? {
        NoUnsubBeforeSub(ms, p);
      }
    }
  }

  lemma HasNothing(t: MessageType, p: string)
    ensures !Has([], t, p)
  {
  }

  lemma NoUnsubBeforeSub(ms: seq<Msg>, p: string)
    requires TypeOrdered(ms) && ms != [] && ms[|ms| - 1].typ.SUB?
    ensures !Has(ms[..|ms| - 1], UNSUB, p)
  {
    var n := |ms| - 1;
    forall m | m in ms[..n] ensures !m.typ.UNSUB? {
      var i :| 0 <= i < n && ms[i] == m;
      assert ms[i].typ.Rank() <= ms[n].typ.Rank();
    }
  }

  lemma HasLast(ms: seq<Msg>, t: MessageType, p: string)
    requires ms != []
    ensures Has(ms, t, p) <==> Has(ms[..|ms| - 1], t, p) || (ms[|ms| - 1].typ == t && ms[|ms| - 1].topic == p)
  {
    assert ms == ms[..|ms| - 1] + [ms[|ms| - 1]];
  }

  ghost predicate Named(frame: seq<Msg>, name: string, typ: MessageType, p: string)
  {
    exists m :: m in frame && m.typ == typ && Name(m, name).topic == p
  }

  /** Whatever the order of the frame: the connection ends up subscribed to `p` exactly when the frame
      does not unsubscribe it and either subscribes it or found it subscribed. */
  lemma FrameSubscriptions(sub: map<string, set<Connection>>, c: Connection, frame: seq<Msg>, name: string, p: string)
    ensures c in PatternSubs(SubAfter(sub, c, Filter(IsGetSubUnsub(), Ordered(frame, name))), p)
            <==> !Named(frame, name, UNSUB, p) && (Named(frame, name, SUB, p) || c in PatternSubs(sub, p))
  {
    hide ReplacePair, Ordered, Name;
    var ordered := Ordered(frame, name);
    var batch := Filter(IsGetSubUnsub(), ordered);
    OrderedByType(frame, name);
    FilterKeepsTypeOrder(IsGetSubUnsub(), ordered);
    SubscribedAfter(sub, c, batch, p);
    FilterMembers(IsGetSubUnsub(), ordered);
    OrderedHas(frame, name, SUB, p);
    OrderedHas(frame, name, UNSUB, p);
  }

  // ---------- Last wills ----------

  /** The topic comes first; of two wills for one topic the value decides. */
  predicate WillBefore(a: Msg, b: Msg)
    requires a.value.Some? && b.value.Some?
  {
    Reduce.StrLess(a.topic, b.topic) || (a.topic == b.topic && Reduce.StrLess(a.value.value, b.value.value))
  }

  /** Whatever the order of the frame: of its last wills the one with the greatest topic counts, and of those for
      that topic the one with the greatest value; a frame without one changes nothing. */
  lemma FrameSetsWill(lwt: map<Connection, (string, string)>, c: Connection, frame: seq<Msg>, name: string)
    requires S.AllComplete(frame)
    ensures var after := WillAfter(lwt, c, Filter(IsLwt(), Ordered(frame, name)));
            if forall m :: m in frame ==> m.typ != LWT then after == lwt
            else
              exists m :: m in frame && m.typ == LWT && m.value.Some?
                && c in after && after[c] == (Name(m, name).topic, m.value.value)
                && forall x :: x in frame && x.typ == LWT && x.value.Some? ==>
                     (x.topic == m.topic && x.value == m.value) || WillBefore(x, m)
  {
    hide Ordered, Reduce.ReduceMsgs, ReplacePair, Reduce.StrLess, WillAfter;
    var ordered := Ordered(frame, name);
    FilterMembers(IsLwt(), ordered);
    var wills := Filter(IsLwt(), ordered);
    LastWillWins(lwt, c, wills);
    if m :| m in frame && m.typ == LWT {
      var last := LastLwt(frame, name, m);
      assert wills[|wills| - 1] == ordered[|ordered| - 1];
    } else {
      forall x | x in ordered ensures !x.typ.LWT? {
        OrderedHas(frame, name, LWT, x.topic);
      }
      FilterNone(IsLwt(), ordered);
    }
  }

  /** In the ordered frame last wills come last, the greatest of them at the end. */
  lemma LastLwt(frame: seq<Msg>, name: string, m: Msg) returns (last: Msg)
    requires S.AllComplete(frame) && m in frame && m.typ == LWT
    ensures last in frame && last.typ == LWT && last.value.Some?
    ensures var o := Ordered(frame, name);
            && o != [] && o[|o| - 1].typ == LWT && o[|o| - 1].topic == Name(last, name).topic
            && o[|o| - 1].value == last.value
            && var w := Filter(IsLwt(), o); w != [] && w[|w| - 1] == o[|o| - 1]
    ensures forall x :: x in frame && x.typ == LWT && x.value.Some? ==>
              (x.topic == last.topic && x.value == last.value) || WillBefore(x, last)
  {
    hide Reduce.ReduceMsgs, ReplacePair, Reduce.StrLess, Reduce.GroupOf, Reduce.MergeAll;
    var r, o := Reduce.ReduceMsgs(frame), Ordered(frame, name);
    Reduce.ReduceIsReduction(frame);
    var i := KeyIsLeft(frame, m);
    var n := |r| - 1;
    assert i < n ==> Reduce.KeyLess(Reduce.GroupKey(r[i]), Reduce.GroupKey(r[n]));
    NotAboveLwt(r[i], r[n]);
    var j := Reduce.ReductionKey(frame, r, n);
    last := frame[j];
    LwtKey(last, r[n]);
    assert last in frame;
    LastFiltered(IsLwt(), o);
    forall x | x in frame && x.typ == LWT && x.value.Some?
      ensures (x.topic == last.topic && x.value == last.value) || WillBefore(x, last)
    {
      var k := KeyIsLeft(frame, x);
      assert k < n ==> Reduce.KeyLess(Reduce.GroupKey(r[k]), Reduce.GroupKey(r[n]));
      LwtOrder(x, last);
    }
  }

  lemma LwtKey(a: Msg, b: Msg)
    requires Reduce.GroupKey(a) == Reduce.GroupKey(b) && b.typ == LWT
    ensures a.typ == LWT && a.topic == b.topic && a.value == b.value
  {
  }

  lemma LwtOrder(a: Msg, b: Msg)
    requires a.typ == LWT && b.typ == LWT && a.value.Some? && b.value.Some?
    requires Reduce.GroupKey(a) == Reduce.GroupKey(b) || Reduce.KeyLess(Reduce.GroupKey(a), Reduce.GroupKey(b))
    ensures (a.topic == b.topic && a.value == b.value) || WillBefore(a, b)
  {
    hide Reduce.StrLess;
  }

  /** No type sorts behind a last will. */
  lemma NotAboveLwt(a: Msg, b: Msg)
    requires a.typ == LWT
    requires a == b || Reduce.KeyLess(Reduce.GroupKey(a), Reduce.GroupKey(b))
    ensures b.typ == LWT
  {
    hide Reduce.StrLess;
  }

  lemma KeyIsLeft(frame: seq<Msg>, m: Msg) returns (i: nat)
    requires m in frame
    ensures i < |Reduce.ReduceMsgs(frame)|
    ensures Reduce.GroupKey(Reduce.ReduceMsgs(frame)[i]) == Reduce.GroupKey(m)
    ensures m.typ == LWT ==> Reduce.ReduceMsgs(frame)[i].typ == LWT
  {
    hide Reduce.ReduceMsgs, Reduce.MergeAll, Reduce.GroupOf;
    var r, k := Reduce.ReduceMsgs(frame), Reduce.GroupKey(m);
    var j :| 0 <= j < |frame| && frame[j] == m;
    Reduce.ReduceIsReduction(frame);
    Reduce.GroupHolds(frame, j);
    Reduce.GroupHasKey(r, k);
    var x := Reduce.MergeAll(Reduce.GroupOf(frame, k));
    assert x in Reduce.GroupOf(r, k);
    i :| 0 <= i < |r| && r[i] == x;
  }

  lemma {:induction false} LastFiltered(f: Msg -> bool, s: seq<Msg>)
    requires s != [] && f(s[|s| - 1])
    ensures Filter(f, s) != [] && Filter(f, s)[|Filter(f, s)| - 1] == s[|s| - 1]
  {
    var n := |s| - 1;
    FilterStep(f, s, n);
    assert s[..n + 1] == s;
  }

  // ---------- The frame handler ----------

  /** A list comprehension over the frame's messages. */
  method Select(f: Msg -> bool, msgs: seq<NetfindMessage>) returns (out: seq<NetfindMessage>)
    requires forall i, j :: 0 <= i < j < |msgs| ==> msgs[i] != msgs[j]
    ensures Snap(out) == Filter(f, Snap(msgs))
    ensures forall m :: m in out <==> m in msgs && f(m.data)
    ensures forall i, j :: 0 <= i < j < |out| ==> out[i] != out[j]
  {
    out := [];
    var i := 0;
    while i < |msgs|
      invariant 0 <= i <= |msgs|
      invariant Snap(out) == Filter(f, Snap(msgs)[..i])
      invariant forall m :: m in out <==> m in msgs[..i] && f(m.data)
      invariant forall k, j :: 0 <= k < j < |out| ==> out[k] != out[j]
    {
      FilterStep(f, Snap(msgs), i);
      if f(msgs[i].data) {
        SnapAppend(out, msgs[i]);
        forall k | 0 <= k < |out| ensures out[k] != msgs[i] {
          assert out[k] in msgs[..i];
        }
        out := out + [msgs[i]];
      }
      i := i + 1;
    }
    assert Snap(msgs)[..i] == Snap(msgs) && msgs[..i] == msgs;
  }

  /** Reduces a frame and fills in the client's name. */
  method Prepare(frame: seq<NetfindMessage>, name: string) returns (msgs: seq<NetfindMessage>)
    requires forall m :: m in frame ==> Complete(m.data)
    requires forall i, j :: 0 <= i < j < |frame| ==> frame[i] != frame[j]
    modifies frame
    ensures Snap(msgs) == Ordered(old(Snap(frame)), name) && S.AllComplete(Snap(msgs))
    ensures forall m :: m in msgs ==> m in frame
    ensures forall i, j :: 0 <= i < j < |msgs| ==> msgs[i] != msgs[j]
  {
    hide Reduce.ReduceMsgs, Reduce.GroupKey, DataAfter, FirstAt, ReplacePair;
    ghost var vals := Snap(frame);
    msgs := ReduceInPlace(frame);
    ghost var red := Reduce.ReduceMsgs(vals);
    ReducedComplete(vals);
    DistinctResult(red, frame, vals, msgs);
    var i := 0;
    while i < |msgs|
      invariant 0 <= i <= |msgs|
      invariant forall k :: 0 <= k < i ==> msgs[k].data == Name(red[k], name)
      invariant forall k :: i <= k < |msgs| ==> msgs[k].data == red[k]
    {
      msgs[i].data := msgs[i].data.(topic := ReplacePair(msgs[i].data.topic, '/', '@', "/" + name));
      i := i + 1;
    }
    assert Snap(msgs) == NameAll(red, name);
  }

  lemma ReducedComplete(ms: seq<Msg>)
    requires S.AllComplete(ms)
    ensures S.AllComplete(Reduce.ReduceMsgs(ms))
  {
    hide Reduce.GroupKey, Reduce.ReduceMsgs, Reduce.MergeAll;
    var r := Reduce.ReduceMsgs(ms);
    Reduce.ReduceIsReduction(ms);
    forall i | 0 <= i < |r| ensures Complete(r[i]) {
      var k := Reduce.GroupKey(r[i]);
      var g := Reduce.GroupOf(ms, k);
      Reduce.GroupHolds(r, i);
      assert Reduce.GroupOf(r, k) == Reduce.Merged(g);
      assert g != [];
      Reduce.MergeAllShape(g);
      Reduce.GroupHasKey(ms, k);
      assert g[0] in ms;
    }
  }

  /** Strictly increasing keys belong to different objects. */
  lemma DistinctResult(red: seq<Msg>, frame: seq<NetfindMessage>, vals: seq<Msg>, out: seq<NetfindMessage>)
    requires red == Reduce.ReduceMsgs(vals) && Snap(out) == red
    ensures forall i, j :: 0 <= i < j < |out| ==> out[i] != out[j]
  {
    hide Reduce.GroupKey, Reduce.ReduceMsgs;
    Reduce.ReduceIsReduction(vals);
    forall i, j | 0 <= i < j < |out| ensures out[i] != out[j] {
      assert Reduce.KeyLess(Reduce.GroupKey(red[i]), Reduce.GroupKey(red[j]));
      Reduce.KeyLessTotal(Reduce.GroupKey(red[i]), Reduce.GroupKey(red[j]));
    }
  }

  /** Without "/@" the batch handed to the broker has no equal keys. */
  lemma OrderedDistinct(frame: seq<Msg>, name: string)
    requires forall m :: m in frame ==> !HasPair(m.topic, '/', '@')
    ensures DistinctKeys(Ordered(frame, name))
  {
    hide Reduce.ReduceMsgs, Reduce.KeyLess;
    var r := Reduce.ReduceMsgs(frame);
    Reduce.ReduceIsReduction(frame);
    forall i | 0 <= i < |r| ensures Name(r[i], name) == r[i] {
      var j := Reduce.ReductionKey(frame, r, i);
      assert frame[j] in frame;
      ReplacePairNone(r[i].topic, '/', '@', "/" + name);
    }
    forall i, j | 0 <= i < j < |r| ensures Reduce.GroupKey(r[i]) != Reduce.GroupKey(r[j]) {
      Reduce.KeyLessTotal(Reduce.GroupKey(r[i]), Reduce.GroupKey(r[j]));
    }
  }

  /** The messages of a group: separate objects, none of them in another group or in the cache. */
  ghost predicate Separate(broker: Broker, group: seq<NetfindMessage>, others: seq<NetfindMessage>)
    reads broker, group
  {
    && (forall m :: m in group ==> Complete(m.data) && m !in broker.msgs && m !in others)
    && (forall i, j :: 0 <= i < j < |group| ==> group[i] != group[j])
  }

  /** The store a batch leaves once it has been sent: as Save says, except that of messages with equal
      keys the cache holds the merge if someone other than the sender was sent it. */
  ghost predicate LeavesStore(st: S.Store, batch: seq<Msg>, left: S.Store,
                              sub: map<string, set<Connection>>, conn: set<Connection>, sender: Connection)
    requires S.AllComplete(batch)
  {
    var saved, out := S.Save(st, batch), S.Stamped(st, batch);
    && left.rows == saved.rows && |left.cache| == |saved.cache|
    && (forall i :: 0 <= i < |left.cache| ==>
          left.cache[i] == AfterSending(batch, out, saved.cache[i], ToldOf(sub, conn, sender, saved.cache[i])))
    && (DistinctKeys(batch) ==> left == saved)
  }

  /** The publications and deletions of a frame, if it has any. */
  method HandPubDel(broker: Broker, c: Connection, pubDel: seq<NetfindMessage>)
    requires broker.Valid() && c in broker.conn && Separate(broker, pubDel, [])
    modifies broker`msgs, broker.db, broker.conn, pubDel
    ensures broker.Valid() && S.AllComplete(old(Snap(pubDel)))
    ensures forall m :: m in broker.msgs ==> m in old(broker.msgs) || m in pubDel
    ensures LeavesStore(old(broker.Contents()), old(Snap(pubDel)), broker.Contents(), broker.sub, broker.conn, c)
    ensures c.sent == old(c.sent)
    ensures var out := S.Stamped(old(broker.Contents()), old(Snap(pubDel)));
            forall d :: d in broker.conn && d != c ==> d.sent == old(d.sent) + Mail(broker.sub, d, out)
  {
    hide Reduce.ReduceMsgs, Reduce.GroupKey, S.Save, S.Stamped, S.SaveOne, S.Valid, Snap;
    hide Complete, Wanted, DistinctKeys, LeavesStore, AfterSending, ToldOf;
    ghost var st, pd := broker.Contents(), Snap(pubDel);
    NoMail(st, broker.sub, broker.conn, c);
    if pubDel != [] {
      broker.AcceptPubDel(c, pubDel);
      StoreLeft(st, pd, broker, pubDel, c);
    }
  }

  /** Publications and deletions are stored first, then queries and subscriptions are answered from
      what is then stored, then last wills are set. */
  method HandOver(broker: Broker, c: Connection, pubDel: seq<NetfindMessage>,
                  getSubUnsub: seq<NetfindMessage>, wills: seq<NetfindMessage>)
    returns (ghost left: S.Store)
    requires broker.Valid() && c in broker.conn
    requires Separate(broker, pubDel, []) && Separate(broker, getSubUnsub, pubDel) && Separate(broker, wills, pubDel)
    requires forall m :: m in wills ==> m.data.typ.LWT?
    modifies broker`msgs, broker`sub, broker`lwt, broker.db, broker.conn, broker.msgs, pubDel
    ensures broker.Valid() && S.AllComplete(old(Snap(pubDel)))
    ensures broker.sub == SubAfter(old(broker.sub), c, old(Snap(getSubUnsub)))
    ensures broker.lwt == WillAfter(old(broker.lwt), c, old(Snap(wills)))
    ensures LeavesStore(old(broker.Contents()), old(Snap(pubDel)), left, old(broker.sub), broker.conn, c)
    ensures broker.Contents() == S.Store(AfterRead(left.cache, Loaded(left, old(Snap(getSubUnsub)))), left.rows)
    ensures c.sent == old(c.sent)
                      + (if AnyAsks(old(Snap(getSubUnsub)))
                         then [Reduce.ReduceMsgs(Loaded(left, old(Snap(getSubUnsub))))] else [])
    ensures var out := S.Stamped(old(broker.Contents()), old(Snap(pubDel)));
            forall d :: d in broker.conn && d != c ==> d.sent == old(d.sent) + Mail(old(broker.sub), d, out)
  {
    hide Reduce.ReduceMsgs, Reduce.GroupKey, S.Save, S.Stamped, S.SaveOne, S.Valid, Snap, SubAfter, WillAfter;
    hide Loaded, AnyAsks, Complete, Refreshed, AfterRead, LeavesStore, Mail;
    ghost var asked, rest := Snap(getSubUnsub), Snap(wills);
    HandPubDel(broker, c, pubDel);
    assert Snap(getSubUnsub) == asked && Snap(wills) == rest;
    left := broker.Contents();
    NothingToDo(left, broker.sub, broker.lwt, c);
    if getSubUnsub != [] {
      broker.AcceptGetSubUnsub(c, getSubUnsub);
    }
    assert Snap(wills) == rest;
    if wills != [] {
      broker.AcceptLwt(c, wills);
    }
  }

  lemma StoreLeft(st: S.Store, pd: seq<Msg>, broker: Broker, batch: seq<NetfindMessage>, c: Connection)
    requires S.AllComplete(pd)
    requires broker.db.rows == S.Save(st, pd).rows
    requires var cache, out := S.Save(st, pd).cache, S.Stamped(st, pd);
             && |broker.msgs| == |cache| && |out| == |batch|
             && forall i :: 0 <= i < |broker.msgs| ==>
                  broker.msgs[i].data == AfterSending(pd, out, cache[i], ToldOf(broker.sub, broker.conn, c, cache[i]))
    requires DistinctKeys(pd) ==> broker.Contents() == S.Save(st, pd)
    ensures LeavesStore(st, pd, broker.Contents(), broker.sub, broker.conn, c)
  {
    hide S.Save, S.Stamped, DistinctKeys, ToldOf, AfterSending;
  }

  /** The frames that one batch brings to a connection other than its sender: none, or one. */
  ghost function Mail(sub: map<string, set<Connection>>, d: Connection, out: seq<Msg>): seq<seq<Msg>>
  {
    if Wanted(sub, d, out) == [] then [] else [Reduce.ReduceMsgs(Wanted(sub, d, out))]
  }

  lemma NoMail(st: S.Store, sub: map<string, set<Connection>>, conn: set<Connection>, c: Connection)
    ensures S.Stamped(st, []) == [] && LeavesStore(st, [], st, sub, conn, c) && forall d :: Mail(sub, d, []) == []
  {
    hide AfterSending, ToldOf;
    forall m, told ensures AfterSending([], [], m, told) == m {
      NothingSent(m, told);
    }
  }

  /** The three list comprehensions. */
  method GroupByType(broker: Broker, msgs: seq<NetfindMessage>)
    returns (pubDel: seq<NetfindMessage>, getSubUnsub: seq<NetfindMessage>, wills: seq<NetfindMessage>)
    requires Separate(broker, msgs, [])
    ensures Snap(pubDel) == Filter(IsPubDel(), Snap(msgs)) && Snap(getSubUnsub) == Filter(IsGetSubUnsub(), Snap(msgs))
    ensures Snap(wills) == Filter(IsLwt(), Snap(msgs)) && forall m :: m in wills ==> m.data.typ.LWT?
    ensures forall m :: m in pubDel ==> m in msgs
    ensures Separate(broker, pubDel, []) && Separate(broker, getSubUnsub, pubDel) && Separate(broker, wills, pubDel)
  {
    hide Snap, Filter, Complete;
    pubDel := Select(IsPubDel(), msgs);
    getSubUnsub := Select(IsGetSubUnsub(), msgs);
    wills := Select(IsLwt(), msgs);
  }

  /** One pass of the receive loop over a frame; `left` is the store between storing and answering. */
  method HandleFrame(broker: Broker, c: Connection, frame: seq<NetfindMessage>, name: string)
    returns (ghost left: S.Store)
    requires broker.Valid() && c in broker.conn
    requires forall m :: m in frame ==> Complete(m.data) && m !in broker.msgs
    requires forall i, j :: 0 <= i < j < |frame| ==> frame[i] != frame[j]
    modifies broker`msgs, broker`sub, broker`lwt, broker.db, broker.conn, broker.msgs, frame
    ensures broker.Valid() && S.AllComplete(Filter(IsPubDel(), Ordered(old(Snap(frame)), name)))
    ensures var ordered := Ordered(old(Snap(frame)), name);
            && broker.sub == SubAfter(old(broker.sub), c, Filter(IsGetSubUnsub(), ordered))
            && broker.lwt == WillAfter(old(broker.lwt), c, Filter(IsLwt(), ordered))
            && LeavesStore(old(broker.Contents()), Filter(IsPubDel(), ordered), left, old(broker.sub), broker.conn, c)
    ensures var asked := Filter(IsGetSubUnsub(), Ordered(old(Snap(frame)), name));
            && broker.Contents() == S.Store(AfterRead(left.cache, Loaded(left, asked)), left.rows)
            && c.sent == old(c.sent) + (if AnyAsks(asked) then [Reduce.ReduceMsgs(Loaded(left, asked))] else [])
    ensures var out := S.Stamped(old(broker.Contents()), Filter(IsPubDel(), Ordered(old(Snap(frame)), name)));
            forall d :: d in broker.conn && d != c ==> d.sent == old(d.sent) + Mail(old(broker.sub), d, out)
  {
    hide Reduce.ReduceMsgs, Reduce.GroupKey, S.Save, S.Stamped, S.Valid, Snap, Ordered, SubAfter, WillAfter;
    hide Loaded, AnyAsks, Filter, Complete, Refreshed, AfterRead, DistinctKeys, Mail, Wanted, LeavesStore;
    ghost var st0 := broker.Contents();
    var msgs := Prepare(frame, name);
    assert broker.Contents() == st0 by {
      assert Snap(broker.msgs) == st0.cache;
    }
    CompleteMembers(msgs);
    var pubDel, getSubUnsub, wills := GroupByType(broker, msgs);
    assert forall i :: 0 <= i < |pubDel| ==> pubDel[i] in frame;
    left := HandOver(broker, c, pubDel, getSubUnsub, wills);
  }

  lemma CompleteMembers(msgs: seq<NetfindMessage>)
    requires S.AllComplete(Snap(msgs))
    ensures forall m :: m in msgs ==> Complete(m.data)
  {
    forall m | m in msgs ensures Complete(m.data) {
      CompleteMember(msgs, m);
    }
  }

  /** An empty group changes nothing. */
  lemma NothingToDo(st: S.Store, sub: map<string, set<Connection>>, lwt: map<Connection, (string, string)>,
                    c: Connection)
    ensures S.Save(st, []) == st && SubAfter(sub, c, []) == sub && WillAfter(lwt, c, []) == lwt
    ensures Loaded(st, []) == [] && !AnyAsks([])
    ensures AfterRead(st.cache, []) == st.cache
  {
  }
}
