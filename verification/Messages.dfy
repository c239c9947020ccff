/** Message objects. The broker's cache, the batches and the outboxes share them, and reduction merges
    into them in place. */
module Messages {
  import opened Wrappers
  import opened Model
  import opened Reduce

  class NetfindMessage {
    var data: Msg

    constructor (data: Msg)
      ensures this.data == data
    {
      this.data := data;
    }
  }

  /** The current contents of a list of messages. */
  function Snap(s: seq<NetfindMessage>): (r: seq<Msg>)
    reads s
    ensures |r| == |s| && forall i :: 0 <= i < |s| ==> r[i] == s[i].data
  {
    seq(|s|, i requires 0 <= i < |s| reads s => s[i].data)
  }

  lemma SnapAppend(s: seq<NetfindMessage>, o: NetfindMessage)
    ensures Snap(s + [o]) == Snap(s) + [o.data]
  {
  }

  lemma SnapConcat(a: seq<NetfindMessage>, b: seq<NetfindMessage>)
    ensures Snap(a + b) == Snap(a) + Snap(b)
  {
  }

  lemma SnapRemove(s: seq<NetfindMessage>, i: nat)
    requires i < |s|
    ensures Snap(s[..i] + s[i + 1..]) == Snap(s)[..i] + Snap(s)[i + 1..]
  {
  }

  // ---------- Sorting a list of objects ----------

  /** The order in which a stable sort by group key visits the list. */
  function SortOrder(s: seq<Msg>): (p: seq<nat>)
    ensures |p| == |s|
  {
    if s == [] then [] else
      var last := |s| - 1;
      var p := SortOrder(s[..last]);
      var n := Rank(StableSort(s[..last]), GroupKey(s[last]));
      p[..n] + [last] + p[n..]
  }

  /** `p` lists the positions of `s` in the order of the sorted list `r`. */
  ghost predicate Lists(s: seq<Msg>, p: seq<nat>, r: seq<Msg>)
  {
    |p| == |s| == |r| && forall i :: 0 <= i < |p| ==> p[i] < |s| && s[p[i]] == r[i]
  }

  /** Equal keys keep their order. */
  ghost predicate Stable(p: seq<nat>, r: seq<Msg>)
    requires |p| == |r|
  {
    forall i, j :: 0 <= i < j < |p| && GroupKey(r[i]) == GroupKey(r[j]) ==> p[i] < p[j]
  }

  ghost predicate ListsAll(p: seq<nat>, n: nat)
  {
    forall x :: 0 <= x < n ==> x in p
  }

  /** The order lists every position, agrees with StableSort, and keeps equal keys in order. */
  lemma {:induction false} SortOrderIsStable(s: seq<Msg>)
    ensures Lists(s, SortOrder(s), StableSort(s))
    ensures Stable(SortOrder(s), StableSort(s))
    ensures ListsAll(SortOrder(s), |s|)
  {
    if s != [] {
      var last := |s| - 1;
      var t := s[..last];
      var p, r := SortOrder(t), StableSort(t);
      var n := Rank(r, GroupKey(s[last]));
      SortOrderIsStable(t);
      SortKeepsGroups(t);
      RankSplits(r, GroupKey(s[last]));
      InsertLists(s, p, r, n);
      InsertStable(p, r, n, last, s[last]);
      InsertListsAll(p, n, last);
    }
  }

  lemma InsertLists(s: seq<Msg>, p: seq<nat>, r: seq<Msg>, n: nat)
    requires s != [] && Lists(s[..|s| - 1], p, r) && n <= |p|
    ensures Lists(s, p[..n] + [|s| - 1] + p[n..], r[..n] + [s[|s| - 1]] + r[n..])
  {
    var last := |s| - 1;
    var q, r' := p[..n] + [last] + p[n..], r[..n] + [s[last]] + r[n..];
    forall i | 0 <= i < |q| ensures q[i] < |s| && s[q[i]] == r'[i] {
      if i != n {
        var i' := if i < n then i else i - 1;
        assert q[i] == p[i'] && r'[i] == r[i'];
      }
    }
  }

  lemma InsertStable(p: seq<nat>, r: seq<Msg>, n: nat, last: nat, m: Msg)
    requires |p| == |r| && n <= |p| && Stable(p, r)
    requires forall i :: 0 <= i < |p| ==> p[i] < last
    requires forall i :: n <= i < |r| ==> KeyLess(GroupKey(m), GroupKey(r[i]))
    ensures Stable(p[..n] + [last] + p[n..], r[..n] + [m] + r[n..])
  {
    var q, r' := p[..n] + [last] + p[n..], r[..n] + [m] + r[n..];
    forall i, j | 0 <= i < j < |q| && GroupKey(r'[i]) == GroupKey(r'[j]) ensures q[i] < q[j] {
      var i', j' := if i < n then i else i - 1, if j < n then j else j - 1;
      assert j != n ==> q[j] == p[j'] && r'[j] == r[j'];
      if i == n {
        KeyLessTotal(GroupKey(m), GroupKey(r[j']));
      } else {
        assert q[i] == p[i'] && r'[i] == r[i'];
      }
    }
  }

  lemma InsertListsAll(p: seq<nat>, n: nat, last: nat)
    requires n <= |p| && ListsAll(p, last)
    ensures ListsAll(p[..n] + [last] + p[n..], last + 1)
  {
    var q := p[..n] + [last] + p[n..];
    forall x | 0 <= x < last + 1 ensures x in q {
      if x == last {
        assert q[n] == last;
      } else {
        assert x in p;
        var i :| 0 <= i < |p| && p[i] == x;
        assert q[if i < n then i else i + 1] == x;
      }
    }
  }

  /** Position of the first message with key `k`, or the length. */
  function FirstAt(s: seq<Msg>, k: Key): (x: nat)
    ensures x <= |s|
    ensures forall y :: 0 <= y < x ==> GroupKey(s[y]) != k
    ensures x < |s| ==> GroupKey(s[x]) == k
  {
    if s == [] || GroupKey(s[0]) == k then 0 else 1 + FirstAt(s[1..], k)
  }

  /** The first of a run in sorted order is the first of its key in the list. */
  lemma {:induction false} RunStartsAtFirst(s: seq<Msg>, p: seq<nat>, r: seq<Msg>, i: nat)
    requires Lists(s, p, r) && Stable(p, r) && ListsAll(p, |s|) && Sorted(r) && i < |p|
    requires i > 0 ==> KeyLess(GroupKey(r[i - 1]), GroupKey(r[i]))
    ensures p[i] == FirstAt(s, GroupKey(r[i]))
  {
    forall j | 0 <= j < i ensures GroupKey(r[j]) != GroupKey(r[i]) {
      KeyLessTotal(GroupKey(r[i - 1]), GroupKey(r[i]));
      assert j < i - 1 ==> !KeyLess(GroupKey(r[i - 1]), GroupKey(r[j]));
    }
    var x := FirstAt(s, GroupKey(r[i]));
    assert x <= p[i] < |s|;
    assert x in p;
    var j :| 0 <= j < |p| && p[j] == x;
    assert GroupKey(r[j]) == GroupKey(r[i]);
  }

  // ---------- Merging in place ----------

  /** Merging in a member of the group again changes nothing. */
  lemma {:induction false} MergeAbsorbs(g: seq<Msg>, i: nat)
    requires i < |g| && forall j :: 0 <= j < |g| ==> Complete(g[j]) && GroupKey(g[j]) == GroupKey(g[0])
    ensures Merge(MergeAll(g), g[i]) == MergeAll(g)
  {
    MergeAllShape(g);
    if |g| > 1 {
      var n := |g| - 1;
      MergeAllShape(g[..n]);
      if i < n {
        MergeAbsorbs(g[..n], i);
      }
    }
  }

  lemma MergeStep(run: seq<Msg>, i: nat, j: nat)
    requires i <= j < |run|
    ensures MergeAll(run[i..j + 1]) == if i == j then run[i] else Merge(MergeAll(run[i..j]), run[j])
  {
    assert run[i..j + 1][..j - i] == run[i..j];
  }

  lemma SameKeySameType(a: Msg, b: Msg)
    ensures GroupKey(a) == GroupKey(b) ==> a.typ == b.typ
  {
  }

  /** From position `i` on, the objects still hold the values of the sorted list `run`. */
  ghost predicate Untouched(s: seq<NetfindMessage>, run: seq<Msg>, i: nat)
    reads s
  {
    |run| == |s| && forall x :: i <= x < |s| ==> s[x].data == run[x]
  }

  /** One step of groupby: merges the run that starts at `i` into its first message. */
  method MergeRun(s: seq<NetfindMessage>, i: nat, ghost run: seq<Msg>) returns (j: nat)
    requires i < |s| && Untouched(s, run, i)
    requires forall x :: i <= x < |s| ==> Complete(run[x])
    modifies s[i]
    ensures i < j <= |s|
    ensures forall x :: i <= x < j ==> GroupKey(run[x]) == GroupKey(run[i])
    ensures j < |s| ==> GroupKey(run[j]) != GroupKey(run[i])
    ensures s[i].data == MergeAll(run[i..j])
  {
    hide MergeAll, GroupKey;
    var msg := s[i];
    j := i + 1;
    MergeStep(run, i, i);
    assert forall x :: i <= x < |s| && s[x] == msg ==> run[x] == run[i];
    while j < |s| && GroupKey(s[j].data) == GroupKey(msg.data)
      invariant i < j <= |s|
      invariant forall x :: i <= x < j ==> GroupKey(run[x]) == GroupKey(run[i])
      invariant forall x :: i <= x < |s| && s[x] != msg ==> s[x].data == run[x]
      invariant msg.data == MergeAll(run[i..j])
    {
      var other := s[j];
      MergeAllShape(run[i..j]);
      MergeStep(run, i, j);
      assert run[i..j][0] == run[i];
      SameKeySameType(run[j], run[i]);
      if other == msg {
        assert run[j] == run[i];
        forall x | 0 <= x < |run[i..j]| ensures Complete(run[i..j][x]) && GroupKey(run[i..j][x]) == GroupKey(run[i]) {
          assert run[i..j][x] == run[i + x];
        }
        MergeAbsorbs(run[i..j], 0);
      }
      if msg.data.typ.PUB? {
        msg.data := msg.data.(
          createdAt := Some(Min(msg.data.createdAt.value, other.data.createdAt.value)),
          updatedAt := Some(Max(msg.data.updatedAt.value, other.data.updatedAt.value)),
          mode := Some(MaxMode(msg.data.mode.value, other.data.mode.value)));
      }
      j := j + 1;
    }
    MergeAllShape(run[i..j]);
  }

  /** The run found by MergeRun is the one that MergeRuns merges next. */
  lemma {:induction false} RunIs(s: seq<Msg>, i: nat, j: nat)
    requires i < j <= |s| && Sorted(s)
    requires forall x :: i <= x < j ==> GroupKey(s[x]) == GroupKey(s[i])
    requires j < |s| ==> GroupKey(s[j]) != GroupKey(s[i])
    ensures MergeRuns(s[i..]) == [MergeAll(s[i..j])] + MergeRuns(s[j..])
    ensures forall x :: j <= x < |s| ==> KeyLess(GroupKey(s[i]), GroupKey(s[x]))
  {
    var t := s[i..];
    var k := GroupKey(s[i]);
    var n := RunLength(t, k);
    assert forall x :: 0 <= x < |t| ==> t[x] == s[i + x];
    assert n == j - i;
    assert t[..n] == s[i..j] && t[n..] == s[j..];
    FirstRun(t);
    forall x | j <= x < |s| ensures KeyLess(GroupKey(s[i]), GroupKey(s[x])) {
      assert s[x] == t[x - i];
    }
  }

  lemma ConcatAssoc(a: seq<Msg>, x: Msg, b: seq<Msg>)
    ensures a + ([x] + b) == (a + [x]) + b
  {
  }

  /** `i` is where a run of equal keys starts. */
  ghost predicate RunStart(run: seq<Msg>, i: nat)
  {
    i < |run| && (i > 0 ==> KeyLess(GroupKey(run[i - 1]), GroupKey(run[i])))
  }

  /** Each object of the result stands first in its run and keeps that run's key. */
  ghost predicate FromRuns(s: seq<NetfindMessage>, run: seq<Msg>, out: seq<NetfindMessage>, starts: seq<nat>)
    requires |s| == |run|
    reads out
  {
    && |starts| == |out|
    && forall k :: 0 <= k < |out| ==>
         && RunStart(run, starts[k])
         && out[k] == s[starts[k]]
         && GroupKey(out[k].data) == GroupKey(run[starts[k]])
  }

  lemma FromRunsAppend(s: seq<NetfindMessage>, run: seq<Msg>, out: seq<NetfindMessage>, starts: seq<nat>, i: nat)
    requires |s| == |run| && FromRuns(s, run, out, starts) && RunStart(run, i)
    requires GroupKey(s[i].data) == GroupKey(run[i])
    ensures FromRuns(s, run, out + [s[i]], starts + [i])
  {
  }

  /** The group loop over a sorted list. */
  method ReduceSorted(s: seq<NetfindMessage>, ghost run: seq<Msg>)
    returns (out: seq<NetfindMessage>, ghost starts: seq<nat>)
    requires Untouched(s, run, 0) && Sorted(run)
    requires forall x :: 0 <= x < |s| ==> Complete(run[x])
    modifies s
    ensures Snap(out) == MergeRuns(run)
    ensures FromRuns(s, run, out, starts)
    ensures forall m :: m in s && m !in out ==> m.data == old(m.data)
  {
    hide KeyLess, GroupKey, MergeAll, MergeRuns, Sorted;
    out, starts := [], [];
    var i := 0;
    while i < |s|
      invariant i <= |s|
      invariant Untouched(s, run, i)
      invariant i < |run| ==> RunStart(run, i)
      invariant FromRuns(s, run, out, starts) && forall k :: 0 <= k < |starts| ==> starts[k] < i
      invariant Snap(out) + MergeRuns(run[i..]) == MergeRuns(run)
      invariant forall m :: m in s && m !in out ==> m.data == old(m.data)
    {
      ghost var before := Snap(out);
      KeysGrow(run, i);
      var j := MergeRun(s, i, run);
      RunIs(run, i, j);
      MergeAllShape(run[i..j]);
      assert Snap(out) == before;
      SnapAppend(out, s[i]);
      ConcatAssoc(before, s[i].data, MergeRuns(run[j..]));
      forall x | j <= x < |s| ensures s[x] != s[i] {
        KeyLessTotal(GroupKey(run[i]), GroupKey(run[x]));
      }
      LastOfRun(run, i, j);
      FromRunsAppend(s, run, out, starts, i);
      out, starts := out + [s[i]], starts + [i];
      i := j;
    }
    assert run[i..] == [];
    NoRuns();
  }

  lemma NoRuns()
    ensures MergeRuns([]) == []
  {
  }

  lemma KeysGrow(run: seq<Msg>, i: nat)
    requires Sorted(run) && RunStart(run, i)
    ensures forall a :: 0 <= a < i ==> GroupKey(run[a]) != GroupKey(run[i])
  {
    forall a | 0 <= a < i ensures GroupKey(run[a]) != GroupKey(run[i]) {
      KeyLessTotal(GroupKey(run[i - 1]), GroupKey(run[i]));
      assert a < i - 1 ==> !KeyLess(GroupKey(run[i - 1]), GroupKey(run[a]));
    }
  }

  lemma LastOfRun(run: seq<Msg>, i: nat, j: nat)
    requires i < j <= |run|
    requires forall x :: i <= x < j ==> GroupKey(run[x]) == GroupKey(run[i])
    requires forall x :: j <= x < |run| ==> KeyLess(GroupKey(run[i]), GroupKey(run[x]))
    ensures j < |run| ==> RunStart(run, j)
  {
    assert GroupKey(run[j - 1]) == GroupKey(run[i]);
  }

  /** What reduction leaves in the message at position `x`: the whole group when it is the group's
      first object, its old contents otherwise. */
  function DataAfter(msgs: seq<NetfindMessage>, vals: seq<Msg>, x: nat): Msg
    requires |msgs| == |vals| && x < |msgs|
  {
    var k := GroupKey(vals[x]);
    var first := FirstAt(vals, k);
    if first < |vals| && msgs[x] == msgs[first] && GroupOf(vals, k) != [] then MergeAll(GroupOf(vals, k)) else vals[x]
  }

  /** reduce_msgs on objects: the result lists, in key order, the first message of each group with
      the rest of the group merged into it; every other message keeps its contents. */
  method ReduceInPlace(msgs: seq<NetfindMessage>) returns (out: seq<NetfindMessage>)
    requires forall m :: m in msgs ==> Complete(m.data)
    modifies msgs
    ensures Snap(out) == ReduceMsgs(old(Snap(msgs)))
    ensures forall i :: 0 <= i < |out| ==>
              var x := FirstAt(old(Snap(msgs)), GroupKey(out[i].data)); x < |msgs| && out[i] == msgs[x]
    ensures forall m :: m in msgs && m !in out ==> m.data == old(m.data)
    ensures forall x :: 0 <= x < |msgs| ==> msgs[x].data == DataAfter(msgs, old(Snap(msgs)), x)
  {
    ghost var vals := Snap(msgs);
    var order := SortOrder(Snap(msgs));
    ghost var run := StableSort(vals);
    SortOrderIsStable(vals);
    SortKeepsGroups(vals);
    var sorted := seq(|msgs|, i requires 0 <= i < |msgs| => msgs[order[i]]);
    forall m | m in msgs ensures m in sorted {
      var x :| 0 <= x < |msgs| && msgs[x] == m;
      assert x in order;
      var i :| 0 <= i < |order| && order[i] == x;
      assert sorted[i] == m;
    }
    ghost var starts;
    out, starts := ReduceSorted(sorted, run);
    forall k | 0 <= k < |out|
      ensures var x := FirstAt(vals, GroupKey(out[k].data)); x < |msgs| && out[k] == msgs[x]
    {
      RunStartsAtFirst(vals, order, run, starts[k]);
    }
    forall x | 0 <= x < |msgs| ensures msgs[x].data == DataAfter(msgs, vals, x) {
      DataOf(msgs, vals, out, x);
    }
  }

  lemma {:induction false} DataOf(msgs: seq<NetfindMessage>, vals: seq<Msg>, out: seq<NetfindMessage>, x: nat)
    requires |msgs| == |vals| && x < |msgs|
    requires Snap(out) == ReduceMsgs(vals)
    requires forall i :: 0 <= i < |out| ==>
               var y := FirstAt(vals, GroupKey(out[i].data)); y < |msgs| && out[i] == msgs[y]
    requires forall i, j :: 0 <= i < |msgs| && 0 <= j < |msgs| && msgs[i] == msgs[j] ==> vals[i] == vals[j]
    requires msgs[x] !in out ==> msgs[x].data == vals[x]
    ensures msgs[x].data == DataAfter(msgs, vals, x)
  {
    hide MergeAll, GroupKey, ReduceMsgs;
    var k := GroupKey(vals[x]);
    var first := FirstAt(vals, k);
    var g := GroupOf(vals, k);
    GroupHolds(vals, x);
    ReduceIsReduction(vals);
    var red := ReduceMsgs(vals);
    assert GroupOf(red, k) == [MergeAll(g)];
    GroupHasKey(red, k);
    assert MergeAll(g) in GroupOf(red, k);
    var i :| 0 <= i < |red| && red[i] == MergeAll(g);
    assert GroupKey(red[i]) == k;
    assert out[i].data == red[i] && out[i] == msgs[first];
    if msgs[x] in out {
      var j :| 0 <= j < |out| && out[j] == msgs[x];
      var y := FirstAt(vals, GroupKey(out[j].data));
      assert vals[y] == vals[x];
    }
  }
}
