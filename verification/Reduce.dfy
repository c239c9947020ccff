/** Sorting, grouping and merging of messages (proto/util.py). */
module Reduce {
  import opened Wrappers
  import opened Model

  // ---------- The order of group keys ----------

  /** Python compares strings by code point, shorter first. */
  predicate StrLess(a: string, b: string)
  {
    b != "" && (a == "" || a[0] < b[0] || (a[0] == b[0] && StrLess(a[1..], b[1..])))
  }

  /** After `k` characters in common the first text ends, or has the smaller code point. */
  predicate LessAt(a: string, b: string, k: nat)
  {
    k <= |a| && k < |b| && a[..k] == b[..k] && (k == |a| || a[k] as int < b[k] as int)
  }

  lemma LessInTail(a: string, b: string, k: nat)
    requires a != "" && b != "" && k > 0
    ensures LessAt(a, b, k) <==> a[0] == b[0] && LessAt(a[1..], b[1..], k - 1)
  {
    if k <= |a| && k <= |b| {
      assert a[..k] == [a[0]] + a[1..][..k - 1] && b[..k] == [b[0]] + b[1..][..k - 1];
      assert a[1..][..k - 1] == a[..k][1..] && b[1..][..k - 1] == b[..k][1..];
      assert a[0] == a[..k][0] && b[0] == b[..k][0];
    }
  }

  /** The order of code points. */
  lemma {:induction false} StrLessExactly(a: string, b: string)
    ensures StrLess(a, b) <==> exists k: nat :: LessAt(a, b, k)
  {
    if a != "" && b != "" {
      StrLessExactly(a[1..], b[1..]);
      if k: nat :| LessAt(a, b, k) {
        if k > 0 {
          LessInTail(a, b, k);
        }
      }
      if k: nat :| LessAt(a[1..], b[1..], k) {
        LessInTail(a, b, k + 1);
      }
      assert a[0] < b[0] ==> LessAt(a, b, 0);
    } else {
      assert a == "" && b != "" ==> LessAt(a, b, 0);
    }
  }

  lemma {:induction false} StrLessTransitive(a: string, b: string, c: string)
    requires StrLess(a, b) && StrLess(b, c)
    ensures StrLess(a, c)
  {
    if a != "" && a[0] == b[0] == c[0] {
      StrLessTransitive(a[1..], b[1..], c[1..]);
    }
  }

  lemma {:induction false} StrLessTotal(a: string, b: string)
    ensures a == b || StrLess(a, b) || StrLess(b, a)
    ensures !(StrLess(a, b) && StrLess(b, a))
    ensures a == b ==> !StrLess(a, b)
  {
    if a != "" && b != "" && a[0] == b[0] {
      StrLessTotal(a[1..], b[1..]);
      assert a == [a[0]] + a[1..] && b == [b[0]] + b[1..];
    }
  }

  datatype Key = Key(rank: nat, topic: string, value: Option<string>)

  /** Publications and last wills are grouped by value as well. */
  function GroupKey(m: Msg): Key
  {
    match m.typ
    case PUB => Key(m.typ.Rank(), m.topic, m.value)
    case LWT => Key(m.typ.Rank(), m.topic, m.value)
    case _ => Key(m.typ.Rank(), m.topic, None)
  }

  predicate ValueLess(a: Option<string>, b: Option<string>)
  {
    b.Some? && (a.None? || StrLess(a.value, b.value))
  }

  predicate KeyLess(a: Key, b: Key)
  {
    || a.rank < b.rank
    || (a.rank == b.rank && StrLess(a.topic, b.topic))
    || (a.rank == b.rank && a.topic == b.topic && ValueLess(a.value, b.value))
  }

  lemma KeyLessTransitive(a: Key, b: Key, c: Key)
    requires KeyLess(a, b) && KeyLess(b, c)
    ensures KeyLess(a, c)
  {
    if StrLess(a.topic, b.topic) && StrLess(b.topic, c.topic) {
      StrLessTransitive(a.topic, b.topic, c.topic);
    }
    if ValueLess(a.value, b.value) && ValueLess(b.value, c.value) && a.value.Some? {
      StrLessTransitive(a.value.value, b.value.value, c.value.value);
    }
  }

  lemma KeyLessTotal(a: Key, b: Key)
    ensures a == b || KeyLess(a, b) || KeyLess(b, a)
    ensures !(KeyLess(a, b) && KeyLess(b, a))
    ensures a == b ==> !KeyLess(a, b)
  {
    StrLessTotal(a.topic, b.topic);
    if a.value.Some? && b.value.Some? {
      StrLessTotal(a.value.value, b.value.value);
    }
  }

  // ---------- Sorting ----------

  ghost predicate Sorted(s: seq<Msg>)
  {
    forall i, j :: 0 <= i < j < |s| ==> !KeyLess(GroupKey(s[j]), GroupKey(s[i]))
  }

  /** How many leading elements stay before a later message with key `k` under a stable sort. */
  function Rank(s: seq<Msg>, k: Key): (n: nat)
    ensures n <= |s|
  {
    if s == [] || KeyLess(k, GroupKey(s[|s| - 1])) then
      if s == [] then 0 else Rank(s[..|s| - 1], k)
    else |s|
  }

  /** A stable sort by group key. */
  function StableSort(s: seq<Msg>): (r: seq<Msg>)
    ensures |r| == |s|
  {
    if s == [] then [] else
      var r := StableSort(s[..|s| - 1]);
      var m := s[|s| - 1];
      var n := Rank(r, GroupKey(m));
      r[..n] + [m] + r[n..]
  }

  /** The messages with one key, in their order of arrival. */
  function GroupOf(s: seq<Msg>, k: Key): (g: seq<Msg>)
  {
    if s == [] then []
    else GroupOf(s[..|s| - 1], k) + (if GroupKey(s[|s| - 1]) == k then [s[|s| - 1]] else [])
  }

  lemma {:induction false} GroupOfConcat(a: seq<Msg>, b: seq<Msg>, k: Key)
    ensures GroupOf(a + b, k) == GroupOf(a, k) + GroupOf(b, k)
  {
    if b == [] {
      assert a + b == a;
    } else {
      var n := |b| - 1;
      assert (a + b)[..|a + b| - 1] == a + b[..n];
      GroupOfConcat(a, b[..n], k);
    }
  }

  lemma GroupOfOne(m: Msg, k: Key)
    ensures GroupOf([m], k) == if GroupKey(m) == k then [m] else []
  {
    assert [m][..0] == [];
  }

  lemma {:induction false} GroupNone(s: seq<Msg>, k: Key)
    requires forall i :: 0 <= i < |s| ==> GroupKey(s[i]) != k
    ensures GroupOf(s, k) == []
  {
    if s != [] {
      GroupNone(s[..|s| - 1], k);
    }
  }

  lemma {:induction false} GroupAll(s: seq<Msg>, k: Key)
    requires forall i :: 0 <= i < |s| ==> GroupKey(s[i]) == k
    ensures GroupOf(s, k) == s
  {
    if s != [] {
      GroupAll(s[..|s| - 1], k);
      assert s == s[..|s| - 1] + [s[|s| - 1]];
    }
  }

  lemma {:induction false} GroupHasKey(s: seq<Msg>, k: Key)
    ensures forall m :: m in GroupOf(s, k) ==> m in s && GroupKey(m) == k
  {
    if s != [] {
      GroupHasKey(s[..|s| - 1], k);
    }
  }

  lemma {:induction false} GroupHolds(s: seq<Msg>, i: nat)
    requires i < |s|
    ensures s[i] in GroupOf(s, GroupKey(s[i]))
  {
    if i < |s| - 1 {
      GroupHolds(s[..|s| - 1], i);
    }
  }

  lemma {:induction false} RankSplits(s: seq<Msg>, k: Key)
    requires Sorted(s)
    ensures forall i :: 0 <= i < Rank(s, k) ==> !KeyLess(k, GroupKey(s[i]))
    ensures forall i :: Rank(s, k) <= i < |s| ==> KeyLess(k, GroupKey(s[i]))
  {
    if s != [] {
      var n := |s| - 1;
      if KeyLess(k, GroupKey(s[n])) {
        RankSplits(s[..n], k);
        assert forall i :: 0 <= i < n ==> s[..n][i] == s[i];
      } else {
        forall i | 0 <= i < n ensures !KeyLess(k, GroupKey(s[i])) {
          KeyLessTotal(GroupKey(s[i]), GroupKey(s[n]));
          if KeyLess(k, GroupKey(s[i])) && KeyLess(GroupKey(s[i]), GroupKey(s[n])) {
            KeyLessTransitive(k, GroupKey(s[i]), GroupKey(s[n]));
          }
        }
      }
    }
  }

  lemma InsertSorted(r: seq<Msg>, m: Msg)
    requires Sorted(r)
    ensures var n := Rank(r, GroupKey(m)); Sorted(r[..n] + [m] + r[n..])
  {
    var k := GroupKey(m);
    var n := Rank(r, k);
    RankSplits(r, k);
    var s := r[..n] + [m] + r[n..];
    forall i, j | 0 <= i < j < |s| ensures !KeyLess(GroupKey(s[j]), GroupKey(s[i])) {
      if i == n {
        KeyLessTotal(GroupKey(s[j]), k);
      } else if j == n {
        assert s[i] == r[i];
      } else {
        assert s[i] == r[if i < n then i else i - 1] && s[j] == r[if j < n then j else j - 1];
      }
    }
  }

  /** The sort is stable and loses nothing: every group keeps its members in order. */
  lemma {:induction false} SortKeepsGroups(s: seq<Msg>)
    ensures Sorted(StableSort(s))
    ensures forall k :: GroupOf(StableSort(s), k) == GroupOf(s, k)
  {
    if s != [] {
      var r := StableSort(s[..|s| - 1]);
      var m := s[|s| - 1];
      SortKeepsGroups(s[..|s| - 1]);
      InsertSorted(r, m);
      var n := Rank(r, GroupKey(m));
      forall k ensures GroupOf(StableSort(s), k) == GroupOf(s, k) {
        InsertKeepsGroup(r, m, k);
      }
    }
  }

  lemma NoneAfterRank(r: seq<Msg>, k: Key)
    requires Sorted(r)
    ensures GroupOf(r[Rank(r, k)..], k) == []
  {
    var n := Rank(r, k);
    var b := r[n..];
    RankSplits(r, k);
    forall i | 0 <= i < |b| ensures GroupKey(b[i]) != k {
      KeyLessTotal(k, GroupKey(r[n + i]));
    }
    GroupNone(b, k);
  }

  lemma InsertKeepsGroup(r: seq<Msg>, m: Msg, k: Key)
    requires Sorted(r)
    ensures var n := Rank(r, GroupKey(m));
            GroupOf(r[..n] + [m] + r[n..], k) == GroupOf(r, k) + (if GroupKey(m) == k then [m] else [])
  {
    var n := Rank(r, GroupKey(m));
    NoneAfterRank(r, GroupKey(m));
    InsertGroup(r[..n], m, r[n..], k);
    assert r == r[..n] + r[n..];
  }

  lemma InsertGroup(a: seq<Msg>, m: Msg, b: seq<Msg>, k: Key)
    requires GroupKey(m) == k ==> GroupOf(b, k) == []
    ensures GroupOf(a + [m] + b, k) == GroupOf(a + b, k) + (if GroupKey(m) == k then [m] else [])
  {
    hide GroupOf, GroupKey;
    GroupOfConcat(a + [m], b, k);
    GroupOfConcat(a, [m], k);
    GroupOfOne(m, k);
    GroupOfConcat(a, b, k);
  }

  // ---------- Merging ----------

  function Min(a: int, b: int): int { if b < a then b else a }
  function Max(a: int, b: int): int { if b > a then b else a }

  function MaxMode(a: PublishMode, b: PublishMode): PublishMode
  {
    if b.Rank() > a.Rank() then b else a
  }

  /** What merging `other` into `m` makes of `m`; only publications merge. */
  function Merge(m: Msg, other: Msg): Msg
  {
    if m.typ.PUB? && Complete(m) && Complete(other) && other.typ.PUB? then
      m.(createdAt := Some(Min(m.createdAt.value, other.createdAt.value)),
         updatedAt := Some(Max(m.updatedAt.value, other.updatedAt.value)),
         mode := Some(MaxMode(m.mode.value, other.mode.value)))
    else m
  }

  /** One message for a whole group: the first, with every later one merged into it. */
  function MergeAll(g: seq<Msg>): Msg
    requires g != []
  {
    if |g| == 1 then g[0] else Merge(MergeAll(g[..|g| - 1]), g[|g| - 1])
  }

  function RunLength(s: seq<Msg>, k: Key): (n: nat)
    ensures n <= |s|
    ensures forall i :: 0 <= i < n ==> GroupKey(s[i]) == k
    ensures n < |s| ==> GroupKey(s[n]) != k
  {
    if s == [] || GroupKey(s[0]) != k then 0 else 1 + RunLength(s[1..], k)
  }

  /** itertools.groupby over a sorted list, one merged message per run. */
  function MergeRuns(s: seq<Msg>): seq<Msg>
  {
    if s == [] then [] else
      var n := RunLength(s, GroupKey(s[0]));
      [MergeAll(s[..n])] + MergeRuns(s[n..])
  }

  /** reduce_msgs on message values. */
  function ReduceMsgs(s: seq<Msg>): seq<Msg>
  {
    MergeRuns(StableSort(s))
  }

  // ---------- The normal form ----------

  ghost predicate StrictlySorted(s: seq<Msg>)
  {
    forall i, j :: 0 <= i < j < |s| ==> KeyLess(GroupKey(s[i]), GroupKey(s[j]))
  }

  /** One merged message for a group, none for an empty group. */
  function Merged(g: seq<Msg>): seq<Msg>
  {
    if g == [] then [] else [MergeAll(g)]
  }

  /** `out` has strictly increasing keys, and under each key just the merged group of `s`: so exactly
      the keys of `s`, once each. */
  ghost predicate IsReduction(s: seq<Msg>, out: seq<Msg>)
  {
    StrictlySorted(out) && forall k :: GroupOf(out, k) == Merged(GroupOf(s, k))
  }

  lemma {:induction false} MergeAllShape(g: seq<Msg>)
    requires g != []
    ensures var m := MergeAll(g);
            m == g[0].(createdAt := m.createdAt, updatedAt := m.updatedAt, mode := m.mode)
            && (Complete(g[0]) ==> Complete(m)) && (!g[0].typ.PUB? ==> m == g[0])
            && GroupKey(m) == GroupKey(g[0])
  {
    if |g| > 1 {
      MergeAllShape(g[..|g| - 1]);
    }
  }

  /** In a sorted list the first run is exactly the messages with the smallest key. */
  lemma {:induction false} FirstRun(s: seq<Msg>)
    requires Sorted(s) && s != []
    ensures var n := RunLength(s, GroupKey(s[0])); n > 0 && Sorted(s[n..])
    ensures var n := RunLength(s, GroupKey(s[0]));
            forall i :: n <= i < |s| ==> KeyLess(GroupKey(s[0]), GroupKey(s[i]))
  {
    var k0 := GroupKey(s[0]);
    var n := RunLength(s, k0);
    forall i | n <= i < |s| ensures KeyLess(k0, GroupKey(s[i])) {
      KeyLessTotal(GroupKey(s[n]), k0);
      KeyLessTotal(GroupKey(s[i]), GroupKey(s[n]));
      if KeyLess(GroupKey(s[n]), GroupKey(s[i])) {
        KeyLessTransitive(k0, GroupKey(s[n]), GroupKey(s[i]));
      }
    }
  }

  lemma FirstRunGroups(s: seq<Msg>, k: Key)
    requires Sorted(s) && s != []
    ensures var n := RunLength(s, GroupKey(s[0]));
            GroupOf(s, k) == if k == GroupKey(s[0]) then s[..n] else GroupOf(s[n..], k)
    ensures k == GroupKey(s[0]) ==> GroupOf(s[RunLength(s, k)..], k) == []
  {
    hide KeyLess, GroupKey, GroupOf;
    var k0 := GroupKey(s[0]);
    var n := RunLength(s, k0);
    var a, b := s[..n], s[n..];
    assert s == a + b;
    GroupOfConcat(a, b, k);
    FirstRun(s);
    if k == k0 {
      GroupAll(a, k);
      forall i | 0 <= i < |b| ensures GroupKey(b[i]) != k {
        KeyLessTotal(k0, GroupKey(s[n + i]));
      }
      GroupNone(b, k);
    } else {
      GroupNone(a, k);
    }
  }

  /** Every key of the reduction belongs to some message of its input. */
  lemma {:induction false} ReductionKey(s: seq<Msg>, out: seq<Msg>, i: nat) returns (j: nat)
    requires (forall k :: GroupOf(out, k) == Merged(GroupOf(s, k))) && i < |out|
    ensures j < |s| && GroupKey(s[j]) == GroupKey(out[i])
  {
    var k := GroupKey(out[i]);
    GroupHolds(out, i);
    assert GroupOf(out, k) != [];
    var g := GroupOf(s, k);
    assert g != [] && g[0] in g;
    GroupHasKey(s, k);
    j :| 0 <= j < |s| && s[j] == g[0];
  }

  lemma {:induction false} MergeRunsGroups(s: seq<Msg>, k: Key)
    requires Sorted(s)
    ensures GroupOf(MergeRuns(s), k) == Merged(GroupOf(s, k))
    decreases |s|
  {
    if s != [] {
      var n := RunLength(s, GroupKey(s[0]));
      var first := MergeAll(s[..n]);
      FirstRun(s);
      FirstRunGroups(s, k);
      MergeRunsGroups(s[n..], k);
      MergeAllShape(s[..n]);
      GroupOfConcat([first], MergeRuns(s[n..]), k);
      GroupOfOne(first, k);
      assert GroupKey(first) == GroupKey(s[0]);
    }
  }

  lemma {:induction false} MergeRunsSorted(s: seq<Msg>)
    requires Sorted(s)
    ensures StrictlySorted(MergeRuns(s))
    decreases |s|
  {
    if s != [] {
      var n := RunLength(s, GroupKey(s[0]));
      var first, rest := MergeAll(s[..n]), MergeRuns(s[n..]);
      FirstRun(s);
      MergeRunsSorted(s[n..]);
      MergeAllShape(s[..n]);
      assert GroupKey(first) == GroupKey(s[0]);
      forall i | 0 <= i < |rest| ensures KeyLess(GroupKey(first), GroupKey(rest[i])) {
        forall k ensures GroupOf(rest, k) == Merged(GroupOf(s[n..], k)) {
          MergeRunsGroups(s[n..], k);
        }
        var j := ReductionKey(s[n..], rest, i);
      }
    }
  }

  /** reduce_msgs computes the normal form of its input. */
  lemma {:induction false} ReduceIsReduction(s: seq<Msg>)
    ensures IsReduction(s, ReduceMsgs(s))
  {
    SortKeepsGroups(s);
    MergeRunsSorted(StableSort(s));
    forall k ensures GroupOf(ReduceMsgs(s), k) == Merged(GroupOf(s, k)) {
      MergeRunsGroups(StableSort(s), k);
    }
  }

  lemma StrictlySortedTail(s: seq<Msg>, k: Key)
    requires StrictlySorted(s) && s != []
    ensures StrictlySorted(s[1..])
    ensures GroupOf(s, k) == if k == GroupKey(s[0]) then [s[0]] else GroupOf(s[1..], k)
    ensures k == GroupKey(s[0]) || KeyLess(k, GroupKey(s[0])) ==> GroupOf(s[1..], k) == []
  {
    assert s == [s[0]] + s[1..];
    GroupOfConcat([s[0]], s[1..], k);
    GroupOfOne(s[0], k);
    if k == GroupKey(s[0]) || KeyLess(k, GroupKey(s[0])) {
      forall i | 0 <= i < |s[1..]| ensures GroupKey(s[1..][i]) != k {
        var l := GroupKey(s[i + 1]);
        KeyLessTotal(k, l);
        if KeyLess(k, GroupKey(s[0])) {
          KeyLessTransitive(k, GroupKey(s[0]), l);
        }
      }
      GroupNone(s[1..], k);
    }
  }

  lemma {:induction false} SameFirst(a: seq<Msg>, b: seq<Msg>)
    requires StrictlySorted(a) && StrictlySorted(b) && a != [] && b != []
    requires GroupOf(a, GroupKey(a[0])) == GroupOf(b, GroupKey(a[0]))
    requires GroupOf(a, GroupKey(b[0])) == GroupOf(b, GroupKey(b[0]))
    ensures a[0] == b[0]
  {
    var k, l := GroupKey(a[0]), GroupKey(b[0]);
    StrictlySortedTail(a, k);
    StrictlySortedTail(b, k);
    StrictlySortedTail(a, l);
    StrictlySortedTail(b, l);
    KeyLessTotal(k, l);
  }

  lemma {:induction false} SameRest(a: seq<Msg>, b: seq<Msg>, k: Key)
    requires StrictlySorted(a) && StrictlySorted(b) && a != [] && b != [] && a[0] == b[0]
    requires GroupOf(a, k) == GroupOf(b, k)
    ensures GroupOf(a[1..], k) == GroupOf(b[1..], k)
  {
    StrictlySortedTail(a, k);
    StrictlySortedTail(b, k);
  }

  /** A list with strictly increasing keys is determined by its groups. */
  lemma {:induction false} SortedByGroups(a: seq<Msg>, b: seq<Msg>)
    requires StrictlySorted(a) && StrictlySorted(b)
    requires forall k :: GroupOf(a, k) == GroupOf(b, k)
    ensures a == b
  {
    if a == [] || b == [] {
      if a != [] {
        GroupHolds(a, 0);
      }
      if b != [] {
        GroupHolds(b, 0);
      }
    } else {
      SameFirst(a, b);
      var a', b' := a[1..], b[1..];
      forall k ensures GroupOf(a', k) == GroupOf(b', k) {
        SameRest(a, b, k);
      }
      SortedByGroups(a', b');
      assert a == [a[0]] + a' && b == [b[0]] + b';
    }
  }

  /** The normal form is unique. */
  lemma ReductionIsUnique(s: seq<Msg>, t: seq<Msg>, out: seq<Msg>)
    requires IsReduction(s, out)
    requires forall k :: Merged(GroupOf(s, k)) == Merged(GroupOf(t, k))
    ensures out == ReduceMsgs(t)
  {
    ReduceIsReduction(t);
    SortedByGroups(out, ReduceMsgs(t));
  }

  // ---------- Laws ----------

  /** Reducing twice is reducing once. */
  lemma {:induction false} ReduceIdempotent(s: seq<Msg>)
    ensures ReduceMsgs(ReduceMsgs(s)) == ReduceMsgs(s)
  {
    var r := ReduceMsgs(s);
    ReduceIsReduction(s);
    ReductionIsUnique(s, r, r);
  }

  /** Merging is associative on what it keeps: a merged group stands for its members. */
  lemma {:induction false} MergeAllPrefix(g: seq<Msg>, h: seq<Msg>)
    requires g != []
    ensures MergeAll(g + h) == MergeAll([MergeAll(g)] + h)
  {
    if h == [] {
      assert g + h == g;
    } else {
      var n := |h| - 1;
      assert (g + h)[..|g + h| - 1] == g + h[..n];
      assert ([MergeAll(g)] + h)[..|h|] == [MergeAll(g)] + h[..n];
      MergeAllPrefix(g, h[..n]);
    }
  }

  /** A batch may be reduced before more messages are added to it. */
  lemma {:induction false} ReduceIncremental(a: seq<Msg>, b: seq<Msg>)
    ensures ReduceMsgs(ReduceMsgs(a) + b) == ReduceMsgs(a + b)
  {
    var r := ReduceMsgs(a);
    ReduceIsReduction(a);
    ReduceIsReduction(r + b);
    forall k ensures Merged(GroupOf(r + b, k)) == Merged(GroupOf(a + b, k)) {
      GroupOfConcat(r, b, k);
      GroupOfConcat(a, b, k);
      var g, h := GroupOf(a, k), GroupOf(b, k);
      if g == [] {
        assert [] + h == h;
      } else {
        MergeAllPrefix(g, h);
      }
    }
    ReductionIsUnique(r + b, a + b, ReduceMsgs(r + b));
  }

  ghost predicate AllPublications(s: seq<Msg>)
  {
    forall i :: 0 <= i < |s| ==> s[i].typ.PUB? && Complete(s[i])
  }

  /** A merged group of publications carries the least creation time, the latest update time and the
      strongest mode found in it. */
  ghost predicate IsMergeOf(m: Msg, g: seq<Msg>)
    requires AllPublications(g) && m.typ.PUB? && Complete(m)
  {
    && (forall i :: 0 <= i < |g| ==> m.createdAt.value <= g[i].createdAt.value)
    && (forall i :: 0 <= i < |g| ==> g[i].updatedAt.value <= m.updatedAt.value)
    && (forall i :: 0 <= i < |g| ==> g[i].mode.value.Rank() <= m.mode.value.Rank())
    && (exists i :: 0 <= i < |g| && g[i].createdAt == m.createdAt)
    && (exists i :: 0 <= i < |g| && g[i].updatedAt == m.updatedAt)
    && (exists i :: 0 <= i < |g| && g[i].mode == m.mode)
  }

  lemma {:induction false} MergeAllBounds(g: seq<Msg>)
    requires g != [] && AllPublications(g)
    ensures var m := MergeAll(g); m.typ.PUB? && Complete(m) && IsMergeOf(m, g)
  {
    if |g| > 1 {
      var n := |g| - 1;
      MergeAllBounds(g[..n]);
      hide IsMergeOf;
      MergeOneMore(MergeAll(g[..n]), g[..n], g[n]);
      assert g == g[..n] + [g[n]];
    }
  }

  lemma MergeOneMore(m: Msg, h: seq<Msg>, x: Msg)
    requires AllPublications(h + [x]) && AllPublications(h)
    requires m.typ.PUB? && Complete(m) && IsMergeOf(m, h)
    ensures var r := Merge(m, x); r.typ.PUB? && Complete(r) && IsMergeOf(r, h + [x])
  {
    var g, r := h + [x], Merge(m, x);
    assert g[|h|] == x && forall i :: 0 <= i < |h| ==> g[i] == h[i];
    var i :| 0 <= i < |h| && h[i].createdAt == m.createdAt;
    var j :| 0 <= j < |h| && h[j].updatedAt == m.updatedAt;
    var l :| 0 <= l < |h| && h[l].mode == m.mode;
    assert g[if r.createdAt == x.createdAt then |h| else i].createdAt == r.createdAt;
    assert g[if r.updatedAt == x.updatedAt then |h| else j].updatedAt == r.updatedAt;
    assert g[if r.mode == x.mode then |h| else l].mode == r.mode;
  }

  /** In any reduction, each publication is the merge of its group. */
  lemma ReducedPublication(s: seq<Msg>, i: nat)
    requires i < |ReduceMsgs(s)| && AllPublications(GroupOf(s, GroupKey(ReduceMsgs(s)[i])))
    ensures var m := ReduceMsgs(s)[i]; m.typ.PUB? && Complete(m) && IsMergeOf(m, GroupOf(s, GroupKey(m)))
  {
    var out := ReduceMsgs(s);
    var k := GroupKey(out[i]);
    ReduceIsReduction(s);
    GroupHolds(out, i);
    assert out[i] == MergeAll(GroupOf(s, k));
    MergeAllBounds(GroupOf(s, k));
  }

  lemma MergeOfSameMembers(g: seq<Msg>, h: seq<Msg>, k: Key)
    requires g != [] && h != [] && AllPublications(g) && AllPublications(h)
    requires forall x :: x in g <==> x in h
    requires GroupKey(g[0]) == k && GroupKey(h[0]) == k
    ensures MergeAll(g) == MergeAll(h)
  {
    MergeAllBounds(g);
    MergeAllBounds(h);
    MergeAllShape(g);
    MergeAllShape(h);
    var m, r := MergeAll(g), MergeAll(h);
    MergeBelow(m, g, r, h);
    MergeBelow(r, h, m, g);
  }

  lemma MergeBelow(m: Msg, g: seq<Msg>, r: Msg, h: seq<Msg>)
    requires AllPublications(g) && AllPublications(h)
    requires m.typ.PUB? && Complete(m) && IsMergeOf(m, g)
    requires r.typ.PUB? && Complete(r) && IsMergeOf(r, h)
    requires forall x :: x in g ==> x in h
    ensures r.createdAt.value <= m.createdAt.value && m.updatedAt.value <= r.updatedAt.value
    ensures m.mode.value.Rank() <= r.mode.value.Rank()
  {
    var i :| 0 <= i < |g| && g[i].createdAt == m.createdAt;
    var j :| 0 <= j < |g| && g[j].updatedAt == m.updatedAt;
    var l :| 0 <= l < |g| && g[l].mode == m.mode;
    assert g[i] in h && g[j] in h && g[l] in h;
  }

  /** Lists of publications with the same members reduce alike: order and repetition do not matter. */
  lemma ReduceIgnoresOrder(s: seq<Msg>, t: seq<Msg>)
    requires AllPublications(s) && AllPublications(t)
    requires forall m :: m in s <==> m in t
    ensures ReduceMsgs(s) == ReduceMsgs(t)
  {
    ReduceIsReduction(s);
    forall k ensures Merged(GroupOf(s, k)) == Merged(GroupOf(t, k)) {
      SameMembersSameMerge(s, t, k);
    }
    ReductionIsUnique(s, t, ReduceMsgs(s));
  }

  lemma GroupMembers(s: seq<Msg>, k: Key)
    ensures forall m :: m in GroupOf(s, k) <==> m in s && GroupKey(m) == k
  {
    GroupHasKey(s, k);
    forall m | m in s && GroupKey(m) == k ensures m in GroupOf(s, k) {
      var i :| 0 <= i < |s| && s[i] == m;
      GroupHolds(s, i);
    }
  }

  lemma SameMembersSameMerge(s: seq<Msg>, t: seq<Msg>, k: Key)
    requires AllPublications(s) && AllPublications(t)
    requires forall m :: m in s <==> m in t
    ensures Merged(GroupOf(s, k)) == Merged(GroupOf(t, k))
  {
    var g, h := GroupOf(s, k), GroupOf(t, k);
    GroupMembers(s, k);
    GroupMembers(t, k);
    assert forall i :: 0 <= i < |g| ==> g[i] in g;
    assert forall i :: 0 <= i < |h| ==> h[i] in h;
    if g != [] && h != [] {
      MergeOfSameMembers(g, h, k);
    }
  }
}
