/** Splitting a string in place (netfind_utils.c strsplit). */
module Split {
  import opened Bytes

  const NUL: byte := 0
  const DOT: byte := 46

  /** The first place of `d`, or the length. */
  function Find<T(==)>(s: seq<T>, d: T): (k: nat)
    ensures k <= |s| && d !in s[..k]
    ensures k < |s| ==> s[k] == d
  {
    if s == [] || s[0] == d then 0
    else
      var k := Find(s[1..], d) + 1;
      assert s[..k] == [s[0]] + s[1..][..k - 1];
      k
  }

  /** At most `max` parts; the last one keeps what delimiters are left. */
  function Parts<T(==)>(s: seq<T>, d: T, max: nat): (parts: seq<seq<T>>)
    ensures parts != []
    decreases max
  {
    var k := Find(s, d);
    if max <= 1 || k == |s| then [s] else [s[..k]] + Parts(s[k + 1..], d, max - 1)
  }

  function Join<T>(parts: seq<seq<T>>, d: T): seq<T>
  {
    if parts == [] then []
    else if |parts| == 1 then parts[0]
    else parts[0] + [d] + Join(parts[1..], d)
  }

  /** The parts, with the delimiter between them, are the string again. */
  lemma {:induction false} PartsJoined<T>(s: seq<T>, d: T, max: nat)
    ensures Join(Parts(s, d, max), d) == s
    decreases max
  {
    var k := Find(s, d);
    if max > 1 && k < |s| {
      PartsJoined(s[k + 1..], d, max - 1);
      assert s == s[..k] + [d] + s[k + 1..];
    }
  }

  /** Only the last part may hold the delimiter, and only when there was no room for more parts. */
  lemma {:induction false} PartsAreFree<T>(s: seq<T>, d: T, max: nat)
    ensures var parts := Parts(s, d, max);
            && (max >= 1 ==> |parts| <= max)
            && forall i :: 0 <= i < |parts| && (i < |parts| - 1 || |parts| < max) ==> d !in parts[i]
    decreases max
  {
    hide Find;
    var k := Find(s, d);
    if max > 1 {
      if k < |s| {
        PartsAreFree(s[k + 1..], d, max - 1);
      } else {
        assert s[..k] == s;
      }
    }
  }

  lemma FindAfter<T>(a: seq<T>, b: seq<T>, d: T)
    requires d !in a
    ensures Find(a + [d] + b, d) == |a|
  {
    var s := a + [d] + b;
    var k := Find(s, d);
    assert s[|a|] == d;
    assert forall i :: 0 <= i < |a| ==> s[i] == a[i];
    assert forall i :: 0 <= i < k ==> s[i] == s[..k][i];
  }

  lemma JoinedFirst<T>(first: seq<T>, more: seq<seq<T>>, d: T, max: nat)
    requires more != [] && max > 1 && d !in first
    ensures Parts(Join([first] + more, d), d, max) == [first] + Parts(Join(more, d), d, max - 1)
  {
    var s, rest := Join([first] + more, d), Join(more, d);
    assert ([first] + more)[1..] == more;
    FindAfter(first, rest, d);
    assert s[..|first|] == first && s[|first| + 1..] == rest;
  }

  lemma OnePart<T>(s: seq<T>, d: T, max: nat)
    requires d !in s
    ensures Join([s], d) == s && Parts(s, d, max) == [s]
  {
  }

  lemma NoRoom<T>(s: seq<T>, d: T)
    ensures Parts(s, d, 1) == [s]
  {
  }

  /** Parts without the delimiter are recovered from their joining, as far as there is room. */
  lemma {:induction false} JoinedParts<T>(parts: seq<seq<T>>, d: T, max: nat)
    requires |parts| >= 1 && max >= 1 && forall i :: 0 <= i < |parts| ==> d !in parts[i]
    ensures Parts(Join(parts, d), d, max)
            == if |parts| <= max then parts else parts[..max - 1] + [Join(parts[max - 1..], d)]
    decreases |parts|
  {
    hide Parts, Join;
    if |parts| == 1 {
      OnePart(parts[0], d, max);
      assert parts == [parts[0]];
    } else if max == 1 {
      NoRoom(Join(parts, d), d);
      assert parts[0..] == parts;
    } else {
      var more := parts[1..];
      assert parts == [parts[0]] + more;
      JoinedFirst(parts[0], more, d, max);
      JoinedParts(more, d, max - 1);
      if |parts| > max {
        assert more[max - 2..] == parts[max - 1..];
      }
    }
  }

  /** The C string at `p` is `t`. */
  predicate Stands(a: seq<byte>, p: nat, t: seq<byte>)
  {
    p + |t| < |a| && a[p..p + |t|] == t && a[p + |t|] == NUL && NUL !in t
  }

  /** strchr on the string that starts at `pos` and ends at `end`. */
  method IndexOf(a: array<byte>, pos: nat, ghost end: nat, d: byte) returns (k: nat)
    requires pos <= end < a.Length && a[end] == NUL && d != NUL && NUL !in a[pos..end]
    ensures k == pos + Find(a[pos..end], d)
  {
    k := pos;
    while a[k] != NUL && a[k] != d
      invariant pos <= k <= end
      invariant pos + Find(a[pos..end], d) == k + Find(a[k..end], d)
      decreases end - k
    {
      assert a[k..end][1..] == a[k + 1..end];
      k := k + 1;
    }
    assert k < end ==> a[k] == a[pos..end][k - pos];
  }

  lemma StandsKept(a: seq<byte>, b: seq<byte>, p: nat, t: seq<byte>, from: nat)
    requires Stands(a, p, t) && p + |t| < from <= |a| == |b| && a[..from] == b[..from]
    ensures Stands(b, p, t)
  {
    forall i | p <= i <= p + |t| ensures b[i] == a[i] {
      assert b[i] == b[..from][i] && a[i] == a[..from][i];
    }
    assert b[p..p + |t|] == a[p..p + |t|];
  }

  lemma CutStands(a: seq<byte>, p: nat, t: seq<byte>, m: nat)
    requires Stands(a, p, t) && m < |t|
    ensures Stands(a[p + m := NUL], p, t[..m]) && Stands(a[p + m := NUL], p + m + 1, t[m + 1..])
  {
    var b := a[p + m := NUL];
    assert b[p..p + m] == a[p..p + |t|][..m];
    assert b[p + m + 1..p + |t|] == a[p..p + |t|][m + 1..];
  }

  /** The parts starting at these places are these strings, before `bound`. */
  predicate AllStand(a: seq<byte>, places: seq<nat>, texts: seq<seq<byte>>, bound: nat)
  {
    && |texts| <= |places|
    && forall j :: 0 <= j < |texts| ==> places[j] + |texts[j]| < bound && Stands(a, places[j], texts[j])
  }

  lemma AllStandKept(a: seq<byte>, b: seq<byte>, places: seq<nat>, texts: seq<seq<byte>>, bound: nat)
    requires AllStand(a, places, texts, bound) && bound <= |a| == |b| && a[..bound] == b[..bound]
    ensures AllStand(b, places, texts, bound)
  {
    forall j | 0 <= j < |texts| ensures Stands(b, places[j], texts[j]) {
      StandsKept(a, b, places[j], texts[j], bound);
    }
  }

  lemma AllStandMore(a: seq<byte>, places: seq<nat>, texts: seq<seq<byte>>, bound: nat, p: nat, t: seq<byte>)
    requires AllStand(a, places, texts, bound) && |places| == |texts| + 1 && places[|texts|] == p
    requires Stands(a, p, t) && bound <= p + |t| + 1
    ensures AllStand(a, places + [p + |t| + 1], texts + [t], p + |t| + 1)
  {
    hide Stands;
  }

  lemma PartsStep(s: seq<byte>, d: byte, max: nat)
    requires max > 1 && Find(s, d) < |s|
    ensures Parts(s, d, max) == [s[..Find(s, d)]] + Parts(s[Find(s, d) + 1..], d, max - 1)
  {
  }

  /** One turn of the loop: cuts the rest at its first delimiter, if it has one. */
  method CutRest(str: array<byte>, pos: nat, d: byte, ghost end: nat, ghost places: seq<nat>,
                 ghost done: seq<seq<byte>>, ghost rest: seq<byte>)
    returns (k: nat, found: bool)
    requires d != NUL && pos + |rest| == end && Stands(str[..], pos, rest)
    requires |places| == |done| + 1 && places[|done|] == pos && AllStand(str[..], places, done, pos)
    modifies str
    ensures str[end + 1..] == old(str[end + 1..])
    ensures found <==> Find(rest, d) < |rest|
    ensures !found ==> str[..] == old(str[..])
    ensures found ==>
              var m := Find(rest, d);
              && k == pos + m && Stands(str[..], k + 1, rest[m + 1..])
              && AllStand(str[..], places + [k + 1], done + [rest[..m]], k + 1)
  {
    hide AllStand;
    assert str[pos..end] == rest;
    k := IndexOf(str, pos, end, d);
    found := str[k] != NUL;
    if found {
      ghost var was, m := str[..], k - pos;
      CutStands(was, pos, rest, m);
      str[k] := NUL;
      assert str[..] == was[pos + m := NUL];
      assert str[..][..pos] == was[..pos];
      AllStandKept(was, str[..], places, done, pos);
      AllStandMore(str[..], places, done, pos, pos, rest[..m]);
      assert str[end + 1..] == was[end + 1..];
    }
  }

  /** strsplit: where the parts start; each is then a string of its own. */
  method StrSplit(str: array<byte>, ghost text: seq<byte>, d: byte, max: nat) returns (parts: seq<nat>)
    requires Stands(str[..], 0, text) && d != NUL
    modifies str
    ensures |parts| == |Parts(text, d, max)|
    ensures AllStand(str[..], parts, Parts(text, d, max), |text| + 1)
    ensures str[|text| + 1..] == old(str[|text| + 1..])
  {
    hide AllStand, Parts;
    ghost var end := |text|;
    assert end < str.Length;
    hide Stands;
    ghost var done: seq<seq<byte>>, rest := [], text;
    parts := [0];
    NoneStand(str[..], parts);
    var pos, i := 0, 1;
    while i < max
      invariant 1 <= i == |parts| == |done| + 1 && (max >= 1 ==> i <= max)
      invariant parts[i - 1] == pos && 0 <= pos && pos + |rest| == end < str.Length
      invariant Stands(str[..], pos, rest) && AllStand(str[..], parts, done, pos)
      invariant max >= 1 ==> Parts(text, d, max) == done + Parts(rest, d, max - i + 1)
      invariant max == 0 ==> rest == text && done == []
      invariant str[end + 1..] == old(str[end + 1..])
    {
      if Find(rest, d) < |rest| {
        PartsStep(rest, d, max - i + 1);
      }
      var k, found := CutRest(str, pos, d, end, parts, done, rest);
      if !found {
        break;
      }
      ghost var m := k - pos;
      done, rest := done + [rest[..m]], rest[m + 1..];
      parts, pos, i := parts + [k + 1], k + 1, i + 1;
    }
    LastPart(text, rest, d, max, i, done);
    LastStands(str[..], parts, done, pos, rest);
  }

  lemma NoneStand(a: seq<byte>, places: seq<nat>)
    ensures AllStand(a, places, [], 0)
  {
  }

  lemma LastPart(text: seq<byte>, rest: seq<byte>, d: byte, max: nat, i: nat, done: seq<seq<byte>>)
    requires i == |done| + 1
    requires if max >= 1 then i <= max && Parts(text, d, max) == done + Parts(rest, d, max - i + 1)
             else rest == text && done == []
    requires i < max ==> Find(rest, d) == |rest|
    ensures Parts(text, d, max) == done + [rest]
  {
  }

  lemma LastStands(a: seq<byte>, places: seq<nat>, texts: seq<seq<byte>>, p: nat, t: seq<byte>)
    requires AllStand(a, places, texts, p) && |places| == |texts| + 1 && places[|texts|] == p && Stands(a, p, t)
    ensures AllStand(a, places, texts + [t], p + |t| + 1)
  {
    hide Stands;
  }
}
