/** Strings as Python and C handle them: two-character replacement and splitting at a separator. */
module Text {

  /** Python's str.replace for a needle of two characters, scanning left to right. */
  function ReplacePair(s: string, c: char, d: char, w: string): (r: string)
  {
    if |s| < 2 then s
    else if s[0] == c && s[1] == d then w + ReplacePair(s[2..], c, d, w)
    else [s[0]] + ReplacePair(s[1..], c, d, w)
  }

  predicate HasPair(s: string, c: char, d: char)
  {
    exists i :: 0 <= i < |s| - 1 && s[i] == c && s[i + 1] == d
  }

  lemma HasPairSlice(s: string, a: nat, b: nat, c: char, d: char)
    requires a <= b <= |s|
    ensures HasPair(s[a..b], c, d) ==> HasPair(s, c, d)
  {
    if HasPair(s[a..b], c, d) {
      var i :| 0 <= i < |s[a..b]| - 1 && s[a..b][i] == c && s[a..b][i + 1] == d;
      assert s[a + i] == c && s[a + i + 1] == d;
    }
  }

  /** A replacement that begins with the needle's first character never changes the first character. */
  lemma ReplacePairHead(s: string, c: char, d: char, w: string)
    requires |w| > 0 && w[0] == c
    ensures |s| > 0 ==> |ReplacePair(s, c, d, w)| > 0 && ReplacePair(s, c, d, w)[0] == s[0]
    ensures |s| == 0 ==> ReplacePair(s, c, d, w) == ""
  {
  }

  /** A prefix that holds no needle, and does not end in its first character, passes through unchanged. */
  lemma {:induction false} ReplacePairPrefix(pre: string, s: string, c: char, d: char, w: string)
    requires !HasPair(pre, c, d)
    requires |pre| > 0 ==> pre[|pre| - 1] != c
    ensures ReplacePair(pre + s, c, d, w) == pre + ReplacePair(s, c, d, w)
  {
    if |pre| == 0 {
      assert pre + s == s;
    } else {
      var rest := pre[1..];
      assert (pre + s)[1..] == rest + s;
      if |pre| > 1 {
        assert (pre + s)[1] == pre[1];
        assert !(pre[0] == c && pre[1] == d);
        HasPairSlice(pre, 1, |pre|, c, d);
      }
      ReplacePairPrefix(rest, s, c, d, w);
      assert [pre[0]] + (rest + ReplacePair(s, c, d, w)) == pre + ReplacePair(s, c, d, w);
    }
  }

  /** Without the needle there is nothing to replace. */
  lemma {:induction false} ReplacePairNone(s: string, c: char, d: char, w: string)
    requires !HasPair(s, c, d)
    ensures ReplacePair(s, c, d, w) == s
  {
    if |s| >= 2 {
      assert s == [s[0]] + s[1..];
      HasPairSlice(s, 1, |s|, c, d);
      assert !(s[0] == c && s[1] == d);
      ReplacePairNone(s[1..], c, d, w);
    }
  }

  /** Position of the first `c`, or the length when there is none. */
  function IndexOf(s: string, c: char): (i: nat)
    ensures i <= |s|
    ensures c !in s[..i]
    ensures i < |s| ==> s[i] == c
  {
    IndexFrom(s, c, 0)
  }

  function IndexFrom(s: string, c: char, from: nat): (i: nat)
    requires from <= |s|
    ensures from <= i <= |s|
    ensures c !in s[from..i]
    ensures i < |s| ==> s[i] == c
    decreases |s| - from
  {
    if from == |s| || s[from] == c then from else IndexFrom(s, c, from + 1)
  }

  /** Where the first separator is, from what surrounds it. */
  lemma IndexOfAt(s: string, c: char, i: nat)
    requires i <= |s|
    requires c !in s[..i]
    requires i < |s| ==> s[i] == c
    ensures IndexOf(s, c) == i
  {
    forall k | 0 <= k < i ensures s[k] != c {
      assert s[..i][k] == s[k];
    }
  }
}
