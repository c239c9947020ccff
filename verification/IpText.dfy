/** Addresses as text (netfind_types.c nf_mac2str and nf_ip62str; sections 4.1 to 4.3 of RFC 5952). */
module IpText {
  import opened Bytes
  import opened Split
  import opened Wrappers

  /** An IPv6 address as its eight groups. */
  type Words = w: seq<nat> | |w| == 8 && forall i :: 0 <= i < 8 ==> w[i] < 0x10000
    witness [0, 0, 0, 0, 0, 0, 0, 0]

  type Ip6 = a: seq<byte> | |a| == 16 witness seq(16, _ => 0)

  function WordsOf(a: Ip6): Words
  {
    var w := seq(8, i requires 0 <= i < 8 => U16(a[i * 2], a[i * 2 + 1]));
    w
  }

  lemma WordsDetermineBytes(a: Ip6, b: Ip6)
    requires WordsOf(a) == WordsOf(b)
    ensures a == b
  {
    forall i | 0 <= i < 8 ensures a[i * 2] == b[i * 2] && a[i * 2 + 1] == b[i * 2 + 1] {
      assert WordsOf(a)[i] == WordsOf(b)[i];
    }
    forall k | 0 <= k < 16 ensures a[k] == b[k] {
      assert k == k / 2 * 2 || k == k / 2 * 2 + 1;
    }
  }

  // ---------- The run of zeros to leave out ----------

  predicate ZeroRun(w: Words, i: int, j: int)
  {
    0 <= i <= j <= 8 && forall k :: i <= k < j ==> w[k] == 0
  }

  /** The first longest run of at least two zeros, or nothing. */
  ghost predicate BestRun(w: Words, a: int, b: int)
  {
    && ZeroRun(w, a, b) && ((a == 0 && b == 0) || b - a >= 2)
    && forall i, j :: ZeroRun(w, i, j) && j - i >= 2 ==> j - i < b - a || (j - i == b - a && a <= i)
  }

  lemma BestRunIsUnique(w: Words, a: int, b: int, c: int, d: int)
    requires BestRun(w, a, b) && BestRun(w, c, d)
    ensures a == c && b == d
  {
    assert ZeroRun(w, a, b) && ZeroRun(w, c, d);
  }

  function WordAt(w: Words, b: nat): nat
  {
    if b < 8 then w[b] else 1
  }

  /** The detection loop: `a` is where the run being read starts, or -1. */
  method FindRun(w: Words) returns (runA: int, runB: int)
    ensures BestRun(w, runA, runB)
  {
    runA, runB := 0, 0;
    var a, b := 0, 0;
    while b < 9
      invariant 0 <= b <= 9 && -1 <= a <= b && ZeroRun(w, runA, runB) && runB <= b
      invariant runA == runB ==> runA == 0
      invariant a == -1 ==> b > 0 && WordAt(w, b - 1) != 0
      invariant a >= 0 ==> b <= 8 && runB <= a && ZeroRun(w, a, b) && (a > 0 ==> w[a - 1] != 0)
      invariant forall i, j :: ZeroRun(w, i, j) && i < j <= b && (a == -1 || i < a) ==>
                  j - i < runB - runA || (j - i == runB - runA && runA <= i)
    {
      var word := if b < 8 then w[b] else 1;
      if word != 0 {
        if a != -1 && b - a > runB - runA {
          runA, runB := a, b;
        }
        a := -1;
      } else if a == -1 {
        a := b;
      }
      b := b + 1;
    }
    if runB == runA + 1 {
      runA, runB := 0, 0;
    }
  }

  // ---------- The text ----------

  /** printf's "%x". */
  function Hex(n: nat): (s: string)
    ensures |s| >= 1
  {
    if n < 16 then [HexDigit(n)] else Hex(n / 16) + [HexDigit(n % 16)]
  }

  function HexAll(ws: seq<nat>): (r: seq<string>)
    ensures |r| == |ws|
  {
    seq(|ws|, i requires 0 <= i < |ws| => Hex(ws[i]))
  }

  function Groups(ws: seq<nat>): string
  {
    Join(HexAll(ws), ':')
  }

  /** What the writing loop adds for group `i`. */
  function Piece(w: Words, a: int, b: int, i: nat): string
    requires i < 8
  {
    if a <= i < b then (if i == a then "::" else "")
    else (if i > 0 && i != b then ":" else "") + Hex(w[i])
  }

  /** What it adds from group `i` on. */
  function TextFrom(w: Words, a: int, b: int, i: nat): string
    requires i <= 8
    decreases 8 - i
  {
    if i == 8 then "" else Piece(w, a, b, i) + TextFrom(w, a, b, i + 1)
  }

  function Text(w: Words, a: int, b: int): string
    requires 0 <= a <= b <= 8
  {
    if a == b then Groups(w) else Groups(w[..a]) + ("::" + Groups(w[b..]))
  }

  lemma GroupsCons(x: nat, ws: seq<nat>)
    ensures Groups([x] + ws) == Hex(x) + (if ws == [] then "" else ":" + Groups(ws))
  {
    assert HexAll([x] + ws) == [Hex(x)] + HexAll(ws);
    assert ([Hex(x)] + HexAll(ws))[1..] == HexAll(ws);
    if ws != [] {
      assert Hex(x) + [':'] + Groups(ws) == Hex(x) + (":" + Groups(ws));
    }
  }

  lemma TextStep(w: Words, a: int, b: int, i: nat)
    requires i < 8
    ensures TextFrom(w, a, b, i) == Piece(w, a, b, i) + TextFrom(w, a, b, i + 1)
  {
  }

  lemma Regroup2(p: string, q: string, r: string)
    ensures p + q + r == p + (q + r)
  {
  }

  lemma NoGroups()
    ensures Groups([]) == ""
  {
  }

  lemma {:induction false} TextAfter(w: Words, a: int, b: int, i: nat)
    requires 0 <= a <= b <= i <= 8
    ensures TextFrom(w, a, b, i) == (if 0 < i < 8 && i != b then ":" else "") + Groups(w[i..])
    decreases 8 - i
  {
    if i < 8 {
      hide Groups, Hex;
      var more := w[i + 1..];
      TextAfter(w, a, b, i + 1);
      hide TextFrom;
      assert w[i..] == [w[i]] + more;
      GroupsCons(w[i], more);
      NoGroups();
      TextStep(w, a, b, i);
      Regroup2(if i > 0 && i != b then ":" else "", Hex(w[i]), TextFrom(w, a, b, i + 1));
    }
  }

  lemma {:induction false} TextWithin(w: Words, a: int, b: int, i: nat)
    requires 0 <= a < i <= b <= 8
    ensures TextFrom(w, a, b, i) == Groups(w[b..])
    decreases b - i
  {
    if i < b {
      TextWithin(w, a, b, i + 1);
    } else {
      TextAfter(w, a, b, b);
    }
  }

  lemma {:induction false} TextBefore(w: Words, a: int, b: int, i: nat)
    requires 0 <= i <= a < b <= 8
    ensures TextFrom(w, a, b, i) == (if 0 < i < a then ":" else "") + Groups(w[i..a]) + ("::" + Groups(w[b..]))
    decreases a - i
  {
    if i == a {
      TextWithin(w, a, b, a + 1);
      assert w[a..a] == [];
    } else {
      hide Groups, Hex;
      TextBefore(w, a, b, i + 1);
      var more := w[i + 1..a];
      assert w[i..a] == [w[i]] + more;
      GroupsCons(w[i], more);
      Regroup(if i > 0 then ":" else "", Hex(w[i]), if more == [] then "" else ":", Groups(more),
              "::" + Groups(w[b..]));
    }
  }

  lemma Regroup(p: string, q: string, r: string, s: string, t: string)
    ensures p + q + (r + s + t) == p + (q + (r + s)) + t
  {
  }

  /** The loop writes the groups around the run. */
  lemma TextWritten(w: Words, a: int, b: int)
    requires 0 <= a <= b <= 8 && (a == b ==> a == 0)
    ensures TextFrom(w, a, b, 0) == Text(w, a, b)
  {
    hide Groups, TextFrom;
    if a == b {
      TextAfter(w, 0, 0, 0);
      assert w[0..] == w;
    } else {
      TextBefore(w, a, b, 0);
      assert w[0..a] == w[..a];
    }
  }

  // ---------- Reading it back ----------

  predicate AllHex(s: string)
  {
    forall i :: 0 <= i < |s| ==> DigitValue(s[i]) >= 0
  }

  function HexValue(s: string): nat
    requires AllHex(s)
  {
    if s == "" then 0 else HexValue(s[..|s| - 1]) * 16 + DigitValue(s[|s| - 1])
  }

  /** A group is one to four hexadecimal digits. */
  function ParseGroup(s: string): Option<nat>
  {
    if 1 <= |s| <= 4 && AllHex(s) then Some(HexValue(s)) else None
  }

  function ParseAll(parts: seq<string>): Option<seq<nat>>
  {
    if parts == [] then Some([])
    else
      match (ParseGroup(parts[0]), ParseAll(parts[1..]))
      case (Some(x), Some(xs)) => Some([x] + xs)
      case _ => None
  }

  /** Groups between colons; an empty text holds none. */
  function ParseGroups(s: string): Option<seq<nat>>
  {
    if s == "" then Some([]) else ParseAll(Parts(s, ':', 9))
  }

  function Double(s: string): (k: nat)
    ensures k <= |s|
  {
    if |s| < 2 then |s|
    else if s[0] == ':' && s[1] == ':' then 0
    else Double(s[1..]) + 1
  }

  /** The forms 1 and 2 of section 2.2 of RFC 4291: eight groups, or fewer around one "::". */
  function Parse(s: string): Option<seq<nat>>
  {
    var k := Double(s);
    if k + 2 <= |s| then
      match (ParseGroups(s[..k]), ParseGroups(s[k + 2..]))
      case (Some(left), Some(right)) =>
        var n := |left| + |right|;
        if n < 8 then Some(left + seq(8 - n, _ => 0) + right) else None
      case _ => None
    else
      match ParseGroups(s)
      case Some(all) => if |all| == 8 then Some(all) else None
      case None => None
  }

  predicate IsLower(s: string)
  {
    forall i :: 0 <= i < |s| ==> '0' <= s[i] <= '9' || 'a' <= s[i] <= 'f'
  }

  lemma {:induction false} HexShape(n: nat)
    ensures AllHex(Hex(n)) && IsLower(Hex(n)) && HexValue(Hex(n)) == n
    ensures Hex(n)[0] == '0' ==> n == 0 && |Hex(n)| == 1
    ensures n < 0x10 ==> |Hex(n)| == 1
    ensures n < 0x100 ==> |Hex(n)| <= 2
    ensures n < 0x1000 ==> |Hex(n)| <= 3
    ensures n < 0x10000 ==> |Hex(n)| <= 4
    decreases n
  {
    if n < 16 {
      DigitRoundTrip(n);
      assert Hex(n)[..0] == "";
    } else {
      HexShape(n / 16);
      DigitRoundTrip(n % 16);
      assert Hex(n)[..|Hex(n)| - 1] == Hex(n / 16);
    }
  }

  predicate Fits(ws: seq<nat>)
  {
    forall i :: 0 <= i < |ws| ==> ws[i] < 0x10000
  }

  lemma HexAllFree(ws: seq<nat>)
    ensures forall i :: 0 <= i < |ws| ==> ':' !in HexAll(ws)[i]
  {
    forall i | 0 <= i < |ws| ensures ':' !in HexAll(ws)[i] {
      HexShape(ws[i]);
    }
  }

  lemma {:induction false} AllParsed(ws: seq<nat>)
    requires Fits(ws)
    ensures ParseAll(HexAll(ws)) == Some(ws)
  {
    if ws != [] {
      HexShape(ws[0]);
      AllParsed(ws[1..]);
      assert HexAll(ws)[1..] == HexAll(ws[1..]);
      assert ws == [ws[0]] + ws[1..];
    }
  }

  lemma GroupsParsed(ws: seq<nat>)
    requires Fits(ws) && |ws| <= 9
    ensures ParseGroups(Groups(ws)) == Some(ws)
  {
    if ws != [] {
      HexAllFree(ws);
      JoinedParts(HexAll(ws), ':', 9);
      GroupsEnds(ws);
      AllParsed(ws);
    }
  }

  /** No two colons meet, and none is last. */
  predicate Single(s: string)
  {
    && (forall i :: 0 <= i < |s| - 1 ==> s[i] != ':' || s[i + 1] != ':')
    && (s != "" ==> s[|s| - 1] != ':')
  }

  lemma {:induction false} GroupsEnds(ws: seq<nat>)
    ensures ws != [] ==> Groups(ws) != "" && Groups(ws)[0] != ':'
    ensures Single(Groups(ws))
  {
    if ws != [] {
      var x, more := Hex(ws[0]), ws[1..];
      HexShape(ws[0]);
      GroupsEnds(more);
      assert ws == [ws[0]] + more;
      GroupsCons(ws[0], more);
      assert forall i :: 0 <= i < |x| ==> x[i] != ':';
      SingleJoined(x, Groups(more));
    }
  }

  lemma SingleJoined(x: string, rest: string)
    requires x != "" && (forall i :: 0 <= i < |x| ==> x[i] != ':') && Single(rest)
    requires rest != "" ==> rest[0] != ':'
    ensures rest != "" ==> Single(x + (":" + rest))
  {
    var s := x + (":" + rest);
    assert forall i :: 0 <= i < |x| ==> s[i] == x[i];
    assert forall i :: |x| < i < |s| ==> s[i] == rest[i - |x| - 1];
  }

  lemma {:induction false} DoubleFound(s: string, rest: string)
    requires Single(s)
    ensures Double(s + ("::" + rest)) == |s|
  {
    if s != "" {
      assert (s + ("::" + rest))[1..] == s[1..] + ("::" + rest);
      DoubleFound(s[1..], rest);
    }
  }

  lemma {:induction false} NoDouble(s: string)
    requires Single(s)
    ensures Double(s) == |s|
  {
    if |s| >= 2 {
      NoDouble(s[1..]);
    }
  }

  /** The text of an address, read by the standard's rules, is the address. */
  lemma TextRoundTrip(w: Words, a: int, b: int)
    requires BestRun(w, a, b)
    ensures Parse(Text(w, a, b)) == Some(w)
  {
    hide Groups, ParseGroups, Double, Single;
    assert Fits(w) && ZeroRun(w, a, b);
    if a == b {
      GroupsEnds(w);
      NoDouble(Groups(w));
      GroupsParsed(w);
    } else {
      var left, right := w[..a], w[b..];
      var s := Groups(left) + ("::" + Groups(right));
      GroupsEnds(left);
      DoubleFound(Groups(left), Groups(right));
      assert s[..|Groups(left)|] == Groups(left) && s[|Groups(left)| + 2..] == Groups(right);
      GroupsParsed(left);
      GroupsParsed(right);
      assert w == left + seq(b - a, _ => 0) + right;
    }
  }

  lemma {:induction false} GroupsLength(ws: seq<nat>)
    requires Fits(ws)
    ensures |Groups(ws)| <= if ws == [] then 0 else 5 * |ws| - 1
  {
    if ws != [] {
      HexShape(ws[0]);
      GroupsLength(ws[1..]);
      assert ws == [ws[0]] + ws[1..];
      GroupsCons(ws[0], ws[1..]);
    }
  }

  /** The text always fits a buffer of 40 with its NUL. */
  lemma TextLength(w: Words, a: int, b: int)
    requires 0 <= a <= b <= 8 && (a == b || b - a >= 2)
    ensures |Text(w, a, b)| <= 39
  {
    GroupsLength(w[..a]);
    GroupsLength(w[b..]);
    GroupsLength(w);
  }

  /** Different addresses have different texts. */
  lemma TextIsInjective(p: Ip6, q: Ip6, a: int, b: int, c: int, d: int)
    ensures (BestRun(WordsOf(p), a, b) && BestRun(WordsOf(q), c, d)
             && Text(WordsOf(p), a, b) == Text(WordsOf(q), c, d)) ==> p == q
  {
    hide Text, BestRun, WordsOf;
    if BestRun(WordsOf(p), a, b) && BestRun(WordsOf(q), c, d) {
      BestRunBounds(WordsOf(p), a, b);
      BestRunBounds(WordsOf(q), c, d);
      TextRoundTrip(WordsOf(p), a, b);
      TextRoundTrip(WordsOf(q), c, d);
      if Text(WordsOf(p), a, b) == Text(WordsOf(q), c, d) {
        WordsDetermineBytes(p, q);
      }
    }
  }

  // ---------- Writing it ----------

  /** sprintf of a given text at a place in the buffer. */
  method PutText(buf: array<char>, pos: nat, s: string) returns (next: nat)
    requires pos + |s| <= buf.Length
    modifies buf
    ensures next == pos + |s| && buf[..next] == old(buf[..pos]) + s
  {
    var i := 0;
    while i < |s|
      invariant 0 <= i <= |s| && buf[..pos + i] == old(buf[..pos]) + s[..i]
    {
      buf[pos + i] := s[i];
      i := i + 1;
    }
    next := pos + |s|;
  }

  /** nf_mac2str; a NUL separator stands for none. */
  method Mac2Str(buf: array<char>, mac: Mac, sep: char) returns (end: nat)
    requires buf.Length >= 18
    modifies buf
    ensures end < buf.Length && buf[..end] == BytesText(mac, if sep == '\0' then [] else [sep]) && buf[end] == '\0'
  {
    ghost var between := if sep == '\0' then [] else [sep];
    var pos, i := 0, 0;
    while i < 6
      invariant 0 <= i <= 6 && 0 <= pos <= (if i == 0 then 0 else 3 * i - 1)
      invariant buf[..pos] == BytesText(mac[..i], between)
    {
      assert mac[..i + 1][..i] == mac[..i];
      if i > 0 && sep != '\0' {
        pos := PutText(buf, pos, [sep]);
      }
      pos := PutText(buf, pos, Hex2(mac[i]));
      i := i + 1;
    }
    assert mac[..6] == mac;
    end := pos;
    buf[end] := '\0';
  }

  method PutPiece(buf: array<char>, pos: nat, w: Words, a: int, b: int, i: nat) returns (next: nat)
    requires i < 8 && pos + |Piece(w, a, b, i)| <= buf.Length
    modifies buf
    ensures next == pos + |Piece(w, a, b, i)| && buf[..next] == old(buf[..pos]) + Piece(w, a, b, i)
  {
    hide Hex;
    next := pos;
    if a <= i < b {
      if i == a {
        next := PutText(buf, next, "::");
      }
    } else {
      if i > 0 && i != b {
        next := PutText(buf, next, ":");
      }
      next := PutText(buf, next, Hex(w[i]));
    }
  }

  /** nf_ip62str: the buffer holds the text around the best run, and a NUL. */
  method Ip62Str(buf: array<char>, ip6: Ip6) returns (end: nat, ghost a: int, ghost b: int)
    requires buf.Length >= 40
    modifies buf
    ensures BestRun(WordsOf(ip6), a, b)
    ensures end < buf.Length && buf[..end] == Text(WordsOf(ip6), a, b) && buf[end] == '\0'
  {
    hide Piece, Text, BestRun;
    var w := WordsOf(ip6);
    var runA, runB := FindRun(w);
    a, b := runA, runB;
    BestRunBounds(w, a, b);
    TextWritten(w, a, b);
    TextLength(w, a, b);
    var pos, i := 0, 0;
    while i < 8
      invariant 0 <= i <= 8 && 0 <= pos <= buf.Length
      invariant buf[..pos] + TextFrom(w, a, b, i) == Text(w, a, b)
    {
      ghost var was := buf[..pos];
      pos := PutPiece(buf, pos, w, runA, runB, i);
      assert was + (Piece(w, a, b, i) + TextFrom(w, a, b, i + 1)) == buf[..pos] + TextFrom(w, a, b, i + 1);
      i := i + 1;
    }
    end := pos;
    buf[pos] := '\0';
  }

  lemma BestRunBounds(w: Words, a: int, b: int)
    requires BestRun(w, a, b)
    ensures 0 <= a <= b <= 8 && (a == b ==> a == 0) && (a == b || b - a >= 2)
  {
    assert ZeroRun(w, a, b);
  }
}
