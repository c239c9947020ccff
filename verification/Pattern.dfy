/** Topic wildcards (proto/pattern.py): the compiled regular expression, and what it means. */
module Pattern {
  import opened Text
  import opened Wrappers

  // ---------- The regular expression, as text ----------

  /** The text that `init_regex` stores: anchors first, then the two replacements in order. */
  function InitRegex(p: string): string
  {
    var anchored := "^" + p + "$";
    var plus := ReplacePair(anchored, '/', '+', "/[^/]+?");
    ReplacePair(plus, '/', '#', "/.+?")
  }

  // ---------- Reading that text as a regular expression ----------

  /** One character; one or more characters other than '/'; one or more characters other than newline. */
  datatype Token = Lit(c: char) | SegPlus | AnyPlus

  /** Characters with a meaning of their own in a regular expression. */
  predicate IsMeta(c: char)
  {
    || c == '.' || c == '^' || c == '$' || c == '*' || c == '+' || c == '?' || c == '|'
    || c == '(' || c == ')' || c == '[' || c == ']' || c == '{' || c == '}' || c == '\\'
  }

  /** Reads the forms these patterns produce up to the closing anchor; anything else is None. */
  function ReadTokens(r: string): Option<seq<Token>>
  {
    if r == "$" then Some([])
    else if r == "" then None
    else if "[^/]+?" <= r then Prepend(SegPlus, ReadTokens(r[6..]))
    else if ".+?" <= r then Prepend(AnyPlus, ReadTokens(r[3..]))
    else if IsMeta(r[0]) then None
    else Prepend(Lit(r[0]), ReadTokens(r[1..]))
  }

  function Prepend(t: Token, ts: Option<seq<Token>>): Option<seq<Token>>
  {
    match ts
    case None => None
    case Some(v) => Some([t] + v)
  }

  function ReadRegex(r: string): Option<seq<Token>>
  {
    if r != "" && r[0] == '^' then ReadTokens(r[1..]) else None
  }

  /** Backtracking search, shortest repetition first. The closing anchor also matches just before a
      newline that ends the text, and '.' does not match a newline. */
  predicate MatchTokens(ts: seq<Token>, s: string)
    decreases |ts| + |s|
  {
    if ts == [] then s == "" || s == "\n"
    else if s == "" then false
    else match ts[0]
      case Lit(c) => s[0] == c && MatchTokens(ts[1..], s[1..])
      case SegPlus => s[0] != '/' && (MatchTokens(ts[1..], s[1..]) || MatchTokens(ts, s[1..]))
      case AnyPlus => s[0] != '\n' && (MatchTokens(ts[1..], s[1..]) || MatchTokens(ts, s[1..]))
  }

  /** `Pattern.matches` on a topic. */
  predicate Matches(p: string, topic: string)
  {
    var ts := ReadRegex(InitRegex(p));
    ts.Some? && MatchTokens(ts.value, topic)
  }

  /** A pattern with its compiled form, built on the first match. */
  class Wildcard {
    const text: string
    var regex: Option<string>

    ghost predicate Valid()
      reads this
    {
      regex.Some? ==> regex.value == InitRegex(text)
    }

    constructor (text: string)
      ensures Valid() && this.text == text && regex.None?
    {
      this.text, regex := text, None;
    }

    method Init()
      requires Valid()
      modifies this`regex
      ensures regex == Some(InitRegex(text))
    {
      if regex.Some? {
        return;
      }
      var r := "^" + text + "$";
      r := ReplacePair(r, '/', '+', "/[^/]+?");
      r := ReplacePair(r, '/', '#', "/.+?");
      regex := Some(r);
    }

    /** The answer does not depend on whether the pattern was compiled before. */
    method MatchesTopic(topic: string) returns (r: bool)
      requires Valid()
      modifies this`regex
      ensures Valid() && r == Matches(text, topic)
    {
      Init();
      var ts := ReadRegex(regex.value);
      r := ts.Some? && MatchTokens(ts.value, topic);
    }
  }

  // ---------- The alphabet the compiler assumes ----------

  /** '+' is used only as a wildcard, right after '/'; no other character is special to a regular expression. */
  predicate Plain(p: string)
  {
    forall i :: 0 <= i < |p| && IsMeta(p[i]) ==> p[i] == '+' && i > 0 && p[i - 1] == '/'
  }

  /** The multi-level wildcard only ends a pattern. */
  predicate HashLast(p: string)
  {
    forall i :: 0 <= i < |p| - 1 && p[i] == '/' && p[i + 1] == '#' ==> i + 2 == |p|
  }

  /** What is_valid leaves of a SUB, GET, UNSUB or DEL topic, over the plain alphabet. */
  predicate WellFormed(p: string)
  {
    && p != "" && p[0] == '/'
    && Plain(p)
    && HashLast(p)
  }

  /** The tokens of a pattern, read off the pattern itself. */
  function Tokens(p: string): seq<Token>
  {
    if p == "" then []
    else if "/+" <= p then [Lit('/'), SegPlus] + Tokens(p[2..])
    else if "/#" <= p then [Lit('/'), AnyPlus] + Tokens(p[2..])
    else [Lit(p[0])] + Tokens(p[1..])
  }

  // ---------- Compilation is correct ----------

  /** Plain, except that the first character may also be a '+' already consumed by a wildcard. */
  lemma PlainTail(p: string, n: nat)
    requires Plain(p) && n <= |p|
    requires n < |p| && n > 0 && p[n] == '+' ==> p[n - 1] != '/'
    ensures Plain(p[n..])
  {
    forall i | 0 <= i < |p[n..]| && IsMeta(p[n..][i])
      ensures p[n..][i] == '+' && i > 0 && p[n..][i - 1] == '/'
    {
      assert p[n..][i] == p[n + i];
      if i > 0 {
        assert p[n..][i - 1] == p[n + i - 1];
      }
    }
  }

  /** The text compiled from `p`, without the opening anchor. */
  function Body(p: string): string
  {
    ReplacePair(ReplacePair(p + "$", '/', '+', "/[^/]+?"), '/', '#', "/.+?")
  }

  lemma BodyPlus(q: string)
    ensures Body("/+" + q) == "/[^/]+?" + Body(q)
  {
    var inner := ReplacePair(q + "$", '/', '+', "/[^/]+?");
    assert ("/+" + q + "$")[2..] == q + "$";
    assert ReplacePair("/+" + q + "$", '/', '+', "/[^/]+?") == "/[^/]+?" + inner;
    ReplacePairPrefix("/[^/]+?", inner, '/', '#', "/.+?");
  }

  lemma BodyHash(q: string)
    ensures Body("/#" + q) == "/.+?" + Body(q)
  {
    var inner := ReplacePair(q + "$", '/', '+', "/[^/]+?");
    var s := "/#" + q + "$";
    ReplacePairPrefix("/#", q + "$", '/', '+', "/[^/]+?");
    assert s == "/#" + (q + "$");
    assert ("/#" + inner)[2..] == inner;
  }

  lemma BodyOther(c: char, q: string)
    requires !("/+" <= [c] + q) && !("/#" <= [c] + q)
    ensures Body([c] + q) == [c] + Body(q)
  {
    var s := [c] + q + "$";
    var inner := ReplacePair(q + "$", '/', '+', "/[^/]+?");
    assert s[1..] == q + "$";
    assert s[1] == if q == "" then '$' else q[0];
    assert q != "" ==> ([c] + q)[1] == q[0];
    assert ReplacePair(s, '/', '+', "/[^/]+?") == [c] + inner;
    ReplacePairHead(q + "$", '/', '+', "/[^/]+?");
    assert ([c] + inner)[1] == s[1];
    assert ([c] + inner)[1..] == inner;
  }

  lemma ReadPlus(b: string, ts: seq<Token>)
    requires ReadTokens(b) == Some(ts)
    ensures ReadTokens("/[^/]+?" + b) == Some([Lit('/'), SegPlus] + ts)
  {
    var s := "[^/]+?" + b;
    assert s[6..] == b;
    assert ReadTokens(s) == Some([SegPlus] + ts);
    assert "/[^/]+?" + b == ['/'] + s;
    ReadLit('/', s, [SegPlus] + ts);
    assert [Lit('/')] + ([SegPlus] + ts) == [Lit('/'), SegPlus] + ts;
  }

  lemma ReadHash(b: string, ts: seq<Token>)
    requires ReadTokens(b) == Some(ts)
    ensures ReadTokens("/.+?" + b) == Some([Lit('/'), AnyPlus] + ts)
  {
    var s := ".+?" + b;
    assert s[3..] == b && s[0] == '.';
    assert ReadTokens(s) == Some([AnyPlus] + ts);
    assert "/.+?" + b == ['/'] + s;
    ReadLit('/', s, [AnyPlus] + ts);
    assert [Lit('/')] + ([AnyPlus] + ts) == [Lit('/'), AnyPlus] + ts;
  }

  lemma ReadLit(c: char, b: string, ts: seq<Token>)
    requires ReadTokens(b) == Some(ts) && !IsMeta(c)
    ensures ReadTokens([c] + b) == Some([Lit(c)] + ts)
  {
    var s := [c] + b;
    assert s[0] == c && s[1..] == b;
  }

  lemma {:induction false} ReadBody(p: string)
    requires Plain(p)
    ensures ReadTokens(Body(p)) == Some(Tokens(p))
    decreases |p|
  {
    if p == "" {
      assert p + "$" == "$";
    } else if "/+" <= p {
      var q := p[2..];
      assert p == "/+" + q;
      PlainTail(p, 2);
      ReadBody(q);
      BodyPlus(q);
      ReadPlus(Body(q), Tokens(q));
    } else if "/#" <= p {
      var q := p[2..];
      assert p == "/#" + q;
      PlainTail(p, 2);
      ReadBody(q);
      BodyHash(q);
      ReadHash(Body(q), Tokens(q));
    } else {
      var c, q := p[0], p[1..];
      assert p == [c] + q;
      PlainTail(p, 1);
      ReadBody(q);
      BodyOther(c, q);
      ReadLit(c, Body(q), Tokens(q));
    }
  }

  /** For a plain pattern the stored regular expression is well formed and is the intended token list. */
  lemma CompiledTokens(p: string)
    requires Plain(p)
    ensures ReadRegex(InitRegex(p)) == Some(Tokens(p))
  {
    var s := "^" + p + "$";
    var inner := ReplacePair(p + "$", '/', '+', "/[^/]+?");
    assert s == "^" + (p + "$");
    ReplacePairPrefix("^", p + "$", '/', '+', "/[^/]+?");
    ReplacePairPrefix("^", inner, '/', '#', "/.+?");
    assert InitRegex(p) == "^" + Body(p);
    assert InitRegex(p)[1..] == Body(p);
    ReadBody(p);
  }

  // ---------- What matching means, segment by segment ----------

  /** `+` followed by literal text takes at least one character before that text. */
  predicate SegmentMatches(p: string, t: string)
  {
    if p != "" && p[0] == '+' then |t| >= |p| && t[|t| - (|p| - 1)..] == p[1..] else p == t
  }

  /** The segments after a '/': pairwise, with a final "#" taking any remainder that is not empty. */
  predicate TailMatches(p: string, t: string)
    decreases |p|
  {
    if p == "#" then t != ""
    else
      var i, j := IndexOf(p, '/'), IndexOf(t, '/');
      && SegmentMatches(p[..i], t[..j])
      && (i < |p| <==> j < |t|)
      && (i < |p| && j < |t| ==> TailMatches(p[i + 1..], t[j + 1..]))
  }

  /** The intended meaning of a wildcard pattern: nothing stands before the first '/'. */
  predicate Covers(p: string, topic: string)
    requires p != "" && p[0] == '/'
  {
    topic != "" && topic[0] == '/' && TailMatches(p[1..], topic[1..])
  }

  function Lits(w: string): seq<Token>
  {
    if w == "" then [] else [Lit(w[0])] + Lits(w[1..])
  }

  lemma {:induction false} MatchLits(w: string, r: seq<Token>, s: string)
    ensures MatchTokens(Lits(w) + r, s) <==> w <= s && MatchTokens(r, s[|w|..])
    decreases |w|
  {
    if w == "" {
      assert Lits(w) + r == r && s[0..] == s;
    } else {
      var ts := Lits(w) + r;
      assert ts[0] == Lit(w[0]) && ts[1..] == Lits(w[1..]) + r;
      if s != "" {
        MatchLits(w[1..], r, s[1..]);
        if w[0] == s[0] && w[1..] <= s[1..] {
          assert w == [w[0]] + w[1..] && s == [s[0]] + s[1..];
          assert s[1..][|w[1..]|..] == s[|w|..];
        }
        if w <= s {
          assert w[1..] <= s[1..];
          assert s[1..][|w[1..]|..] == s[|w|..];
        }
      }
    }
  }

  lemma SegPlusStep(r: seq<Token>, s: string)
    ensures MatchTokens([SegPlus] + r, s) <==>
            s != "" && s[0] != '/' && (MatchTokens(r, s[1..]) || MatchTokens([SegPlus] + r, s[1..]))
  {
    assert ([SegPlus] + r)[1..] == r;
  }

  /** `[^/]+?` followed by `r`: some non-empty run without '/' and then `r`. */
  lemma {:induction false} MatchSegPlus(r: seq<Token>, s: string)
    ensures MatchTokens([SegPlus] + r, s) <==>
            exists k :: 1 <= k <= |s| && '/' !in s[..k] && MatchTokens(r, s[k..])
    decreases |s|
  {
    SegPlusStep(r, s);
    hide MatchTokens;
    if s != "" {
      MatchSegPlus(r, s[1..]);
      if s[0] != '/' && MatchTokens(r, s[1..]) {
        assert '/' !in s[..1];
      }
      if s[0] != '/' && MatchTokens([SegPlus] + r, s[1..]) {
        var k :| 1 <= k <= |s[1..]| && '/' !in s[1..][..k] && MatchTokens(r, s[1..][k..]);
        assert s[..k + 1] == [s[0]] + s[1..][..k];
        assert s[1..][k..] == s[k + 1..];
      }
      if k :| 1 <= k <= |s| && '/' !in s[..k] && MatchTokens(r, s[k..]) {
        assert s[..k][0] == s[0];
        if k > 1 {
          assert s[1..][k - 1..] == s[k..];
          assert s[..k] == [s[0]] + s[1..][..k - 1];
        }
      }
    }
  }

  /** `.+?` at the end takes anything that is not empty, when there is no newline. */
  lemma {:induction false} MatchAnyLast(s: string)
    requires '\n' !in s
    ensures MatchTokens([AnyPlus], s) <==> s != ""
  {
    if s != "" {
      assert [AnyPlus][1..] == [];
      if |s| > 1 {
        MatchAnyLast(s[1..]);
      }
    }
  }

  /** Tokens of a segment that holds no '/', followed by the rest of the pattern. */
  lemma {:induction false} TokensSegment(w: string, q: string)
    requires '/' !in w
    requires q == "" || q[0] == '/'
    ensures Tokens(w + q) == Lits(w) + Tokens(q)
  {
    if w == "" {
      assert w + q == q;
    } else {
      assert (w + q)[0] == w[0] != '/';
      assert (w + q)[1..] == w[1..] + q;
      TokensSegment(w[1..], q);
      assert [Lit(w[0])] + (Lits(w[1..]) + Tokens(q)) == Lits(w) + Tokens(q);
    }
  }

  /** What a token list that starts a new segment, or ends, can match. */
  predicate AtBoundary(s: string)
  {
    s == "" || s[0] == '/'
  }

  lemma TokensNeedBoundary(q: string, s: string)
    requires AtBoundary(q) && '\n' !in s
    ensures MatchTokens(Tokens(q), s) ==> AtBoundary(s) && (q == "" <==> s == "")
  {
    if q != "" {
      assert Tokens(q)[0] == Lit('/');
    }
  }

  /** One literal segment of pattern, then the boundary. */
  lemma MatchLiteralSegment(w: string, q: string, t: string)
    requires '/' !in w && AtBoundary(q) && '\n' !in t
    ensures var i := IndexOf(t, '/');
            MatchTokens(Tokens(w + q), t) <==> w == t[..i] && MatchTokens(Tokens(q), t[i..])
  {
    TokensSegment(w, q);
    MatchLits(w, Tokens(q), t);
    if w <= t && MatchTokens(Tokens(q), t[|w|..]) {
      TokensNeedBoundary(q, t[|w|..]);
      assert t[..|w|] == w;
      IndexOfAt(t, '/', |w|);
    }
  }

  /** The text before the first '/' ends in `lit`, after at least one more character. */
  predicate EndsSegment(lit: string, t: string)
  {
    var i := IndexOf(t, '/');
    |lit| < i && t[i - |lit|..i] == lit
  }

  /** A wildcard run of length k, literal text and the boundary end exactly at the first '/'. */
  lemma PlusEndsAtSlash(lit: string, q: string, t: string, k: nat)
    requires '/' !in lit && AtBoundary(q) && '\n' !in t
    requires 1 <= k <= |t| && '/' !in t[..k] && lit <= t[k..] && MatchTokens(Tokens(q), t[k..][|lit|..])
    ensures EndsSegment(lit, t) && MatchTokens(Tokens(q), t[IndexOf(t, '/')..])
  {
    var e := k + |lit|;
    assert t[k..][|lit|..] == t[e..];
    TokensNeedBoundary(q, t[e..]);
    assert t[k..e] == t[k..][..|lit|];
    assert t[..e] == t[..k] + lit;
    IndexOfAt(t, '/', e);
  }

  lemma SegPlusRun(r: seq<Token>, t: string) returns (k: nat)
    requires MatchTokens([SegPlus] + r, t)
    ensures 1 <= k <= |t| && '/' !in t[..k] && MatchTokens(r, t[k..])
  {
    MatchSegPlus(r, t);
    k :| 1 <= k <= |t| && '/' !in t[..k] && MatchTokens(r, t[k..]);
  }

  lemma PlusSegmentOnlyIf(lit: string, q: string, t: string)
    requires '/' !in lit && AtBoundary(q) && '\n' !in t
    requires MatchTokens([SegPlus] + Tokens(lit + q), t)
    ensures EndsSegment(lit, t) && MatchTokens(Tokens(q), t[IndexOf(t, '/')..])
  {
    TokensSegment(lit, q);
    var k := SegPlusRun(Lits(lit) + Tokens(q), t);
    MatchLits(lit, Tokens(q), t[k..]);
    PlusEndsAtSlash(lit, q, t, k);
  }

  lemma PlusSegmentIf(lit: string, q: string, t: string)
    requires '/' !in lit && AtBoundary(q)
    requires EndsSegment(lit, t) && MatchTokens(Tokens(q), t[IndexOf(t, '/')..])
    ensures MatchTokens([SegPlus] + Tokens(lit + q), t)
  {
    TokensSegment(lit, q);
    var i := IndexOf(t, '/');
    var k := i - |lit|;
    assert t[k..] == lit + t[i..];
    MatchLits(lit, Tokens(q), t[k..]);
    assert t[k..][|lit|..] == t[i..];
    assert t[..k] <= t[..i];
    MatchSegPlus(Lits(lit) + Tokens(q), t);
  }

  lemma PlusSegment(lit: string, q: string, t: string)
    requires '/' !in lit && AtBoundary(q) && '\n' !in t
    ensures var i := IndexOf(t, '/');
            MatchTokens(AfterSlash(['+'] + lit + q), t)
            <==> SegmentMatches(['+'] + lit, t[..i]) && MatchTokens(Tokens(q), t[i..])
  {
    hide MatchTokens, Tokens;
    var i, w := IndexOf(t, '/'), ['+'] + lit;
    assert (w + q)[1..] == lit + q && w[1..] == lit;
    if MatchTokens(AfterSlash(w + q), t) {
      PlusSegmentOnlyIf(lit, q, t);
    }
    assert |lit| < i ==> t[..i][i - |lit|..] == t[i - |lit|..i];
    if SegmentMatches(w, t[..i]) && MatchTokens(Tokens(q), t[i..]) {
      PlusSegmentIf(lit, q, t);
    }
  }

  /** One segment of pattern, then the boundary. */
  lemma MatchOneSegment(w: string, q: string, t: string)
    requires '/' !in w && AtBoundary(q) && '\n' !in t
    requires w != "" ==> w[0] != '#'
    ensures var i := IndexOf(t, '/');
            MatchTokens(AfterSlash(w + q), t) <==> SegmentMatches(w, t[..i]) && MatchTokens(Tokens(q), t[i..])
  {
    hide MatchTokens, Tokens;
    if w != "" && w[0] == '+' {
      PlusSegment(w[1..], q, t);
      assert w == ['+'] + w[1..];
    } else {
      if w == "" {
        assert w + q == q;
      }
      MatchLiteralSegment(w, q, t);
    }
  }

  /** The tokens that follow a '/'. */
  function AfterSlash(p: string): seq<Token>
  {
    if p != "" && p[0] == '+' then [SegPlus] + Tokens(p[1..])
    else if p != "" && p[0] == '#' then [AnyPlus] + Tokens(p[1..])
    else Tokens(p)
  }

  lemma TokensSlash(p: string)
    ensures Tokens("/" + p) == [Lit('/')] + AfterSlash(p)
  {
    var s := "/" + p;
    assert s[1..] == p;
    if p != "" {
      assert s[1] == p[0] && s[2..] == p[1..];
      if p[0] == '+' {
        assert "/+" <= s;
        assert [Lit('/'), SegPlus] + Tokens(p[1..]) == [Lit('/')] + ([SegPlus] + Tokens(p[1..]));
      } else if p[0] == '#' {
        assert "/#" <= s && !("/+" <= s);
        assert [Lit('/'), AnyPlus] + Tokens(p[1..]) == [Lit('/')] + ([AnyPlus] + Tokens(p[1..]));
      }
    }
  }

  lemma HashAfterSlash(p: string, t: string)
    requires HashLast("/" + p) && '\n' !in t && p != "" && p[0] == '#'
    ensures MatchTokens(AfterSlash(p), t) <==> TailMatches(p, t)
  {
    assert ("/" + p)[0] == '/' && ("/" + p)[1] == '#';
    assert p == "#";
    assert AfterSlash(p) == [AnyPlus];
    MatchAnyLast(t);
  }

  /** After a segment: the tokens from the next '/' on. */
  lemma MatchFromSlash(p: string, i: nat, t: string, j: nat)
    requires i < |p| && p[i] == '/' && j <= |t| && (j < |t| ==> t[j] == '/')
    ensures MatchTokens(Tokens(p[i..]), t[j..]) <==> j < |t| && MatchTokens(AfterSlash(p[i + 1..]), t[j + 1..])
  {
    var q := p[i + 1..];
    assert p[i..] == "/" + q;
    TokensSlash(q);
    assert Tokens("/" + q)[1..] == AfterSlash(q);
    if j < |t| {
      assert t[j..][1..] == t[j + 1..];
    }
  }

  lemma MatchAtEnd(t: string, j: nat)
    requires '\n' !in t && j <= |t|
    ensures MatchTokens(Tokens(""), t[j..]) <==> j == |t|
  {
    assert j < |t| ==> t[j..][0] == t[j];
  }

  /** One step of the correspondence: the first segments, and what follows the next '/'. */
  lemma {:induction false} SegmentStep(p: string, t: string)
    requires '\n' !in t && (p != "" ==> p[0] != '#')
    ensures var i, j := IndexOf(p, '/'), IndexOf(t, '/');
            MatchTokens(AfterSlash(p), t) <==>
            (&& SegmentMatches(p[..i], t[..j])
             && (i < |p| <==> j < |t|)
             && (i < |p| && j < |t| ==> MatchTokens(AfterSlash(p[i + 1..]), t[j + 1..])))
  {
    var i, j := IndexOf(p, '/'), IndexOf(t, '/');
    assert p == p[..i] + p[i..];
    MatchOneSegment(p[..i], p[i..], t);
    if i < |p| {
      MatchFromSlash(p, i, t, j);
    } else {
      assert p[i..] == "";
      MatchAtEnd(t, j);
    }
  }

  lemma {:induction false} SegmentsAfterSlash(p: string, t: string)
    requires HashLast("/" + p) && '\n' !in t
    ensures MatchTokens(AfterSlash(p), t) <==> TailMatches(p, t)
    decreases |p|
  {
    if p != "" && p[0] == '#' {
      HashAfterSlash(p, t);
    } else {
      var i, j := IndexOf(p, '/'), IndexOf(t, '/');
      SegmentStep(p, t);
      if i < |p| && j < |t| {
        HashLastTail(p, i);
        SegmentsAfterSlash(p[i + 1..], t[j + 1..]);
      }
    }
  }

  lemma HashLastTail(p: string, i: nat)
    requires HashLast("/" + p) && i < |p| && p[i] == '/'
    ensures HashLast("/" + p[i + 1..])
  {
    var s, s' := "/" + p, "/" + p[i + 1..];
    forall k | 0 <= k < |s'| - 1 && s'[k] == '/' && s'[k + 1] == '#' ensures k + 2 == |s'| {
      assert s'[k] == s[i + 1 + k] && s'[k + 1] == s[i + 1 + k + 1];
    }
  }

  /** For every well-formed pattern and every topic without a newline, the compiled regular
      expression matches exactly the topics whose segments match. */
  lemma RegexMeansSegments(p: string, topic: string)
    requires WellFormed(p) && '\n' !in topic
    ensures Matches(p, topic) <==> Covers(p, topic)
  {
    CompiledTokens(p);
    assert p == "/" + p[1..];
    TokensSlash(p[1..]);
    var ts := Tokens(p);
    assert ts[1..] == AfterSlash(p[1..]);
    if topic != "" && topic[0] == '/' {
      SegmentsAfterSlash(p[1..], topic[1..]);
    }
  }

  // ---------- Newlines: exactly when the meaning is lost ----------

  /** A topic that publishers may use, over the plain alphabet. */
  predicate PlainTopic(t: string)
  {
    t != "" && t[0] == '/' && (forall i :: 0 <= i < |t| ==> !IsMeta(t[i])) && !HasPair(t, '/', '#')
  }

  /** The text before a final newline is itself a pattern that matches the whole topic. */
  lemma TrailingNewlineMatches(u: string)
    requires PlainTopic(u)
    ensures WellFormed(u) && Matches(u, u + "\n")
    ensures !Covers(u, u + "\n")
  {
    CompiledTokens(u);
    TokensPlain(u);
    assert Lits(u) + [] == Lits(u);
    MatchLits(u, [], u + "\n");
    assert (u + "\n")[|u|..] == "\n";
    if Covers(u, u + "\n") {
      var p, t := u[1..], (u + "\n")[1..];
      assert t == p + "\n";
      LiteralCovers(p, t);
    }
  }

  lemma {:induction false} TokensPlain(u: string)
    requires forall i :: 0 <= i < |u| ==> !IsMeta(u[i])
    requires !HasPair(u, '/', '#')
    ensures Tokens(u) == Lits(u)
  {
    if u != "" {
      assert forall i :: 0 <= i < |u[1..]| ==> u[1..][i] == u[i + 1];
      HasPairSlice(u, 1, |u|, '/', '#');
      TokensPlain(u[1..]);
    }
  }

  /** A topic matches itself as a pattern. */
  lemma MatchesItself(t: string)
    requires PlainTopic(t)
    ensures Matches(t, t)
  {
    CompiledTokens(t);
    TokensPlain(t);
    assert Lits(t) + [] == Lits(t) && t[|t|..] == "";
    MatchLits(t, [], t);
  }

  lemma NoHashAtStart(p: string)
    requires !HasPair("/" + p, '/', '#')
    ensures p == "" || p[0] != '#'
  {
    assert p != "" ==> ("/" + p)[0] == '/' && ("/" + p)[1] == p[0];
  }

  lemma NoHashAfter(p: string, i: nat)
    requires !HasPair("/" + p, '/', '#') && i < |p| && p[i] == '/'
    ensures !HasPair("/" + p[i + 1..], '/', '#')
  {
    hide HasPair;
    var s := "/" + p;
    assert s[i + 1..|s|] == "/" + p[i + 1..];
    HasPairSlice(s, i + 1, |s|, '/', '#');
  }

  /** Without wildcards the first segments are equal, and so is whether more follow. */
  lemma {:induction false} LiteralSegment(p: string, t: string)
    requires '+' !in p && !HasPair("/" + p, '/', '#') && TailMatches(p, t)
    ensures var i, j := IndexOf(p, '/'), IndexOf(t, '/');
            p[..i] == t[..j] && (i < |p| <==> j < |t|) && (i < |p| ==> TailMatches(p[i + 1..], t[j + 1..]))
  {
    hide HasPair;
    NoHashAtStart(p);
    var i := IndexOf(p, '/');
    assert i > 0 ==> p[..i][0] == p[0];
  }

  /** Without wildcards, only the pattern itself is covered. */
  lemma {:induction false} LiteralCovers(p: string, t: string)
    requires '+' !in p && !HasPair("/" + p, '/', '#')
    requires TailMatches(p, t)
    ensures p == t
    decreases |p|
  {
    hide TailMatches, HasPair;
    LiteralSegment(p, t);
    var i, j := IndexOf(p, '/'), IndexOf(t, '/');
    if i < |p| {
      NoHashAfter(p, i);
      LiteralCovers(p[i + 1..], t[j + 1..]);
      assert p == p[..i] + "/" + p[i + 1..] && t == t[..j] + "/" + t[j + 1..];
    } else {
      assert p == p[..i] && t == t[..j];
    }
  }

  /** The multi-level wildcard does not reach across a newline inside a topic. */
  lemma {:induction false} AnyStopsAtNewline(s: string, i: nat)
    requires i < |s| && s[i] == '\n' && (i == 0 || i < |s| - 1)
    ensures !MatchTokens([AnyPlus], s)
  {
    assert [AnyPlus][1..] == [];
    if i > 0 {
      if i == 1 {
        assert s[1..] != "" && s[1..] != "\n";
      }
      assert s[1..][i - 1] == '\n';
      AnyStopsAtNewline(s[1..], i - 1);
    }
  }

  /** The compiled pattern has its intended meaning on a topic, for all well-formed patterns, if and
      only if the topic holds no newline. */
  lemma MeaningNeedsNoNewline(topic: string)
    requires PlainTopic(topic)
    ensures (forall p :: WellFormed(p) ==> (Matches(p, topic) <==> Covers(p, topic))) <==> '\n' !in topic
  {
    if '\n' in topic {
      var i :| 0 <= i < |topic| && topic[i] == '\n';
      var rest := topic[1..];
      if i == |topic| - 1 && |topic| > 2 {
        var u := topic[..i];
        assert topic == u + "\n";
        HasPairSlice(topic, 0, i, '/', '#');
        assert topic[0..i] == u;
        TrailingNewlineMatches(u);
      } else {
        var p := "/#";
        assert WellFormed(p);
        CompiledTokens(p);
        assert p == "/" + "#";
        TokensSlash("#");
        assert Tokens(p) == [Lit('/'), AnyPlus];
        assert Tokens(p)[1..] == [AnyPlus];
        assert rest[i - 1] == '\n';
        AnyStopsAtNewline(rest, i - 1);
        assert !Matches(p, topic);
        assert p[1..] == "#" && rest != "";
        assert Covers(p, topic);
      }
    } else {
      forall p | WellFormed(p) ensures Matches(p, topic) <==> Covers(p, topic) {
        RegexMeansSegments(p, topic);
      }
    }
  }
}
