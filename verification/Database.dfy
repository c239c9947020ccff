/** The `topic` table (db.py): rows unique on (topic, value), queried with SQL LIKE. */
module Database {
  import opened Text
  import opened Model
  import Pattern

  datatype Row = Row(topic: string, value: string, createdAt: int, updatedAt: int, mode: PublishMode)

  // ---------- SQL LIKE ----------

  /** LIKE ignores the case of ASCII letters. */
  function Fold(c: char): char
  {
    if 'A' <= c <= 'Z' then c - 'A' + 'a' else c
  }

  /** `s LIKE q`: '%' is any text, '_' any one character. */
  predicate Like(q: string, s: string)
    decreases |q| + |s|
  {
    if q == "" then s == ""
    else if q[0] == '%' then Like(q[1..], s) || (s != "" && Like(q, s[1..]))
    else s != "" && (q[0] == '_' || Fold(q[0]) == Fold(s[0])) && Like(q[1..], s[1..])
  }

  /** One letter in its two cases, or one and the same character. */
  predicate SameLetter(a: char, b: char)
  {
    || a == b
    || ('A' <= a <= 'Z' && b as int == a as int + 32)
    || ('A' <= b <= 'Z' && a as int == b as int + 32)
  }

  /** Without '%' the texts are equally long, and every character of the query is '_' or the same letter. */
  lemma {:induction false} LikeWithoutPercent(q: string, s: string)
    requires '%' !in q
    ensures Like(q, s) <==> |q| == |s| && forall i :: 0 <= i < |q| ==> q[i] == '_' || SameLetter(q[i], s[i])
  {
    if q != "" && s != "" {
      LikeWithoutPercent(q[1..], s[1..]);
      assert forall i :: 0 <= i < |q[1..]| ==> q[1..][i] == q[i + 1];
      assert forall i :: 0 <= i < |s[1..]| ==> s[1..][i] == s[i + 1];
      if |q| == |s| && forall i :: 0 <= i < |q| ==> q[i] == '_' || SameLetter(q[i], s[i]) {
        forall i | 0 <= i < |q[1..]| ensures q[1..][i] == '_' || SameLetter(q[1..][i], s[1..][i]) {
          assert q[i + 1] == '_' || SameLetter(q[i + 1], s[i + 1]);
        }
      }
      if |q| == |s| && (q[0] == '_' || SameLetter(q[0], s[0]))
         && forall i :: 0 <= i < |q[1..]| ==> q[1..][i] == '_' || SameLetter(q[1..][i], s[1..][i]) {
        forall i | 0 <= i < |q| ensures q[i] == '_' || SameLetter(q[i], s[i]) {
          assert i > 0 ==> q[1..][i - 1] == q[i] && s[1..][i - 1] == s[i];
        }
      }
    }
  }

  /** What stands before the first '%' is matched at the start, what follows it anywhere behind. */
  lemma {:induction false} LikeAtPercent(a: string, b: string, s: string)
    requires '%' !in a
    ensures Like(a + "%" + b, s) <==> exists i, j :: 0 <= i <= j <= |s| && Like(a, s[..i]) && Like(b, s[j..])
    decreases |a|
  {
    var q := a + "%" + b;
    if a == "" {
      assert q == "%" + b;
      PercentAnywhere(b, s);
      if j :| 0 <= j <= |s| && Like(b, s[j..]) {
        assert Like(a, s[..0]);
      }
    } else {
      assert q == [a[0]] + (a[1..] + "%" + b) && q[1..] == a[1..] + "%" + b;
      if s != "" {
        LikeAtPercent(a[1..], b, s[1..]);
        if i, j :| 0 <= i <= j <= |s| && Like(a, s[..i]) && Like(b, s[j..]) {
          assert s[..i] != "" && s[..i][0] == s[0] && s[..i][1..] == s[1..][..i - 1] && s[1..][j - 1..] == s[j..];
        }
        if i, j :| 0 <= i <= j <= |s[1..]| && Like(a[1..], s[1..][..i]) && Like(b, s[1..][j..]) {
          assert s[..i + 1][1..] == s[1..][..i] && s[1..][j..] == s[j + 1..] && s[..i + 1][0] == s[0];
          if a[0] == '_' || Fold(a[0]) == Fold(s[0]) {
            assert Like(a, s[..i + 1]);
          }
        }
      }
    }
  }

  lemma {:induction false} PercentAnywhere(b: string, s: string)
    ensures Like("%" + b, s) <==> exists j :: 0 <= j <= |s| && Like(b, s[j..])
  {
    var q := "%" + b;
    assert q[1..] == b && s[0..] == s;
    if s != "" {
      PercentAnywhere(b, s[1..]);
      if j :| 0 <= j <= |s| && Like(b, s[j..]) {
        assert j > 0 ==> s[1..][j - 1..] == s[j..];
      }
      if j :| 0 <= j <= |s[1..]| && Like(b, s[1..][j..]) {
        assert s[1..][j..] == s[j + 1..];
      }
    }
  }

  /** The query text for a wildcard pattern. */
  function LikeQuery(p: string): string
  {
    ReplacePair(ReplacePair(p, '/', '+', "/%"), '/', '#', "/%")
  }

  // ---------- The pre-filter loses nothing ----------

  /** The query read off the pattern's tokens. */
  function TokenQuery(ts: seq<Pattern.Token>): string
  {
    if ts == [] then ""
    else match ts[0]
      case Lit(c) => [c] + TokenQuery(ts[1..])
      case SegPlus => "%" + TokenQuery(ts[1..])
      case AnyPlus => "%" + TokenQuery(ts[1..])
  }

  lemma LikeQueryPlus(q: string)
    ensures LikeQuery("/+" + q) == "/%" + LikeQuery(q)
  {
    var inner := ReplacePair(q, '/', '+', "/%");
    assert ("/+" + q)[2..] == q;
    ReplacePairPrefix("/%", inner, '/', '#', "/%");
  }

  lemma LikeQueryHash(q: string)
    ensures LikeQuery("/#" + q) == "/%" + LikeQuery(q)
  {
    var inner := ReplacePair(q, '/', '+', "/%");
    ReplacePairPrefix("/#", q, '/', '+', "/%");
    assert ("/#" + inner)[2..] == inner;
  }

  lemma LikeQueryOther(c: char, q: string)
    requires !("/+" <= [c] + q) && !("/#" <= [c] + q)
    ensures LikeQuery([c] + q) == [c] + LikeQuery(q)
  {
    var s := [c] + q;
    var inner := ReplacePair(q, '/', '+', "/%");
    assert s[1..] == q;
    assert q != "" ==> s[1] == q[0];
    ReplacePairHead(q, '/', '+', "/%");
    assert ReplacePair(s, '/', '+', "/%") == [c] + inner;
    assert ([c] + inner)[1..] == inner;
    assert inner != "" ==> ([c] + inner)[1] == q[0];
  }

  lemma {:induction false} LikeQueryTokens(p: string)
    ensures LikeQuery(p) == TokenQuery(Pattern.Tokens(p))
    decreases |p|
  {
    if p == "" {
    } else if "/+" <= p {
      var q := p[2..];
      assert p == "/+" + q;
      LikeQueryPlus(q);
      LikeQueryTokens(q);
      QueryOfWildcard(Pattern.SegPlus, Pattern.Tokens(q));
    } else if "/#" <= p {
      var q := p[2..];
      assert p == "/#" + q;
      LikeQueryHash(q);
      LikeQueryTokens(q);
      QueryOfWildcard(Pattern.AnyPlus, Pattern.Tokens(q));
    } else {
      var q := p[1..];
      assert p == [p[0]] + q;
      LikeQueryOther(p[0], q);
      LikeQueryTokens(q);
      assert Pattern.Tokens(p)[1..] == Pattern.Tokens(q);
    }
  }

  lemma QueryOfWildcard(w: Pattern.Token, ts: seq<Pattern.Token>)
    requires !w.Lit?
    ensures TokenQuery([Pattern.Lit('/'), w] + ts) == "/%" + TokenQuery(ts)
  {
    var all := [Pattern.Lit('/'), w] + ts;
    assert all[1..] == [w] + ts && all[1..][1..] == ts;
  }

  lemma {:induction false} LikeSelf(t: string)
    ensures Like(t, t)
  {
    if t != "" {
      LikeSelf(t[1..]);
      if t[0] == '%' {
        assert Like(t, t[1..]);
      }
    }
  }

  /** The tokens match the whole text, with no newline left over. */
  predicate MatchWhole(ts: seq<Pattern.Token>, s: string)
    decreases |ts| + |s|
  {
    if ts == [] then s == ""
    else if s == "" then false
    else match ts[0]
      case Lit(c) => s[0] == c && MatchWhole(ts[1..], s[1..])
      case SegPlus => s[0] != '/' && (MatchWhole(ts[1..], s[1..]) || MatchWhole(ts, s[1..]))
      case AnyPlus => s[0] != '\n' && (MatchWhole(ts[1..], s[1..]) || MatchWhole(ts, s[1..]))
  }

  /** The regular expression matches the whole text, or all of it but a final newline. */
  lemma {:induction false} MatchIsWhole(ts: seq<Pattern.Token>, s: string)
    requires Pattern.MatchTokens(ts, s)
    ensures MatchWhole(ts, s) || (EndsWith(s, "\n") && MatchWhole(ts, s[..|s| - 1]))
    decreases |ts| + |s|
  {
    if ts != [] {
      var more := if Pattern.MatchTokens(ts[1..], s[1..]) then ts[1..] else ts;
      MatchIsWhole(more, s[1..]);
      if EndsWith(s[1..], "\n") && MatchWhole(more, s[1..][..|s[1..]| - 1]) {
        assert s[..|s| - 1][1..] == s[1..][..|s[1..]| - 1];
        assert s[|s| - 1..] == s[1..][|s[1..]| - 1..];
      }
    }
  }

  /** LIKE is transitive through what the tokens match: if they match a text, and the text read as a query
      accepts another one, then so does the tokens' query. */
  lemma {:induction false} LikeThrough(ts: seq<Pattern.Token>, x: string, y: string)
    requires MatchWhole(ts, x) && Like(x, y)
    ensures Like(TokenQuery(ts), y)
    decreases |ts| + |x|, |y|
  {
    if ts != [] {
      var q := TokenQuery(ts);
      assert q[1..] == TokenQuery(ts[1..]);
      if x[0] == '%' && !Like(x[1..], y) {
        LikeThrough(ts, x, y[1..]);
      } else if x[0] == '%' {
        LikeThrough(if MatchWhole(ts[1..], x[1..]) then ts[1..] else ts, x[1..], y);
      } else {
        LikeThrough(if MatchWhole(ts[1..], x[1..]) then ts[1..] else ts, x[1..], y[1..]);
      }
    }
  }

  /** Whatever the regular expression matches, up to and excluding a final newline, LIKE matches. */
  lemma {:induction false} MatchImpliesLike(ts: seq<Pattern.Token>, s: string)
    requires !EndsWith(s, "\n") && Pattern.MatchTokens(ts, s)
    ensures Like(TokenQuery(ts), s)
  {
    MatchIsWhole(ts, s);
    LikeSelf(s);
    LikeThrough(ts, s, s);
  }

  /** For every plain pattern, filtering rows by LIKE before the regular expression drops no topic
      that the regular expression accepts, whatever the topic, unless it ends in a newline. */
  lemma PrefilterLosesNothing(p: string, topic: string)
    requires Pattern.Plain(p) && !EndsWith(topic, "\n")
    ensures Pattern.Matches(p, topic) ==> Like(LikeQuery(p), topic)
  {
    if Pattern.Matches(p, topic) {
      Pattern.CompiledTokens(p);
      LikeQueryTokens(p);
      MatchImpliesLike(Pattern.Tokens(p), topic);
    }
  }

  lemma {:induction false} LikeLength(q: string, s: string)
    requires '%' !in q && Like(q, s)
    ensures |s| == |q|
    decreases |q|
  {
    if q != "" {
      LikeLength(q[1..], s[1..]);
    }
  }

  /** The pre-filter is lossless on a topic, for all well-formed patterns, if and only if the topic does not
      end in a newline, or the topic without that newline, read as a query, accepts it: which takes a '%' in
      the topic. */
  lemma PrefilterNeedsNoFinalNewline(topic: string)
    requires Pattern.PlainTopic(topic)
    ensures (forall p :: Pattern.WellFormed(p) && Pattern.Matches(p, topic) ==> Like(LikeQuery(p), topic))
            <==> !EndsWith(topic, "\n") || Like(topic[..|topic| - 1], topic)
    ensures EndsWith(topic, "\n") && Like(topic[..|topic| - 1], topic) ==> '%' in topic
  {
    hide Like, LikeQuery, Pattern.Matches;
    if EndsWith(topic, "\n") {
      var n := |topic| - 1;
      var u := topic[..n];
      assert topic[n..] == "\n" && topic == u + "\n";
      HasPairSlice(topic, 0, n, '/', '#');
      assert topic[0..n] == u;
      Pattern.TrailingNewlineMatches(u);
      LikeQueryPlain(u);
      if Like(u, topic) {
        if '%' !in topic {
          LikeLength(u, topic);
        }
        forall p | Pattern.WellFormed(p) && Pattern.Matches(p, topic) ensures Like(LikeQuery(p), topic) {
          PrefilterThrough(p, topic);
        }
      }
    } else {
      forall p | Pattern.WellFormed(p) && Pattern.Matches(p, topic) ensures Like(LikeQuery(p), topic) {
        PrefilterLosesNothing(p, topic);
      }
    }
  }

  lemma PrefilterThrough(p: string, topic: string)
    requires Pattern.Plain(p) && Pattern.Matches(p, topic)
    requires EndsWith(topic, "\n") && Like(topic[..|topic| - 1], topic)
    ensures Like(LikeQuery(p), topic)
  {
    var ts := Pattern.Tokens(p);
    Pattern.CompiledTokens(p);
    LikeQueryTokens(p);
    MatchIsWhole(ts, topic);
    LikeSelf(topic);
    LikeThrough(ts, if MatchWhole(ts, topic) then topic else topic[..|topic| - 1], topic);
  }

  lemma LikeQueryPlain(u: string)
    requires forall i :: 0 <= i < |u| ==> !Pattern.IsMeta(u[i])
    requires !HasPair(u, '/', '#')
    ensures LikeQuery(u) == u
  {
    assert !HasPair(u, '/', '+');
    ReplacePairNone(u, '/', '+', "/%");
    ReplacePairNone(u, '/', '#', "/%");
  }
}
