/** Service names and TXT records (mdns.c mdns_split_name and devdb_put_txt). */
module Services {
  import opened Bytes
  import opened Cursor
  import opened Split
  import opened Wrappers

  const EQUALS: byte := 61
  const TCP: seq<byte> := [95, 116, 99, 112]
  const UDP: seq<byte> := [95, 117, 100, 112]

  // ---------- Service names ----------

  datatype Service<T> = Service(instance: Option<T>, service: T, protocol: T, suffix: T)

  predicate IsProtocol(s: seq<byte>) { s == TCP || s == UDP }

  /** The service that the last parts name. */
  function ServiceOf<T>(parts: seq<T>): Service<T>
    requires |parts| >= 3
  {
    var n := |parts|;
    Service(if n > 3 then Some(parts[n - 4]) else None, parts[n - 3], parts[n - 2], parts[n - 1])
  }

  function SplitName(name: seq<byte>): Option<Service<seq<byte>>>
  {
    var parts := Parts(name, DOT, 5);
    if |parts| >= 3 && IsProtocol(parts[|parts| - 2]) then Some(ServiceOf(parts)) else None
  }

  /** A text as its bytes. */
  function Ascii(s: string): seq<byte>
    requires forall i :: 0 <= i < |s| ==> s[i] as int < 128
  {
    seq(|s|, i requires 0 <= i < |s| => s[i] as int)
  }

  /** Dots separate the labels of a name. A name of three labels is service, protocol and suffix; of four, an
      instance before them; of five, one more label before that, which is dropped; of a longer one the fourth
      label is the protocol and all from the fifth on is taken for the suffix. The protocol must be "_tcp" or
      "_udp"; a shorter name or another protocol gives nothing. */
  lemma {:induction false} NameSplit(labels: seq<seq<byte>>)
    requires |labels| >= 1 && forall i :: 0 <= i < |labels| ==> DOT !in labels[i]
    ensures DOT == '.' as int
    ensures var n := |labels|;
            SplitName(Join(labels, DOT))
            == if n < 3 then None
               else
                 var protocol := labels[if n <= 5 then n - 2 else 3];
                 if protocol != Ascii("_tcp") && protocol != Ascii("_udp") then None
                 else if n == 3 then Some(Service(None, labels[0], labels[1], labels[2]))
                 else if n == 4 then Some(Service(Some(labels[0]), labels[1], labels[2], labels[3]))
                 else Some(Service(Some(labels[1]), labels[2], labels[3], Join(labels[4..], DOT)))
  {
    hide Join, Parts;
    JoinedParts(labels, DOT, 5);
    assert TCP == Ascii("_tcp") && UDP == Ascii("_udp");
    if |labels| > 5 {
      LongName(labels, labels[..4] + [Join(labels[4..], DOT)]);
    } else if |labels| == 5 {
      LastLabel(labels);
    }
  }

  lemma LastLabel(labels: seq<seq<byte>>)
    requires |labels| == 5
    ensures Join(labels[4..], DOT) == labels[4]
  {
    assert labels[4..] == [labels[4]];
  }

  lemma LongName(labels: seq<seq<byte>>, parts: seq<seq<byte>>)
    requires |labels| > 5 && parts == labels[..4] + [Join(labels[4..], DOT)]
    ensures |parts| == 5 && parts[3] == labels[3]
    ensures ServiceOf(parts) == Service(Some(labels[1]), labels[2], labels[3], Join(labels[4..], DOT))
  {
    hide Join;
  }

  /** strcmp with a constant. */
  method Equals(a: array<byte>, p: nat, ghost t: seq<byte>, s: seq<byte>) returns (same: bool)
    requires Stands(a[..], p, t) && NUL !in s
    ensures same <==> t == s
  {
    var i := 0;
    while i < |s|
      invariant 0 <= i <= |s| && i <= |t| && t[..i] == s[..i]
    {
      assert i < |t| ==> a[p + i] == a[..][p..p + |t|][i];
      if a[p + i] != s[i] {
        assert s[i] in s;
        return false;
      }
      assert i < |t|;
      i := i + 1;
    }
    assert i < |t| ==> a[p + i] == a[..][p..p + |t|][i];
    return a[p + i] == NUL;
  }

  /** mdns_split_name: where the parts of the name start. */
  method SplitNameInPlace(name: array<byte>, ghost text: seq<byte>) returns (r: Option<Service<nat>>)
    requires Stands(name[..], 0, text)
    modifies name
    ensures r.Some? <==> SplitName(text).Some?
    ensures r.Some? ==>
              var s := SplitName(text).value;
              && Stands(name[..], r.value.service, s.service)
              && Stands(name[..], r.value.protocol, s.protocol)
              && Stands(name[..], r.value.suffix, s.suffix)
              && (r.value.instance.Some? <==> s.instance.Some?)
              && (s.instance.Some? ==> Stands(name[..], r.value.instance.value, s.instance.value))
  {
    hide Stands, Parts;
    var places := StrSplit(name, text, DOT, 5);
    ghost var parts := Parts(text, DOT, 5);
    if |places| < 3 {
      return None;
    }
    var n := |places|;
    var tcp := Equals(name, places[n - 2], parts[n - 2], TCP);
    var udp := Equals(name, places[n - 2], parts[n - 2], UDP);
    if !tcp && !udp {
      return None;
    }
    r := Some(ServiceOf(places));
  }

  // ---------- TXT records ----------

  /** The text of a TXT string ends at a NUL; it is put only if it has a key and a value. */
  function KeyValue(s: seq<byte>): Option<(seq<byte>, seq<byte>)>
  {
    var parts := Parts(s[..Find(s, NUL)], EQUALS, 2);
    if |parts| == 2 then Some((parts[0], parts[1])) else None
  }

  function Pair(s: seq<byte>): seq<(seq<byte>, seq<byte>)>
  {
    if KeyValue(s).Some? then [KeyValue(s).value] else []
  }

  /** The cursor after the string at `c`; an empty string is passed over. */
  function AfterString(data: seq<byte>, c: Cur): (r: Cur)
    requires Within(c, |data|)
    ensures Within(r, |data|) && (c.len > 0 ==> r.len < c.len)
  {
    Skip(Skip(c, 1), Byte(data, c))
  }

  function StringPair(data: seq<byte>, c: Cur): seq<(seq<byte>, seq<byte>)>
    requires Within(c, |data|)
  {
    var n := Byte(data, c);
    if n == 0 || AfterString(data, c).oob then [] else Pair(data[c.pos + 1..c.pos + 1 + n])
  }

  /** A string cut off by the end of the record ends the reading. */
  function TxtPairs(data: seq<byte>, c: Cur): seq<(seq<byte>, seq<byte>)>
    requires Within(c, |data|)
    decreases c.len
  {
    if c.len == 0 then []
    else
      var next := AfterString(data, c);
      StringPair(data, c) + if next.oob then [] else TxtPairs(data, next)
  }

  /** The text from a place up to its NUL. */
  method TextFrom(a: array<byte>, p: nat, ghost t: seq<byte>) returns (s: seq<byte>)
    requires Stands(a[..], p, t)
    ensures s == t
  {
    var i := p;
    assert forall j :: 0 <= j < |t| ==> a[p + j] == a[p..p + |t|][j] == t[j] && t[j] in t;
    while a[i] != NUL
      invariant p <= i <= p + |t|
      decreases p + |t| - i
    {
      i := i + 1;
    }
    s := a[p..i];
  }

  /** Splitting one TXT string in the buffer it was copied to. */
  method SplitPair(s: seq<byte>) returns (kv: Option<(seq<byte>, seq<byte>)>)
    requires |s| < 256
    ensures kv == KeyValue(s)
  {
    var txt := new byte[256];
    forall i | 0 <= i < |s| {
      txt[i] := s[i];
    }
    txt[|s|] := NUL;
    ghost var text := s[..Find(s, NUL)];
    assert txt[..|text|] == text;
    var places := StrSplit(txt, text, EQUALS, 2);
    if |places| != 2 {
      return None;
    }
    ghost var parts := Parts(text, EQUALS, 2);
    var key := TextFrom(txt, places[0], parts[0]);
    var value := TextFrom(txt, places[1], parts[1]);
    kv := Some((key, value));
  }

  /** One turn of the loop. */
  method ReadString(src: Dcpy) returns (pairs: seq<(seq<byte>, seq<byte>)>)
    requires src.Valid() && src.len > 0 && !src.oob
    modifies src
    ensures src.Valid() && src.At() == AfterString(src.buf[..], old(src.At()))
    ensures pairs == StringPair(src.buf[..], old(src.At()))
  {
    hide KeyValue;
    ghost var data, c := src.buf[..], src.At();
    var n := src.Get8();
    pairs := [];
    if n != 0 {
      var s := src.Get(n);
      if !src.oob {
        assert s == data[c.pos + 1..c.pos + 1 + n];
        var kv := SplitPair(s);
        pairs := if kv.Some? then [kv.value] else [];
      }
    }
  }

  /** The loop of devdb_put_txt, collecting what it puts. */
  method ReadTxt(src: Dcpy) returns (pairs: seq<(seq<byte>, seq<byte>)>)
    requires src.Valid() && !src.oob
    modifies src
    ensures pairs == TxtPairs(old(src.buf[..]), old(src.At()))
  {
    hide AfterString, StringPair, TxtPairs;
    ghost var data := src.buf[..];
    pairs := [];
    while src.len > 0
      invariant src.Valid() && !src.oob && src.buf[..] == data
      invariant pairs + TxtPairs(data, src.At()) == TxtPairs(data, old(src.At()))
      decreases src.len
    {
      NextString(data, src.At());
      var here := ReadString(src);
      pairs := pairs + here;
      if src.oob {
        return;
      }
    }
    NoMoreStrings(data, src.At());
  }

  lemma NextString(data: seq<byte>, c: Cur)
    requires Within(c, |data|) && c.len > 0
    ensures var next := AfterString(data, c);
            TxtPairs(data, c) == StringPair(data, c) + if next.oob then [] else TxtPairs(data, next)
  {
  }

  lemma NoMoreStrings(data: seq<byte>, c: Cur)
    requires Within(c, |data|)
    ensures c.len == 0 ==> TxtPairs(data, c) == []
  {
  }

  // ---------- Round trip ----------

  /** A pair that fits a TXT string (section 6.4 of RFC 6763). */
  predicate ValidPair(p: (seq<byte>, seq<byte>))
  {
    && |p.0| + 1 + |p.1| < 256
    && EQUALS !in p.0 && NUL !in p.0 && NUL !in p.1
  }

  function EncodePair(p: (seq<byte>, seq<byte>)): seq<byte>
    requires ValidPair(p)
  {
    p.0 + [EQUALS] + p.1
  }

  function EncodeTxt(pairs: seq<(seq<byte>, seq<byte>)>): seq<byte>
    requires forall i :: 0 <= i < |pairs| ==> ValidPair(pairs[i])
  {
    if pairs == [] then []
    else [|EncodePair(pairs[0])|] + (EncodePair(pairs[0]) + EncodeTxt(pairs[1..]))
  }

  /** A string gives a pair exactly when it holds a '=' before any NUL: the first one ends the key, and the value
      goes on to the NUL or the end. */
  lemma PairExactly(s: seq<byte>, kv: (seq<byte>, seq<byte>))
    ensures KeyValue(s) == Some(kv) <==> HoldsPair(s, kv.0, kv.1)
  {
    if HoldsPair(s, kv.0, kv.1) {
      PairFound(s, kv.0, kv.1);
    }
    if KeyValue(s) == Some(kv) {
      PairHeld(s, kv.0, kv.1);
    }
  }

  predicate HoldsPair(s: seq<byte>, key: seq<byte>, value: seq<byte>)
  {
    var n := |key| + 1 + |value|;
    && n <= |s| && s[..n] == key + ['=' as int] + value && (n < |s| ==> s[n] == 0)
    && '=' as int !in key && 0 !in key && 0 !in value
  }

  lemma PairFound(s: seq<byte>, key: seq<byte>, value: seq<byte>)
    requires HoldsPair(s, key, value)
    ensures KeyValue(s) == Some((key, value))
  {
    var t := key + [EQUALS] + value;
    FindIsAt(s, NUL, |t|);
    FindAfter(key, value, EQUALS);
    assert t[..|key|] == key && t[|key| + 1..] == value;
  }

  lemma PairHeld(s: seq<byte>, key: seq<byte>, value: seq<byte>)
    requires KeyValue(s) == Some((key, value))
    ensures HoldsPair(s, key, value)
  {
    var n := Find(s, NUL);
    var t := s[..n];
    var j := Find(t, EQUALS);
    assert t == t[..j] + [EQUALS] + t[j + 1..];
    assert s[..|key| + 1 + |value|] == t;
  }

  lemma FindIsAt(s: seq<byte>, d: byte, k: nat)
    requires k <= |s| && d !in s[..k] && (k < |s| ==> s[k] == d)
    ensures Find(s, d) == k
  {
    var j := Find(s, d);
    forall i | 0 <= i < k ensures s[i] != d {
      assert s[..k][i] == s[i];
    }
    forall i | 0 <= i < j ensures s[i] != d {
      assert s[..j][i] == s[i];
    }
  }

  lemma PairRead(p: (seq<byte>, seq<byte>))
    requires ValidPair(p)
    ensures KeyValue(EncodePair(p)) == Some(p)
  {
    var s := EncodePair(p);
    assert NUL !in s;
    assert s[..Find(s, NUL)] == s;
    FindAfter(p.0, p.1, EQUALS);
    assert s[..|p.0|] == p.0 && s[|p.0| + 1..] == p.1;
  }

  /** One step over a string. */
  lemma StringRead(data: seq<byte>, c: Cur, s: seq<byte>, rest: seq<byte>)
    requires Within(c, |data|) && !c.oob && |s| < 256 && data[c.pos..c.pos + c.len] == [|s|] + (s + rest)
    ensures var next := Cur(c.pos + 1 + |s|, c.len - 1 - |s|, false);
            && Within(next, |data|) && data[next.pos..next.pos + next.len] == rest
            && AfterString(data, c) == next && StringPair(data, c) == Pair(s)
  {
    hide Pair;
    StringLies(data, c.pos, c.len, s, rest);
    NoPair();
  }

  lemma StringLies(data: seq<byte>, p: nat, n: nat, s: seq<byte>, rest: seq<byte>)
    requires p + n <= |data| && |s| < 256 && data[p..p + n] == [|s|] + (s + rest)
    ensures n == 1 + |s| + |rest| && data[p] == |s|
    ensures data[p + 1..p + 1 + |s|] == s && data[p + 1 + |s|..p + n] == rest
  {
    var tail := data[p..p + n];
    assert |tail| == n == 1 + |s| + |rest| && data[p] == tail[0];
    assert forall k :: 0 <= k < |s| ==> data[p + 1 + k] == tail[1 + k] == s[k];
    assert forall k :: 0 <= k < |rest| ==> data[p + 1 + |s| + k] == tail[1 + |s| + k] == rest[k];
  }

  lemma NoPair()
    ensures Pair([]) == []
  {
  }

  /** Strings of a TXT record, whatever is in them. */
  function EncodeStrings(strings: seq<seq<byte>>): seq<byte>
    requires forall i :: 0 <= i < |strings| ==> |strings[i]| < 256
  {
    if strings == [] then [] else [|strings[0]|] + (strings[0] + EncodeStrings(strings[1..]))
  }

  function PairsIn(strings: seq<seq<byte>>): seq<(seq<byte>, seq<byte>)>
  {
    if strings == [] then [] else Pair(strings[0]) + PairsIn(strings[1..])
  }

  /** Any bytes: they are whole strings and then, perhaps, one that is cut off. Reading gives the pairs of the
      whole strings, in order, and nothing of the one cut off. */
  lemma {:induction false} AnyTxtIsRead(data: seq<byte>, c: Cur, strings: seq<seq<byte>>, cut: seq<byte>)
    requires Within(c, |data|) && !c.oob && forall i :: 0 <= i < |strings| ==> |strings[i]| < 256
    requires data[c.pos..c.pos + c.len] == EncodeStrings(strings) + cut && (cut != [] ==> |cut| <= cut[0])
    ensures TxtPairs(data, c) == PairsIn(strings)
    decreases |strings|
  {
    hide AfterString, StringPair, Pair;
    if strings != [] {
      var s, rest := strings[0], EncodeStrings(strings[1..]) + cut;
      assert EncodeStrings(strings) + cut == [|s|] + (s + rest);
      StringRead(data, c, s, rest);
      AnyTxtIsRead(data, Cur(c.pos + 1 + |s|, c.len - 1 - |s|, false), strings[1..], cut);
    } else {
      assert data[c.pos..c.pos + c.len] == cut;
      if cut != [] {
        assert data[c.pos] == cut[0];
        CutOff(data, c);
      }
    }
  }

  lemma CutOff(data: seq<byte>, c: Cur)
    requires Within(c, |data|) && 0 < c.len <= data[c.pos] && !c.oob
    ensures AfterString(data, c).oob && StringPair(data, c) == []
  {
  }

  /** What is written into a TXT record is what is read from it, in order. */
  lemma {:induction false} TxtRoundTrip(data: seq<byte>, at: nat, pairs: seq<(seq<byte>, seq<byte>)>)
    requires forall i :: 0 <= i < |pairs| ==> ValidPair(pairs[i])
    requires at <= |data| && data[at..] == EncodeTxt(pairs)
    ensures TxtPairs(data, Cur(at, |data| - at, false)) == pairs
    decreases |pairs|
  {
    hide KeyValue, AfterString, StringPair;
    if pairs != [] {
      var s := EncodePair(pairs[0]);
      PairRead(pairs[0]);
      StringRead(data, Cur(at, |data| - at, false), s, EncodeTxt(pairs[1..]));
      TxtRoundTrip(data, at + 1 + |s|, pairs[1..]);
    }
  }
}
