/** Well-formed messages (section 4.1 of RFC 1035) and what the walk makes of them. */
module MdnsFraming {
  import opened Bytes
  import opened Cursor
  import opened Names
  import opened Split
  import opened Mdns
  import opened Wrappers

  /** A written name: its labels, then the end or a pointer. */
  datatype Name = Name(labels: seq<seq<byte>>, target: Option<nat>)

  datatype Query = Query(name: Name, kindAndClass: seq<byte>)

  datatype Rr = Rr(name: Name, kind: nat, classAndTtl: seq<byte>, body: seq<byte>)

  datatype Message = Message(id: seq<byte>, flags: seq<byte>, queries: seq<Query>,
                             records: seq<Rr>, answers: nat, auth: nat)

  predicate ValidName(n: Name)
  {
    && (forall i :: 0 <= i < |n.labels| ==> 1 <= |n.labels[i]| <= 63)
    && (n.target.Some? ==> n.target.value < 0x4000)
  }

  predicate ValidQuery(q: Query)
  {
    ValidName(q.name) && |q.kindAndClass| == 4
  }

  predicate ValidRr(r: Rr)
  {
    ValidName(r.name) && r.kind < 0x10000 && |r.classAndTtl| == 6 && |r.body| < 0x10000
  }

  /** A message whose counts fit their words. */
  predicate ValidMessage(m: Message)
  {
    && |m.id| == 2 && |m.flags| == 2
    && |m.queries| < 0x10000 && m.answers < 0x10000 && m.auth < 0x10000
    && m.answers + m.auth <= |m.records| && |m.records| - m.answers - m.auth < 0x10000
    && (forall i :: 0 <= i < |m.queries| ==> ValidQuery(m.queries[i]))
    && (forall i :: 0 <= i < |m.records| ==> ValidRr(m.records[i]))
  }

  // ---------- Encoding ----------

  function Two(n: nat): (r: seq<byte>)
    requires n < 0x10000
    ensures |r| == 2
  {
    [n / 256, n % 256]
  }

  function EncodeLabels(labels: seq<seq<byte>>): seq<byte>
    requires forall i :: 0 <= i < |labels| ==> |labels[i]| <= 63
  {
    if labels == [] then [] else [|labels[0]|] + (labels[0] + EncodeLabels(labels[1..]))
  }

  function EncodeEnd(target: Option<nat>): (r: seq<byte>)
    requires target.Some? ==> target.value < 0x4000
  {
    match target
    case None => [NUL]
    case Some(t) => [192 + t / 256, t % 256]
  }

  function EncodeName(n: Name): seq<byte>
    requires ValidName(n)
  {
    EncodeLabels(n.labels) + EncodeEnd(n.target)
  }

  function EncodeQuery(q: Query): seq<byte>
    requires ValidQuery(q)
  {
    EncodeName(q.name) + q.kindAndClass
  }

  function EncodeHeader(r: Rr): (h: seq<byte>)
    requires ValidRr(r)
    ensures |h| == RR_HEADER
  {
    Two(r.kind) + r.classAndTtl + Two(|r.body|)
  }

  function EncodeRr(r: Rr): seq<byte>
    requires ValidRr(r)
  {
    EncodeName(r.name) + (EncodeHeader(r) + r.body)
  }

  function EncodeQueries(qs: seq<Query>): seq<byte>
    requires forall i :: 0 <= i < |qs| ==> ValidQuery(qs[i])
  {
    if qs == [] then [] else EncodeQuery(qs[0]) + EncodeQueries(qs[1..])
  }

  function EncodeRrs(rs: seq<Rr>): seq<byte>
    requires forall i :: 0 <= i < |rs| ==> ValidRr(rs[i])
  {
    if rs == [] then [] else EncodeRr(rs[0]) + EncodeRrs(rs[1..])
  }

  function EncodeCounts(m: Message): (h: seq<byte>)
    requires ValidMessage(m)
    ensures |h| == 12
  {
    m.id + m.flags + Two(|m.queries|) + Two(m.answers) + Two(m.auth) + Two(|m.records| - m.answers - m.auth)
  }

  function Encode(m: Message): seq<byte>
    requires ValidMessage(m)
  {
    EncodeCounts(m) + (EncodeQueries(m.queries) + EncodeRrs(m.records))
  }

  // ---------- Pieces of a packet ----------

  /** `part` stands in `data` at `p`. */
  predicate At(data: seq<byte>, p: nat, part: seq<byte>)
  {
    p + |part| <= |data| && data[p..p + |part|] == part
  }

  lemma AtPieces(data: seq<byte>, p: nat, a: seq<byte>, b: seq<byte>)
    requires At(data, p, a + b)
    ensures At(data, p, a) && At(data, p + |a|, b)
  {
    var s := data[p..p + |a + b|];
    assert s[..|a|] == a && s[|a|..] == b;
    assert data[p..p + |a|] == s[..|a|];
    assert data[p + |a|..p + |a| + |b|] == s[|a|..];
  }

  lemma AtBounds(data: seq<byte>, p: nat, part: seq<byte>)
    requires At(data, p, part)
    ensures p + |part| <= |data|
  {
  }

  function CursorAt(data: seq<byte>, p: nat): Cur
    requires p <= |data|
  {
    Cur(p, |data| - p, false)
  }

  // ---------- Names ----------

  lemma {:induction false} NameSkipped(data: seq<byte>, p: nat, n: Name)
    requires ValidName(n) && At(data, p, EncodeName(n))
    ensures SkipName(data, CursorAt(data, p)) == CursorAt(data, p + |EncodeName(n)|)
    decreases |n.labels|
  {
    hide At, EncodeName, SkipName;
    if n.labels == [] {
      EndSkipped(data, p, n);
    } else {
      var x, rest := n.labels[0], Name(n.labels[1..], n.target);
      NameCons(data, p, n);
      NameSkipped(data, p + 1 + |x|, rest);
      LabelSkipped(data, p, x);
    }
  }

  lemma NameCons(data: seq<byte>, p: nat, n: Name)
    requires ValidName(n) && n.labels != [] && At(data, p, EncodeName(n))
    ensures var x, rest := n.labels[0], Name(n.labels[1..], n.target);
            && data[p] == |x| && At(data, p + 1, x)
            && ValidName(rest) && At(data, p + 1 + |x|, EncodeName(rest))
            && |EncodeName(n)| == 1 + |x| + |EncodeName(rest)|
  {
    var x, rest := n.labels[0], Name(n.labels[1..], n.target);
    assert EncodeName(n) == [|x|] + (x + EncodeName(rest));
    AtPieces(data, p, [|x|], x + EncodeName(rest));
    AtPieces(data, p + 1, x, EncodeName(rest));
    assert data[p..p + 1][0] == |x|;
  }

  lemma LabelStep(data: seq<byte>, p: nat, x: seq<byte>)
    requires p < |data| && data[p] == |x| && At(data, p + 1, x)
    ensures Byte(data, CursorAt(data, p)) == |x|
    ensures Skip(CursorAt(data, p), 1) == CursorAt(data, p + 1)
    ensures Skip(CursorAt(data, p + 1), |x|) == CursorAt(data, p + 1 + |x|)
    ensures Label(data, CursorAt(data, p + 1), |x|) == x
  {
  }

  lemma LabelSkipped(data: seq<byte>, p: nat, x: seq<byte>)
    requires p < |data| && data[p] == |x| && 1 <= |x| <= 63 && At(data, p + 1, x)
    ensures SkipName(data, CursorAt(data, p)) == SkipName(data, CursorAt(data, p + 1 + |x|))
  {
    hide Byte, Skip, Label, At;
    LabelStep(data, p, x);
  }

  lemma LabelRead(data: seq<byte>, p: nat, x: seq<byte>, hops: nat)
    requires p < |data| && data[p] == |x| && 1 <= |x| <= 63 && At(data, p + 1, x)
    requires Resolves(data, CursorAt(data, p + 1 + |x|), hops)
    ensures Resolves(data, CursorAt(data, p), hops)
    ensures Labels(data, CursorAt(data, p), hops) == [x] + Labels(data, CursorAt(data, p + 1 + |x|), hops)
  {
    LabelStep(data, p, x);
    hide Byte, Skip, Label, At;
  }

  lemma EndBytes(data: seq<byte>, p: nat, n: Name)
    requires ValidName(n) && n.labels == [] && At(data, p, EncodeName(n))
    ensures |EncodeName(n)| == if n.target.None? then 1 else 2
    ensures n.target.None? ==> data[p] == NUL
    ensures n.target.Some? ==> data[p] == 192 + n.target.value / 256 && data[p + 1] == n.target.value % 256
  {
    var e := EncodeName(n);
    assert e == EncodeEnd(n.target);
    assert data[p..p + |e|][0] == data[p];
    assert n.target.Some? ==> data[p..p + |e|][1] == data[p + 1];
  }

  lemma EndFollowed(data: seq<byte>, p: nat, n: Name)
    requires ValidName(n) && n.labels == [] && At(data, p, EncodeName(n))
    requires n.target.Some? ==> n.target.value <= |data|
    ensures n.target.Some? ==> Jump(data, data[p], CursorAt(data, p + 1)) == CursorAt(data, n.target.value)
  {
    EndBytes(data, p, n);
  }

  lemma EndSkipped(data: seq<byte>, p: nat, n: Name)
    requires ValidName(n) && n.labels == [] && At(data, p, EncodeName(n))
    ensures SkipName(data, CursorAt(data, p)) == CursorAt(data, p + |EncodeName(n)|)
  {
    EndBytes(data, p, n);
  }

  /** The name that a written name ends in can be read. */
  predicate EndResolves(data: seq<byte>, target: Option<nat>, hops: nat)
  {
    target.Some? ==>
      hops > 0 && target.value <= |data| && Resolves(data, CursorAt(data, target.value), hops - 1)
  }

  function EndLabels(data: seq<byte>, target: Option<nat>, hops: nat): seq<seq<byte>>
    requires EndResolves(data, target, hops)
  {
    if target.None? then [] else Labels(data, CursorAt(data, target.value), hops - 1)
  }

  /** The labels written, and then those of the name pointed to. */
  function AllLabels(data: seq<byte>, n: Name, hops: nat): seq<seq<byte>>
    requires EndResolves(data, n.target, hops)
  {
    n.labels + EndLabels(data, n.target, hops)
  }

  /** Reading a written name recovers its labels. */
  lemma {:induction false} NameRead(data: seq<byte>, p: nat, n: Name, hops: nat)
    requires ValidName(n) && At(data, p, EncodeName(n))
    requires EndResolves(data, n.target, hops)
    ensures Resolves(data, CursorAt(data, p), hops)
    ensures Labels(data, CursorAt(data, p), hops) == AllLabels(data, n, hops)
    decreases |n.labels|
  {
    hide Byte, Skip, Label, EncodeName, At, EndResolves, EndLabels, Resolves, Labels;
    if n.labels == [] {
      EndRead(data, p, n, hops);
    } else {
      var x, rest := n.labels[0], Name(n.labels[1..], n.target);
      NameCons(data, p, n);
      NameRead(data, p + 1 + |x|, rest, hops);
      LabelRead(data, p, x, hops);
      assert AllLabels(data, n, hops) == [x] + AllLabels(data, rest, hops);
    }
  }

  lemma EndRead(data: seq<byte>, p: nat, n: Name, hops: nat)
    requires ValidName(n) && n.labels == [] && At(data, p, EncodeName(n))
    requires EndResolves(data, n.target, hops)
    ensures Resolves(data, CursorAt(data, p), hops)
    ensures Labels(data, CursorAt(data, p), hops) == AllLabels(data, n, hops)
  {
    hide Label, Jump, EncodeName, At;
    EndFollowed(data, p, n);
    EndBytes(data, p, n);
  }

  /** Every pointer that follows a label leads to a name that is not empty (see Names.PointersNamed). */
  predicate EndNamed(data: seq<byte>, n: Name, first: bool, hops: nat)
    requires EndResolves(data, n.target, hops)
  {
    n.target.Some? ==>
      && PointersNamed(data, CursorAt(data, n.target.value), true, hops - 1)
      && ((first && n.labels == []) || EndLabels(data, n.target, hops) != [])
  }

  lemma {:induction false} NameNamed(data: seq<byte>, p: nat, n: Name, first: bool, hops: nat)
    requires ValidName(n) && At(data, p, EncodeName(n))
    requires EndResolves(data, n.target, hops) && EndNamed(data, n, first, hops)
    ensures Resolves(data, CursorAt(data, p), hops) && PointersNamed(data, CursorAt(data, p), first, hops)
    decreases |n.labels|
  {
    hide Byte, Skip, Label, EncodeName, At, EndResolves, EndLabels, Resolves, Labels, PointersNamed;
    if n.labels == [] {
      EndIsNamed(data, p, n, first, hops);
    } else {
      var x, rest := n.labels[0], Name(n.labels[1..], n.target);
      NameCons(data, p, n);
      NameNamed(data, p + 1 + |x|, rest, false, hops);
      LabelNamed(data, p, x, first, hops);
    }
  }

  lemma LabelNamed(data: seq<byte>, p: nat, x: seq<byte>, first: bool, hops: nat)
    requires p < |data| && data[p] == |x| && 1 <= |x| <= 63 && At(data, p + 1, x)
    requires Resolves(data, CursorAt(data, p + 1 + |x|), hops)
    requires PointersNamed(data, CursorAt(data, p + 1 + |x|), false, hops)
    ensures Resolves(data, CursorAt(data, p), hops)
    ensures PointersNamed(data, CursorAt(data, p), first, hops)
  {
    LabelStep(data, p, x);
    hide Byte, Skip, Label, At;
  }

  lemma {:induction false} EndIsNamed(data: seq<byte>, p: nat, n: Name, first: bool, hops: nat)
    requires ValidName(n) && n.labels == [] && At(data, p, EncodeName(n))
    requires EndResolves(data, n.target, hops) && EndNamed(data, n, first, hops)
    ensures Resolves(data, CursorAt(data, p), hops) && PointersNamed(data, CursorAt(data, p), first, hops)
  {
    hide Labels, Label, Jump, EncodeName, At;
    EndFollowed(data, p, n);
    EndBytes(data, p, n);
  }

  /** Section 4.1.4 of RFC 1035: at `t` stands a name with these labels, written out as far as it goes and
      then ending in a pointer to such a name at an earlier place. */
  ghost predicate WrittenAt(data: seq<byte>, t: nat, full: seq<seq<byte>>)
    decreases t
  {
    exists n: Name, rest: seq<seq<byte>> ::
      WrittenAs(data, t, n, rest, full)
      && (n.target.Some? ==> n.target.value < t && WrittenAt(data, n.target.value, rest))
  }

  ghost predicate WrittenAs(data: seq<byte>, t: nat, n: Name, rest: seq<seq<byte>>, full: seq<seq<byte>>)
  {
    && ValidName(n) && (n.labels != [] || n.target.Some?) && At(data, t, EncodeName(n))
    && full == n.labels + rest && (n.target.None? ==> rest == [])
  }

  /** The full labels of a name that may end in a pointer. */
  ghost predicate Means(data: seq<byte>, n: Name, full: seq<seq<byte>>)
  {
    if n.target.None? then full == n.labels
    else exists rest :: full == n.labels + rest && WrittenAt(data, n.target.value, rest)
  }

  lemma NameNotEmpty(n: Name)
    requires ValidName(n)
    ensures |EncodeName(n)| > 0
  {
  }

  /** A name so written can be followed, and reading it gives its labels. */
  lemma {:induction false} WrittenIsRead(data: seq<byte>, t: nat, full: seq<seq<byte>>, hops: nat)
    requires WrittenAt(data, t, full) && hops >= t
    ensures t < |data| && full != []
    ensures Resolves(data, CursorAt(data, t), hops) && PointersNamed(data, CursorAt(data, t), true, hops)
    ensures Labels(data, CursorAt(data, t), hops) == full
    decreases t
  {
    hide Resolves, PointersNamed, Labels, EncodeName;
    var n: Name, rest: seq<seq<byte>> :|
      WrittenAs(data, t, n, rest, full)
      && (n.target.Some? ==> n.target.value < t && WrittenAt(data, n.target.value, rest));
    if n.target.Some? {
      WrittenIsRead(data, n.target.value, rest, hops - 1);
    }
    NameNotEmpty(n);
    NameRead(data, t, n, hops);
    NameNamed(data, t, n, true, hops);
  }

  // ---------- Records ----------

  /** What a record is meant to say: dotted labels and a NUL. */
  function Text(data: seq<byte>, r: Rr, hops: nat): seq<byte>
    requires EndResolves(data, r.name.target, hops)
  {
    JoinDots(AllLabels(data, r.name, hops)) + [NUL]
  }

  predicate Followable(data: seq<byte>, rs: seq<Rr>, hops: nat)
  {
    forall i :: 0 <= i < |rs| ==>
      EndResolves(data, rs[i].name.target, hops) && EndNamed(data, rs[i].name, true, hops)
  }

  /** The records in order, without those whose names are too long. */
  function Expected(data: seq<byte>, rs: seq<Rr>, hops: nat): seq<Visit>
    requires Followable(data, rs, hops)
  {
    if rs == [] then []
    else
      var text := Text(data, rs[0], hops);
      (if |text| > NAME_SIZE then [] else [Visit(text, rs[0].kind, rs[0].body)]) + Expected(data, rs[1..], hops)
  }

  lemma TwoRead(data: seq<byte>, p: nat, n: nat)
    requires n < 0x10000 && At(data, p, Two(n))
    ensures WordAt(data, p) == n
  {
    assert data[p..p + 2][0] == data[p] && data[p..p + 2][1] == data[p + 1];
  }

  lemma HeaderFramed(data: seq<byte>, p: nat, r: Rr)
    requires ValidRr(r) && At(data, p, EncodeName(r.name) + EncodeHeader(r))
    ensures var c, q := CursorAt(data, p), p + |EncodeName(r.name)|;
            && At(data, p, EncodeName(r.name))
            && SkipName(data, c) == CursorAt(data, q)
            && WordAt(data, q) == r.kind
            && RrLength(data, c) == |r.body|
            && q + RR_HEADER <= |data| && AfterHeader(data, c) == CursorAt(data, q + RR_HEADER)
  {
    hide EncodeName, SkipName, At, Two, WordAt;
    var q := p + |EncodeName(r.name)|;
    AtPieces(data, p, EncodeName(r.name), EncodeHeader(r));
    AtBounds(data, q, EncodeHeader(r));
    AtPieces(data, q, Two(r.kind) + r.classAndTtl, Two(|r.body|));
    AtPieces(data, q, Two(r.kind), r.classAndTtl);
    TwoRead(data, q, r.kind);
    TwoRead(data, q + 8, |r.body|);
    NameSkipped(data, p, r.name);
  }

  lemma RecordFramed(data: seq<byte>, p: nat, r: Rr)
    requires ValidRr(r) && At(data, p, EncodeRr(r))
    ensures var c, q := CursorAt(data, p), p + |EncodeName(r.name)|;
            && SkipName(data, c) == CursorAt(data, q)
            && WordAt(data, q) == r.kind
            && RrLength(data, c) == |r.body|
            && AfterHeader(data, c) == CursorAt(data, q + RR_HEADER)
            && AfterRecord(data, c) == CursorAt(data, p + |EncodeRr(r)|)
            && At(data, q + RR_HEADER, r.body)
  {
    hide EncodeName, SkipName, EncodeHeader, AfterHeader, RrLength;
    assert EncodeRr(r) == (EncodeName(r.name) + EncodeHeader(r)) + r.body;
    AtPieces(data, p, EncodeName(r.name) + EncodeHeader(r), r.body);
    HeaderFramed(data, p, r);
  }

  /** A name that is read to its full text fits its buffer, or overruns it. */
  lemma NameFramed(data: seq<byte>, p: nat, n: Name, hops: nat)
    requires ValidName(n) && At(data, p, EncodeName(n))
    requires EndResolves(data, n.target, hops) && EndNamed(data, n, true, hops)
    ensures Resolves(data, CursorAt(data, p), hops)
    ensures var text, name := JoinDots(AllLabels(data, n, hops)) + [NUL], NameOf(data, CursorAt(data, p), hops);
            (name.oob <==> |text| > NAME_SIZE) && (!name.oob ==> name.text == text)
  {
    hide EncodeName, SkipName, Resolves, ReadOut, EndResolves, EndNamed, PointersNamed, Labels, AllLabels, JoinDots;
    NameRead(data, p, n, hops);
    NameNamed(data, p, n, true, hops);
    OutHoldsText(data, CursorAt(data, p), true, Out([], NAME_SIZE, false), hops);
    TextIsJoinedLabels(data, CursorAt(data, p), hops);
    var text := JoinDots(AllLabels(data, n, hops)) + [NUL];
    assert [] + text == text;
  }

  /** A last record that the end of the packet cuts off inside its body is handed on with what is there, and
      ends the walk. */
  lemma RecordCutOff(data: seq<byte>, p: nat, r: Rr, part: seq<byte>, hops: nat)
    requires ValidRr(r) && p <= |data| && data[p..] == EncodeName(r.name) + EncodeHeader(r) + part
    requires |part| < |r.body|
    requires EndResolves(data, r.name.target, hops) && EndNamed(data, r.name, true, hops)
    ensures Resolves(data, CursorAt(data, p), hops)
    ensures var text := Text(data, r, hops);
            Here(data, CursorAt(data, p), hops) == if |text| > 128 then [] else [Visit(text, r.kind, part)]
    ensures AfterRecord(data, CursorAt(data, p)).oob
  {
    hide EncodeName, SkipName, Resolves, EndResolves, EndNamed, RrLength, AfterHeader, EncodeHeader, WordAt;
    hide AllLabels, JoinDots, NameOf;
    var head, c := EncodeName(r.name) + EncodeHeader(r), CursorAt(data, p);
    var s := data[p..];
    assert s[..|head|] == head && s[|head|..] == part;
    assert data[p..p + |head|] == s[..|head|] && data[p + |head|..] == s[|head|..];
    HeaderFramed(data, p, r);
    NameFramed(data, p, r.name, hops);
    var q := p + |head|;
    assert data[q..q + |part|] == data[q..];
  }

  lemma RecordVisited(data: seq<byte>, p: nat, r: Rr, hops: nat)
    requires ValidRr(r) && At(data, p, EncodeRr(r))
    requires EndResolves(data, r.name.target, hops) && EndNamed(data, r.name, true, hops)
    ensures Resolves(data, CursorAt(data, p), hops)
    ensures var text := Text(data, r, hops);
            Here(data, CursorAt(data, p), hops)
            == if |text| > NAME_SIZE then [] else [Visit(text, r.kind, r.body)]
  {
    hide EncodeName, SkipName, Resolves, EndResolves, EndNamed, WordAt;
    hide RrLength, AfterHeader, EncodeHeader, AllLabels, JoinDots, NameOf;
    AtPieces(data, p, EncodeName(r.name), EncodeHeader(r) + r.body);
    RecordFramed(data, p, r);
    NameFramed(data, p, r.name, hops);
  }

  lemma {:induction false} RecordsVisited(data: seq<byte>, p: nat, rs: seq<Rr>, hops: nat)
    requires forall i :: 0 <= i < |rs| ==> ValidRr(rs[i])
    requires At(data, p, EncodeRrs(rs)) && Followable(data, rs, hops)
    ensures NamesResolve(data, CursorAt(data, p), |rs|, hops)
    ensures Walk(data, CursorAt(data, p), |rs|, hops) == Expected(data, rs, hops)
    decreases |rs|
  {
    hide EncodeRr, ValidRr, EndResolves, EndNamed, Here, AfterHeader, AfterRecord, Resolves, Text;
    if rs != [] {
      var r := rs[0];
      AtPieces(data, p, EncodeRr(r), EncodeRrs(rs[1..]));
      RecordFramed(data, p, r);
      RecordVisited(data, p, r, hops);
      RecordsVisited(data, p + |EncodeRr(r)|, rs[1..], hops);
    }
  }

  lemma {:induction false} QueriesSkipped(data: seq<byte>, p: nat, qs: seq<Query>)
    requires forall i :: 0 <= i < |qs| ==> ValidQuery(qs[i])
    requires At(data, p, EncodeQueries(qs))
    ensures SkipQueries(data, CursorAt(data, p), |qs|) == CursorAt(data, p + |EncodeQueries(qs)|)
    decreases |qs|
  {
    hide EncodeName, SkipName;
    if qs != [] {
      var q := qs[0];
      AtPieces(data, p, EncodeQuery(q), EncodeQueries(qs[1..]));
      AtPieces(data, p, EncodeName(q.name), q.kindAndClass);
      NameSkipped(data, p, q.name);
      QueriesSkipped(data, p + |EncodeQuery(q)|, qs[1..]);
    }
  }

  // ---------- Messages ----------

  lemma {:induction false} CountsRead(m: Message)
    requires ValidMessage(m)
    ensures var data := Encode(m);
            && (IsResponse(data) <==> m.flags[0] >= 128) && WordAt(data, 4) == |m.queries| && Total(data) == |m.records|
            && At(data, HEADER, EncodeQueries(m.queries))
            && At(data, HEADER + |EncodeQueries(m.queries)|, EncodeRrs(m.records))
  {
    hide EncodeQueries, EncodeRrs, WordAt, Two;
    var data, a, b, d := Encode(m), Two(|m.queries|), Two(m.answers), Two(m.auth);
    var e := Two(|m.records| - m.answers - m.auth);
    var rest := EncodeQueries(m.queries) + EncodeRrs(m.records);
    assert data[0..|data|] == data;
    AtPieces(data, 0, EncodeCounts(m), rest);
    AtPieces(data, HEADER, EncodeQueries(m.queries), EncodeRrs(m.records));
    AtPieces(data, 0, m.id + m.flags + a + b + d, e);
    AtPieces(data, 0, m.id + m.flags + a + b, d);
    AtPieces(data, 0, m.id + m.flags + a, b);
    AtPieces(data, 0, m.id + m.flags, a);
    AtPieces(data, 0, m.id, m.flags);
    assert data[2..4][0] == data[2];
    TwoRead(data, 4, |m.queries|);
    TwoRead(data, 6, m.answers);
    TwoRead(data, 8, m.auth);
    TwoRead(data, 10, |m.records| - m.answers - m.auth);
  }

  /** On a well-formed response the walk visits exactly its records, in order, each with its dotted
      name and its own bytes; only records whose names overrun the buffer are passed over. */
  lemma VisitsEveryRecord(m: Message, hops: nat)
    requires ValidMessage(m) && Followable(Encode(m), m.records, hops)
    ensures Readable(Encode(m), hops)
    ensures Visits(Encode(m), hops)
            == if m.flags[0] >= 128 then Some(Expected(Encode(m), m.records, hops)) else None
  {
    hide Encode, EncodeQueries, EncodeRrs, Walk, SkipQueries, NamesResolve, Followable, Expected;
    var data := Encode(m);
    CountsRead(m);
    QueriesSkipped(data, HEADER, m.queries);
    RecordsVisited(data, HEADER + |EncodeQueries(m.queries)|, m.records, hops);
  }

  /** Records with their full names, without those whose names are too long. */
  function Named(rs: seq<Rr>, names: seq<seq<seq<byte>>>): seq<Visit>
    requires |names| == |rs|
  {
    if rs == [] then []
    else
      var text := JoinDots(names[0]) + [NUL];
      (if |text| > 128 then [] else [Visit(text, rs[0].kind, rs[0].body)]) + Named(rs[1..], names[1..])
  }

  /** Every record's name means the given labels. */
  ghost predicate Compressed(data: seq<byte>, rs: seq<Rr>, names: seq<seq<seq<byte>>>)
  {
    |names| == |rs| && forall i :: 0 <= i < |rs| ==> Means(data, rs[i].name, names[i])
  }

  lemma MeansIsFollowed(data: seq<byte>, n: Name, full: seq<seq<byte>>)
    requires Means(data, n, full)
    ensures EndResolves(data, n.target, MaxHops(data)) && EndNamed(data, n, true, MaxHops(data))
    ensures AllLabels(data, n, MaxHops(data)) == full
  {
    hide Resolves, PointersNamed, Labels;
    if n.target.Some? {
      var rest :| full == n.labels + rest && WrittenAt(data, n.target.value, rest);
      InPacket(data, n.target.value, rest);
      WrittenIsRead(data, n.target.value, rest, |data|);
    }
  }

  lemma InPacket(data: seq<byte>, t: nat, full: seq<seq<byte>>)
    requires WrittenAt(data, t, full)
    ensures t < |data|
  {
    hide Resolves, PointersNamed, Labels;
    WrittenIsRead(data, t, full, t);
  }

  lemma {:induction false} NamedIsExpected(data: seq<byte>, rs: seq<Rr>, names: seq<seq<seq<byte>>>)
    requires Compressed(data, rs, names)
    ensures Followable(data, rs, MaxHops(data)) && Expected(data, rs, MaxHops(data)) == Named(rs, names)
  {
    hide EndResolves, EndNamed, AllLabels, JoinDots, Means;
    forall i | 0 <= i < |rs|
      ensures EndResolves(data, rs[i].name.target, MaxHops(data)) && EndNamed(data, rs[i].name, true, MaxHops(data))
      ensures AllLabels(data, rs[i].name, MaxHops(data)) == names[i]
    {
      MeansIsFollowed(data, rs[i].name, names[i]);
    }
    if rs != [] {
      NamedIsExpected(data, rs[1..], names[1..]);
    }
  }

  /** Decompression end to end: on every well-formed response whose pointers keep to section 4.1.4 of
      RFC 1035 the walk visits exactly its records, in order, each with its full dotted name and its own
      bytes; only records whose full names overrun the buffer are passed over. */
  lemma VisitsCompressed(m: Message, names: seq<seq<seq<byte>>>)
    requires ValidMessage(m) && Compressed(Encode(m), m.records, names)
    ensures Readable(Encode(m), MaxHops(Encode(m)))
    ensures Visits(Encode(m), MaxHops(Encode(m))) == if m.flags[0] >= 128 then Some(Named(m.records, names)) else None
  {
    hide Encode, Compressed, Followable, Expected, Named, Visits, Readable, ValidMessage;
    var data := Encode(m);
    SameLength(m, names);
    NamedIsExpected(data, m.records, names);
    VisitsEveryRecord(m, MaxHops(data));
  }

  lemma SameLength(m: Message, names: seq<seq<seq<byte>>>)
    requires ValidMessage(m) && Compressed(Encode(m), m.records, names)
    ensures |names| == |m.records|
  {
  }
}
