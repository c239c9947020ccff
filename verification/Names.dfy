/** Compressed names (mdns.c mdns_skip_name and mdns_read_name; section 4.1.4 of RFC 1035). */
module Names {
  import opened Bytes
  import opened Cursor
  import opened Split

  /** The two top bits of a length byte mark a pointer; any of them counts here. */
  predicate IsPointer(n: byte) { n >= 64 }

  function Target(n: byte, low: byte): nat
  {
    U16(n % 64, low)
  }

  /** The cursor from which a pointer at the position after its first byte is followed. */
  function Jump(data: seq<byte>, n: byte, c: Cur): (r: Cur)
    requires Within(c, |data|)
    ensures r.pos <= |data| ==> Within(r, |data|)
  {
    var t := Target(n, Byte(data, c));
    Cur(t, if t <= |data| then |data| - t else 0, false)
  }

  // ---------- Skipping ----------

  function SkipName(data: seq<byte>, c: Cur): (r: Cur)
    requires Within(c, |data|)
    ensures Within(r, |data|) && r.len <= c.len
    decreases c.len
  {
    var n, c1 := Byte(data, c), Skip(c, 1);
    if n == 0 then c1
    else if IsPointer(n) then Skip(c1, 1)
    else SkipName(data, Skip(c1, n))
  }

  /** Zero ends a name; a byte with either of its two top bits set is a pointer, of two bytes; any other byte is
      the length of a label, which is passed over with it. */
  lemma SkipsByTopBits(data: seq<byte>, p: nat)
    requires p < |data|
    ensures var c, b := Cur(p, |data| - p, false), data[p];
            && (b == 0 ==> SkipName(data, c) == Cur(p + 1, |data| - p - 1, false))
            && ((b / 64 == 1 || b / 64 == 2 || b / 64 == 3) && p + 1 < |data| ==>
                  SkipName(data, c) == Cur(p + 2, |data| - p - 2, false))
            && (1 <= b < 64 && p + 1 + b <= |data| ==>
                  SkipName(data, c) == SkipName(data, Cur(p + 1 + b, |data| - p - 1 - b, false)))
  {
  }

  /** A pointer leads to the place in its lower 14 bits, and the rest of the packet is read from there. */
  lemma PointerLeadsTo(data: seq<byte>, p: nat)
    requires p + 1 < |data| && (data[p] as int) % 64 * 256 + data[p + 1] as int <= |data|
    ensures var t := (data[p] as int) % 64 * 256 + data[p + 1] as int;
            Jump(data, data[p], Cur(p + 1, |data| - p - 1, false)) == Cur(t, |data| - t, false)
  {
  }

  // ---------- Following pointers ----------

  /** Reading from `c` ends after at most `hops` pointers, all of them inside the packet. */
  predicate Resolves(data: seq<byte>, c: Cur, hops: nat)
    requires Within(c, |data|)
    decreases hops, c.len
  {
    var n, c1 := Byte(data, c), Skip(c, 1);
    if n == 0 then true
    else if IsPointer(n) then
      var j := Jump(data, n, c1);
      hops > 0 && j.pos <= |data| && Resolves(data, j, hops - 1)
    else Resolves(data, Skip(c1, n), hops)
  }

  /** Section 4.1.4 of RFC 1035: a pointer leads to an earlier place than the segment it ends. */
  predicate Backward(data: seq<byte>, start: nat, c: Cur)
    requires Within(c, |data|)
    decreases start, c.len
  {
    var n, c1 := Byte(data, c), Skip(c, 1);
    if n == 0 then true
    else if IsPointer(n) then
      var j := Jump(data, n, c1);
      j.pos < start && j.pos <= |data| && Backward(data, j.pos, j)
    else Backward(data, start, Skip(c1, n))
  }

  /** Backward pointers always end, after fewer hops than the segment's position. */
  lemma {:induction false} BackwardResolves(data: seq<byte>, start: nat, c: Cur)
    requires Within(c, |data|) && Backward(data, start, c)
    ensures Resolves(data, c, start)
    decreases start, c.len
  {
    var n, c1 := Byte(data, c), Skip(c, 1);
    if n == 0 {
    } else if IsPointer(n) {
      var j := Jump(data, n, c1);
      BackwardResolves(data, j.pos, j);
      JumpsAreEnough(data, j, j.pos, start - 1);
    } else {
      BackwardResolves(data, start, Skip(c1, n));
    }
  }

  // ---------- Exactly when reading ends ----------

  /** How many pointers are followed. */
  function Jumps(data: seq<byte>, c: Cur, hops: nat): (n: nat)
    requires Within(c, |data|) && Resolves(data, c, hops)
    ensures n <= hops
    decreases hops, c.len
  {
    var n, c1 := Byte(data, c), Skip(c, 1);
    if n == 0 then 0
    else if IsPointer(n) then 1 + Jumps(data, Jump(data, n, c1), hops - 1)
    else Jumps(data, Skip(c1, n), hops)
  }

  /** It does not depend on the hops allowed, and it is enough to allow as many. */
  lemma {:induction false} JumpsAreEnough(data: seq<byte>, c: Cur, a: nat, b: nat)
    requires Within(c, |data|) && Resolves(data, c, a) && b >= Jumps(data, c, a)
    ensures Resolves(data, c, b) && Jumps(data, c, b) == Jumps(data, c, a)
    decreases a, c.len
  {
    hide Byte, Skip, Jump;
    var n, c1 := Byte(data, c), Skip(c, 1);
    if n == 0 {
    } else if IsPointer(n) {
      JumpsAreEnough(data, Jump(data, n, c1), a - 1, b - 1);
    } else {
      JumpsAreEnough(data, Skip(c1, n), a, b);
    }
  }

  /** The cursor from which a pointer to `t` is followed. */
  function From(data: seq<byte>, t: nat): (c: Cur)
    requires t <= |data|
    ensures Within(c, |data|)
  {
    Cur(t, |data| - t, false)
  }

  /** The places that the pointers lead to. */
  ghost function Targets(data: seq<byte>, c: Cur, hops: nat): set<nat>
    requires Within(c, |data|) && Resolves(data, c, hops)
    decreases hops, c.len
  {
    var n, c1 := Byte(data, c), Skip(c, 1);
    if n == 0 then {}
    else if IsPointer(n) then
      var j := Jump(data, n, c1);
      {j.pos} + Targets(data, j, hops - 1)
    else Targets(data, Skip(c1, n), hops)
  }

  /** Fewer pointers follow from each place than from the cursor, so no place comes twice. */
  lemma {:induction false} TargetsDiffer(data: seq<byte>, c: Cur, hops: nat)
    requires Within(c, |data|) && Resolves(data, c, hops)
    ensures |Targets(data, c, hops)| == Jumps(data, c, hops)
    ensures forall t :: t in Targets(data, c, hops) ==>
              && t <= |data| && Resolves(data, From(data, t), hops)
              && Jumps(data, From(data, t), hops) < Jumps(data, c, hops)
    decreases hops, c.len
  {
    hide Byte, Skip;
    var n, c1 := Byte(data, c), Skip(c, 1);
    if n == 0 {
    } else if IsPointer(n) {
      var j := Jump(data, n, c1);
      TargetsDiffer(data, j, hops - 1);
      forall t | t in Targets(data, j, hops - 1)
        ensures Resolves(data, From(data, t), hops)
        ensures Jumps(data, From(data, t), hops) == Jumps(data, From(data, t), hops - 1)
      {
        JumpsAreEnough(data, From(data, t), hops - 1, hops);
      }
      JumpsAreEnough(data, j, hops - 1, hops);
      assert j == From(data, j.pos);
    } else {
      TargetsDiffer(data, Skip(c1, n), hops);
    }
  }

  lemma {:induction false} Pigeonhole(a: set<nat>, n: nat)
    requires forall t :: t in a ==> t < n
    ensures |a| <= n
  {
    if n == 0 {
      assert a == {};
    } else {
      Pigeonhole(a - {n - 1}, n - 1);
    }
  }

  lemma JumpsBound(data: seq<byte>, c: Cur, hops: nat)
    requires Within(c, |data|) && Resolves(data, c, hops)
    ensures Jumps(data, c, hops) <= MaxHops(data)
  {
    hide Resolves, Jumps, Targets;
    TargetsDiffer(data, c, hops);
    Pigeonhole(Targets(data, c, hops), |data| + 1);
  }

  /** As many pointers as can be followed without coming to one place twice. */
  function MaxHops(data: seq<byte>): nat { |data| + 1 }

  /** A test that a caller can make before reading: it follows at most so many pointers. */
  predicate Ends(data: seq<byte>, c: Cur)
    requires Within(c, |data|)
  {
    Resolves(data, c, MaxHops(data))
  }

  /** Reading ends, with every pointer inside the packet, if and only if the bounded test says so. */
  lemma EndsExactly(data: seq<byte>, c: Cur)
    requires Within(c, |data|)
    ensures (exists hops: nat :: Resolves(data, c, hops)) <==> Ends(data, c)
  {
    hide Resolves, Jumps;
    if hops: nat :| Resolves(data, c, hops) {
      JumpsBound(data, c, hops);
      JumpsAreEnough(data, c, hops, MaxHops(data));
    }
  }

  /** What is read does not depend on the hops allowed. */
  lemma {:induction false} HopsDoNotMatter(data: seq<byte>, c: Cur, first: bool, o: Out, a: nat, b: nat)
    requires Within(c, |data|) && Resolves(data, c, a) && Resolves(data, c, b)
    ensures ReadOut(data, c, first, o, a) == ReadOut(data, c, first, o, b)
    decreases a, c.len
  {
    hide Byte, Skip, Jump, Put, Label;
    var n, c1 := Byte(data, c), Skip(c, 1);
    if n != 0 {
      var o1 := if first then o else Put(o, [DOT]);
      if IsPointer(n) {
        HopsDoNotMatter(data, Jump(data, n, c1), true, o1, a - 1, b - 1);
      } else {
        var o2 := if c1.len < n then o1 else Put(o1, Label(data, c1, n));
        HopsDoNotMatter(data, Skip(c1, n), false, o2, a, b);
      }
    }
  }

  /** A pointer past the end of the packet cannot be followed. */
  lemma PointerOutside(hops: nat)
    ensures !Resolves([192, 5], Cur(0, 2, false), hops)
  {
    var data: seq<byte> := [192, 5];
    var c := Cur(0, 2, false);
    assert Byte(data, c) == 192 && Byte(data, Skip(c, 1)) == 5;
    assert Jump(data, 192, Skip(c, 1)).pos == 5;
  }

  /** A pointer to itself never ends. */
  lemma {:induction false} SelfPointerNeverResolves(hops: nat)
    ensures !Resolves([192, 0], Cur(0, 2, false), hops)
  {
    var data: seq<byte> := [192, 0];
    var c := Cur(0, 2, false);
    assert Byte(data, c) == 192 && Byte(data, Skip(c, 1)) == 0;
    assert Jump(data, 192, Skip(c, 1)) == c;
    if hops > 0 {
      SelfPointerNeverResolves(hops - 1);
    }
  }

  // ---------- Reading ----------

  /** The label at the cursor, empty when it does not fit what is left. */
  function Label(data: seq<byte>, c: Cur, n: byte): seq<byte>
    requires Within(c, |data|)
  {
    if c.len < n then [] else data[c.pos..c.pos + n]
  }

  /** What mdns_read_name makes of the output cursor, put by put. */
  function ReadOut(data: seq<byte>, c: Cur, first: bool, o: Out, hops: nat): Out
    requires Within(c, |data|) && Resolves(data, c, hops)
    decreases hops, c.len
  {
    var n, c1 := Byte(data, c), Skip(c, 1);
    if n == 0 then Put(o, [NUL])
    else
      var o1 := if first then o else Put(o, [DOT]);
      if IsPointer(n) then ReadOut(data, Jump(data, n, c1), true, o1, hops - 1)
      else ReadOut(data, Skip(c1, n), false, if c1.len < n then o1 else Put(o1, Label(data, c1, n)), hops)
  }

  /** All that is put, as one text. */
  function NameText(data: seq<byte>, c: Cur, first: bool, hops: nat): (r: seq<byte>)
    requires Within(c, |data|) && Resolves(data, c, hops)
    ensures |r| >= 1
    decreases hops, c.len
  {
    var n, c1 := Byte(data, c), Skip(c, 1);
    if n == 0 then [NUL]
    else
      var dot := if first then [] else [DOT];
      if IsPointer(n) then dot + NameText(data, Jump(data, n, c1), true, hops - 1)
      else dot + Label(data, c1, n) + NameText(data, Skip(c1, n), false, hops)
  }

  /** `r` is what `o` becomes when `text` is put: it overruns exactly when the text does not fit. */
  predicate Holds(o: Out, text: seq<byte>, r: Out)
  {
    if |text| <= o.room then r == Out(o.text + text, o.room - |text|, o.oob) else r.oob && r.room == 0
  }

  /** Putting in pieces is putting the whole, when something follows the piece. */
  lemma HoldsInPieces(o: Out, piece: seq<byte>, rest: seq<byte>, r: Out)
    requires rest != [] && Holds(Put(o, piece), rest, r)
    ensures Holds(o, piece + rest, r)
  {
    assert o.text + piece + rest == o.text + (piece + rest);
  }

  lemma PutNothing(o: Out)
    ensures Put(o, []) == o
  {
    assert o.text + [] == o.text;
  }

  lemma HoldsInTwo(o: Out, a: seq<byte>, b: seq<byte>, rest: seq<byte>, r: Out)
    requires rest != [] && Holds(Put(Put(o, a), b), rest, r)
    ensures Holds(o, a + b + rest, r)
  {
    hide Put, Holds;
    HoldsInPieces(Put(o, a), b, rest, r);
    HoldsInPieces(o, a, b + rest, r);
    assert a + b + rest == a + (b + rest);
  }

  /** The output overruns exactly when the whole text does not fit, and holds the text when it does. */
  lemma {:induction false} OutHoldsText(data: seq<byte>, c: Cur, first: bool, o: Out, hops: nat)
    requires Within(c, |data|) && Resolves(data, c, hops)
    ensures Holds(o, NameText(data, c, first, hops), ReadOut(data, c, first, o, hops))
    decreases hops, c.len
  {
    var n, c1 := Byte(data, c), Skip(c, 1);
    if n != 0 {
      hide Byte, Jump, Skip, Put, Holds, Target;
      var dot := if first then [] else [DOT];
      var o1 := Put(o, dot);
      PutNothing(o);
      if IsPointer(n) {
        var j := Jump(data, n, c1);
        OutHoldsText(data, j, true, o1, hops - 1);
        HoldsInPieces(o, dot, NameText(data, j, true, hops - 1), ReadOut(data, j, true, o1, hops - 1));
      } else {
        var part, c2 := Label(data, c1, n), Skip(c1, n);
        var o2 := Put(o1, part);
        PutNothing(o1);
        OutHoldsText(data, c2, false, o2, hops);
        var rest, r := NameText(data, c2, false, hops), ReadOut(data, c2, false, o2, hops);
        HoldsInTwo(o, dot, part, rest, r);
      }
    }
  }

  /** mdns_read_name: the source ends where mdns_skip_name would leave it, whatever the output does. */
  method ReadName(src: Dcpy, dst: Dcpy, ghost hops: nat)
    requires src.Valid() && dst.Valid() && src != dst && src.buf != dst.buf
    requires Resolves(src.buf[..], src.At(), hops)
    modifies src, dst, dst.buf
    ensures src.Valid() && dst.Valid()
    ensures src.At() == SkipName(src.buf[..], old(src.At()))
    ensures dst.Written() == ReadOut(src.buf[..], old(src.At()), true, old(dst.Written()), hops)
    decreases hops
  {
    hide Byte, Skip, Put;
    ghost var data := src.buf[..];
    var i := 0;
    while true
      invariant i >= 0 && src.Valid() && dst.Valid() && src.buf[..] == data
      invariant Resolves(data, src.At(), hops)
      invariant SkipName(data, src.At()) == SkipName(data, old(src.At()))
      invariant ReadOut(data, src.At(), i == 0, dst.Written(), hops)
                == ReadOut(data, old(src.At()), true, old(dst.Written()), hops)
      decreases src.len
    {
      var n := src.Get8();
      if n == 0 {
        dst.Put8(NUL);
        return;
      }
      if i > 0 {
        dst.Put8(DOT);
      }
      if IsPointer(n) {
        var low := src.Get8();
        var ptr := Target(n, low);
        var header := new Dcpy(src.buf, ptr, src.buf.Length - ptr);
        ReadName(header, dst, hops - 1);
        return;
      }
      dst.CopyFrom(src, n);
      i := i + 1;
    }
  }

  /** mdns_skip_name. */
  method SkipNameAt(src: Dcpy)
    requires src.Valid()
    modifies src
    ensures src.Valid() && src.At() == SkipName(src.buf[..], old(src.At()))
  {
    ghost var data := src.buf[..];
    while true
      invariant src.Valid() && src.buf[..] == data
      invariant SkipName(data, src.At()) == SkipName(data, old(src.At()))
      decreases src.len
    {
      var n := src.Get8();
      if n == 0 {
        return;
      }
      if IsPointer(n) {
        src.SkipBytes(1);
        return;
      }
      src.SkipBytes(n);
    }
  }

  // ---------- The labels a name stands for ----------

  function Labels(data: seq<byte>, c: Cur, hops: nat): seq<seq<byte>>
    requires Within(c, |data|) && Resolves(data, c, hops)
    decreases hops, c.len
  {
    var n, c1 := Byte(data, c), Skip(c, 1);
    if n == 0 then []
    else if IsPointer(n) then Labels(data, Jump(data, n, c1), hops - 1)
    else [Label(data, c1, n)] + Labels(data, Skip(c1, n), hops)
  }

  function JoinDots(labels: seq<seq<byte>>): seq<byte>
  {
    Join(labels, DOT)
  }

  /** Labels are set apart by dots, and the text ends in a NUL. */
  lemma DottedText(a: seq<byte>, b: seq<byte>)
    ensures JoinDots([a, b]) + [NUL] == a + ['.' as int] + b + [0]
  {
    assert [a, b][1..] == [b] && JoinDots([b]) == b;
    assert JoinDots([a, b]) == a + [DOT] + b;
  }

  /** Every pointer that follows a label leads to a name that is not empty. */
  predicate PointersNamed(data: seq<byte>, c: Cur, first: bool, hops: nat)
    requires Within(c, |data|) && Resolves(data, c, hops)
    decreases hops, c.len
  {
    var n, c1 := Byte(data, c), Skip(c, 1);
    if n == 0 then true
    else if IsPointer(n) then
      var j := Jump(data, n, c1);
      (first || Labels(data, j, hops - 1) != []) && PointersNamed(data, j, true, hops - 1)
    else PointersNamed(data, Skip(c1, n), false, hops)
  }

  lemma JoinDotsCons(x: seq<byte>, labels: seq<seq<byte>>)
    ensures JoinDots([x] + labels) == x + (if labels == [] then [] else [DOT] + JoinDots(labels))
  {
    assert ([x] + labels)[1..] == labels;
    if labels != [] {
      assert x + [DOT] + JoinDots(labels) == x + ([DOT] + JoinDots(labels));
    }
  }

  /** The labels joined by dots and a NUL, with a dot before them when they continue a name, and one dot too
      many where a pointer after a label leads to an empty name. */
  function Shape(labels: seq<seq<byte>>, first: bool, named: bool): seq<byte>
  {
    (if first || labels == [] then [] else [DOT]) + JoinDots(labels) + (if named then [] else [DOT]) + [NUL]
  }

  lemma ShapeEmpty(first: bool)
    ensures Shape([], first, true) == [NUL]
  {
  }

  lemma ShapeCons(x: seq<byte>, labels: seq<seq<byte>>, first: bool, named: bool)
    ensures Shape([x] + labels, first, named) == (if first then [] else [DOT]) + x + Shape(labels, false, named)
  {
    JoinDotsCons(x, labels);
  }

  /** A continued name that has no labels left or that starts after a dot. */
  lemma ShapeContinued(labels: seq<seq<byte>>, named: bool)
    requires labels == [] ==> named
    ensures [DOT] + Shape(labels, true, named)
            == Shape(labels, false, named && labels != [])
  {
  }

  lemma {:induction false} TextShape(data: seq<byte>, c: Cur, first: bool, hops: nat)
    requires Within(c, |data|) && Resolves(data, c, hops)
    ensures NameText(data, c, first, hops) == Shape(Labels(data, c, hops), first, PointersNamed(data, c, first, hops))
    decreases hops, c.len
  {
    hide Byte, Jump, Skip, Label, Shape;
    var n, c1 := Byte(data, c), Skip(c, 1);
    if n == 0 {
      ShapeEmpty(first);
    } else if IsPointer(n) {
      var j := Jump(data, n, c1);
      TextShape(data, j, true, hops - 1);
      PointerToNothing(data, j, hops - 1);
      ShapeContinued(Labels(data, j, hops - 1), PointersNamed(data, j, true, hops - 1));
    } else {
      var c2 := Skip(c1, n);
      TextShape(data, c2, false, hops);
      ShapeCons(Label(data, c1, n), Labels(data, c2, hops), first, PointersNamed(data, c2, false, hops));
    }
  }

  lemma {:induction false} PointerToNothing(data: seq<byte>, c: Cur, hops: nat)
    requires Within(c, |data|) && Resolves(data, c, hops)
    ensures Labels(data, c, hops) == [] ==> PointersNamed(data, c, true, hops) && NameText(data, c, true, hops) == [NUL]
    decreases hops, c.len
  {
    var n, c1 := Byte(data, c), Skip(c, 1);
    if n != 0 && IsPointer(n) {
      PointerToNothing(data, Jump(data, n, c1), hops - 1);
    }
  }

  /** The text is exactly the dot-joined labels with a final NUL if and only if every pointer that
      follows a label leads to a name that is not empty. */
  lemma TextIsJoinedLabels(data: seq<byte>, c: Cur, hops: nat)
    requires Within(c, |data|) && Resolves(data, c, hops)
    ensures NameText(data, c, true, hops) == JoinDots(Labels(data, c, hops)) + [NUL]
            <==> PointersNamed(data, c, true, hops)
  {
    hide NameText, Labels, PointersNamed;
    TextShape(data, c, true, hops);
    var j := JoinDots(Labels(data, c, hops));
    assert |[] + j + [DOT] + [NUL]| == |j + [NUL]| + 1;
    assert [] + j + [] + [NUL] == j + [NUL];
  }

  /** Name decompression is correct: with backward pointers to names that are not empty, reading ends,
      the output holds the dot-joined labels and a NUL when they fit, and overruns exactly when not. */
  lemma ReadNameCorrect(data: seq<byte>, c: Cur, o: Out)
    requires Within(c, |data|) && Backward(data, c.pos, c) && !o.oob
    ensures Resolves(data, c, c.pos)
    ensures PointersNamed(data, c, true, c.pos) ==>
              var text := JoinDots(Labels(data, c, c.pos)) + [NUL];
              var r := ReadOut(data, c, true, o, c.pos);
              && (r.oob <==> |text| > o.room)
              && (!r.oob ==> r.text == o.text + text)
  {
    BackwardResolves(data, c.pos, c);
    OutHoldsText(data, c, true, o, c.pos);
    TextIsJoinedLabels(data, c, c.pos);
  }
}
