/** The bounded cursor that packet parsing rests on (utils/dcpy.c). A read or write that does not fit
    marks the cursor out of bounds and leaves it empty; it never moves past its end. */
module Cursor {
  import opened Bytes

  /** Where a cursor stands: position, bytes left, out of bounds. */
  datatype Cur = Cur(pos: nat, len: nat, oob: bool)

  predicate Within(c: Cur, size: nat)
  {
    c.pos + c.len <= size
  }

  function Overrun(c: Cur): Cur
  {
    Cur(c.pos, 0, true)
  }

  /** dcpy_skip. */
  function Skip(c: Cur, n: nat): (r: Cur)
    ensures r.len <= c.len && r.pos + r.len <= c.pos + c.len
    ensures n > 0 && c.len > 0 ==> r.len < c.len
  {
    if c.len < n then Overrun(c) else Cur(c.pos + n, c.len - n, c.oob)
  }

  /** dcpy_get8: zero when nothing is left. */
  function Byte(data: seq<byte>, c: Cur): (b: byte)
    requires Within(c, |data|)
    ensures b != 0 ==> c.len > 0
  {
    if c.len < 1 then 0 else data[c.pos]
  }

  /** dcpy_get16b. */
  function Word(data: seq<byte>, c: Cur): int
    requires Within(c, |data|)
  {
    if c.len < 2 then 0 else U16(data[c.pos], data[c.pos + 1])
  }

  /** What an output cursor has written, and the room it has left. */
  datatype Out = Out(text: seq<byte>, room: nat, oob: bool)

  /** dcpy_put. */
  function Put(o: Out, chunk: seq<byte>): Out
  {
    if o.room < |chunk| then Out(o.text, 0, true) else Out(o.text + chunk, o.room - |chunk|, o.oob)
  }

  /** Reading, all told: what fits is passed over, a byte or a big-endian word read from where the cursor stands;
      what does not fit moves nothing, reads as zero, and leaves the cursor empty and marked. */
  lemma ReadsExactly(data: seq<byte>, c: Cur, n: nat)
    requires Within(c, |data|)
    ensures var r := Skip(c, n);
            if n <= c.len then r.pos == c.pos + n && r.len == c.len - n && r.oob == c.oob
            else r.pos == c.pos && r.len == 0 && r.oob
    ensures Byte(data, c) == if c.len >= 1 then data[c.pos] else 0
    ensures Word(data, c) == if c.len >= 2 then 256 * (data[c.pos] as int) + data[c.pos + 1] as int else 0
  {
  }

  /** Writing: what fits is added; what does not adds nothing, takes all room and is marked. */
  lemma WritesExactly(o: Out, chunk: seq<byte>)
    ensures var r := Put(o, chunk);
            if |chunk| <= o.room then
              r.text == o.text + chunk && r.room == o.room - |chunk| && r.oob == o.oob
            else r.text == o.text && r.room == 0 && r.oob
  {
  }

  class Dcpy {
    const buf: array<byte>
    var pos: nat
    var len: nat
    var oob: bool

    ghost predicate Valid()
      reads this
    {
      pos + len <= buf.Length
    }

    constructor (buf: array<byte>, pos: nat, len: nat)
      requires pos + len <= buf.Length
      ensures Valid() && this.buf == buf && At() == Cur(pos, len, false)
    {
      this.buf, this.pos, this.len, this.oob := buf, pos, len, false;
    }

    function At(): Cur
      reads this
    {
      Cur(pos, len, oob)
    }

    /** The bytes before the position: all that an output cursor over a fresh buffer has written. */
    function Written(): Out
      requires Valid()
      reads this, buf
    {
      Out(buf[..pos], len, oob)
    }

    method Get8() returns (value: byte)
      requires Valid()
      modifies this
      ensures Valid() && At() == Skip(old(At()), 1) && value == Byte(buf[..], old(At()))
    {
      if len < 1 {
        oob, len := true, 0;
        return 0;
      }
      value := buf[pos];
      pos, len := pos + 1, len - 1;
    }

    method Get16b() returns (value: int)
      requires Valid()
      modifies this
      ensures Valid() && At() == Skip(old(At()), 2) && value == Word(buf[..], old(At()))
    {
      if len < 2 {
        oob, len := true, 0;
        return 0;
      }
      value := U16(buf[pos], buf[pos + 1]);
      pos, len := pos + 2, len - 2;
    }

    /** dcpy_get, returning the copied bytes. */
    method Get(num: nat) returns (bytes: seq<byte>)
      requires Valid()
      modifies this
      ensures Valid() && At() == Skip(old(At()), num)
      ensures bytes == if old(len) < num then [] else buf[old(pos)..old(pos) + num]
    {
      if len < num {
        oob, len := true, 0;
        return [];
      }
      bytes := buf[pos..pos + num];
      pos, len := pos + num, len - num;
    }

    method SkipBytes(num: nat)
      requires Valid()
      modifies this
      ensures Valid() && At() == Skip(old(At()), num)
    {
      if len < num {
        oob, len := true, 0;
        return;
      }
      len, pos := len - num, pos + num;
    }

    method PutBytes(chunk: seq<byte>)
      requires Valid()
      modifies this, buf
      ensures Valid() && Written() == Put(old(Written()), chunk)
    {
      if len < |chunk| {
        oob, len := true, 0;
        return;
      }
      var i := 0;
      while i < |chunk|
        invariant 0 <= i <= |chunk|
        invariant pos == old(pos) && len == old(len) && oob == old(oob)
        invariant buf[..pos + i] == old(buf[..pos]) + chunk[..i]
      {
        buf[pos + i] := chunk[i];
        i := i + 1;
      }
      pos, len := pos + |chunk|, len - |chunk|;
    }

    method Put8(value: byte)
      requires Valid()
      modifies this, buf
      ensures Valid() && Written() == Put(old(Written()), [value])
    {
      if len < 1 {
        oob, len := true, 0;
        return;
      }
      buf[pos] := value;
      pos, len := pos + 1, len - 1;
      assert buf[..pos] == old(buf[..pos]) + [value];
    }

    /** dcpy_cpy: an overrun of the source leaves the output alone; an overrun of the output does not
        keep the source from advancing. */
    method CopyFrom(src: Dcpy, num: nat)
      requires Valid() && src.Valid() && src != this && src.buf != buf
      modifies this, buf, src
      ensures Valid() && src.Valid() && src.At() == Skip(old(src.At()), num)
      ensures Written() == if old(src.len) < num then old(Written())
                           else Put(old(Written()), src.buf[old(src.pos)..old(src.pos) + num])
    {
      if src.len < num {
        src.oob, src.len := true, 0;
        return;
      }
      PutBytes(src.buf[src.pos..src.pos + num]);
      src.pos, src.len := src.pos + num, src.len - num;
    }
  }
}
