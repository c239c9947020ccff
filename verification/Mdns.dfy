/** The walk over an mDNS response (mdns.c mdns): its queries are skipped and its records visited. */
module Mdns {
  import opened Bytes
  import opened Cursor
  import opened Names
  import opened Wrappers

  const HEADER := 12
  const RR_HEADER := 10
  const NAME_SIZE := 128

  /** A record as its handler sees it: the name read, the type, and the record's own bytes. */
  datatype Visit = Visit(name: seq<byte>, kind: int, body: seq<byte>)

  // ---------- The walk ----------

  function SkipQueries(data: seq<byte>, c: Cur, n: nat): (r: Cur)
    requires Within(c, |data|)
    ensures Within(r, |data|)
    decreases n
  {
    if n == 0 then c
    else
      var c1 := Skip(SkipName(data, c), 4);
      if c1.oob then c1 else SkipQueries(data, c1, n - 1)
  }

  /** The cursor after the record header, and after the record. */
  function AfterHeader(data: seq<byte>, c: Cur): (r: Cur)
    requires Within(c, |data|)
    ensures Within(r, |data|) && r.len <= c.len
  {
    Skip(SkipName(data, c), RR_HEADER)
  }

  /** A big-endian header word at an offset, or zero past the end. */
  function WordAt(data: seq<byte>, p: nat): int
  {
    if p + 2 <= |data| then U16(data[p], data[p + 1]) else 0
  }

  function RrLength(data: seq<byte>, c: Cur): nat
    requires Within(c, |data|)
  {
    WordAt(data, SkipName(data, c).pos + 8)
  }

  function AfterRecord(data: seq<byte>, c: Cur): (r: Cur)
    requires Within(c, |data|)
    ensures Within(r, |data|) && r.len <= c.len
  {
    Skip(AfterHeader(data, c), RrLength(data, c))
  }

  /** The names that the walk reads all end (see Names.Resolves). */
  predicate NamesResolve(data: seq<byte>, c: Cur, n: nat, hops: nat)
    requires Within(c, |data|)
    decreases n
  {
    n > 0 ==>
      && Resolves(data, c, hops)
      && (AfterHeader(data, c).oob || AfterRecord(data, c).oob
          || NamesResolve(data, AfterRecord(data, c), n - 1, hops))
  }

  function NameOf(data: seq<byte>, c: Cur, hops: nat): Out
    requires Within(c, |data|) && Resolves(data, c, hops)
  {
    ReadOut(data, c, true, Out([], NAME_SIZE, false), hops)
  }

  /** A record whose name overruns its buffer is not visited; a record cut off by the end of the
      packet is visited with what is there. */
  function Here(data: seq<byte>, c: Cur, hops: nat): seq<Visit>
    requires Within(c, |data|) && Resolves(data, c, hops)
  {
    var name, h := NameOf(data, c, hops), AfterHeader(data, c);
    if name.oob then []
    else
      var size := if RrLength(data, c) < h.len then RrLength(data, c) else h.len;
      [Visit(name.text, WordAt(data, SkipName(data, c).pos), data[h.pos..h.pos + size])]
  }

  function Walk(data: seq<byte>, c: Cur, n: nat, hops: nat): seq<Visit>
    requires Within(c, |data|) && NamesResolve(data, c, n, hops)
    decreases n
  {
    if n == 0 || AfterHeader(data, c).oob then []
    else
      var next := AfterRecord(data, c);
      Here(data, c, hops) + if next.oob then [] else Walk(data, next, n - 1, hops)
  }

  function Total(data: seq<byte>): nat
  {
    WordAt(data, 6) + WordAt(data, 8) + WordAt(data, 10)
  }

  predicate IsResponse(data: seq<byte>)
  {
    |data| >= HEADER && data[2] >= 128
  }

  function Queried(data: seq<byte>): (r: Cur)
    requires |data| >= HEADER
    ensures Within(r, |data|)
  {
    SkipQueries(data, Cur(HEADER, |data| - HEADER, false), WordAt(data, 4))
  }

  predicate Readable(data: seq<byte>, hops: nat)
  {
    IsResponse(data) && !Queried(data).oob ==> NamesResolve(data, Queried(data), Total(data), hops)
  }

  /** None for what is not a response. */
  function Visits(data: seq<byte>, hops: nat): Option<seq<Visit>>
    requires Readable(data, hops)
  {
    if !IsResponse(data) then None
    else if Queried(data).oob then Some([])
    else Some(Walk(data, Queried(data), Total(data), hops))
  }

  lemma VisitsAre(data: seq<byte>, hops: nat)
    requires Readable(data, hops)
    ensures |data| < 12 || data[2] < 128 ==> Visits(data, hops) == None
    ensures |data| >= 12 && data[2] >= 128 ==>
              && (Queried(data).oob ==> Visits(data, hops) == Some([]))
              && (!Queried(data).oob ==>
                    NamesResolve(data, Queried(data), Total(data), hops)
                    && Visits(data, hops) == Some(Walk(data, Queried(data), Total(data), hops)))
  {
    hide Walk, NamesResolve, SkipQueries;
  }

  /** Only a response is walked: a packet of at least 12 bytes with the top bit of its third byte set. Anything
      else is answered by nothing, whatever records it carries. */
  lemma OnlyResponses(data: seq<byte>, hops: nat)
    requires Readable(data, hops)
    ensures Visits(data, hops) == None <==> |data| < 12 || data[2] < 128
  {
    hide Walk, SkipQueries;
  }

  // ---------- Which packets can be walked ----------

  lemma {:induction false} NamesResolveExactly(data: seq<byte>, c: Cur, n: nat, hops: nat)
    requires Within(c, |data|) && NamesResolve(data, c, n, hops)
    ensures NamesResolve(data, c, n, MaxHops(data))
    ensures Walk(data, c, n, hops) == Walk(data, c, n, MaxHops(data))
    decreases n
  {
    hide AfterHeader, AfterRecord, Resolves, ReadOut;
    if n > 0 {
      EndsExactly(data, c);
      HopsDoNotMatter(data, c, true, Out([], NAME_SIZE, false), hops, MaxHops(data));
      if !AfterHeader(data, c).oob && !AfterRecord(data, c).oob {
        NamesResolveExactly(data, AfterRecord(data, c), n - 1, hops);
      }
    }
  }

  /** All names that the walk reads come to an end if and only if a test says so that follows at most
      MaxHops pointers for each; and the walk is then the same for any number of hops. */
  lemma ReadableExactly(data: seq<byte>)
    ensures (exists hops: nat :: Readable(data, hops)) <==> Readable(data, MaxHops(data))
    ensures forall hops: nat :: Readable(data, hops) ==>
              Readable(data, MaxHops(data)) && Visits(data, hops) == Visits(data, MaxHops(data))
  {
    hide Walk, NamesResolve;
    forall hops: nat | Readable(data, hops)
      ensures Readable(data, MaxHops(data)) && Visits(data, hops) == Visits(data, MaxHops(data))
    {
      if IsResponse(data) && !Queried(data).oob {
        NamesResolveExactly(data, Queried(data), Total(data), hops);
      }
    }
  }

  // ---------- The loops ----------

  method SkipAllQueries(src: Dcpy, n: nat)
    requires src.Valid()
    modifies src
    ensures src.Valid() && src.At() == SkipQueries(src.buf[..], old(src.At()), n)
  {
    ghost var data := src.buf[..];
    var i := 0;
    while i < n
      invariant 0 <= i <= n && src.Valid() && src.buf[..] == data
      invariant SkipQueries(data, src.At(), n - i) == SkipQueries(data, old(src.At()), n)
    {
      SkipNameAt(src);
      src.SkipBytes(4);
      if src.oob {
        return;
      }
      i := i + 1;
    }
  }

  /** mdns, collecting what it hands to the record handlers. */
  method Mdns(packet: array<byte>) returns (r: Option<seq<Visit>>)
    requires Readable(packet[..], MaxHops(packet[..]))
    ensures r == None <==> packet.Length < 12 || packet[2] < 128
    ensures r == Visits(packet[..], MaxHops(packet[..]))
  {
    hide Walk, NamesResolve, SkipQueries, Visits, Readable;
    ghost var data := packet[..];
    VisitsAre(data, MaxHops(data));
    if packet.Length < HEADER {
      return None;
    }
    if packet[2] < 128 {
      return None;
    }
    var src := new Dcpy(packet, HEADER, packet.Length - HEADER);
    var header := new Dcpy(packet, 4, 8);
    var queries := header.Get16b();
    SkipAllQueries(src, queries);
    if src.oob {
      return Some([]);
    }
    var answers := header.Get16b();
    var auth := header.Get16b();
    var add := header.Get16b();
    var visits := WalkRecords(src, answers + auth + add, MaxHops(data));
    r := Some(visits);
  }

  /** One turn of the loop. */
  method ReadRecord(src: Dcpy, ghost hops: nat) returns (here: seq<Visit>)
    requires src.Valid() && Resolves(src.buf[..], src.At(), hops)
    modifies src
    ensures src.Valid() && var data, c := src.buf[..], old(src.At());
            if AfterHeader(data, c).oob then src.oob && here == []
            else src.At() == AfterRecord(data, c) && here == Here(data, c, hops)
  {
    hide Put, Byte, SkipName, ReadOut, Resolves;
    ghost var data, c := src.buf[..], src.At();
    var buffer := new byte[NAME_SIZE];
    var name := new Dcpy(buffer, 0, NAME_SIZE);
    assert name.Written() == Out([], NAME_SIZE, false);
    ReadName(src, name, hops);
    var start := src.pos;
    var rr := src.Get(RR_HEADER);
    here := [];
    if !src.oob {
      assert rr == data[start..start + RR_HEADER];
      var size := U16(rr[8], rr[9]);
      ghost var h := AfterHeader(data, c);
      assert size == RrLength(data, c) && src.At() == h;
      assert name.Written() == NameOf(data, c, hops);
      if !name.oob {
        var own := if size < src.len then size else src.len;
        here := [Visit(name.buf[..name.pos], U16(rr[0], rr[1]), src.buf[src.pos..src.pos + own])];
        assert here[0].body == data[h.pos..h.pos + own];
      }
      src.SkipBytes(size);
    }
  }

  method WalkRecords(src: Dcpy, total: nat, ghost hops: nat) returns (visits: seq<Visit>)
    requires src.Valid() && NamesResolve(src.buf[..], src.At(), total, hops)
    modifies src
    ensures visits == Walk(old(src.buf[..]), old(src.At()), total, hops)
  {
    hide AfterHeader, AfterRecord, Here, Resolves;
    ghost var data := src.buf[..];
    visits := [];
    var i := 0;
    while i < total
      invariant 0 <= i <= total && src.Valid() && src.buf[..] == data
      invariant NamesResolve(data, src.At(), total - i, hops)
      invariant visits + Walk(data, src.At(), total - i, hops) == Walk(data, old(src.At()), total, hops)
    {
      var here := ReadRecord(src, hops);
      visits := visits + here;
      if src.oob {
        return;
      }
      i := i + 1;
    }
  }
}
