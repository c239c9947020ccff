/** The DHCP option loop (dhcp.c; section 2 of RFC 2132). */
module Dhcp {
  import opened Bytes
  import opened Split
  import opened Wrappers

  const END := 255
  const LEASE_TIME := 51
  const MESSAGE_TYPE := 53
  const FQDN := 81
  const NAK := 6

  datatype Opt = Opt(kind: byte, body: seq<byte>)

  /** What is put in the record table: one address, a text, or a lease time. */
  datatype Put = Address(kind: byte, ip: seq<byte>) | Text(kind: byte, text: seq<byte>) | Lease(seconds: seq<byte>)

  predicate HoldsAddresses(kind: byte) { kind in {1, 3, 6, 42, 50, 54} }

  predicate HoldsText(kind: byte) { kind in {12, 15, 60} }

  /** Options of the form that the standard gives them: the fixed parts present, and room for a NUL after a
      text. Two Pads in a row count as an empty option of kind zero. */
  predicate ValidOpt(o: Opt)
  {
    && o.kind < END && |o.body| <= 255
    && (o.kind == 0 ==> o.body == [])
    && (HoldsText(o.kind) ==> |o.body| < 255)
    && (o.kind == LEASE_TIME ==> |o.body| >= 4)
    && (o.kind == MESSAGE_TYPE ==> |o.body| >= 1)
    && (o.kind == FQDN ==> |o.body| >= 3)
  }

  predicate ValidOpts(opts: seq<Opt>)
  {
    forall i :: 0 <= i < |opts| ==> ValidOpt(opts[i])
  }

  function Encode(opts: seq<Opt>): seq<byte>
    requires ValidOpts(opts)
  {
    if opts == [] then [END]
    else [opts[0].kind, |opts[0].body|] + (opts[0].body + Encode(opts[1..]))
  }

  // ---------- What the options mean ----------

  function Addresses(kind: byte, body: seq<byte>): seq<Put>
  {
    if |body| < 4 then [] else [Address(kind, body[..4])] + Addresses(kind, body[4..])
  }

  /** The body as a C string. */
  function CText(body: seq<byte>): seq<byte>
  {
    body[..Find(body, NUL)]
  }

  function PutsOf(o: Opt): seq<Put>
    requires ValidOpt(o)
  {
    if HoldsAddresses(o.kind) then Addresses(o.kind, o.body)
    else if HoldsText(o.kind) then [Text(o.kind, CText(o.body))]
    else if o.kind == LEASE_TIME then [Lease(o.body[..4])]
    else if o.kind == FQDN then [Text(FQDN, CText(o.body[3..]))]
    else []
  }

  predicate IsNak(o: Opt)
    requires ValidOpt(o)
  {
    o.kind == MESSAGE_TYPE && o.body[0] == NAK
  }

  /** The numbers of sections 3, 8, 9 of RFC 2132 and of section 2 of RFC 4702: addresses for the subnet mask
      (1), routers (3), name servers (6), time servers (42), requested address (50) and server (54); texts for
      host name (12), domain (15) and vendor class (60); the lease time (51) and the name after three fixed bytes
      (81); a message type (53) of 6 is a NAK; 255 ends the list. */
  lemma KindsOfTheStandard(o: Opt)
    requires ValidOpt(o)
    ensures PutsOf(o)
            == if o.kind == 1 || o.kind == 3 || o.kind == 6 || o.kind == 42 || o.kind == 50 || o.kind == 54 then
                 seq(|o.body| / 4, i requires 0 <= i < |o.body| / 4 => Address(o.kind, o.body[4 * i..4 * i + 4]))
               else if o.kind == 12 || o.kind == 15 || o.kind == 60 then [Text(o.kind, CText(o.body))]
               else if o.kind == 51 then [Lease(o.body[..4])]
               else if o.kind == 81 then [Text(81, CText(o.body[3..]))]
               else []
    ensures IsNak(o) <==> o.kind == 53 && o.body[0] == 6
    ensures Encode([]) == [255]
  {
    AddressesAre(o.kind, o.body);
  }

  lemma {:induction false} AddressAt(kind: byte, body: seq<byte>, i: nat)
    ensures |Addresses(kind, body)| == |body| / 4
    ensures i < |body| / 4 ==> Addresses(kind, body)[i] == Address(kind, body[4 * i..4 * i + 4])
  {
    if |body| >= 4 {
      AddressAt(kind, body[4..], if i == 0 then 0 else i - 1);
      if 0 < i < |body| / 4 {
        assert body[4..][4 * (i - 1)..4 * (i - 1) + 4] == body[4 * i..4 * i + 4];
      }
    }
  }

  /** Every whole group of four bytes is an address. */
  lemma AddressesAre(kind: byte, body: seq<byte>)
    ensures Addresses(kind, body)
            == seq(|body| / 4, i requires 0 <= i < |body| / 4 => Address(kind, body[4 * i..4 * i + 4]))
  {
    hide Addresses;
    AddressAt(kind, body, 0);
    forall i | 0 <= i < |body| / 4 ensures Addresses(kind, body)[i] == Address(kind, body[4 * i..4 * i + 4]) {
      AddressAt(kind, body, i);
    }
  }

  /** The body as far as its first NUL. */
  lemma CTextIs(body: seq<byte>)
    ensures var t := CText(body);
            |t| <= |body| && t == body[..|t|] && 0 !in t && (|t| < |body| ==> body[|t|] == 0)
  {
  }

  /** Everything the options put, in order, up to the first NAK. */
  function PutsUpToNak(opts: seq<Opt>): seq<Put>
    requires ValidOpts(opts)
  {
    if opts == [] || IsNak(opts[0]) then [] else PutsOf(opts[0]) + PutsUpToNak(opts[1..])
  }

  /** A message that holds a NAK puts only what stands before it. */
  lemma {:induction false} NakStops(before: seq<Opt>, nak: Opt, after: seq<Opt>)
    requires ValidOpts(before) && ValidOpt(nak) && IsNak(nak) && ValidOpts(after)
    ensures ValidOpts(before + [nak] + after)
    ensures PutsUpToNak(before + [nak] + after) == PutsUpToNak(before)
  {
    var all := before + [nak] + after;
    if before != [] {
      NakStops(before[1..], nak, after);
      assert all[1..] == before[1..] + [nak] + after;
    }
  }

  // ---------- The loop, on any bytes ----------

  /** Unsigned 32-bit and 8-bit subtraction. */
  function Minus32(a: nat, b: nat): nat { (a - b) % 0x1_0000_0000 }

  function Minus8(a: nat, b: nat): nat { (a - b) % 0x100 }

  /** How many bytes the handler of an option reads at its start, and whether they fit its buffer. Some
      handlers trust the length, some read a fixed part whatever the length says. */
  function Reads(kind: byte, size: nat): (n: Option<nat>)
    ensures kind == MESSAGE_TYPE ==> n == Some(1)
  {
    if HoldsAddresses(kind) then Some(size)
    else if HoldsText(kind) then if size < 255 then Some(size) else None
    else if kind == LEASE_TIME then Some(4)
    else if kind == MESSAGE_TYPE then Some(1)
    else if kind == FQDN then if Minus8(size, 3) < 255 then Some(3 + Minus8(size, 3)) else None
    else Some(0)
  }

  /** What is put for the bytes read. */
  function PutsRead(kind: byte, bytes: seq<byte>): seq<Put>
    requires kind == FQDN ==> |bytes| >= 3
  {
    if HoldsAddresses(kind) then Addresses(kind, bytes)
    else if HoldsText(kind) then [Text(kind, CText(bytes))]
    else if kind == LEASE_TIME then [Lease(bytes)]
    else if kind == FQDN then [Text(FQDN, CText(bytes[3..]))]
    else []
  }

  /** How far the loop moves on, and how much it counts; an FQDN option is not counted whole. */
  function Moves(kind: byte, size: nat): nat { if kind == FQDN then 3 + Minus8(size, 3) else size }

  function Counted(kind: byte, size: nat): nat { if kind == FQDN then Minus8(size, 3) else size }

  /** What the loop puts, on any bytes: None when it reads past their end or overruns a buffer. */
  function Loop(data: seq<byte>, p: nat, len: nat): Option<seq<Put>>
    decreases |data| - p
  {
    if p >= |data| then None
    else if data[p] == END then Some([])
    else if p + 1 >= |data| then None
    else
      var kind, size, left := data[p], data[p + 1], Minus32(len, 2);
      if left == 0 || left < size then Some([])
      else
        var need := Reads(kind, size);
        if need.None? || p + 2 + need.value > |data| then None
        else
          var bytes := data[p + 2..p + 2 + need.value];
          if kind == MESSAGE_TYPE && bytes[0] == NAK then Some([])
          else
            var rest := Loop(data, p + 2 + Moves(kind, size), Minus32(left, Counted(kind, size)));
            if rest.None? then None else Some(PutsRead(kind, bytes) + rest.value)
  }

  /** devdb_put_ip_addrs: every whole group of four bytes. */
  method PutIpAddrs(kind: byte, opt: seq<byte>) returns (puts: seq<Put>)
    ensures puts == Addresses(kind, opt)
  {
    puts := [];
    var i := 0;
    while i < |opt| && i + 4 <= |opt|
      invariant 0 <= i <= |opt|
      invariant puts + Addresses(kind, opt[i..]) == Addresses(kind, opt)
    {
      assert opt[i..][..4] == opt[i..i + 4] && opt[i..][4..] == opt[i + 4..];
      puts := puts + [Address(kind, opt[i..i + 4])];
      i := i + 4;
    }
    assert |opt[i..]| < 4;
  }

  /** devdb_put_string: through a buffer of 255 bytes. */
  method PutString(kind: byte, opt: seq<byte>) returns (puts: seq<Put>)
    requires |opt| < 255
    ensures puts == [Text(kind, CText(opt))]
  {
    var buf := new byte[255];
    forall i | 0 <= i < |opt| {
      buf[i] := opt[i];
    }
    buf[|opt|] := NUL;
    assert forall j :: 0 <= j < Find(opt, NUL) ==> opt[j] == opt[..Find(opt, NUL)][j];
    var end := 0;
    while buf[end] != NUL
      invariant 0 <= end <= Find(opt, NUL)
      decreases |opt| - end
    {
      assert end < |opt| && opt[end] != NUL;
      end := end + 1;
    }
    assert buf[..end] == opt[..end];
    puts := [Text(kind, buf[..end])];
  }

  /** The handler of one option. */
  method PutOption(kind: byte, bytes: seq<byte>) returns (puts: seq<Put>)
    requires exists size: nat :: size < 256 && Reads(kind, size) == Some(|bytes|)
    ensures (kind == FQDN ==> |bytes| >= 3) && puts == PutsRead(kind, bytes)
  {
    puts := [];
    if HoldsAddresses(kind) {
      puts := PutIpAddrs(kind, bytes);
    } else if HoldsText(kind) {
      puts := PutString(kind, bytes);
    } else if kind == LEASE_TIME {
      puts := [Lease(bytes)];
    } else if kind == FQDN {
      puts := PutString(kind, bytes[3..]);
    }
  }

  /** One turn of the loop that does not stop. */
  lemma Turn(data: seq<byte>, p: nat, len: nat)
    requires Loop(data, p, len).Some? && p < |data| && data[p] != END
    ensures p + 1 < |data|
    ensures var kind, size, left := data[p], data[p + 1], Minus32(len, 2);
            if left == 0 || left < size then Loop(data, p, len) == Some([])
            else
              var need := Reads(kind, size);
              && need.Some? && p + 2 + need.value <= |data|
              && var bytes := data[p + 2..p + 2 + need.value];
                 if kind == MESSAGE_TYPE && bytes[0] == NAK then Loop(data, p, len) == Some([])
                 else
                   var more := Loop(data, p + 2 + Moves(kind, size), Minus32(left, Counted(kind, size)));
                   more.Some? && Loop(data, p, len) == Some(PutsRead(kind, bytes) + more.value)
  {
    hide Reads, PutsRead, Minus32, Moves, Counted;
  }

  lemma TurnStarts(data: seq<byte>, p: nat, len: nat)
    requires Loop(data, p, len).Some?
    ensures p < |data| && (data[p] == END ==> Loop(data, p, len) == Some([]))
  {
  }

  /** The option loop, whatever the bytes, as long as it does not read past them or overrun a buffer. */
  method Options(data: array<byte>) returns (puts: seq<Put>)
    requires data.Length < 0x1_0000_0000 && Loop(data[..], 0, data.Length).Some?
    ensures puts == Loop(data[..], 0, data.Length).value
  {
    hide Reads, PutsRead, Minus32, Moves, Counted, Loop;
    ghost var bytes := data[..];
    puts := [];
    var opt, len: nat := 0, data.Length;
    while true
      invariant Loop(bytes, opt, len).Some?
      invariant puts + Loop(bytes, opt, len).value == Loop(bytes, 0, data.Length).value
      decreases data.Length - opt
    {
      TurnStarts(bytes, opt, len);
      var kind := data[opt];
      if kind == END {
        break;
      }
      Turn(bytes, opt, len);
      var size := data[opt + 1];
      len := Minus32(len, 2);
      if len == 0 || len < size {
        break;
      }
      var need := Reads(kind, size);
      var read := data[opt + 2..opt + 2 + need.value];
      assert read == bytes[opt + 2..opt + 2 + need.value];
      if kind == MESSAGE_TYPE && read[0] == NAK {
        break;
      }
      var more := PutOption(kind, read);
      puts := puts + more;
      opt, len := opt + 2 + Moves(kind, size), Minus32(len, Counted(kind, size));
    }
  }

  /** These puts and then the others. */
  function Then(puts: seq<Put>, rest: Option<seq<Put>>): Option<seq<Put>>
  {
    if rest.None? then None else Some(puts + rest.value)
  }

  /** Whether the loop goes on to an option: it counts the two header bytes even if fewer are left, the count then
      starting again from the top of 32 bits, and ends when nothing or less than the length is left. */
  predicate GoesOn(data: seq<byte>, p: nat, len: nat)
  {
    && p + 1 < |data| && data[p] != 255 && len < 0x1_0000_0000 && len != 2
    && (len > 2 ==> data[p + 1] <= len - 2)
  }

  lemma ListEndsExactly(data: seq<byte>, p: nat, len: nat)
    requires p + 1 < |data| && data[p] != 255 && len < 0x1_0000_0000 && !GoesOn(data, p, len)
    ensures Loop(data, p, len) == Some([])
  {
    hide Reads, PutsRead, Moves, Counted, Minus32;
    Minus32Is(len, 2);
  }

  lemma Minus32Is(a: nat, b: nat)
    requires a < 0x1_0000_0000 && b < 0x1_0000_0000
    ensures Minus32(a, b) == if b <= a then a - b else a - b + 0x1_0000_0000
  {
  }

  /** An option that the loop goes on to. */
  lemma Handled(data: seq<byte>, p: nat, len: nat)
    requires GoesOn(data, p, len) && len > 2
    ensures var kind, size, left := data[p], data[p + 1], len - 2;
            var need := Reads(kind, size);
            Loop(data, p, len)
            == if need.None? || p + 2 + need.value > |data| then None
               else
                 var bytes := data[p + 2..p + 2 + need.value];
                 if kind == 53 && bytes[0] == 6 then Some([])
                 else
                   Then(PutsRead(kind, bytes),
                        Loop(data, p + 2 + Moves(kind, size), Minus32(left, Counted(kind, size))))
  {
    hide Reads, PutsRead, Moves, Counted, Minus32;
    Minus32Is(len, 2);
  }

  /** A lease time takes four bytes, whatever its length. */
  lemma LeaseTimeTakesFour(data: seq<byte>, p: nat, len: nat)
    requires GoesOn(data, p, len) && len > 2 && data[p] == 51
    ensures Loop(data, p, len)
            == if p + 6 > |data| then None
               else Then([Lease(data[p + 2..p + 6])], Loop(data, p + 2 + data[p + 1], len - 2 - data[p + 1]))
  {
    hide Loop, Minus32;
    Handled(data, p, len);
    Minus32Is(len - 2, data[p + 1]);
  }

  /** A name under 81 takes three bytes and then its length less three, in 8 bits; the three are not counted. */
  lemma NameTakesThreeMore(data: seq<byte>, p: nat, len: nat)
    requires GoesOn(data, p, len) && len > 2 && data[p] == 81
    ensures var n := if data[p + 1] >= 3 then data[p + 1] - 3 else data[p + 1] + 253;
            Loop(data, p, len)
            == if n == 255 || p + 5 + n > |data| then None
               else
                 Then([Text(81, CText(data[p + 5..p + 5 + n]))],
                      Loop(data, p + 5 + n, if n <= len - 2 then len - 2 - n else len - 2 - n + 0x1_0000_0000))
  {
    hide Loop, Minus32, Minus8, CText;
    Handled(data, p, len);
    var n := Minus8(data[p + 1], 3);
    Minus8Is(data[p + 1], 3);
    Minus32Is(len - 2, n);
    if p + 5 + n <= |data| {
      assert data[p + 2..p + 5 + n][3..] == data[p + 5..p + 5 + n];
    }
  }

  lemma Minus8Is(a: nat, b: nat)
    requires a < 0x100 && b < 0x100
    ensures Minus8(a, b) == if b <= a then a - b else a - b + 0x100
  {
  }

  /** Addresses and texts take their length, but for a text of 255 bytes, which has no room for its NUL; a message
      type takes one byte. */
  lemma OthersTakeTheirLength(data: seq<byte>, p: nat, len: nat)
    requires GoesOn(data, p, len) && len > 2 && data[p] != 51 && data[p] != 81
    ensures var kind, size := data[p], data[p + 1];
            var rest, whole := Loop(data, p + 2 + size, len - 2 - size), p + 2 + size <= |data|;
            Loop(data, p, len)
            == if kind == 53 then
                 if p + 2 >= |data| then None else if data[p + 2] == 6 then Some([]) else rest
               else if HoldsAddresses(kind) then
                 if whole then Then(Addresses(kind, data[p + 2..p + 2 + size]), rest) else None
               else if HoldsText(kind) then
                 if whole && size < 255 then Then([Text(kind, CText(data[p + 2..p + 2 + size]))], rest) else None
               else rest
  {
    hide Loop, Minus32, CText, Addresses, HoldsAddresses, HoldsText;
    KindsApart();
    Handled(data, p, len);
    Minus32Is(len - 2, data[p + 1]);
    var rest := Loop(data, p + 2 + data[p + 1], len - 2 - data[p + 1]);
    assert rest.Some? ==> [] + rest.value == rest.value;
  }

  lemma KindsApart()
    ensures forall k: byte :: HoldsAddresses(k) ==> !HoldsText(k) && k != 51 && k != 53 && k != 81
    ensures forall k: byte :: HoldsText(k) ==> k != 51 && k != 53 && k != 81
  {
  }

  // ---------- The loop, on well-formed options ----------

  /** An option stands here whole, the rest after it. */
  lemma OptionAt(data: seq<byte>, p: nat, o: Opt, rest: seq<byte>)
    requires |o.body| <= 255 && p <= |data| && [o.kind, |o.body|] + (o.body + rest) <= data[p..]
    ensures p + 2 + |o.body| + |rest| <= |data| && data[p] == o.kind && data[p + 1] == |o.body|
    ensures data[p + 2..p + 2 + |o.body|] == o.body && rest <= data[p + 2 + |o.body|..]
  {
    var s, n := data[p..], |o.body|;
    var e := [o.kind, n] + (o.body + rest);
    assert s[0] == e[0] && s[1] == e[1];
    assert e[2..2 + n] == o.body && e[2 + n..] == rest;
    assert s[..|e|] == e;
    assert data[p + 2..p + 2 + n] == s[..|e|][2..2 + n];
    assert data[p + 2 + n..][..|rest|] == s[..|e|][2 + n..];
  }

  lemma ReadsWhole(o: Opt)
    requires ValidOpt(o)
    ensures var need := Reads(o.kind, |o.body|);
            && need.Some? && need.value <= |o.body|
            && PutsRead(o.kind, o.body[..need.value]) == PutsOf(o)
            && Moves(o.kind, |o.body|) == |o.body| && Counted(o.kind, |o.body|) <= |o.body|
  {
    var need := Reads(o.kind, |o.body|);
    assert HoldsAddresses(o.kind) || HoldsText(o.kind) || o.kind == FQDN ==> o.body[..|o.body|] == o.body;
  }

  lemma Minus32Small(a: nat, b: nat)
    requires b <= a < 0x1_0000_0000
    ensures Minus32(a, b) == a - b
  {
  }

  /** One option that stands whole is handled, and the loop goes on behind it. */
  lemma OneOption(data: seq<byte>, p: nat, len: nat, o: Opt, rest: seq<byte>)
    requires ValidOpt(o) && p <= |data| && [o.kind, |o.body|] + (o.body + rest) <= data[p..] && rest != []
    requires |data| - p <= len < 0x1_0000_0000
    ensures var next := p + 2 + |o.body|;
            && next <= |data| && rest <= data[next..] && Counted(o.kind, |o.body|) <= |o.body|
            && Loop(data, p, len)
               == if IsNak(o) then Some([])
                  else
                    var more := Loop(data, next, len - 2 - Counted(o.kind, |o.body|));
                    if more.None? then None else Some(PutsOf(o) + more.value)
  {
    hide ValidOpt, PutsOf, PutsRead, Reads, Moves, Counted, Minus32;
    ValidBounds(o);
    OptionAt(data, p, o, rest);
    ReadsWhole(o);
    var need := Reads(o.kind, |o.body|).value;
    assert data[p + 2..p + 2 + need] == data[p + 2..p + 2 + |o.body|][..need];
    Minus32Small(len, 2);
    Minus32Small(len - 2, Counted(o.kind, |o.body|));
  }

  /** On every well-formed option list the loop puts exactly what the options up to the first NAK say,
      although the FQDN option is not counted whole: the count is never less than the bytes left. */
  lemma {:induction false} WellFormedIsRead(data: seq<byte>, p: nat, len: nat, opts: seq<Opt>)
    requires ValidOpts(opts) && p <= |data| && Encode(opts) <= data[p..]
    requires |data| - p <= len < 0x1_0000_0000
    ensures Loop(data, p, len) == Some(PutsUpToNak(opts))
    decreases |opts|
  {
    hide ValidOpt, PutsOf, Counted, Loop, IsNak, Encode, PutsUpToNak;
    ListStep(opts);
    if opts == [] {
      assert data[p..][0] == data[p] == END;
      LoopEnds(data, p, len);
    } else {
      var o, rest := opts[0], opts[1..];
      EncodeNotEmpty(rest);
      OneOption(data, p, len, o, Encode(rest));
      if !IsNak(o) {
        WellFormedIsRead(data, p + 2 + |o.body|, len - 2 - Counted(o.kind, |o.body|), rest);
      }
    }
  }

  lemma ListStep(opts: seq<Opt>)
    requires ValidOpts(opts)
    ensures opts == [] ==> Encode(opts) == [END] && PutsUpToNak(opts) == []
    ensures opts != [] ==>
              var o, rest := opts[0], opts[1..];
              && Encode(opts) == [o.kind, |o.body|] + (o.body + Encode(rest))
              && PutsUpToNak(opts) == if IsNak(o) then [] else PutsOf(o) + PutsUpToNak(rest)
  {
  }

  lemma LoopEnds(data: seq<byte>, p: nat, len: nat)
    requires p < |data| && data[p] == END
    ensures Loop(data, p, len) == Some([])
  {
  }

  lemma EncodeNotEmpty(opts: seq<Opt>)
    requires ValidOpts(opts)
    ensures Encode(opts) != []
  {
  }

  lemma ValidBounds(o: Opt)
    requires ValidOpt(o)
    ensures o.kind < END && |o.body| <= 255
  {
  }

  /** A lease time without a body is read from the options after it, which are put all the same. */
  lemma LeaseTimeReadsOn(data: seq<byte>, opts: seq<Opt>)
    requires ValidOpts(opts) && data == [51, 0] + Encode(opts) && 6 <= |data| < 0x1_0000_0000
    ensures Loop(data, 0, |data|) == Some([Lease(Encode(opts)[..4])] + PutsUpToNak(opts))
  {
    hide Loop, Encode, PutsUpToNak;
    LeaseTimeTakesFour(data, 0, |data|);
    assert data[2..6] == Encode(opts)[..4] && data[2..] == Encode(opts);
    WellFormedIsRead(data, 2, |data| - 2, opts);
  }

  /** An option longer than what is left ends the list quietly, but not behind a name under 81: three bytes of
      that are not counted, and the loop reads past the end. */
  lemma NameIsNotCountedWhole()
    ensures Loop([12, 2, 65], 0, 3) == Some([])
    ensures Loop([81, 3, 0, 0, 0, 12, 2, 65], 0, 8) == None
  {
    hide Loop, Addresses, CText;
    ListEndsExactly([12, 2, 65], 0, 3);
    NameTakesThreeMore([81, 3, 0, 0, 0, 12, 2, 65], 0, 8);
    OthersTakeTheirLength([81, 3, 0, 0, 0, 12, 2, 65], 5, 6);
    KindsApart();
    assert HoldsText(12);
  }

  /** A single Pad is read together with the option after it: that option, a host name here, is not put. */
  lemma SinglePadHides()
    ensures Loop([12, 1, 65, END], 0, 4) == Some([Text(12, [65])])
    ensures Loop([0, 12, 1, 65, END], 0, 5) == Some([])
    ensures Loop([0, 0, 12, 1, 65, END], 0, 6) == Some([Text(12, [65])])
  {
    var host, padded := [Opt(12, [65])], [Opt(0, []), Opt(12, [65])];
    var data: seq<byte> := [12, 1, 65, END];
    HostName();
    PadTakesLength();
    hide Loop, Encode, PutsUpToNak;
    assert data[0..] == data && ([0, 0] + data)[0..] == [0, 0] + data == [0, 0, 12, 1, 65, END];
    WellFormedIsRead(data, 0, 4, host);
    WellFormedIsRead([0, 0] + data, 0, 6, padded);
  }

  lemma PadTakesLength()
    ensures Loop([0, 12, 1, 65, END], 0, 5) == Some([])
  {
    hide Reads, PutsRead, Moves, Counted;
    assert Minus32(5, 2) == 3;
  }

  lemma HostName()
    ensures var host, padded := [Opt(12, [65])], [Opt(0, []), Opt(12, [65])];
            && ValidOpts(host) && Encode(host) == [12, 1, 65, END] && PutsUpToNak(host) == [Text(12, [65])]
            && ValidOpts(padded) && Encode(padded) == [0, 0] + Encode(host) && PutsUpToNak(padded) == PutsUpToNak(host)
  {
    var host, padded := [Opt(12, [65])], [Opt(0, []), Opt(12, [65])];
    assert host[1..] == [] && padded[1..] == host;
    assert Encode([]) == [END] && CText([65]) == [65];
  }
}
