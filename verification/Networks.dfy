/** The networks of an adapter (ethcap_network.c). */
module Networks {
  import opened Bytes
  import opened Prefix
  import opened Wrappers

  const MAC_ANY: Mac := [0, 0, 0, 0, 0, 0]

  datatype Outcome = Ok | IfAmbiguous | GwAmbiguous | IfNotFound | GwNotFound

  /** nf_ip_mask, on the first bytes of an address buffer. */
  method NfIpMask(addr: array<byte>, mask: seq<byte>)
    requires |mask| == addr.Length
    modifies addr
    ensures addr[..] == Masked(old(addr[..]), mask)
  {
    var i := 0;
    while i < addr.Length
      invariant 0 <= i <= addr.Length
      invariant forall k :: 0 <= k < i ==> addr[k] == AndByte(old(addr[k]), mask[k])
      invariant forall k :: i <= k < addr.Length ==> addr[k] == old(addr[k])
    {
      addr[i] := AndByte(addr[i], mask[i]);
      i := i + 1;
    }
  }

  /** The sign of nf_ip_cmp: lengths first, then the first byte that differs. */
  function NfIpCmp(a: seq<byte>, b: seq<byte>): int
  {
    if |a| != |b| then |a| - |b|
    else if a == [] then 0
    else if a[0] != b[0] then a[0] - b[0]
    else NfIpCmp(a[1..], b[1..])
  }

  lemma {:induction false} CmpZero(a: seq<byte>, b: seq<byte>)
    ensures NfIpCmp(a, b) == 0 <==> a == b
    decreases |a|
  {
    if |a| == |b| && a != [] && a[0] == b[0] {
      CmpZero(a[1..], b[1..]);
      assert a == [a[0]] + a[1..] && b == [b[0]] + b[1..];
    }
  }

  class Net {
    const ifAddr: seq<byte>
    const mask: seq<byte>
    const addr: seq<byte>
    const cidr: int
    var ifMac: Mac
    var gwMac: Mac

    ghost predicate Valid()
    {
      && |mask| == |ifAddr| && addr == Masked(ifAddr, mask) && cidr == Cidr(mask)
    }

    constructor (ifAddr: seq<byte>, mask: seq<byte>, addr: seq<byte>, cidr: int, ifMac: Mac, gwMac: Mac)
      ensures this.ifAddr == ifAddr && this.mask == mask && this.addr == addr && this.cidr == cidr
      ensures this.ifMac == ifMac && this.gwMac == gwMac
    {
      this.ifAddr, this.mask, this.addr, this.cidr := ifAddr, mask, addr, cidr;
      this.ifMac, this.gwMac := ifMac, gwMac;
    }

    method FillIn(x: Mac, y: Mac)
      modifies this
      ensures Macs(ifMac, gwMac) == Fill(old(Macs(ifMac, gwMac)), x, y)
    {
      if ifMac == MAC_ANY {
        ifMac := x;
      }
      if gwMac == MAC_ANY {
        gwMac := y;
      }
    }

    /** The address agrees with the network's own one wherever the mask has a one. */
    ghost predicate Holds(a: seq<byte>)
      requires |mask| == |ifAddr|
    {
      |a| == |ifAddr| && Masked(a, mask) == Masked(ifAddr, mask)
    }
  }

  lemma {:induction false} LastMaskByte(prefix: nat, size: nat)
    requires prefix <= 8 * size && size > 0
    ensures Mask(prefix, size)[size - 1] == 255 <==> prefix == 8 * size
    decreases size
  {
    if size == 1 {
      MaskByteFull(prefix);
    } else {
      LastMaskByte(if prefix >= 8 then prefix - 8 else 0, size - 1);
    }
  }

  lemma MaskByteFull(ones: nat)
    requires ones <= 8
    ensures MaskByte(ones) == 255 <==> ones == 8
  {
    Pow2Of8();
    Pow2Of0();
    if ones < 8 {
      Pow2Grows(1, 8 - ones);
    }
  }

  /** ethcap_network_initialize, for any mask: one that ends in all ones is that of a host address, and
      is ignored. */
  method Initialize(ifAddr: seq<byte>, mask: seq<byte>, ifMac: Mac) returns (net: Option<Net>)
    requires 0 < |ifAddr| == |mask|
    ensures net.None? <==> mask[|mask| - 1] == 255
    ensures net.Some? ==> fresh(net.value) && net.value.Valid()
    ensures net.Some? ==> net.value.ifAddr == ifAddr && net.value.mask == mask
    ensures net.Some? ==> net.value.ifMac == ifMac && net.value.gwMac == MAC_ANY
  {
    if mask[|mask| - 1] == 0xFF {
      return None;
    }
    var addr := Buffer(ifAddr);
    NfIpMask(addr, mask);
    var maskBuffer := Buffer(mask);
    var cidr := NfMaskCidr(maskBuffer);
    var n := new Net(ifAddr, mask, addr[..], cidr, ifMac, MAC_ANY);
    net := Some(n);
  }

  /** With a mask of leading ones: only /32 (or /128) is ignored, the length computed is the prefix length,
      and the network holds exactly the addresses that agree with its own one before the host bits. */
  lemma PrefixNetwork(ifAddr: seq<byte>, prefix: nat, a: seq<byte>)
    requires 0 < |ifAddr| == |a| && prefix <= 8 * |ifAddr|
    ensures var mask := Mask(prefix, |ifAddr|);
            && (mask[|mask| - 1] == 255 <==> prefix == 8 * |ifAddr|)
            && Cidr(mask) == prefix
            && var d := Pow2(8 * |ifAddr| - prefix);
               (Masked(a, mask) == Masked(ifAddr, mask) <==> Number(a) / d == Number(ifAddr) / d)
  {
    hide Mask, Masked, Cidr, Number, Pow2;
    LastMaskByte(prefix, |ifAddr|);
    CidrOfMask(prefix, |ifAddr|);
    SameSubnet(a, ifAddr, prefix);
  }

  method Buffer(s: seq<byte>) returns (a: array<byte>)
    ensures fresh(a) && a[..] == s
  {
    a := new byte[|s|](i requires 0 <= i < |s| => s[i]);
  }

  /** Not forwarded by the gateway: from the subnet itself, or not addressed from it to this host. */
  ghost predicate LocalTo(net: Net, src: seq<byte>, srcMac: Mac, dstMac: Mac)
    requires net.Valid()
    reads net
  {
    |src| == |net.ifAddr| && (net.Holds(src) || srcMac != net.gwMac || dstMac != net.ifMac)
  }

  /** ethcap_networks_is_cap_local. */
  method IsCapLocal(networks: seq<Net>, src: seq<byte>, srcMac: Mac, dstMac: Mac) returns (local: bool)
    requires forall i :: 0 <= i < |networks| ==> networks[i].Valid()
    ensures local <==> exists i :: 0 <= i < |networks| && LocalTo(networks[i], src, srcMac, dstMac)
  {
    var i := 0;
    while i < |networks|
      invariant 0 <= i <= |networks|
      invariant forall k :: 0 <= k < i ==> !LocalTo(networks[k], src, srcMac, dstMac)
    {
      var net := networks[i];
      if |net.addr| == |src| {
        var srcMasked := Buffer(src);
        NfIpMask(srcMasked, net.mask);
        CmpZero(srcMasked[..], net.addr);
        if NfIpCmp(srcMasked[..], net.addr) == 0 {
          return true;
        }
        if srcMac != net.gwMac {
          return true;
        }
        if dstMac != net.ifMac {
          return true;
        }
      }
      i := i + 1;
    }
    return false;
  }

  // ---------- One interface address, one gateway address ----------

  datatype Macs = Macs(ifMac: Mac, gwMac: Mac)

  function Snap(networks: seq<Net>): (r: seq<Macs>)
    reads networks
    ensures |r| == |networks|
    ensures forall i :: 0 <= i < |networks| ==> r[i] == Macs(networks[i].ifMac, networks[i].gwMac)
  {
    if networks == [] then []
    else [Macs(networks[0].ifMac, networks[0].gwMac)] + Snap(networks[1..])
  }

  /** Some network up to `n` has the interface address `x` and none has another. */
  ghost predicate OneIf(ms: seq<Macs>, n: nat, x: Mac)
    requires n <= |ms|
  {
    && x != MAC_ANY && (exists i :: 0 <= i < n && ms[i].ifMac == x)
    && forall i :: 0 <= i < n ==> ms[i].ifMac == MAC_ANY || ms[i].ifMac == x
  }

  ghost predicate NoIf(ms: seq<Macs>, n: nat)
    requires n <= |ms|
  {
    forall i :: 0 <= i < n ==> ms[i].ifMac == MAC_ANY
  }

  /** The same for gateway addresses, of networks that have an interface address. */
  ghost predicate OneGw(ms: seq<Macs>, n: nat, y: Mac)
    requires n <= |ms|
  {
    && y != MAC_ANY && (exists i :: 0 <= i < n && ms[i].ifMac != MAC_ANY && ms[i].gwMac == y)
    && forall i :: 0 <= i < n && ms[i].ifMac != MAC_ANY ==> ms[i].gwMac == MAC_ANY || ms[i].gwMac == y
  }

  ghost predicate NoGw(ms: seq<Macs>, n: nat)
    requires n <= |ms|
  {
    forall i :: 0 <= i < n && ms[i].ifMac != MAC_ANY ==> ms[i].gwMac == MAC_ANY
  }

  ghost predicate ManyIf(ms: seq<Macs>)
  {
    exists i, j :: 0 <= i < |ms| && 0 <= j < |ms|
      && MAC_ANY != ms[i].ifMac && ms[i].ifMac != ms[j].ifMac && ms[j].ifMac != MAC_ANY
  }

  ghost predicate ManyGw(ms: seq<Macs>)
  {
    exists i, j :: 0 <= i < |ms| && 0 <= j < |ms| && ms[i].ifMac != MAC_ANY && ms[j].ifMac != MAC_ANY
      && MAC_ANY != ms[i].gwMac && ms[i].gwMac != ms[j].gwMac && ms[j].gwMac != MAC_ANY
  }

  function Fill(m: Macs, x: Mac, y: Mac): Macs
  {
    Macs(if m.ifMac == MAC_ANY then x else m.ifMac, if m.gwMac == MAC_ANY then y else m.gwMac)
  }

  function FillAll(ms: seq<Macs>, x: Mac, y: Mac): seq<Macs>
  {
    seq(|ms|, i requires 0 <= i < |ms| => Fill(ms[i], x, y))
  }

  /** What ethcap_networks_copy_mac decides. */
  ghost predicate Decides(ms: seq<Macs>, r: Outcome, x: Mac, y: Mac)
  {
    match r
    case Ok => OneIf(ms, |ms|, x) && OneGw(ms, |ms|, y)
    case IfAmbiguous => ManyIf(ms)
    case GwAmbiguous => ManyGw(ms)
    case IfNotFound => NoIf(ms, |ms|)
    case GwNotFound => OneIf(ms, |ms|, x) && NoGw(ms, |ms|)
  }

  method FindMacs(networks: seq<Net>) returns (r: Outcome, ifMac: Mac, gwMac: Mac)
    ensures Decides(Snap(networks), r, ifMac, gwMac)
  {
    hide Snap;
    ghost var ms := Snap(networks);
    ifMac, gwMac := MAC_ANY, MAC_ANY;
    var ifFound, gwFound := false, false;
    var i := 0;
    while i < |networks|
      invariant 0 <= i <= |networks|
      invariant if ifFound then OneIf(ms, i, ifMac) else NoIf(ms, i)
      invariant if gwFound then OneGw(ms, i, gwMac) else NoGw(ms, i)
    {
      var net := networks[i];
      assert ms[i] == Macs(net.ifMac, net.gwMac);
      if net.ifMac != MAC_ANY {
        if !ifFound {
          ifMac, ifFound := net.ifMac, true;
        } else if ifMac != net.ifMac {
          return IfAmbiguous, ifMac, gwMac;
        }
        if net.gwMac != MAC_ANY {
          if !gwFound {
            gwMac, gwFound := net.gwMac, true;
          } else if gwMac != net.gwMac {
            return GwAmbiguous, ifMac, gwMac;
          }
        }
      }
      i := i + 1;
    }
    r := if !ifFound then IfNotFound else if !gwFound then GwNotFound else Ok;
  }

  method FillMacs(networks: seq<Net>, x: Mac, y: Mac)
    requires forall i, j :: 0 <= i < j < |networks| ==> networks[i] != networks[j]
    modifies networks
    ensures Snap(networks) == FillAll(old(Snap(networks)), x, y)
  {
    ghost var ms := Snap(networks);
    var i := 0;
    while i < |networks|
      invariant 0 <= i <= |networks|
      invariant forall k :: 0 <= k < i ==> Macs(networks[k].ifMac, networks[k].gwMac) == Fill(ms[k], x, y)
      invariant forall k :: i <= k < |networks| ==> Macs(networks[k].ifMac, networks[k].gwMac) == ms[k]
    {
      networks[i].FillIn(x, y);
      i := i + 1;
    }
  }

  /** ethcap_networks_copy_mac: only on success is anything filled in. */
  method CopyMac(networks: seq<Net>) returns (r: Outcome, ghost ifMac: Mac, ghost gwMac: Mac)
    requires forall i, j :: 0 <= i < j < |networks| ==> networks[i] != networks[j]
    modifies networks
    ensures Decides(old(Snap(networks)), r, ifMac, gwMac)
    ensures Snap(networks) == if r.Ok? then FillAll(old(Snap(networks)), ifMac, gwMac) else old(Snap(networks))
  {
    hide Decides, Snap, FillAll;
    var outcome, x, y := FindMacs(networks);
    if outcome == Ok {
      FillMacs(networks, x, y);
    }
    r, ifMac, gwMac := outcome, x, y;
  }

  /** The outcome is decided by the addresses, except that two ambiguities may be reported either way. */
  lemma OutcomeIsDetermined(ms: seq<Macs>, r: Outcome, x: Mac, y: Mac, s: Outcome, u: Mac, v: Mac)
    requires Decides(ms, r, x, y) && Decides(ms, s, u, v)
    ensures r == s || (ManyIf(ms) && ManyGw(ms))
    ensures r == Ok && s == Ok ==> x == u && y == v
  {
  }

  /** After success all networks have one interface address; they have one gateway address exactly when
      no network without an interface address came with a gateway address of its own. */
  lemma FilledMacs(ms: seq<Macs>, x: Mac, y: Mac)
    requires Decides(ms, Ok, x, y)
    ensures forall i :: 0 <= i < |ms| ==> FillAll(ms, x, y)[i].ifMac == x
    ensures (forall i :: 0 <= i < |ms| ==> FillAll(ms, x, y)[i].gwMac == y)
            <==> forall i :: 0 <= i < |ms| && ms[i].ifMac == MAC_ANY ==> ms[i].gwMac == MAC_ANY || ms[i].gwMac == y
  {
    assert forall i :: 0 <= i < |ms| ==> FillAll(ms, x, y)[i] == Fill(ms[i], x, y);
  }

  /** A gateway address that came without an interface address is kept beside the one found. */
  lemma OtherGatewayIsKept()
    ensures var x, y, z: Mac := [1, 0, 0, 0, 0, 0], [2, 0, 0, 0, 0, 0], [3, 0, 0, 0, 0, 0];
            var ms := [Macs(x, y), Macs(MAC_ANY, z)];
            Decides(ms, Ok, x, y) && FillAll(ms, x, y) == [Macs(x, y), Macs(x, z)]
  {
    var x, y, z: Mac := [1, 0, 0, 0, 0, 0], [2, 0, 0, 0, 0, 0], [3, 0, 0, 0, 0, 0];
    var ms := [Macs(x, y), Macs(MAC_ANY, z)];
    assert x[0] == 1 && y[0] == 2 && z[0] == 3 && MAC_ANY[0] == 0;
    assert ms[0].ifMac == x && ms[0].gwMac == y;
  }
}
