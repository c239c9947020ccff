/** Masks and prefix lengths (netfind_types.c nf_ip_mask, nf_ip_cmp and nf_mask_cidr). */
module Prefix {
  import opened Bytes

  /** Bitwise and. */
  function And(a: nat, b: nat): nat
  {
    if a == 0 || b == 0 then 0 else a % 2 * (b % 2) + 2 * And(a / 2, b / 2)
  }

  function Pow2(n: nat): (p: nat)
    ensures p >= 1
  {
    if n == 0 then 1 else 2 * Pow2(n - 1)
  }

  /** An address as one number, most significant byte first. */
  function Number(a: seq<byte>): nat
  {
    if a == [] then 0 else a[0] * Pow2(8 * (|a| - 1)) + Number(a[1..])
  }

  /** A byte of leading ones. */
  function MaskByte(ones: nat): byte
    requires ones <= 8
  {
    Pow2Grows(8 - ones, 8);
    Pow2(8) - Pow2(8 - ones)
  }

  lemma {:induction false} Pow2Grows(j: nat, n: nat)
    requires j <= n
    ensures Pow2(j) <= Pow2(n)
    ensures j < n ==> Pow2(j) < Pow2(n)
  {
    if j < n {
      Pow2Grows(j, n - 1);
    }
  }

  /** The mask of a prefix. */
  function Mask(prefix: nat, size: nat): (m: seq<byte>)
    requires prefix <= 8 * size
    ensures |m| == size
    decreases size
  {
    if size == 0 then []
    else if prefix >= 8 then [MaskByte(8)] + Mask(prefix - 8, size - 1)
    else [MaskByte(prefix)] + Mask(0, size - 1)
  }

  function AndByte(a: byte, m: byte): (r: byte)
  {
    AndBound(a, m);
    And(a, m)
  }

  lemma {:induction false} AndBound(a: nat, b: nat)
    ensures And(a, b) <= a
  {
    if a != 0 && b != 0 {
      AndBound(a / 2, b / 2);
    }
  }

  function Masked(a: seq<byte>, m: seq<byte>): seq<byte>
    requires |a| == |m|
  {
    seq(|a|, i requires 0 <= i < |a| => AndByte(a[i], m[i]))
  }

  // ---------- The prefix length ----------

  function TrailingZeros(b: nat): nat
    requires b > 0
  {
    if b % 2 == 1 then 0 else TrailingZeros(b / 2) + 1
  }

  /** What the loop of nf_mask_cidr adds up, for any mask. */
  function Cidr(m: seq<byte>): int
  {
    if m == [] || m[0] == 0 then 0 else 8 - TrailingZeros(m[0]) + Cidr(m[1..])
  }

  /** On a mask of leading ones it is their number. */
  lemma {:induction false} CidrOfMask(prefix: nat, size: nat)
    requires prefix <= 8 * size
    ensures Cidr(Mask(prefix, size)) == prefix
    decreases size
  {
    hide Pow2, TrailingZeros;
    if size > 0 {
      var rest := if prefix >= 8 then prefix - 8 else 0;
      assert Mask(prefix, size)[1..] == Mask(rest, size - 1);
      CidrOfMask(rest, size - 1);
      if prefix > 0 {
        HighBitsZeros(8, if prefix >= 8 then 0 else 8 - prefix);
      }
    }
  }

  lemma Pow2Doubles(n: nat)
    requires n > 0
    ensures Pow2(n) == 2 * Pow2(n - 1)
  {
  }

  lemma OddZeros(b: nat)
    requires b % 2 == 1
    ensures TrailingZeros(b) == 0
  {
  }

  lemma DoubleZeros(b: nat)
    requires b > 0
    ensures TrailingZeros(2 * b) == TrailingZeros(b) + 1
  {
  }

  lemma {:induction false} HighBitsZeros(n: nat, j: nat)
    requires j < n
    ensures Pow2(n) > Pow2(j) && TrailingZeros(Pow2(n) - Pow2(j)) == j
    decreases j
  {
    hide Pow2, TrailingZeros;
    Pow2Grows(j, n);
    Pow2Doubles(n);
    if j == 0 {
      Pow2Of0();
      OddZeros(Pow2(n) - 1);
    } else {
      HighBitsZeros(n - 1, j - 1);
      Pow2Doubles(j);
      DoubleZeros(Pow2(n - 1) - Pow2(j - 1));
    }
  }

  method NfMaskCidr(mask: array<byte>) returns (cidr: int)
    ensures cidr == Cidr(mask[..])
  {
    ghost var m := mask[..];
    cidr := 0;
    var i := 0;
    while i < mask.Length
      invariant 0 <= i <= mask.Length
      invariant cidr + Cidr(m[i..]) == Cidr(m)
    {
      var b: nat := mask[i];
      if b == 0 {
        return;
      }
      var len := 8;
      while b % 2 == 0
        invariant b > 0
        invariant len - TrailingZeros(b) == 8 - TrailingZeros(m[i])
        decreases b
      {
        len := len - 1;
        b := b / 2;
      }
      assert m[i..][1..] == m[i + 1..];
      cidr := cidr + len;
      i := i + 1;
    }
  }

  // ---------- Masking is division ----------

  lemma {:induction false} AndOnes(a: nat, n: nat)
    requires a < Pow2(n)
    ensures And(a, Pow2(n) - 1) == a
    decreases n
  {
    if a > 0 {
      assert (Pow2(n) - 1) % 2 == 1 && (Pow2(n) - 1) / 2 == Pow2(n - 1) - 1;
      AndOnes(a / 2, n - 1);
    }
  }

  /** The `n` bits above the low `j`. */
  lemma {:induction false} AndHighBits(a: nat, n: nat, j: nat)
    requires a < Pow2(n) && j <= n
    ensures Pow2(j) <= Pow2(n)
    ensures And(a, Pow2(n) - Pow2(j)) == a / Pow2(j) * Pow2(j)
    decreases j
  {
    if j == 0 {
      AndOnes(a, n);
    } else {
      AndHighBits(a / 2, n - 1, j - 1);
      var q := Pow2(j - 1);
      assert Pow2(n) - Pow2(j) == 2 * (Pow2(n - 1) - q);
      HalfDivide(a, q);
    }
  }

  lemma {:induction false} HalfDivide(a: nat, q: nat)
    requires q >= 1
    ensures a / (2 * q) * (2 * q) == 2 * (a / 2 / q * q)
  {
    var k := a / 2 / q;
    assert a / 2 == k * q + a / 2 % q;
    DivideIs(a, 2 * q, k, 2 * (a / 2 % q) + a % 2);
  }

  lemma {:induction false} DivideIs(a: nat, d: nat, k: nat, r: nat)
    requires r < d && a == k * d + r
    ensures a / d == k
  {
    assert a / d * d <= a < (a / d + 1) * d;
    LessByProducts(k, a / d + 1, d);
    LessByProducts(a / d, k + 1, d);
  }

  lemma LessByProducts(x: int, y: int, d: int)
    requires d > 0 && x * d < y * d
    ensures x < y
  {
  }

  lemma {:induction false} Pow2Adds(m: nat, n: nat)
    ensures Pow2(m + n) == Pow2(m) * Pow2(n)
  {
    if m > 0 {
      Pow2Adds(m - 1, n);
    }
  }

  lemma {:induction false} NumberBound(a: seq<byte>)
    ensures Number(a) < Pow2(8 * |a|)
  {
    hide Pow2;
    if a != [] {
      NumberBound(a[1..]);
      Pow2Adds(8, 8 * (|a| - 1));
      Pow2Of8();
      HeadBound(a[0], Pow2(8 * (|a| - 1)), Number(a[1..]));
    }
  }

  lemma Pow2Of0()
    ensures Pow2(0) == 1
  {
  }

  lemma Pow2Of8()
    ensures Pow2(8) == 256
  {
    assert Pow2(4) == 16;
  }

  lemma HeadBound(h: nat, w: nat, r: nat)
    requires h < 256 && r < w
    ensures h * w + r < 256 * w
  {
    assert h * w <= 255 * w;
  }

  /** The head byte when the low part is a multiple of the divisor's scale, and when it is below it. */
  lemma {:induction false} DivideLow(h: nat, w: nat, r: nat, d: nat)
    requires d > 0 && w % d == 0
    ensures (h * w + r) / d * d == h * w + r / d * d
  {
    var q := w / d;
    assert w == q * d;
    assert h * w == h * q * d;
    DivideIs(h * w + r, d, h * q + r / d, r % d);
    assert (h * q + r / d) * d == h * q * d + r / d * d;
  }

  lemma {:induction false} DivideHigh(h: nat, w: nat, r: nat, e: nat)
    requires e > 0 && w > 0 && r < w
    ensures e * w > 0
    ensures (h * w + r) / (e * w) * (e * w) == h / e * e * w
  {
    var k, rest := h / e, h % e * w + r;
    assert h == k * e + h % e;
    assert h * w == k * e * w + h % e * w;
    assert h % e + 1 <= e;
    assert (h % e + 1) * w <= e * w;
    assert k * e * w == k * (e * w);
    DivideIs(h * w + r, e * w, k, rest);
  }

  lemma HeadMasked(h: byte, ones: nat)
    requires ones <= 8
    ensures AndByte(h, MaskByte(ones)) == h / Pow2(8 - ones) * Pow2(8 - ones)
  {
    hide Pow2, And;
    Pow2Of8();
    AndHighBits(h, 8, 8 - ones);
  }

  /** Masking clears what division by the host part drops. */
  lemma {:induction false} MaskedNumber(a: seq<byte>, prefix: nat)
    requires prefix <= 8 * |a|
    ensures var d := Pow2(8 * |a| - prefix);
            Number(Masked(a, Mask(prefix, |a|))) == Number(a) / d * d
    decreases |a|
  {
    hide Pow2, And, AndByte, MaskByte;
    if a != [] {
      var n, rest := |a|, a[1..];
      var w, r := Pow2(8 * (n - 1)), Number(a[1..]);
      var more := if prefix >= 8 then prefix - 8 else 0;
      var m := Masked(a, Mask(prefix, n));
      assert m[1..] == Masked(rest, Mask(more, n - 1));
      MaskedNumber(rest, more);
      NumberBound(rest);
      if prefix >= 8 {
        HeadMasked(a[0], 8);
        assert m[0] == AndByte(a[0], MaskByte(8)) == a[0] by { Pow2Of0(); }
        Pow2Adds(prefix - 8, 8 * n - prefix);
        var d := Pow2(8 * n - prefix);
        Multiple(Pow2(prefix - 8), d);
        DivideLow(a[0], w, r, d);
      } else {
        HeadMasked(a[0], prefix);
        Pow2Adds(8 - prefix, 8 * (n - 1));
        DivideHigh(a[0], w, r, Pow2(8 - prefix));
        DivideIs(r, w, 0, r);
      }
    }
  }

  lemma {:induction false} Multiple(x: nat, d: nat)
    requires d > 0
    ensures x * d % d == 0
  {
    DivideIs(x * d, d, x, 0);
  }

  lemma {:induction false} NumberIsInjective(a: seq<byte>, b: seq<byte>)
    requires |a| == |b| && Number(a) == Number(b)
    ensures a == b
  {
    if a != [] {
      var w := Pow2(8 * (|a| - 1));
      NumberBound(a[1..]);
      NumberBound(b[1..]);
      DivideIs(Number(a), w, a[0], Number(a[1..]));
      DivideIs(Number(b), w, b[0], Number(b[1..]));
      NumberIsInjective(a[1..], b[1..]);
      assert a == [a[0]] + a[1..] && b == [b[0]] + b[1..];
    }
  }

  /** Two addresses are equal under a prefix mask exactly when their numbers are, without the host bits. */
  lemma {:induction false} SameSubnet(a: seq<byte>, b: seq<byte>, prefix: nat)
    requires |a| == |b| && prefix <= 8 * |a|
    ensures var d := Pow2(8 * |a| - prefix);
            Masked(a, Mask(prefix, |a|)) == Masked(b, Mask(prefix, |b|)) <==> Number(a) / d == Number(b) / d
  {
    hide Pow2, Mask, AndByte, Number;
    var d, m := Pow2(8 * |a| - prefix), Mask(prefix, |a|);
    MaskedNumber(a, prefix);
    MaskedNumber(b, prefix);
    SameByProducts(Number(a) / d, Number(b) / d, d);
    if Number(Masked(a, m)) == Number(Masked(b, m)) {
      NumberIsInjective(Masked(a, m), Masked(b, m));
    }
  }

  lemma SameByProducts(x: int, y: int, d: int)
    requires d > 0
    ensures x * d == y * d <==> x == y
  {
  }
}
