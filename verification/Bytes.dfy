/** Bytes and their hexadecimal text. */
module Bytes {

  type byte = x: int | 0 <= x < 256

  /** A hardware address: six bytes. */
  type Mac = m: seq<byte> | |m| == 6 witness [0, 0, 0, 0, 0, 0]

  /** Two bytes in network order. */
  function U16(high: int, low: int): int { high * 256 + low }

  function HexDigit(n: int): (c: char)
    requires 0 <= n < 16
  {
    if n < 10 then '0' + n as char else 'a' + (n - 10) as char
  }

  /** The value of a hexadecimal digit. */
  function DigitValue(c: char): (n: int)
    ensures -1 <= n < 16
  {
    if '0' <= c <= '9' then c as int - '0' as int
    else if 'a' <= c <= 'f' then c as int - 'a' as int + 10
    else if 'A' <= c <= 'F' then c as int - 'A' as int + 10
    else -1
  }

  lemma DigitRoundTrip(n: int)
    requires 0 <= n < 16
    ensures DigitValue(HexDigit(n)) == n
  {
  }

  /** printf's "%02x". */
  function Hex2(b: byte): (s: string)
    ensures |s| == 2
  {
    [HexDigit(b / 16), HexDigit(b % 16)]
  }

  lemma Hex2Injective(a: byte, b: byte)
    requires Hex2(a) == Hex2(b)
    ensures a == b
  {
    DigitRoundTrip(a / 16);
    DigitRoundTrip(a % 16);
    DigitRoundTrip(b / 16);
    DigitRoundTrip(b % 16);
    assert Hex2(a)[0] == Hex2(b)[0] && Hex2(a)[1] == Hex2(b)[1];
  }

  /** The bytes as text, with an optional separator between them. */
  function BytesText(m: seq<byte>, sep: seq<char>): string
  {
    if m == [] then ""
    else if |m| == 1 then Hex2(m[0])
    else BytesText(m[..|m| - 1], sep) + sep + Hex2(m[|m| - 1])
  }

  lemma {:induction false} BytesTextLength(m: seq<byte>, sep: seq<char>)
    requires m != []
    ensures |BytesText(m, sep)| == 2 * |m| + |sep| * (|m| - 1)
  {
    if |m| > 1 {
      BytesTextLength(m[..|m| - 1], sep);
      assert |sep| * (|m| - 2) + |sep| == |sep| * (|m| - 1);
    }
  }

  /** The digits as printf writes them. */
  const DIGITS := "0123456789abcdef"

  lemma DigitIs(n: int)
    requires 0 <= n < 16
    ensures HexDigit(n) == DIGITS[n]
  {
  }

  /** Byte `k` stands in the text as two small hexadecimal digits, the high one first, with the separator
      before every byte but the first. */
  lemma {:induction false} BytesTextAt(m: seq<byte>, sep: seq<char>, k: nat)
    requires k < |m|
    ensures var t, at := BytesText(m, sep), Place(|sep|, k);
            && at + 2 <= |t| && t[at] == DIGITS[m[k] / 16] && t[at + 1] == DIGITS[m[k] % 16]
            && (k > 0 ==> t[at - |sep|..at] == sep)
  {
    hide HexDigit;
    DigitIs(m[k] / 16);
    DigitIs(m[k] % 16);
    var n := |m| - 1;
    var t, last := BytesText(m, sep), Hex2(m[n]);
    if n > 0 {
      hide BytesText;
      var head := BytesText(m[..n], sep);
      LastByte(m, sep);
      if k < n {
        BytesTextAt(m[..n], sep, k);
        var at := Place(|sep|, k);
        assert t[..|head|] == head;
        assert k > 0 ==> t[at - |sep|..at] == head[at - |sep|..at];
      } else {
        assert t[|head|..|head| + |sep|] == sep && t[|head| + |sep|..] == last;
      }
    }
  }

  /** Where the text of byte `k` starts. */
  function Place(s: nat, k: nat): (p: nat)
    ensures k > 0 ==> p >= s
  {
    if k == 0 then 0 else Place(s, k - 1) + 2 + s
  }

  lemma {:induction false} LastByte(m: seq<byte>, sep: seq<char>)
    requires |m| > 1
    ensures var n := |m| - 1;
            && BytesText(m, sep) == BytesText(m[..n], sep) + sep + Hex2(m[n])
            && |BytesText(m[..n], sep)| + |sep| == Place(|sep|, n)
  {
    hide Hex2;
    if |m| > 2 {
      LastByte(m[..|m| - 1], sep);
    }
  }

  /** Addresses of one length have different texts. */
  lemma {:induction false} BytesTextInjective(a: seq<byte>, b: seq<byte>, sep: seq<char>)
    requires |a| == |b| && BytesText(a, sep) == BytesText(b, sep)
    ensures a == b
  {
    if |a| == 1 {
      Hex2Injective(a[0], b[0]);
    } else if |a| > 1 {
      var n := |a| - 1;
      var x, y := BytesText(a[..n], sep), BytesText(b[..n], sep);
      BytesTextLength(a[..n], sep);
      BytesTextLength(b[..n], sep);
      assert |x| == |y|;
      var s, t := BytesText(a, sep), BytesText(b, sep);
      assert s == x + (sep + Hex2(a[n])) && t == y + (sep + Hex2(b[n]));
      assert s[..|x|] == x && t[..|x|] == y;
      assert s[|x| + |sep|..] == Hex2(a[n]) && t[|x| + |sep|..] == Hex2(b[n]);
      Hex2Injective(a[n], b[n]);
      BytesTextInjective(a[..n], b[..n], sep);
      assert a == a[..n] + [a[n]] && b == b[..n] + [b[n]];
    }
  }
}
