/** Lower-case hexadecimal text of bytes, as `bytes.hex()` and `bytes.fromhex`. */
module Hexadecimal {
  import opened Prelude

  predicate IsHexDigit(b: byte) { 48 <= b <= 57 || 97 <= b <= 102 }

  function HexDigit(n: int): byte
    requires 0 <= n < 16
  {
    if n < 10 then 48 + n else 87 + n
  }

  function HexValue(b: byte): (n: int)
    requires IsHexDigit(b)
    ensures 0 <= n < 16 && HexDigit(n) == b
  {
    if b <= 57 then b - 48 else b - 87
  }

  function ToHex(raw: bytes): (s: bytes)
    ensures |s| == 2 * |raw| && forall b :: b in s ==> IsHexDigit(b)
  {
    if raw == [] then [] else [HexDigit(raw[0] / 16), HexDigit(raw[0] % 16)] + ToHex(raw[1..])
  }

  function FromHex(s: bytes): (raw: bytes)
    requires |s| % 2 == 0 && forall b :: b in s ==> IsHexDigit(b)
    ensures |raw| == |s| / 2
  {
    if s == [] then [] else [16 * HexValue(s[0]) + HexValue(s[1])] + FromHex(s[2..])
  }

  lemma {:induction false} ToHexOfFromHex(s: bytes)
    requires |s| % 2 == 0 && forall b :: b in s ==> IsHexDigit(b)
    ensures ToHex(FromHex(s)) == s
  {
    if s != [] {
      var raw := FromHex(s);
      ToHexOfFromHex(s[2..]);
      assert raw[1..] == FromHex(s[2..]);
      assert raw[0] / 16 == HexValue(s[0]) && raw[0] % 16 == HexValue(s[1]);
      assert s == [s[0], s[1]] + s[2..];
    }
  }

  lemma {:induction false} ToHexInjective(a: bytes, b: bytes)
    requires ToHex(a) == ToHex(b)
    ensures a == b
  {
    if a != [] {
      var x, y := ToHex(a), ToHex(b);
      assert x[2..] == ToHex(a[1..]) && y[2..] == ToHex(b[1..]);
      assert HexDigit(a[0] / 16) == x[0] == y[0] == HexDigit(b[0] / 16);
      assert HexDigit(a[0] % 16) == x[1] == y[1] == HexDigit(b[0] % 16);
      ToHexInjective(a[1..], b[1..]);
      assert a == [a[0]] + a[1..] && b == [b[0]] + b[1..];
    }
  }
}
