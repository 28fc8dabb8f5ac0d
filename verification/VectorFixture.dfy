/** Benchmark vectors that carry their row number: three base-2048 digits, each stored as an
    exact half-precision number. */
module VectorFixture {
  import opened Prelude

  const RADIX := 2048
  const MODULUS := 2048 * 2048 * 2048

  // ---- Half precision ----

  /** A finite binary16 number, section 3.6 of IEEE 754-2008. */
  datatype Half = Half(negative: bool, exponent: nat, fraction: nat) {
    predicate Finite() { exponent <= 30 && fraction < 1024 }

    /** The magnitude in units of 2 to the -24, the smallest subnormal number. */
    function Magnitude(): nat {
      if exponent == 0 then fraction else (1024 + fraction) * Pow2(exponent - 1)
    }

    function Units(): int {
      if negative then 0 - Magnitude() else Magnitude()
    }
  }

  /** Shift a significand into [1024, 2048). */
  function Normalized(negative: bool, m: nat, exponent: nat): (h: Half)
    requires 0 < m < 2048 && 0 < exponent <= 30 && m * Pow2(exponent - 1) >= 1024
    ensures h.Finite() && h.exponent > 0 && h.negative == negative && h.Magnitude() == m * Pow2(exponent - 1)
    decreases exponent
  {
    if m >= 1024 then Half(negative, exponent, m - 1024)
    else
      DoubleOnce(m, exponent);
      Normalized(negative, 2 * m, exponent - 1)
  }

  lemma DoubleOnce(m: nat, exponent: nat)
    requires 0 < m < 1024 && exponent > 0 && m * Pow2(exponent - 1) >= 1024
    ensures exponent > 1 && (2 * m) * Pow2(exponent - 2) == m * Pow2(exponent - 1)
  {
    assert m * Pow2(0) == m;
    if exponent > 1 {
      var p := Pow2(exponent - 2);
      assert Pow2(exponent - 1) == 2 * p;
      assert (2 * m) * p == m * (2 * p);
    }
  }

  /** The value `numerator / 2048`, for a non-zero numerator of at most eleven bits. */
  function HalfOf(numerator: int): (h: Half)
    requires numerator != 0 && -2048 < numerator < 2048
    ensures h.Finite() && h.Units() == numerator * 8192
  {
    var m := if numerator < 0 then -numerator else numerator;
    assert Pow2(13) == 8192;
    Normalized(numerator < 0, m, 14)
  }

  lemma {:induction false} Pow2Ascends(a: nat, b: nat)
    requires a <= b
    ensures Pow2(a) <= Pow2(b)
  {
    if a < b { Pow2Ascends(a, b - 1); }
  }

  lemma LargerExponentLargerMagnitude(g: Half, h: Half)
    requires g.Finite() && h.Finite() && g.exponent < h.exponent
    ensures g.Magnitude() < h.Magnitude()
  {
    var q := Pow2(h.exponent - 1);
    assert h.Magnitude() == (1024 + h.fraction) * q >= 1024 * q;
    if g.exponent > 0 {
      var p := Pow2(g.exponent - 1);
      Pow2Ascends(g.exponent, h.exponent - 1);
      assert Pow2(g.exponent) == 2 * p;
      assert (1024 + g.fraction) * p < 2048 * p <= 1024 * q;
    }
  }

  /** Apart from the two zeros, a finite value has one representation, so a packer that is
      exact on representable values has no choice. */
  lemma OneRepresentation(g: Half, h: Half)
    requires g.Finite() && h.Finite() && g.Units() == h.Units() != 0
    ensures g == h
  {
    assert g.Magnitude() == h.Magnitude() && g.negative == h.negative;
    if g.exponent < h.exponent { LargerExponentLargerMagnitude(g, h); }
    if h.exponent < g.exponent { LargerExponentLargerMagnitude(h, g); }
    assert g.exponent == h.exponent;
    if g.exponent > 0 { Scaled(1024 + g.fraction, 1024 + h.fraction, Pow2(g.exponent - 1)); }
  }

  lemma Scaled(a: nat, b: nat, p: nat)
    requires p > 0
    ensures a * p == b * p <==> a == b
  {
    assert a < b ==> a * p < b * p;
    assert b < a ==> b * p < a * p;
  }

  /** Little-endian, as `struct.pack("<e", value)`. */
  function Packed(h: Half): (b: bytes)
    requires h.Finite()
    ensures |b| == 2
  {
    var bits := (if h.negative then 32768 else 0) + h.exponent * 1024 + h.fraction;
    [bits % 256, bits / 256]
  }

  lemma PackedInjective(g: Half, h: Half)
    requires g.Finite() && h.Finite() && Packed(g) == Packed(h)
    ensures g == h
  {
    var x, y := Packed(g), Packed(h);
    var m := (if g.negative then 32768 else 0) + g.exponent * 1024 + g.fraction;
    var n := (if h.negative then 32768 else 0) + h.exponent * 1024 + h.fraction;
    assert x[0] == m % 256 && x[1] == m / 256 && y[0] == n % 256 && y[1] == n / 256;
    assert m == n;
  }

  /** The number whose little-endian binary16 bytes these are: a sign bit, five bits of exponent
      and ten of fraction. */
  function Unpacked(low: byte, high: byte): Half {
    Half(high >= 128, high % 128 / 4, high % 4 * 256 + low)
  }

  lemma PackedReadsBack(h: Half)
    requires h.Finite()
    ensures Unpacked(Packed(h)[0], Packed(h)[1]) == h
  {
    var b := Packed(h);
    var bits := (if h.negative then 32768 else 0) + h.exponent * 1024 + h.fraction;
    assert bits / 256 == (if h.negative then 128 else 0) + h.exponent * 4 + h.fraction / 256;
  }

  // ---- Digits ----

  /** `(digit - 1023.5) / 1024` as a numerator over 2048: always odd. */
  function Numerator(digit: int): (k: int)
    requires 0 <= digit < RADIX
    ensures k % 2 == 1 && -2048 < k < 2048 && k != 0
  {
    2 * digit - 2047
  }

  function Place(position: nat): int
    requires position < 3
  {
    if position == 0 then 1 else if position == 1 then 2048 else 2048 * 2048
  }

  function Digit(n: int, position: nat): (d: int)
    requires position < 3
    ensures 0 <= d < RADIX
  {
    (n / Place(position)) % RADIX
  }

  lemma DigitsDecode(n: int)
    ensures Digit(n, 0) + 2048 * Digit(n, 1) + 2048 * 2048 * Digit(n, 2) == n % MODULUS
  {
    var a, b := n / 2048, n / (2048 * 2048);
    assert n == 2048 * a + n % 2048;
    assert a / 2048 == b;
    assert a == 2048 * b + a % 2048;
    var c := b / 2048;
    assert b == 2048 * c + b % 2048;
    assert n == MODULUS * c + (n % 2048 + 2048 * (a % 2048) + 2048 * 2048 * (b % 2048));
  }

  function Component(n: int, position: nat): (b: bytes)
    requires position < 3
    ensures |b| == 2
  {
    Packed(HalfOf(Numerator(Digit(n, position))))
  }

  /** The vector of a row: its three components and the rest of the common base. */
  function Vector(base: bytes, n: int): bytes
    requires |base| >= 6
  {
    Component(n, 0) + Component(n, 1) + Component(n, 2) + base[6..]
  }

  function Mixed(index: int, seed: int): int {
    index + seed % MODULUS
  }

  function BaseOf(common: bytes, dimensions: nat): bytes {
    common[..Min(2 * dimensions, |common|)]
  }

  /** The finite number `numerator / 2048`, which is so many times 2 to the -24. */
  ghost predicate IsNumber(low: byte, high: byte, numerator: int) {
    high % 128 < 124 && Unpacked(low, high).Units() == numerator * 8192
  }

  /** The first three numbers are `(digit - 1023.5) / 1024` of the digits, and the rest is the
      common base. */
  ghost predicate IsVector(common: bytes, index: int, dimensions: nat, seed: int, blob: bytes) {
    var n := index + seed % 8_589_934_592;
    && |blob| == Min(2 * dimensions, |common|) && |blob| >= 6 && blob[6..] == common[6..|blob|]
    && IsNumber(blob[0], blob[1], 2 * (n % 2048) - 2047)
    && IsNumber(blob[2], blob[3], 2 * (n / 2048 % 2048) - 2047)
    && IsNumber(blob[4], blob[5], 2 * (n / 4_194_304 % 2048) - 2047)
  }

  lemma ComponentReadsBack(n: int, position: nat)
    requires position < 3
    ensures var b := Component(n, position); IsNumber(b[0], b[1], 2 * Digit(n, position) - 2047)
  {
    PackedReadsBack(HalfOf(Numerator(Digit(n, position))));
  }

  lemma BlobIsVector(common: bytes, index: int, dimensions: nat, seed: int)
    ensures |BaseOf(common, dimensions)| >= 6 <==> 3 <= dimensions && 6 <= |common|
    ensures |BaseOf(common, dimensions)| >= 6 ==>
      IsVector(common, index, dimensions, seed, Vector(BaseOf(common, dimensions), Mixed(index, seed)))
  {
    hide Component, IsNumber;
    var base, n := BaseOf(common, dimensions), Mixed(index, seed);
    ComponentReadsBack(n, 0);
    ComponentReadsBack(n, 1);
    ComponentReadsBack(n, 2);
    assert Digit(n, 0) == n % 2048 && Digit(n, 1) == n / 2048 % 2048 && Digit(n, 2) == n / 4_194_304 % 2048;
    if |base| >= 6 {
      var v := Vector(base, n);
      assert v[6..] == base[6..] == common[6..|v|];
    }
  }

  /** `_representative_vector_blob`: the common bytes, overwritten at three places; a vector
      with fewer than three dimensions cannot be packed. */
  method RepresentativeVectorBlob(common: bytes, index: int, dimensions: nat, seed: int) returns (r: Option<bytes>)
    ensures r.Some? <==> |BaseOf(common, dimensions)| >= 6
    ensures r.Some? ==> r.value == Vector(BaseOf(common, dimensions), Mixed(index, seed))
    ensures r.Some? <==> 3 <= dimensions && 6 <= |common|
    ensures r.Some? ==> IsVector(common, index, dimensions, seed, r.value)
  {
    BlobIsVector(common, index, dimensions, seed);
    hide Component, BaseOf, IsVector;
    var base := BaseOf(common, dimensions);
    var blob := new byte[|base|](i requires 0 <= i < |base| => base[i]);
    var n := index + seed % MODULUS;
    for position := 0 to 3
      invariant blob.Length == |base| >= 2 * position
      invariant forall p :: 0 <= p < position ==>
        blob[2 * p] == Component(n, p)[0] && blob[2 * p + 1] == Component(n, p)[1]
      invariant forall i :: 2 * position <= i < |base| ==> blob[i] == base[i]
    {
      if 2 * position + 2 > blob.Length { return None; }
      var half := Component(n, position);
      blob[2 * position] := half[0];
      blob[2 * position + 1] := half[1];
    }
    assert blob[..] == Vector(base, n);
    return Some(blob[..]);
  }

  lemma ComponentFixesDigit(m: int, n: int, position: nat)
    requires position < 3 && Component(m, position) == Component(n, position)
    ensures Digit(m, position) == Digit(n, position)
  {
    PackedInjective(HalfOf(Numerator(Digit(m, position))), HalfOf(Numerator(Digit(n, position))));
  }

  /** Two vectors over one base agree exactly when their rows agree modulo 2048 cubed. */
  lemma VectorsDistinguish(base: bytes, m: int, n: int)
    requires |base| >= 6
    ensures Vector(base, m) == Vector(base, n) <==> m % MODULUS == n % MODULUS
  {
    DigitsDecode(m);
    DigitsDecode(n);
    var v, w := Vector(base, m), Vector(base, n);
    if v == w {
      assert v[0..2] == Component(m, 0) && v[2..4] == Component(m, 1) && v[4..6] == Component(m, 2);
      assert w[0..2] == Component(n, 0) && w[2..4] == Component(n, 1) && w[4..6] == Component(n, 2);
      ComponentFixesDigit(m, n, 0);
      ComponentFixesDigit(m, n, 1);
      ComponentFixesDigit(m, n, 2);
    }
    if m % MODULUS == n % MODULUS { SameDigits(m, n); }
  }

  lemma SameDigits(m: int, n: int)
    requires m % MODULUS == n % MODULUS
    ensures forall p: nat :: p < 3 ==> Digit(m, p) == Digit(n, p)
  {
    DigitsDecode(m);
    DigitsDecode(n);
    DigitsUnique(Digit(m, 0), Digit(m, 1), Digit(m, 2), Digit(n, 0), Digit(n, 1), Digit(n, 2));
  }

  lemma DigitsUnique(a: int, b: int, c: int, x: int, y: int, z: int)
    requires 0 <= a < 2048 && 0 <= b < 2048 && 0 <= c < 2048 && 0 <= x < 2048 && 0 <= y < 2048 && 0 <= z < 2048
    requires a + 2048 * b + 2048 * 2048 * c == x + 2048 * y + 2048 * 2048 * z
    ensures a == x && b == y && c == z
  {
  }

  lemma CloseIsNotCongruent(m: int, n: int, q: int)
    requires m < n < m + q
    ensures m % q != n % q
  {
    var d := n / q - m / q;
    assert m == q * (m / q) + m % q && n == q * (n / q) + n % q;
    assert n - m == q * d + n % q - m % q;
    assert d >= 1 ==> q * d >= q;
    assert d <= 0 ==> q * d <= 0;
  }

  /** For every seed, rows less than 2048 cubed apart have different vectors. */
  lemma NearbyRowsDiffer(base: bytes, i: int, j: int, seed: int)
    requires |base| >= 6 && i < j < i + MODULUS
    ensures Vector(base, Mixed(i, seed)) != Vector(base, Mixed(j, seed))
  {
    VectorsDistinguish(base, Mixed(i, seed), Mixed(j, seed));
    CloseIsNotCongruent(Mixed(i, seed), Mixed(j, seed), MODULUS);
  }
}
