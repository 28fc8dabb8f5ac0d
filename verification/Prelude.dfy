/** Bytes, results and the few facts about sequences, hashes and numbers that
    every other module relies on. */
module Prelude {

  type byte = x: int | 0 <= x < 256
  type bytes = seq<byte>

  datatype Option<+T> = None | Some(value: T)

  datatype Result<+T, +E> = Ok(value: T) | Err(error: E)

  /** No two of the listed inputs collide under `h`.  A fixed-width hash cannot be
      injective on all byte strings, so every theorem names the finite set of
      strings that the code really hashes. */
  ghost predicate CollisionFree<D(!new)>(h: bytes -> D, inputs: set<bytes>) {
    forall x, y :: x in inputs && y in inputs && h(x) == h(y) ==> x == y
  }

  predicate Distinct<T(==)>(s: seq<T>) {
    forall i, j :: 0 <= i < j < |s| ==> s[i] != s[j]
  }

  function Min(a: int, b: int): int {
    if a <= b then a else b
  }

  /** Nothing fails at the moments from one on, up to but not including the other. */
  ghost predicate NoFault(fails: nat -> bool, from: nat, to: nat) {
    forall t: nat :: from <= t < to ==> !fails(t)
  }

  /** The last moment is the first that fails. */
  ghost predicate Stopped(fails: nat -> bool, from: nat, to: nat) {
    from < to && NoFault(fails, from, to - 1) && fails(to - 1)
  }

  /** A run that did not succeed: its last moment failed, or nothing did and it was refused. */
  ghost predicate Ended(fails: nat -> bool, from: nat, to: nat, refused: bool) {
    Stopped(fails, from, to) || (refused && NoFault(fails, from, to))
  }

  /** What a run without a fault, and the run after it, make together. */
  lemma OneRunAfterAnother(fails: nat -> bool, from: nat, mid: nat, to: nat, refused: bool)
    requires from <= mid <= to && NoFault(fails, from, mid)
    ensures NoFault(fails, mid, to) <==> NoFault(fails, from, to)
    ensures Stopped(fails, mid, to) ==> Stopped(fails, from, to)
    ensures Ended(fails, mid, to, refused) || Ended(fails, mid, to, false) ==> Ended(fails, from, to, refused)
  {
  }

  lemma FaultlessEnds(fails: nat -> bool, from: nat, to: nat, refused: bool)
    requires forall t :: !fails(t)
    ensures NoFault(fails, from, to) && !Stopped(fails, from, to) && (Ended(fails, from, to, refused) ==> refused)
  {
  }

  lemma NoFaultSoFar(fails: nat -> bool, from: nat, to: nat)
    requires from <= to
    ensures NoFault(fails, from, from)
    ensures NoFault(fails, from, to + 1) <==> NoFault(fails, from, to) && !fails(to)
    ensures Stopped(fails, from, to + 1) <==> NoFault(fails, from, to) && fails(to)
    ensures Ended(fails, from, to + 1, false) <==> Stopped(fails, from, to + 1)
    ensures Ended(fails, from, to + 1, true) <==> NoFault(fails, from, to)
  {
  }

  /** Big-endian unsigned encoding with a fixed width, as `int.to_bytes(width, "big")`. */
  function BigEndian(n: nat, width: nat): (b: bytes)
    ensures |b| == width
    decreases width
  {
    if width == 0 then [] else BigEndian(n / 256, width - 1) + [n % 256]
  }

  function Power256(width: nat): (p: nat)
    ensures p > 0
  {
    if width == 0 then 1 else 256 * Power256(width - 1)
  }

  function Pow2(n: nat): (p: nat)
    ensures p > 0
  {
    if n == 0 then 1 else 2 * Pow2(n - 1)
  }

  lemma {:induction false} BigEndianInjective(m: nat, n: nat, width: nat)
    requires m < Power256(width) && n < Power256(width)
    requires BigEndian(m, width) == BigEndian(n, width)
    ensures m == n
    decreases width
  {
    if width > 0 {
      var a, b := BigEndian(m / 256, width - 1), BigEndian(n / 256, width - 1);
      assert a == (a + [m % 256])[..width - 1] == (b + [n % 256])[..width - 1] == b;
      assert (a + [m % 256])[width - 1] == (b + [n % 256])[width - 1];
      BigEndianInjective(m / 256, n / 256, width - 1);
    }
  }

  /** The number that bytes spell, most significant byte first. */
  function BigEndianValue(b: bytes): nat {
    if b == [] then 0 else 256 * BigEndianValue(b[..|b| - 1]) + b[|b| - 1]
  }

  lemma {:induction false} BigEndianSpells(n: nat, width: nat)
    requires n < Power256(width)
    ensures BigEndianValue(BigEndian(n, width)) == n
    decreases width
  {
    if width > 0 {
      BigEndianSpells(n / 256, width - 1);
      var head := BigEndian(n / 256, width - 1);
      assert (head + [n % 256])[..width - 1] == head;
    }
  }

  /** The limit of an eight-byte length. */
  const LENGTH_LIMIT: nat := 0x1_0000_0000_0000_0000

  /** `len(part).to_bytes(8, "big")`; longer parts cannot be hashed at all. */
  function LengthPrefix(n: nat): (b: bytes)
    requires n < LENGTH_LIMIT
    ensures |b| == 8
  {
    BigEndian(n, 8)
  }

  lemma LengthPrefixInjective(m: nat, n: nat)
    requires m < LENGTH_LIMIT && n < LENGTH_LIMIT && LengthPrefix(m) == LengthPrefix(n)
    ensures m == n
  {
    BigEndianInjective(m, n, 8);
  }

  /** Decimal ASCII digits of a natural number. */
  function Decimal(n: nat): (b: bytes)
    ensures |b| > 0 && forall i :: 0 <= i < |b| ==> 48 <= b[i] <= 57
  {
    if n < 10 then [48 + n] else Decimal(n / 10) + [48 + n % 10]
  }

  /** The number that decimal digits spell. */
  function DecimalValue(b: bytes): int {
    if b == [] then 0 else 10 * DecimalValue(b[..|b| - 1]) + b[|b| - 1] as int - 48
  }

  /** The digits spell the number, without a leading zero. */
  lemma {:induction false} DecimalSpells(n: nat)
    ensures DecimalValue(Decimal(n)) == n && (Decimal(n)[0] == 48 <==> n == 0)
  {
    if n < 10 {
      assert [48 + n][..0] == [];
    } else {
      DecimalSpells(n / 10);
      var head := Decimal(n / 10);
      assert (head + [48 + n % 10])[..|head|] == head;
    }
  }

  /** The bytes of ASCII text. */
  function Ascii(text: string): (b: bytes)
    ensures |b| == |text|
  {
    seq(|text|, i requires 0 <= i < |text| => text[i] as int % 256)
  }

  /** A terminator that occurs in neither prefix makes the split unique. */
  lemma TerminatedSplit(a: bytes, b: bytes, x: bytes, y: bytes, stop: byte)
    requires stop !in a && stop !in b
    requires a + [stop] + x == b + [stop] + y
    ensures a == b && x == y
  {
    var s := a + [stop] + x;
    assert s == b + [stop] + y;
    assert forall i :: 0 <= i < |a| ==> s[i] == a[i] != stop;
    assert forall i :: 0 <= i < |b| ==> s[i] == b[i] != stop;
    assert s[|a|] == stop && s[|b|] == stop;
    assert a == s[..|a|] && b == s[..|b|];
    assert x == s[|a| + 1..] && y == s[|b| + 1..];
  }

  /** Equal-length prefixes of equal strings agree, and so do the rests. */
  lemma FixedSplit<T>(a: seq<T>, b: seq<T>, x: seq<T>, y: seq<T>)
    requires |a| == |b| && a + x == b + y
    ensures a == b && x == y
  {
    assert a == (a + x)[..|a|] && b == (b + y)[..|b|];
    assert x == (a + x)[|a|..] && y == (b + y)[|b|..];
  }

  /** A part behind its length, so that framed parts can be told apart in a stream. */
  function Framed(part: bytes): bytes
    requires |part| < LENGTH_LIMIT
  {
    LengthPrefix(|part|) + part
  }

  lemma FramedSplit(a: bytes, b: bytes, x: bytes, y: bytes)
    requires |a| < LENGTH_LIMIT && |b| < LENGTH_LIMIT && Framed(a) + x == Framed(b) + y
    ensures a == b && x == y
  {
    var p, q := LengthPrefix(|a|), LengthPrefix(|b|);
    Regroup(p, a, x);
    Regroup(q, b, y);
    FixedSplit(p, q, a + x, b + y);
    LengthPrefixInjective(|a|, |b|);
    FixedSplit(a, b, x, y);
  }

  lemma Regroup<T>(a: seq<T>, b: seq<T>, c: seq<T>)
    ensures a + b + c == a + (b + c)
  {
  }

  function Concat<T>(parts: seq<seq<T>>): seq<T> {
    if parts == [] then [] else parts[0] + Concat(parts[1..])
  }

  lemma {:induction false} ConcatSnoc<T>(parts: seq<seq<T>>, last: seq<T>)
    ensures Concat(parts + [last]) == Concat(parts) + last
  {
    if parts == [] {
      assert [last][1..] == [];
    } else {
      assert (parts + [last])[1..] == parts[1..] + [last];
      ConcatSnoc(parts[1..], last);
    }
  }

  function Sum(s: seq<int>): int {
    if s == [] then 0 else s[0] + Sum(s[1..])
  }

  lemma {:induction false} SumAppend(a: seq<int>, b: seq<int>)
    ensures Sum(a + b) == Sum(a) + Sum(b)
  {
    if a == [] {
      assert a + b == b;
    } else {
      assert (a + b)[1..] == a[1..] + b;
      SumAppend(a[1..], b);
    }
  }

  lemma SubsetSize<T>(a: set<T>, b: set<T>)
    requires a <= b
    ensures |a| <= |b| && (|a| == |b| <==> a == b)
  {
    assert b == a + (b - a);
    assert |b| == |a| + |b - a|;
  }

  function RemoveAt<T>(s: seq<T>, i: nat): (r: seq<T>)
    requires i < |s|
    ensures |r| == |s| - 1
  {
    s[..i] + s[i + 1..]
  }

  lemma RemoveAtMultiset<T>(s: seq<T>, i: nat)
    requires i < |s|
    ensures multiset(s) == multiset(RemoveAt(s, i)) + multiset{s[i]}
  {
    assert s == s[..i] + [s[i]] + s[i + 1..];
  }

  lemma SamePlace<T>(a: seq<T>, b: seq<T>, i: nat) returns (k: nat)
    requires multiset(a) == multiset(b) && i < |b|
    ensures k < |a| && a[k] == b[i]
  {
    assert b[i] in multiset(b) && b[i] in multiset(a);
    k :| 0 <= k < |a| && a[k] == b[i];
  }

  /** Two places of a sequence correspond to two places of any rearrangement of it. */
  lemma TwoPlaces<T>(a: seq<T>, b: seq<T>, i: nat, j: nat) returns (k: nat, l: nat)
    requires multiset(a) == multiset(b) && i < j < |b|
    ensures k < |a| && l < |a| && k != l && a[k] == b[i] && a[l] == b[j]
  {
    k := SamePlace(a, b, i);
    RemoveAtMultiset(a, k);
    RemoveAtMultiset(b, i);
    assert multiset(RemoveAt(a, k)) == multiset(a) - multiset{a[k]};
    assert multiset(RemoveAt(b, i)) == multiset(b) - multiset{b[i]};
    assert RemoveAt(b, i)[j - 1] == b[j];
    var p := SamePlace(RemoveAt(a, k), RemoveAt(b, i), j - 1);
    l := if p < k then p else p + 1;
  }
}
