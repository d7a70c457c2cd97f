/** Bytes, and the little-endian integers the device protocol stores in them. */
module Bytes {

  type Byte = b: int | 0 <= b < 256

  type Word16 = n: nat | n < 0x1_0000
  type Word32 = n: nat | n < 0x1_0000_0000

  const TWO_16 := 0x1_0000
  const TWO_32 := 0x1_0000_0000
  const INT_MAX := 0x7FFF_FFFF

  function Zeros(n: nat): (z: seq<Byte>)
    ensures |z| == n
  {
    seq(n, _ => 0)
  }

  function Flatten<T>(parts: seq<seq<T>>): seq<T>
  {
    if parts == [] then [] else parts[0] + Flatten(parts[1..])
  }

  lemma FlattenFrom<T>(parts: seq<seq<T>>, k: nat)
    requires k <= |parts|
    ensures Flatten(parts[k..]) == if k < |parts| then parts[k] + Flatten(parts[k + 1..]) else []
  {
    if k < |parts| {
      assert parts[k..][1..] == parts[k + 1..];
    }
  }

  const NEWLINE: Byte := 0x0A
  const SPACE: Byte := 0x20
  const ZERO: Byte := 0x30

  predicate IsDigit(b: Byte)
  {
    ZERO <= b < ZERO + 10
  }

  /** n in decimal. */
  function Digits(n: nat): (s: seq<Byte>)
    ensures s != [] && forall i :: 0 <= i < |s| ==> IsDigit(s[i])
  {
    if n < 10 then [ZERO + n] else Digits(n / 10) + [ZERO + n % 10]
  }

  /** Different numbers have different decimal texts. */
  lemma {:induction false} DigitsDiffer(m: nat, n: nat)
    requires Digits(m) == Digits(n)
    ensures m == n
  {
    var s := Digits(m);
    if m >= 10 && n >= 10 {
      assert s[..|s| - 1] == Digits(m / 10) == Digits(n / 10);
      DigitsDiffer(m / 10, n / 10);
      assert s[|s| - 1] == ZERO + m % 10 == ZERO + n % 10;
    } else {
      assert |s| == 1 <==> m < 10;
      assert |s| == 1 <==> n < 10;
    }
  }

  /** Value of a uint16_t after the C++ conversion from a wider unsigned value. */
  function Low16(n: nat): (r: nat)
  {
    n % 0x1_0000
  }

  function Low32(n: nat): (r: nat)
  {
    n % 0x1_0000_0000
  }

  function Le16(n: nat): (r: seq<Byte>)
    ensures |r| == 2
  {
    [n % 0x100, n / 0x100 % 0x100]
  }

  function Le32(n: nat): (r: seq<Byte>)
    ensures |r| == 4
  {
    Le16(n) + Le16(n / 0x1_0000)
  }

  /** Byte i of s, or 0 beyond its end. */
  function At(s: seq<Byte>, i: nat): Byte
  {
    if i < |s| then s[i] else 0
  }

  function Val16(s: seq<Byte>, i: nat): (r: nat)
    ensures r < 0x1_0000
  {
    At(s, i) + 0x100 * At(s, i + 1)
  }

  function Val32(s: seq<Byte>, i: nat): (r: nat)
    ensures r < 0x1_0000_0000
  {
    Val16(s, i) + 0x1_0000 * Val16(s, i + 2)
  }

  lemma Remainder16(q: nat, r: nat)
    requires r < 0x1_0000
    ensures (0x1_0000 * q + r) % 0x1_0000 == r
  {
  }

  lemma Remainder32(q: nat, r: nat)
    requires r < 0x1_0000_0000
    ensures (0x1_0000_0000 * q + r) % 0x1_0000_0000 == r
  {
  }

  lemma HalvesOfLow16(n: nat)
    ensures n % 0x100 + 0x100 * (n / 0x100 % 0x100) == Low16(n)
  {
    var q := n / 0x100;
    Remainder16(q / 0x100, 0x100 * (q % 0x100) + n % 0x100);
  }

  /** Reading back a stored 16-bit value gives it modulo 2^16, wherever it was stored. */
  lemma Val16OfLe16(before: seq<Byte>, n: nat, after: seq<Byte>)
    ensures Val16(before + Le16(n) + after, |before|) == Low16(n)
  {
    var s := before + Le16(n) + after;
    assert s[|before|] == Le16(n)[0] && s[|before| + 1] == Le16(n)[1];
    HalvesOfLow16(n);
  }

  /** Reading back a stored 32-bit value gives it modulo 2^32, wherever it was stored. */
  lemma Val32OfLe32(before: seq<Byte>, n: nat, after: seq<Byte>)
    ensures Val32(before + Le32(n) + after, |before|) == Low32(n)
  {
    var s := before + Le32(n) + after;
    var low, high := Le16(n), Le16(n / 0x1_0000);
    Val16OfLe16(before, n, high + after);
    Val16OfLe16(before + low, n / 0x1_0000, after);
    assert s == before + low + (high + after) == (before + low) + high + after;
    HalvesOfLow32(n);
  }

  lemma HalvesOfLow32(n: nat)
    ensures Low16(n) + 0x1_0000 * Low16(n / 0x1_0000) == Low32(n)
  {
    var q := n / 0x1_0000;
    Remainder32(q / 0x1_0000, 0x1_0000 * Low16(q) + Low16(n));
  }
}
