/**
 * Java's fixed-width integers as the detector and the console use them:
 * `byte` and `long` as ranges of mathematical integers, with the
 * two's-complement truncation that Java applies after every operation
 * written out explicitly.
 */
module JavaInts {

  const LONG_MIN: int := -0x8000_0000_0000_0000
  const LONG_MAX: int := 0x7FFF_FFFF_FFFF_FFFF
  const TWO_64: int := 0x1_0000_0000_0000_0000

  /** A Java `byte`. */
  type Byte = x: int | -0x80 <= x <= 0x7F

  /** A Java `long`. */
  type Long = x: int | -0x8000_0000_0000_0000 <= x <= 0x7FFF_FFFF_FFFF_FFFF

  function Pow2(n: nat): (r: nat)
    ensures r >= 1
  {
    if n == 0 then 1 else 2 * Pow2(n - 1)
  }

  lemma {:induction false} Pow2Add(a: nat, b: nat)
    ensures Pow2(a + b) == Pow2(a) * Pow2(b)
  {
    if a > 0 {
      Pow2Add(a - 1, b);
    }
  }

  /** The powers of two that the byte shifts of the codec use. */
  lemma Pow2Bytes()
    ensures Pow2(0) == 1 && Pow2(8) == 0x100 && Pow2(16) == 0x1_0000 && Pow2(24) == 0x100_0000
    ensures Pow2(32) == 0x1_0000_0000 && Pow2(40) == 0x100_0000_0000
    ensures Pow2(48) == 0x1_0000_0000_0000 && Pow2(56) == 0x100_0000_0000_0000
    ensures Pow2(64) == TWO_64
  {
    assert Pow2(8) == 0x100;
    Pow2Add(8, 8);
    Pow2Add(16, 8);
    Pow2Add(24, 8);
    Pow2Add(32, 8);
    Pow2Add(40, 8);
    Pow2Add(48, 8);
    Pow2Add(56, 8);
  }

  /**
   * Two's-complement truncation to 64 bits: the value a Java `long`
   * operation yields for the exact result `x`. It is the one `long`
   * congruent to `x` modulo 2^64.
   */
  function Wrap(x: int): (r: Long)
    ensures (r - x) % TWO_64 == 0
    ensures LONG_MIN <= x <= LONG_MAX ==> r == x
  {
    (x - LONG_MIN) % TWO_64 + LONG_MIN
  }

  /** `a - b` on Java longs. */
  function Sub(a: Long, b: Long): (r: Long)
    ensures LONG_MIN <= a - b <= LONG_MAX ==> r == a - b
    ensures a - b < LONG_MIN ==> r == a - b + TWO_64
    ensures a - b > LONG_MAX ==> r == a - b - TWO_64
  {
    Wrap(a - b)
  }

  /** Subtracting one wraps only at `Long.MIN_VALUE`, which becomes `Long.MAX_VALUE`. */
  lemma SubOne(a: Long)
    ensures Sub(a, 1) == if a == LONG_MIN then LONG_MAX else a - 1
  {
  }

  /** `b & 0xFF` for a byte `b`: its bit pattern read as an unsigned number. */
  function Unsigned8(b: Byte): (r: int)
    ensures 0 <= r < 0x100 && (r - b) % 0x100 == 0
  {
    if b < 0 then b + 0x100 else b
  }

  /** The cast `(byte) x`: the low eight bits of `x`, read as a signed byte. */
  function ToByte(x: int): (r: Byte)
    ensures Unsigned8(r) == x % 0x100
  {
    var low := x % 0x100;
    if low >= 0x80 then low - 0x100 else low
  }

  /** Casting the unsigned reading of a byte back gives the byte. */
  lemma ToByteUnsigned8(b: Byte)
    ensures ToByte(Unsigned8(b)) == b
  {
  }

  /** The bit pattern of a long read as an unsigned 64-bit number. */
  function Unsigned64(v: Long): (r: nat)
    ensures r < TWO_64 && (r - v) % TWO_64 == 0
    ensures v >= 0 <==> r <= LONG_MAX
  {
    if v < 0 then v + TWO_64 else v
  }

  /**
   * `v >>> n` for 1 <= n < 64: the unsigned right shift of a long by `n`
   * bits, one bit at a time. For n = 0 it is the unsigned reading of `v`,
   * not `v` itself as in Java; putLong never shifts by 0 (its last byte is
   * `(byte) val`, and the cast cannot tell the two apart).
   */
  function Ushr(v: Long, n: nat): (r: nat)
    requires n < 64
    ensures r <= Unsigned64(v)
    ensures n > 0 ==> r <= LONG_MAX
  {
    if n == 0 then Unsigned64(v) else Ushr(v, n - 1) / 2
  }

  /** Shifting right by `n` bits divides the unsigned reading by 2^n. */
  lemma {:induction false} UshrDivides(v: Long, n: nat)
    requires n < 64
    ensures Ushr(v, n) == Unsigned64(v) / Pow2(n)
  {
    if n > 0 {
      UshrDivides(v, n - 1);
      DivDiv(Unsigned64(v), Pow2(n - 1), 2);
    }
  }

  lemma MulAtLeast(d: int, m: int)
    requires d > 0 && m >= 1
    ensures d * m >= d
  {
  }

  /** Euclidean division is determined by quotient and remainder. */
  lemma DivUnique(x: int, d: int, a: int, t: int)
    requires d > 0 && x == d * a + t && 0 <= t < d
    ensures x / d == a
  {
    var q, r := x / d, x % d;
    assert x == d * q + r;
    assert d * (q - a) == t - r;
    if q > a {
      MulAtLeast(d, q - a);
    } else if q < a {
      MulAtLeast(d, a - q);
    }
  }

  lemma DivDiv(x: nat, p: nat, k: nat)
    requires p > 0 && k > 0
    ensures x / (p * k) == (x / p) / k
  {
    var q, r := x / p, x % p;
    var a, s := q / k, q % k;
    assert x == p * q + r;
    assert q == k * a + s;
    assert p * q == (p * k) * a + p * s;
    MulAtLeast(p, k - s);
    assert p * (k - s) == p * k - p * s;
    DivUnique(x, p * k, a, p * s + r);
  }
}
