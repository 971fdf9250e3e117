/** Small value types shared by the model: an optional value (Java's null or
    Optional), and Java's fixed-width integers with the arithmetic the source
    uses on them. */
module Wrappers {

  /** A present or absent value; None stands for Java's null / Optional.empty(). */
  datatype Option<+T> = None | Some(value: T)
  {
    /** Optional.map */
    function Map<U>(f: T -> U): (r: Option<U>)
      ensures r.Some? <==> Some?
      ensures Some? ==> r.value == f(value)
    {
      match this
      case None => None
      case Some(v) => Some(f(v))
    }
  }

  const LongModulus: int := 0x1_0000_0000_0000_0000
  const LongMin: int := -0x8000_0000_0000_0000
  const LongMax: int := 0x7FFF_FFFF_FFFF_FFFF

  /** Java `long`. */
  newtype Long = x: int | -0x8000_0000_0000_0000 <= x < 0x8000_0000_0000_0000

  /** Java `int`. */
  newtype Int = x: int | -0x8000_0000 <= x < 0x8000_0000

  /** Two's-complement wrap-around of an exact integer into a Java `long`. */
  function LongWrap(x: int): (r: Long)
    ensures (r as int - x) % LongModulus == 0
    ensures LongMin <= x <= LongMax ==> r as int == x
  {
    ((x - LongMin) % LongModulus + LongMin) as Long
  }

  /** Two longs congruent modulo 2^64 are equal. */
  lemma LongCongruentEqual(a: Long, b: Long)
    requires (a as int - b as int) % LongModulus == 0
    ensures a == b
  {
    var d := a as int - b as int;
    assert -LongModulus < d < LongModulus;
  }

  /** Java `a - b` on two longs: the exact difference wrapped into 64 bits. */
  function LongSub(a: Long, b: Long): (r: Long)
    ensures (r as int - (a as int - b as int)) % LongModulus == 0
    ensures LongMin <= a as int - b as int <= LongMax ==> r as int == a as int - b as int
  {
    LongWrap(a as int - b as int)
  }

  /** Subtracting a reading from a later reading that wrapped past the top of
      the range still gives the true distance, as long as it fits in a long. */
  lemma LongSubAfterWrap(start: Long, e: int)
    requires 0 <= e <= LongMax
    ensures LongSub(LongWrap(start as int + e), start) as int == e
  {
    var end := LongWrap(start as int + e);
    var r := LongSub(end, start);
    var k1 := (end as int - (start as int + e)) / LongModulus;
    assert end as int - (start as int + e) == k1 * LongModulus;
    var k2 := (r as int - (end as int - start as int)) / LongModulus;
    assert r as int - (end as int - start as int) == k2 * LongModulus;
    assert r as int - e == (k1 + k2) * LongModulus;
    LongCongruentEqual(r, e as Long);
  }

  /** Java `a / b` on longs for a positive divisor: the quotient truncated toward zero. */
  function LongDiv(a: Long, b: Long): (q: Long)
    requires b > 0
    ensures a >= 0 ==> 0 <= q <= a
    ensures a < 0 ==> a <= q <= 0
  {
    var m := if a >= 0 then a as int else -(a as int);
    DivBounded(m, b as int);
    if a >= 0 then (m / b as int) as Long else (-(m / b as int)) as Long
  }

  lemma DivBounded(m: nat, b: int)
    requires b > 0
    ensures 0 <= m / b <= m
  {
    var k := m / b;
    assert k * b <= m;
    assert k * b - k == k * (b - 1);
    MulNonNeg(k, b - 1);
  }

  lemma MulNonNeg(k: nat, c: nat)
    ensures k * c >= 0
  {
  }

  /** The quotient rounds toward zero: it is the largest multiple of b not
      exceeding |a|, carrying the sign of a. */
  lemma LongDivTruncates(a: Long, b: Long)
    requires b > 0
    ensures var q := LongDiv(a, b) as int;
      a >= 0 ==> q * (b as int) <= a as int < (q + 1) * (b as int)
    ensures var q := LongDiv(a, b) as int;
      a < 0 ==> (q - 1) * (b as int) < a as int <= q * (b as int)
  {
    var m := if a >= 0 then a as int else -(a as int);
    var k := m / (b as int);
    DivBracket(m, b as int);
    if a < 0 {
      assert LongDiv(a, b) as int == -k;
      NegateBracket(k, b as int, m);
    }
  }

  /** m / b brackets m between consecutive multiples of b. */
  lemma DivBracket(m: nat, b: int)
    requires b > 0
    ensures (m / b) * b <= m < (m / b + 1) * b
  {
    var k := m / b;
    assert m == k * b + m % b;
    assert (k + 1) * b == k * b + b;
  }

  /** Negating a bracket of m gives a bracket of -m. */
  lemma NegateBracket(k: int, b: int, m: int)
    requires k * b <= m < (k + 1) * b
    ensures (-k - 1) * b < -m <= (-k) * b
  {
    assert (-k) * b == -(k * b);
    assert (-k - 1) * b == -((k + 1) * b);
  }
}
