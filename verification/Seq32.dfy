/** 32-bit sequence numbers and the comparison macros of tcp.h. */
module Seq32 {
  const MODULUS := 0x1_0000_0000
  const HALF := 0x8000_0000

  newtype byte = x: int | 0 <= x < 256

  function Wrap(n: int): (w: int)
    ensures 0 <= w < MODULUS
  {
    n % MODULUS
  }

  /** The cast (int32_t) of a 32-bit word. */
  function Signed(w: int): int
  {
    if Wrap(w) < HALF then Wrap(w) else Wrap(w) - MODULUS
  }

  /** (int32_t)(a) - (int32_t)(b), the subtraction wrapping to 32 bits. */
  function Difference(a: int, b: int): int
  {
    Signed(Signed(a) - Signed(b))
  }

  predicate LessThan(a: int, b: int) { Difference(a, b) < 0 }
  predicate LessOrEqual(a: int, b: int) { Difference(a, b) <= 0 }
  predicate GreaterThan(a: int, b: int) { Difference(a, b) > 0 }
  predicate GreaterOrEqual(a: int, b: int) { Difference(a, b) >= 0 }

  /** Two stream positions are close enough to be told apart by their low 32 bits. */
  predicate Near(x: int, y: int)
  {
    -HALF <= x - y < HALF
  }

  lemma {:induction false} DifferenceIsCongruent(x: int, y: int)
    ensures Wrap(Difference(Wrap(x), Wrap(y))) == Wrap(x - y)
    ensures -HALF <= Difference(Wrap(x), Wrap(y)) < HALF
  {
    var a, b := Wrap(x), Wrap(y);
    assert Wrap(a) == a && Wrap(b) == b;
    var qx, qy := x / MODULUS, y / MODULUS;
    assert x == qx * MODULUS + a && y == qy * MODULUS + b;
    var d := Signed(a) - Signed(b);
    var k := (if a < HALF then 0 else 1) - (if b < HALF then 0 else 1);
    assert d == x - y - (qx - qy + k) * MODULUS;
    WrapShift(x - y, qx - qy + k);
    var e := Signed(d);
    WrapShift(e, if Wrap(d) < HALF then 0 else -1);
  }

  lemma WrapShift(n: int, k: int)
    ensures Wrap(n - k * MODULUS) == Wrap(n)
  {}

  /** The macros order two wrapped positions as the unbounded positions are ordered,
      whenever these are near; the difference itself is recovered. */
  lemma {:induction false} ComparisonsAgree(x: int, y: int)
    requires Near(x, y)
    ensures Difference(Wrap(x), Wrap(y)) == x - y
    ensures LessThan(Wrap(x), Wrap(y)) <==> x < y
    ensures LessOrEqual(Wrap(x), Wrap(y)) <==> x <= y
    ensures GreaterThan(Wrap(x), Wrap(y)) <==> x > y
    ensures GreaterOrEqual(Wrap(x), Wrap(y)) <==> x >= y
    ensures Wrap(x) == Wrap(y) <==> x == y
  {
    DifferenceIsCongruent(x, y);
    SameResidue(Difference(Wrap(x), Wrap(y)), x - y);
    if Wrap(x) == Wrap(y) {
      WrapOfDifference(x, y);
      SameResidue(x - y, 0);
    }
  }

  lemma WrapOfDifference(x: int, y: int)
    requires Wrap(x) == Wrap(y)
    ensures Wrap(x - y) == 0
  {}

  lemma SameResidue(d: int, e: int)
    requires -HALF <= d < HALF && -HALF <= e < HALF
    requires Wrap(d) == Wrap(e)
    ensures d == e
  {}

  /** Which way the "less than" macro errs: for every pair of positions it holds exactly
      when the distance, reduced to 32 bits, lies in the upper half of the circle. */
  lemma {:induction false} LessThanExactly(x: int, y: int)
    ensures LessThan(Wrap(x), Wrap(y)) <==> Wrap(x - y) >= HALF
  {
    DifferenceIsCongruent(x, y);
    var d := Difference(Wrap(x), Wrap(y));
    if d < 0 {
      assert Wrap(d) == d + MODULUS;
    } else {
      assert Wrap(d) == d;
    }
  }

  lemma WrapPlus(n: int, k: int)
    ensures Wrap(Wrap(n) + k) == Wrap(n + k)
  {}

  /** The two number systems a socket can be read in: stream positions without bound, and
      the 32-bit words the packets carry. */
  datatype Arith = Unbounded | Wrapped
  {
    function Plus(a: int, n: int): int
    {
      if Unbounded? then a + n else Wrap(a + n)
    }

    predicate Less(a: int, b: int)
    {
      if Unbounded? then a < b else LessThan(a, b)
    }
  }
}
