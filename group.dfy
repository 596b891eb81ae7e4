/** The pairing groups of the scheme, written through discrete logarithms.

    An element of G1 is its discrete logarithm to the base of the fixed
    generator g1, an element of G2 its logarithm to the base of g2, and an
    element of GT its logarithm to the base of e(g1, g2). In these terms the
    group operation is addition, the identity element is 0, multiplying a
    point by a scalar is multiplication, and the bilinear pairing
    e(g1^a, g2^b) = e(g1, g2)^(a*b) is the product of the logarithms.
    Logarithms are unbounded integers: an identity that holds between
    integers also holds modulo the group order. */
module Group {

  /** A point of G1, as its discrete logarithm to the base g1. */
  type G1 = int
  /** A point of G2, as its discrete logarithm to the base g2. */
  type G2 = int
  /** An element of the target group GT, as its logarithm to the base e(g1, g2). */
  type GT = int
  /** A scalar of the field Fr. */
  type Fr = int

  /** The generators g1 and g2 are derived by hashing fixed strings, so every
      setup agrees on them; as logarithms to their own base they are 1. */
  const G1Gen: G1 := 1
  const G2Gen: G2 := 1

  /** The identity element of every group ("zero", the point at infinity). */
  const Identity: int := 0

  /** z^i. */
  function Pow(z: int, i: nat): int
  {
    if i == 0 then 1 else z * Pow(z, i - 1)
  }

  /** 2^i. */
  function Pow2(i: nat): (r: nat)
    ensures r >= 1
  {
    if i == 0 then 1 else 2 * Pow2(i - 1)
  }

  /** The pairing e : G1 x G2 -> GT. */
  function Pair(a: G1, b: G2): GT
  {
    a * b
  }

  lemma {:induction false} PowAdd(z: int, a: nat, b: nat)
    ensures Pow(z, a) * Pow(z, b) == Pow(z, a + b)
  {
    if a > 0 {
      PowAdd(z, a - 1, b);
      assert Pow(z, a) * Pow(z, b) == z * (Pow(z, a - 1) * Pow(z, b));
    }
  }

  lemma {:induction false} PowNonZero(z: int, i: nat)
    requires z != 0
    ensures Pow(z, i) != 0
  {
    if i > 0 {
      PowNonZero(z, i - 1);
    }
  }

  lemma {:induction false} Pow2Grows(i: nat)
    ensures Pow2(i) > i
  {
    if i > 0 {
      Pow2Grows(i - 1);
    }
  }

  lemma {:induction false} Pow2Monotone(i: nat, j: nat)
    requires i < j
    ensures Pow2(i) < Pow2(j)
  {
    if i + 1 < j {
      Pow2Monotone(i, j - 1);
    }
  }
}
