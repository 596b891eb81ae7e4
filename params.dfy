/** The public reference string (CRS) shared by both versions of the scheme:
    the block size n = ceil(sqrt(N)), the two generators and the two
    "ladders" h[i] = g^(z^i) built from a one-time trapdoor z. */
module Params {
  import opened Group

  datatype Crs = Crs(bigN: int, n: nat, g1: G1, g2: G2, hG1: seq<G1>, hG2: seq<G2>)
  {
    /** What setup produces: at least one position per block and 2n+1 ladder slots. */
    predicate Valid()
    {
      n >= 1 && |hG1| == 2 * n + 1 && |hG2| == 2 * n + 1
    }
  }

  /** The integer ceil(sqrt(N)) that the CRS constructor computes in floating point. */
  function CeilSqrt(bigN: nat): (n: nat)
    ensures n * n >= bigN
    ensures n == 0 || (n - 1) * (n - 1) < bigN
  {
    CeilSqrtFrom(bigN, 0)
  }

  function CeilSqrtFrom(bigN: nat, c: nat): (n: nat)
    requires c == 0 || (c - 1) * (c - 1) < bigN
    ensures n >= c && n * n >= bigN
    ensures n == 0 || (n - 1) * (n - 1) < bigN
    decreases bigN - c
  {
    if c * c >= bigN then c
    else
      assert c <= c * c;
      CeilSqrtFrom(bigN, c + 1)
  }

  /** The integer ceil(log2(n)), for n >= 1. */
  function CeilLog2(n: nat): (c: nat)
    requires n >= 1
    ensures Pow2(c) >= n
    ensures c == 0 || Pow2(c - 1) < n
  {
    CeilLog2From(n, 0)
  }

  function CeilLog2From(n: nat, c: nat): (r: nat)
    requires n >= 1
    requires c == 0 || Pow2(c - 1) < n
    ensures r >= c && Pow2(r) >= n
    ensures r == 0 || Pow2(r - 1) < n
    decreases n - c
  {
    if Pow2(c) >= n then c
    else
      Pow2Grows(c);
      CeilLog2From(n, c + 1)
  }

  /** The highest level that encryption and update resolution scan:
      ceil(log2(n)) + 2. */
  function MaxLevel(n: nat): nat
    requires n >= 1
  {
    CeilLog2(n) + 2
  }

  /** The discrete logarithm of ladder slot i when the slot `gap` is skipped:
      z^i for 1 <= i <= 2n except the gap, the identity otherwise. */
  function LadderAt(z: Fr, n: nat, gap: int, i: int): G1
  {
    if 1 <= i <= 2 * n && i != gap then Pow(z, i) else Identity
  }

  /** Slot i of a ladder is the identity exactly at 0, at the gap and
      beyond 2n (for a non-zero trapdoor). */
  lemma LadderShape(z: Fr, n: nat, gap: int, i: int)
    requires z != 0
    ensures LadderAt(z, n, gap, i) == Identity <==> (i < 1 || i > 2 * n || i == gap)
  {
    if 1 <= i <= 2 * n && i != gap {
      PowNonZero(z, i);
    }
  }

  /** The setup loop shared by both versions: n = ceil(sqrt(N)), both ladders
      of 2n+1 slots start as the identity, and slot i in 1..2n receives
      g^(z^i) unless i is n + gapOffset. The power of z advances on every
      iteration, including the skipped one. */
  method BuildCrs(bigN: nat, z: Fr, gapOffset: nat) returns (crs: Crs)
    ensures crs.bigN == bigN && crs.n == CeilSqrt(bigN)
    ensures crs.g1 == G1Gen && crs.g2 == G2Gen
    ensures |crs.hG1| == 2 * crs.n + 1 && |crs.hG2| == 2 * crs.n + 1
    ensures forall i :: 0 <= i < |crs.hG1| ==> crs.hG1[i] == LadderAt(z, crs.n, crs.n + gapOffset, i)
    ensures forall i :: 0 <= i < |crs.hG2| ==> crs.hG2[i] == LadderAt(z, crs.n, crs.n + gapOffset, i)
  {
    var n := CeilSqrt(bigN);
    var limit := 2 * n;
    var h1 := new G1[limit + 1](_ => Identity);
    var h2 := new G2[limit + 1](_ => Identity);
    var zPow := z;
    for i := 1 to limit + 1
      invariant zPow == Pow(z, i)
      invariant forall j :: 0 <= j < i ==> h1[j] == LadderAt(z, n, n + gapOffset, j)
      invariant forall j :: 0 <= j < i ==> h2[j] == LadderAt(z, n, n + gapOffset, j)
      invariant forall j :: i <= j <= limit ==> h1[j] == Identity && h2[j] == Identity
    {
      if i != n + gapOffset {
        h1[i] := G1Gen * zPow;
        h2[i] := G2Gen * zPow;
      }
      zPow := zPow * z;
    }
    crs := Crs(bigN, n, G1Gen, G2Gen, h1[..], h2[..]);
  }
}
