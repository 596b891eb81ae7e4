/** The binary counter behind the efficient registration: the occupied
    levels of a block are the set bits of the number of its registrants. */
module Counter {
  import opened Group

  /** Bit l of m. */
  function Bit(m: nat, l: nat): bool
  {
    if l == 0 then m % 2 == 1 else Bit(m / 2, l - 1)
  }

  /** Adding one to m, whose lowest clear bit is t, clears bits 0..t-1, sets
      bit t and keeps every higher bit. */
  lemma {:induction false} IncrementBits(m: nat, t: nat, l: nat)
    requires forall j: nat :: j < t ==> Bit(m, j)
    requires !Bit(m, t)
    ensures Bit(m + 1, l) == if l < t then false else if l == t then true else Bit(m, l)
  {
    if t == 0 {
      if l > 0 {
        assert (m + 1) / 2 == m / 2;
      }
    } else {
      assert Bit(m, 0);
      assert (m + 1) / 2 == m / 2 + 1;
      if l > 0 {
        forall j: nat | j < t - 1
          ensures Bit(m / 2, j)
        {
          assert Bit(m, j + 1);
        }
        IncrementBits(m / 2, t - 1, l - 1);
      }
    }
  }

  /** Bits at or above the length of m are clear. */
  lemma {:induction false} BitBeyond(m: nat, l: nat)
    requires m < Pow2(l)
    ensures !Bit(m, l)
  {
    if l > 0 {
      BitBeyond(m / 2, l - 1);
    }
  }

  /** A set bit l of m means m >= 2^l. */
  lemma BitBound(m: nat, l: nat)
    requires Bit(m, l)
    ensures Pow2(l) <= m
  {
    if m < Pow2(l) {
      BitBeyond(m, l);
    }
  }

  /** The lowest clear bit of m. */
  function LowestClear(m: nat): (t: nat)
    ensures !Bit(m, t)
    ensures forall j: nat :: j < t ==> Bit(m, j)
    decreases m
  {
    if m % 2 == 0 then 0
    else
      var t := 1 + LowestClear(m / 2);
      assert forall j: nat :: 0 < j < t ==> Bit(m, j) == Bit(m / 2, j - 1);
      t
  }
}
