/** Key generation (`gen`), identical in both versions: a user's secret key,
    public key and n helping values, one per position of the user's block. */
module KeyGen {
  import opened Group
  import opened Params

  datatype UserKeys = UserKeys(sk: Fr, pk: G1, xi: seq<G1>)

  /** `gen` either returns keys or aborts the process when the user's own
      ladder index is out of range. */
  datatype GenResult = Keys(keys: UserKeys) | IndexOutOfRange

  /** Helping value i of user id: the ladder slot id%n + n + 1 - i raised to sk,
      or the identity when that slot is beyond the ladder or is slot n+1. */
  function HelpingValue(crs: Crs, id: nat, sk: Fr, i: int): G1
    requires crs.n >= 1
  {
    var idx := id % crs.n + crs.n + 1 - i;
    if idx < 0 || idx >= |crs.hG1| || idx == crs.n + 1 then Identity else crs.hG1[idx] * sk
  }

  /** The n helping values of user id. */
  function HelpingValues(crs: Crs, id: nat, sk: Fr): (xi: seq<G1>)
    requires crs.n >= 1
    ensures |xi| == crs.n
  {
    seq(crs.n, i requires 0 <= i < crs.n => HelpingValue(crs, id, sk, i))
  }

  /** The public key of user id: its own ladder slot id%n + 1 raised to sk. */
  function PublicKey(crs: Crs, id: nat, sk: Fr): G1
    requires crs.n >= 1 && id % crs.n + 1 < |crs.hG1|
  {
    crs.hG1[id % crs.n + 1] * sk
  }

  /** `gen` with the random secret key sk as a parameter. The loop runs j over
      0..n-1 and fills entry i = n-1-j from ladder slot id%n + j + 2, skipping
      slot n+1 and slots past the end. */
  method Gen(crs: Crs, id: nat, sk: Fr) returns (res: GenResult)
    requires crs.n >= 1
    ensures res.IndexOutOfRange? <==> id % crs.n + 1 >= |crs.hG1|
    ensures res.Keys? ==> res.keys == UserKeys(sk, PublicKey(crs, id, sk), HelpingValues(crs, id, sk))
    ensures crs.Valid() ==> res.Keys?
  {
    var n := crs.n;
    var idIndex := id % n + 1;
    if idIndex >= |crs.hG1| {
      return IndexOutOfRange;
    }
    var pk := crs.hG1[idIndex] * sk;
    var xi := new G1[n](_ => Identity);
    for j := 0 to n
      invariant forall i :: n - j <= i < n ==> xi[i] == HelpingValue(crs, id, sk, i)
      invariant forall i :: 0 <= i < n - j ==> xi[i] == Identity
    {
      var i := n - 1 - j;
      var vecIdx := id % n + j + 2;
      if vecIdx >= |crs.hG1| || vecIdx == n + 1 {
        continue;
      }
      xi[i] := crs.hG1[vecIdx] * sk;
    }
    res := Keys(UserKeys(sk, pk, xi[..]));
  }

  /** For a CRS whose ladder skips slot n+1 (the efficient setup), every
      helping value uses a slot in 2..2n, the user's own position holds the
      identity (self-exclusion), and every other position i holds
      z^(id%n + n + 1 - i) raised to sk. */
  lemma {:induction false} HelpingValuesShape(crs: Crs, z: Fr, id: nat, sk: Fr, i: int)
    requires crs.Valid()
    requires forall j :: 0 <= j < |crs.hG1| ==> crs.hG1[j] == LadderAt(z, crs.n, crs.n + 1, j)
    requires 0 <= i < crs.n
    ensures 2 <= id % crs.n + crs.n + 1 - i <= 2 * crs.n
    ensures HelpingValue(crs, id, sk, i) == if i == id % crs.n then Identity
                                           else Pow(z, id % crs.n + crs.n + 1 - i) * sk
  {
  }

  /** The public key is z^(id%n + 1) raised to sk, read from a slot in 1..n. */
  lemma PublicKeyShape(crs: Crs, z: Fr, gap: int, id: nat, sk: Fr)
    requires crs.Valid()
    requires forall j :: 0 <= j < |crs.hG1| ==> crs.hG1[j] == LadderAt(z, crs.n, gap, j)
    requires gap > crs.n
    ensures 1 <= id % crs.n + 1 <= crs.n
    ensures PublicKey(crs, id, sk) == Pow(z, id % crs.n + 1) * sk
  {
  }
}
