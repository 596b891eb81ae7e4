/** When `dec`'s verification equation holds. With honestly generated keys
    and the efficient setup, the equation on level l of a block holds for
    user id exactly when id is one of the users aggregated at level l: the
    commitment times h[n - id%n] exceeds the row of id by z^(n+1) times the
    user's secret key for id itself and by nothing for every other user of
    the block (each helping value cancels one cross term). */
module Decryption {
  import opened Group
  import opened Sums
  import opened Params
  import opened KeyGen
  import opened Storage
  import opened Aggregate
  import opened Efficient

  /** A CRS as the efficient setup builds it from trapdoor z: slots 1..2n of
      both ladders are z^i except slot n+1, which is the identity. */
  predicate EfficientCrs(crs: Crs, z: Fr)
  {
    && crs.Valid() && z != 0 && crs.g1 == G1Gen && crs.g2 == G2Gen
    && (forall j :: 0 <= j < |crs.hG1| ==> crs.hG1[j] == LadderAt(z, crs.n, crs.n + 1, j))
    && (forall j :: 0 <= j < |crs.hG2| ==> crs.hG2[j] == LadderAt(z, crs.n, crs.n + 1, j))
  }

  /** User u registered the public key and helping values `gen` derives from
      its secret key sks[u]. */
  ghost predicate HonestUser(crs: Crs, users: map<int, G1>, hvs: map<int, seq<G1>>, sks: map<int, Fr>, u: int)
    requires crs.Valid()
  {
    && u >= 0 && u in sks
    && u in users && users[u] == PublicKey(crs, u, sks[u])
    && u in hvs && hvs[u] == HelpingValues(crs, u, sks[u])
  }

  /** The G2 ladder slot that `enc` and `dec` pair with for user id. */
  function HTerm(crs: Crs, id: nat): G2
    requires crs.n >= 1 && |crs.hG2| > crs.n
  {
    crs.hG2[crs.n - id % crs.n]
  }

  lemma HTermShape(crs: Crs, z: Fr, id: nat)
    requires EfficientCrs(crs, z)
    ensures HTerm(crs, id) == Pow(z, crs.n - id % crs.n)
  {
  }

  /** z^a * s * z^b == z^(a+b) * s. */
  lemma PowScaled(z: Fr, a: nat, b: nat, s: Fr)
    ensures Pow(z, a) * s * Pow(z, b) == Pow(z, a + b) * s
  {
    PowAdd(z, a, b);
    calc {
      Pow(z, a) * s * Pow(z, b);
      Pow(z, a) * (s * Pow(z, b));
      Pow(z, a) * (Pow(z, b) * s);
      Pow(z, a) * Pow(z, b) * s;
    }
  }

  /** What user u of id's block adds to the left side of id's equation minus
      what it adds to id's row: z^(n+1) * sk for id itself, nothing for the
      others. */
  lemma Residual(crs: Crs, z: Fr, users: map<int, G1>, hvs: map<int, seq<G1>>, sks: map<int, Fr>, id: nat, u: int)
    requires EfficientCrs(crs, z)
    requires HonestUser(crs, users, hvs, sks, u) && u / crs.n == id / crs.n
    ensures PkOf(users)(u) * HTerm(crs, id) - ContribOf(hvs, crs.n, id)(u)
            == if u == id then Pow(z, crs.n + 1) * sks[u] else 0
  {
    var n := crs.n;
    var a := id % n;
    var b := u % n;
    var sk := sks[u];
    HTermShape(crs, z, id);
    PublicKeyShape(crs, z, n + 1, u, sk);
    PowScaled(z, b + 1, n - a, sk);
    assert PkOf(users)(u) * HTerm(crs, id) == Pow(z, b + 1 + n - a) * sk;
    if a == b {
      SamePosition(n, u, id);
    } else {
      HelpingValuesShape(crs, z, u, sk, a);
      assert ContribOf(hvs, n, id)(u) == HelpingValues(crs, u, sk)[a];
    }
  }

  /** `dec`'s equation for user id, on a level whose commitment sums the keys
      of S and whose row id sums S's contributions, holds exactly when id is
      in S. */
  lemma LevelVerifies(crs: Crs, z: Fr, users: map<int, G1>, hvs: map<int, seq<G1>>, sks: map<int, Fr>,
                      s: set<int>, id: nat, sk: Fr, com: G1, aux: G1)
    requires EfficientCrs(crs, z)
    requires forall u :: u in s ==> HonestUser(crs, users, hvs, sks, u) && u / crs.n == id / crs.n
    requires sk != 0 && (id in s ==> id in sks && sks[id] == sk)
    requires com == SumOver(s, PkOf(users)) && aux == SumOver(s, ContribOf(hvs, crs.n, id))
    ensures Verifies(crs, id, sk, aux, com) <==> id in s
  {
    var n := crs.n;
    var hTerm := HTerm(crs, id);
    var residual := u => PkOf(users)(u) * hTerm - ContribOf(hvs, n, id)(u);
    forall u | u in s
      ensures residual(u) == if u == id then Pow(z, n + 1) * sks[u] else 0
    {
      Residual(crs, z, users, hvs, sks, id, u);
    }
    SumOverLinear(s, PkOf(users), ContribOf(hvs, n, id), residual, hTerm);
    SumOverSingleSupport(s, residual, id);
    assert com * hTerm - aux == if id in s then Pow(z, n + 1) * sk else 0;
    VerifiesByResidual(crs, z, id, sk, com, aux, id in s);
  }

  /** The equation holds exactly when com * h[n - id%n] exceeds aux by
      z^(n+1) * sk, which for a non-zero key is never nothing. */
  lemma VerifiesByResidual(crs: Crs, z: Fr, id: nat, sk: Fr, com: G1, aux: G1, member: bool)
    requires EfficientCrs(crs, z) && sk != 0
    requires com * HTerm(crs, id) - aux == if member then Pow(z, crs.n + 1) * sk else 0
    ensures Verifies(crs, id, sk, aux, com) <==> member
  {
    var n := crs.n;
    var hTerm := HTerm(crs, id);
    HTermShape(crs, z, id);
    PowScaled(z, id % n + 1, n - id % n, sk);
    assert Pair(crs.hG1[id % n + 1] * sk, hTerm) == Pow(z, n + 1) * sk;
    PowNonZero(z, n + 1);
    assert Pow(z, n + 1) * sk != 0;
  }

  /** The message `dec` computes, ct3 / (ct1 / e(upd, ct2))^(1/sk), written
      as a relation on logarithms: m is recovered when
      (ct3 - m) * sk == ct1 - e(upd, ct2). */
  ghost predicate Unmasks(sk: Fr, ct1: GT, ct2: G2, ct3: GT, upd: G1, m: GT)
  {
    (ct3 - m) * sk == ct1 - Pair(upd, ct2)
  }

  /** Whenever the verification equation holds for an update and a
      commitment, the component that encrypts m under that commitment gives
      back m, and for a non-zero key nothing else. */
  lemma MessageRecovered(crs: Crs, id: nat, sk: Fr, upd: G1, com: G1, m: GT, lvl: int, r: Fr)
    requires DecReady(crs) && Verifies(crs, id, sk, upd, com)
    ensures var c := Encrypt(crs, id, m, com, lvl, r);
            && Unmasks(sk, c.ct1, c.ct2, c.ct3, upd, m)
            && (sk != 0 ==> forall m' :: Unmasks(sk, c.ct1, c.ct2, c.ct3, upd, m') ==> m' == m)
  {
    var c := Encrypt(crs, id, m, com, lvl, r);
    var hTerm := crs.hG2[crs.n - id % crs.n];
    var hId := crs.hG1[id % crs.n + 1];
    assert com * hTerm == upd * crs.g2 + hId * sk * hTerm;
    calc {
      c.ct1 - Pair(upd, c.ct2);
      com * hTerm * r - upd * (crs.g2 * r);
      (com * hTerm - upd * crs.g2) * r;
      hId * sk * hTerm * r;
      (c.ct3 - m) * sk;
    }
    if sk != 0 {
      forall m' | Unmasks(sk, c.ct1, c.ct2, c.ct3, upd, m')
        ensures m' == m
      {
        assert (m - m') * sk == 0;
      }
    }
  }
}
