/** The basic version: one commitment per block, the sum of the public keys
    of its registrants, and one update per user, the sum of the helping
    values the other registrants of its block gave for its position. `reg`
    updates both by read-modify-write; `upd` reads the user's row; `enc`
    encrypts against the block's commitment; `dec` checks the verification
    equation. Its setup leaves ladder slot n (not n+1) empty. */
module Basic {
  import opened Group
  import opened Params
  import opened Storage
  import opened BasicStorage
  import opened Aggregate
  import opened Efficient
  import opened Decryption

  /** A CRS as the basic setup builds it from trapdoor z: slots 1..2n of both
      ladders are z^i except slot n, which is the identity. */
  predicate BasicCrs(crs: Crs, z: Fr)
  {
    && crs.Valid() && z != 0 && crs.g1 == G1Gen && crs.g2 == G2Gen
    && (forall j :: 0 <= j < |crs.hG1| ==> crs.hG1[j] == LadderAt(z, crs.n, crs.n, j))
    && (forall j :: 0 <= j < |crs.hG2| ==> crs.hG2[j] == LadderAt(z, crs.n, crs.n, j))
  }

  /** `setup` of the basic version with the trapdoor z as a parameter: the
      shared ladder loop with the gap at slot n. For N >= 1 and z != 0 the
      only empty slots are 0 and n. */
  method Setup(bigN: nat, z: Fr) returns (crs: Crs)
    ensures crs.bigN == bigN && crs.n == CeilSqrt(bigN)
    ensures bigN >= 1 && z != 0 ==> BasicCrs(crs, z)
    ensures z != 0 ==> forall i :: 0 <= i < |crs.hG1| ==> (crs.hG1[i] == Identity <==> i == 0 || i == crs.n)
    ensures z != 0 ==> forall i :: 0 <= i < |crs.hG2| ==> (crs.hG2[i] == Identity <==> i == 0 || i == crs.n)
  {
    crs := BuildCrs(bigN, z, 0);
    SetupShape(crs, z, 0);
  }

  /** The basic setup with the gap moved to slot n+1, where `gen` expects it
      (the efficient version's setup). */
  method SetupFixed(bigN: nat, z: Fr) returns (crs: Crs)
    ensures crs.bigN == bigN && crs.n == CeilSqrt(bigN)
    ensures z != 0 ==> forall i :: 0 <= i < |crs.hG1| ==> (crs.hG1[i] == Identity <==> i == 0 || i == crs.n + 1)
    ensures z != 0 ==> forall i :: 0 <= i < |crs.hG2| ==> (crs.hG2[i] == Identity <==> i == 0 || i == crs.n + 1)
    ensures bigN >= 1 && z != 0 ==> EfficientCrs(crs, z)
  {
    crs := BuildCrs(bigN, z, 1);
    SetupShape(crs, z, 1);
  }

  /** The empty slots of a ladder built with the gap at n + gapOffset. */
  lemma SetupShape(crs: Crs, z: Fr, gapOffset: nat)
    requires |crs.hG1| == 2 * crs.n + 1 && |crs.hG2| == 2 * crs.n + 1
    requires forall i :: 0 <= i < |crs.hG1| ==> crs.hG1[i] == LadderAt(z, crs.n, crs.n + gapOffset, i)
    requires forall i :: 0 <= i < |crs.hG2| ==> crs.hG2[i] == LadderAt(z, crs.n, crs.n + gapOffset, i)
    requires gapOffset <= 1
    ensures crs.bigN >= 1 && crs.n == CeilSqrt(crs.bigN) ==> crs.Valid()
    ensures z != 0 ==> forall i :: 0 <= i < |crs.hG1| ==> (crs.hG1[i] == Identity <==> i == 0 || i == crs.n + gapOffset)
    ensures z != 0 ==> forall i :: 0 <= i < |crs.hG2| ==> (crs.hG2[i] == Identity <==> i == 0 || i == crs.n + gapOffset)
  {
    if z != 0 {
      forall i | 0 <= i <= 2 * crs.n {
        LadderShape(z, crs.n, crs.n + gapOffset, i);
      }
    }
  }

  /** Row r is one `reg` of id with helping values hv adds to, once the loop
      has visited positions 0..i-1 of id's block: a row of the block other
      than id's own, whose position has a helping value. */
  predicate Helped(n: nat, id: nat, hv: seq<G1>, i: int, r: int)
    requires n >= 1
  {
    r / n == id / n && r % n < i && r != id && r % n < |hv|
  }

  /** The update table after `reg`'s loop has visited positions 0..i-1 of
      id's block. */
  function AddHelping(aux: map<int, G1>, n: nat, id: nat, hv: seq<G1>, i: nat): map<int, G1>
    requires n >= 1
  {
    if i == 0 then aux
    else
      var a := AddHelping(aux, n, id, hv, i - 1);
      var row := Row(n, id / n, i - 1);
      if row == id || i - 1 >= |hv| then a else a[row := Get(a, row) + hv[i - 1]]
  }

  /** After positions 0..i-1, a helped row holds its old value plus the
      helping value for its position; every other row is as it was. */
  lemma {:induction false} AddHelpingRow(aux: map<int, G1>, n: nat, id: nat, hv: seq<G1>, i: nat, r: int)
    requires n >= 1 && i <= n
    ensures Get(AddHelping(aux, n, id, hv, i), r)
            == if Helped(n, id, hv, i, r) then Get(aux, r) + hv[r % n] else Get(aux, r)
    ensures r in AddHelping(aux, n, id, hv, i) <==> r in aux || Helped(n, id, hv, i, r)
  {
    if i > 0 {
      AddHelpingRow(aux, n, id, hv, i - 1, r);
      var row := Row(n, id / n, i - 1);
      RowOfBlock(n, id / n, i - 1);
      if r != row && r / n == id / n && r % n == i - 1 {
        SamePosition(n, r, row);
      }
    }
  }

  /** What `reg` leaves in the store: nothing changes for an id that is
      already registered; otherwise the key is saved, block id / n's
      commitment grows by pk, and every other row of the block grows by the
      helping value for its position when hv has one. */
  function RegSpec(db: BasicDb, n: nat, id: nat, pk: G1, hv: seq<G1>): BasicDb
    requires n >= 1
  {
    if id in db.users then db
    else BasicDb(db.users[id := pk], db.pp[id / n := Get(db.pp, id / n) + pk], AddHelping(db.aux, n, id, hv, n))
  }

  /** `reg` of the basic version, with the store as a class. */
  method Reg(crs: Crs, st: BasicStore, id: nat, pk: G1, hv: seq<G1>)
    requires crs.n >= 1
    modifies st
    ensures st.Snapshot() == RegSpec(old(st.Snapshot()), crs.n, id, pk, hv)
  {
    if st.IsUserRegistered(id) {
      return;
    }
    st.SaveUserPublicKey(id, pk);
    var n := crs.n;
    var k := id / n;
    var oldCom := st.GetPPCommitment(k);
    st.SavePPCommitment(k, oldCom + pk);
    for i := 0 to n
      invariant st.users == old(st.users)[id := pk]
      invariant st.pp == old(st.pp)[k := Get(old(st.pp), k) + pk]
      invariant st.aux == AddHelping(old(st.aux), n, id, hv, i)
    {
      var current := k * n + i;
      if current == id {
        continue;
      }
      var last := st.GetAuxUpdate(current);
      if i < |hv| {
        st.SaveAuxUpdate(current, last + hv[i]);
      }
    }
  }

  /** `reg`, row by row: a no-op for a registered id; for a fresh id it adds
      the key, adds pk to block id / n's commitment and to no other, and
      adds hv[r % n] to each row r of the block other than id's own for which
      hv has an entry, leaving every other row alone. */
  lemma RegEffect(db: BasicDb, n: nat, id: nat, pk: G1, hv: seq<G1>)
    requires n >= 1
    ensures id in db.users ==> RegSpec(db, n, id, pk, hv) == db
    ensures id !in db.users ==> RegSpec(db, n, id, pk, hv).users == db.users[id := pk]
    ensures id !in db.users ==> forall k ::
              Get(RegSpec(db, n, id, pk, hv).pp, k) == if k == id / n then Get(db.pp, k) + pk else Get(db.pp, k)
    ensures id !in db.users ==> forall r ::
              Get(RegSpec(db, n, id, pk, hv).aux, r)
              == if r / n == id / n && r != id && r % n < |hv| then Get(db.aux, r) + hv[r % n] else Get(db.aux, r)
  {
    if id !in db.users {
      forall r
        ensures Get(RegSpec(db, n, id, pk, hv).aux, r)
                == if r / n == id / n && r != id && r % n < |hv| then Get(db.aux, r) + hv[r % n] else Get(db.aux, r)
      {
        AddHelpingRow(db.aux, n, id, hv, n, r);
      }
    }
  }

  /** The ciphertext of the basic version (no level). */
  datatype Ciphertext = Ciphertext(ct0: G1, ct1: GT, ct2: G2, ct3: GT)

  /** `enc` with the randomness r as a parameter: the efficient version's
      per-level encryption, applied to block id / n's single commitment. */
  function Enc(crs: Crs, db: BasicDb, id: nat, m: GT, r: Fr): (c: Ciphertext)
    requires EncReady(crs)
  {
    var e := Encrypt(crs, id, m, Get(db.pp, id / crs.n), 0, r);
    Ciphertext(e.ct0, e.ct1, e.ct2, e.ct3)
  }

  /** `upd`: the stored update of row id, the identity when there is none. */
  function Upd(db: BasicDb, id: nat): G1
  {
    Get(db.aux, id)
  }

  /** `dec`'s outcome: success exactly when the verification equation holds
      on the ciphertext's commitment, otherwise a request for a new update. */
  function Dec(crs: Crs, id: nat, sk: Fr, upd: G1, c: Ciphertext): (r: DecResult)
    requires DecReady(crs)
    ensures r.success != r.needUpdate
    ensures r.success <==> Verifies(crs, id, sk, upd, c.ct0)
  {
    if !Verifies(crs, id, sk, upd, c.ct0) then DecResult(false, true)
    else DecResult(true, false)
  }
}
