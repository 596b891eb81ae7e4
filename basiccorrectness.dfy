/** End-to-end properties of the basic version over a run of `reg` calls:
    every commitment and every row is a sum over the registrants of the
    block, so the store does not depend on the order of registration; with
    the ladder gap at n+1 every registered honest user decrypts and a stale
    update is refused; with the gap at n, as the basic setup builds it,
    `enc` leaves the message in the clear for position 0 and `dec` refuses
    a user whose left neighbour registered. */
module BasicCorrectness {
  import opened Group
  import opened Sums
  import opened Params
  import opened KeyGen
  import opened Storage
  import opened BasicStorage
  import opened Aggregate
  import opened Efficient
  import opened Decryption
  import opened History
  import opened Correctness
  import Basic

  /** The store after the calls of h, in order, from the empty store. */
  function BasicReplay(n: nat, h: seq<Registration>): BasicDb
    requires n >= 1
  {
    if |h| == 0 then EmptyBasicDb
    else
      var e := h[|h| - 1];
      Basic.RegSpec(BasicReplay(n, h[..|h| - 1]), n, e.id, e.pk, e.hv)
  }

  /** The helping vector each registered user joined with (that of its first
      call: later calls for the same id change nothing). */
  ghost function BasicHvs(n: nat, h: seq<Registration>): map<int, seq<G1>>
    requires n >= 1
  {
    if |h| == 0 then map[]
    else
      var p := h[..|h| - 1];
      var e := h[|h| - 1];
      if e.id in BasicReplay(n, p).users then BasicHvs(n, p) else BasicHvs(n, p)[e.id := e.hv]
  }

  /** The registered ids of block k. */
  ghost function Members(users: map<int, G1>, n: nat, k: int): set<int>
    requires n >= 1
  {
    set u | u in users && u / n == k
  }

  /** Every commitment is the sum of the keys of its block's registrants, and
      every row r is the sum, over the registrants of its block, of what each
      gave for r's position (nothing from r's own user). */
  ghost predicate SumsHold(db: BasicDb, n: nat, hvs: map<int, seq<G1>>)
    requires n >= 1
  {
    && (forall k :: Get(db.pp, k) == SumOver(Members(db.users, n, k), PkOf(db.users)))
    && (forall r :: Get(db.aux, r) == SumOver(Members(db.users, n, r / n), ContribOf(hvs, n, r)))
  }

  /** `reg` of a fresh id keeps block k's commitment the sum of its
      registrants' keys. */
  lemma RegCommitmentSum(db: BasicDb, n: nat, id: nat, pk: G1, hv: seq<G1>, k: int)
    requires n >= 1 && id !in db.users
    requires Get(db.pp, k) == SumOver(Members(db.users, n, k), PkOf(db.users))
    ensures var db' := Basic.RegSpec(db, n, id, pk, hv);
            Get(db'.pp, k) == SumOver(Members(db'.users, n, k), PkOf(db'.users))
  {
    var users' := db.users[id := pk];
    var s := Members(db.users, n, k);
    assert Get(Basic.RegSpec(db, n, id, pk, hv).pp, k) == if k == id / n then Get(db.pp, k) + pk else Get(db.pp, k);
    PkCongruent(s, db.users, id, pk);
    if k == id / n {
      assert Members(users', n, k) == s + {id};
      SumOverRemove(s + {id}, PkOf(users'), id);
      assert (s + {id}) - {id} == s;
    } else {
      assert Members(users', n, k) == s;
    }
  }

  /** `reg` of a fresh id keeps row r the sum of what the registrants of its
      block gave for its position. */
  lemma RegRowSum(db: BasicDb, n: nat, id: nat, pk: G1, hv: seq<G1>, hvs: map<int, seq<G1>>, r: int)
    requires n >= 1 && id !in db.users
    requires Get(db.aux, r) == SumOver(Members(db.users, n, r / n), ContribOf(hvs, n, r))
    ensures var db' := Basic.RegSpec(db, n, id, pk, hv);
            Get(db'.aux, r) == SumOver(Members(db'.users, n, r / n), ContribOf(hvs[id := hv], n, r))
  {
    var users' := db.users[id := pk];
    var hvs' := hvs[id := hv];
    var s := Members(db.users, n, r / n);
    Basic.AddHelpingRow(db.aux, n, id, hv, n, r);
    ContribCongruent(s, hvs, n, id, hv, r);
    if r / n == id / n {
      assert Members(users', n, r / n) == s + {id};
      SumOverRemove(s + {id}, ContribOf(hvs', n, r), id);
      assert (s + {id}) - {id} == s;
      if r != id && r % n == id % n {
        SamePosition(n, r, id);
      }
    } else {
      assert Members(users', n, r / n) == s;
    }
  }

  /** `reg` of a fresh id keeps the sums, with id's key and helping values
      added. */
  lemma RegKeepsSums(db: BasicDb, n: nat, id: nat, pk: G1, hv: seq<G1>, hvs: map<int, seq<G1>>)
    requires n >= 1 && SumsHold(db, n, hvs) && id !in db.users
    ensures SumsHold(Basic.RegSpec(db, n, id, pk, hv), n, hvs[id := hv])
  {
    forall k {
      RegCommitmentSum(db, n, id, pk, hv, k);
    }
    forall r {
      RegRowSum(db, n, id, pk, hv, hvs, r);
    }
  }

  /** After any run of `reg` calls from the empty store, every commitment and
      every row is the sum over the block's registrants. */
  lemma {:induction false} ReplaySums(n: nat, h: seq<Registration>)
    requires n >= 1
    ensures SumsHold(BasicReplay(n, h), n, BasicHvs(n, h))
  {
    if |h| == 0 {
      forall k
        ensures Members(map[], n, k) == {}
      {
      }
    } else {
      var p := h[..|h| - 1];
      var e := h[|h| - 1];
      ReplaySums(n, p);
      if e.id !in BasicReplay(n, p).users {
        RegKeepsSums(BasicReplay(n, p), n, e.id, e.pk, e.hv, BasicHvs(n, p));
      }
    }
  }

  /** The recorded helping vectors are those of the registered users. */
  lemma {:induction false} HvsKeys(n: nat, h: seq<Registration>)
    requires n >= 1
    ensures BasicHvs(n, h).Keys == BasicReplay(n, h).users.Keys
  {
    if |h| > 0 {
      HvsKeys(n, h[..|h| - 1]);
    }
  }

  /** Block k's commitment after h. */
  lemma ReplayCommitment(n: nat, h: seq<Registration>, k: int)
    requires n >= 1
    ensures var db := BasicReplay(n, h);
            Get(db.pp, k) == SumOver(Members(db.users, n, k), PkOf(db.users))
  {
    ReplaySums(n, h);
  }

  /** Row r after h. */
  lemma ReplayRow(n: nat, h: seq<Registration>, r: int)
    requires n >= 1
    ensures var db := BasicReplay(n, h);
            Get(db.aux, r) == SumOver(Members(db.users, n, r / n), ContribOf(BasicHvs(n, h), n, r))
  {
    ReplaySums(n, h);
  }

  /** Two runs that end with the same registrants, keys and helping vectors
      leave the same commitments and rows, whatever the order of the calls. */
  lemma OrderIndependent(n: nat, h1: seq<Registration>, h2: seq<Registration>)
    requires n >= 1
    requires BasicReplay(n, h1).users == BasicReplay(n, h2).users && BasicHvs(n, h1) == BasicHvs(n, h2)
    ensures forall k :: Get(BasicReplay(n, h1).pp, k) == Get(BasicReplay(n, h2).pp, k)
    ensures forall r :: Get(BasicReplay(n, h1).aux, r) == Get(BasicReplay(n, h2).aux, r)
  {
    ReplaySums(n, h1);
    ReplaySums(n, h2);
  }

  /** In particular, two fresh registrations may be swapped. */
  lemma SwapCommutes(n: nat, h: seq<Registration>, a: Registration, b: Registration)
    requires n >= 1 && a.id != b.id
    ensures BasicReplay(n, h + [a, b]).users == BasicReplay(n, h + [b, a]).users
    ensures forall k :: Get(BasicReplay(n, h + [a, b]).pp, k) == Get(BasicReplay(n, h + [b, a]).pp, k)
    ensures forall r :: Get(BasicReplay(n, h + [a, b]).aux, r) == Get(BasicReplay(n, h + [b, a]).aux, r)
  {
    SwapSameRegistrants(n, h, a, b);
    OrderIndependent(n, h + [a, b], h + [b, a]);
  }

  /** Swapping two calls of different ids leaves the same registrants with
      the same keys and helping vectors. */
  lemma SwapSameRegistrants(n: nat, h: seq<Registration>, a: Registration, b: Registration)
    requires n >= 1 && a.id != b.id
    ensures BasicReplay(n, h + [a, b]).users == BasicReplay(n, h + [b, a]).users
    ensures BasicHvs(n, h + [a, b]) == BasicHvs(n, h + [b, a])
  {
    var ha, hb := h + [a], h + [b];
    var hab, hba := h + [a, b], h + [b, a];
    assert hab[..|hab| - 1] == ha && hab[|hab| - 1] == b;
    assert hba[..|hba| - 1] == hb && hba[|hba| - 1] == a;
    assert ha[..|ha| - 1] == h && ha[|ha| - 1] == a;
    assert hb[..|hb| - 1] == h && hb[|hb| - 1] == b;
    var users := BasicReplay(n, h).users;
    var hvs := BasicHvs(n, h);
    assert BasicReplay(n, ha).users == if a.id in users then users else users[a.id := a.pk];
    assert BasicReplay(n, hb).users == if b.id in users then users else users[b.id := b.pk];
    assert BasicHvs(n, ha) == if a.id in users then hvs else hvs[a.id := a.hv];
    assert BasicHvs(n, hb) == if b.id in users then hvs else hvs[b.id := b.hv];
    SwapInserts(users, users.Keys, a.id, a.pk, b.id, b.pk);
    SwapInserts(hvs, users.Keys, a.id, a.hv, b.id, b.hv);
  }

  /** Adding distinct keys x and y, each unless already present, gives the
      same map in either order. */
  lemma SwapInserts<V>(m: map<int, V>, present: set<int>, x: int, vx: V, y: int, vy: V)
    requires x != y
    ensures var mx := if x in present then m else m[x := vx];
            var my := if y in present then m else m[y := vy];
            (if y in present then mx else mx[y := vy]) == (if x in present then my else my[x := vx])
  {
  }

  /** After an honest run every registered user is honest. */
  lemma {:induction false} BasicHonestReplay(crs: Crs, h: seq<Registration>, sks: map<int, Fr>)
    requires HonestHistory(crs, h, sks)
    ensures forall u :: u in BasicReplay(crs.n, h).users ==>
              HonestUser(crs, BasicReplay(crs.n, h).users, BasicHvs(crs.n, h), sks, u)
  {
    var n := crs.n;
    if |h| > 0 {
      var p := h[..|h| - 1];
      var e := h[|h| - 1];
      assert forall j :: 0 <= j < |p| ==> p[j] == h[j];
      BasicHonestReplay(crs, p, sks);
      HvsKeys(n, p);
      HvsKeys(n, h);
      assert e == h[|h| - 1];
    }
  }

  /** `upd` after an honest run: the sum of the helping values the other
      registrants of id's block gave for id's position. */
  lemma UpdIsRowSum(n: nat, h: seq<Registration>, id: nat)
    requires n >= 1
    ensures Basic.Upd(BasicReplay(n, h), id)
            == SumOver(Members(BasicReplay(n, h).users, n, id / n) - {id}, ContribOf(BasicHvs(n, h), n, id))
  {
    var db := BasicReplay(n, h);
    var s := Members(db.users, n, id / n);
    var f := ContribOf(BasicHvs(n, h), n, id);
    ReplayRow(n, h, id);
    if id in s {
      SumOverRemove(s, f, id);
    } else {
      assert s - {id} == s;
    }
  }

  /** With the gap at n+1, `dec` on `enc`'s output for id, with `upd`'s
      answer, succeeds exactly when id is registered, and then recovers the
      message. */
  lemma DecCorrect(crs: Crs, z: Fr, h: seq<Registration>, sks: map<int, Fr>, id: nat, sk: Fr, m: GT, r: Fr)
    requires EfficientCrs(crs, z) && HonestHistory(crs, h, sks)
    requires sk != 0 && (id in sks ==> sks[id] == sk)
    ensures var db := BasicReplay(crs.n, h);
            var c := Basic.Enc(crs, db, id, m, r);
            && (Basic.Dec(crs, id, sk, Basic.Upd(db, id), c).success <==> id in db.users)
            && (id in db.users ==> Unmasks(sk, c.ct1, c.ct2, c.ct3, Basic.Upd(db, id), m))
  {
    var n := crs.n;
    var db := BasicReplay(n, h);
    var s := Members(db.users, n, id / n);
    ReplayCommitment(n, h, id / n);
    ReplayRow(n, h, id);
    BasicHonestReplay(crs, h, sks);
    LevelVerifies(crs, z, db.users, BasicHvs(n, h), sks, s, id, sk, Get(db.pp, id / n), Get(db.aux, id));
    if id in db.users {
      MessageRecovered(crs, id, sk, Basic.Upd(db, id), Get(db.pp, id / n), m, 0, r);
    }
  }

  /** Adding a key whose pairing with id's ladder slot is not the identity
      to a commitment breaks the verification equation for an update that
      passed it. */
  lemma JoinBreaksEquation(crs: Crs, id: nat, sk: Fr, upd: G1, com: G1, pk: G1)
    requires DecReady(crs) && Verifies(crs, id, sk, upd, com)
    requires Pair(pk, crs.hG2[crs.n - id % crs.n]) != Identity
    ensures !Verifies(crs, id, sk, upd, com + pk)
  {
  }

  /** A user who kept the update from before another honest user joined its
      block is refused by `dec` on a ciphertext made after the join. */
  lemma StaleUpdateRefused(crs: Crs, z: Fr, h: seq<Registration>, sks: map<int, Fr>, id: nat, e: Registration, m: GT, r: Fr)
    requires EfficientCrs(crs, z) && HonestHistory(crs, h + [e], sks)
    requires id in BasicReplay(crs.n, h).users && id in sks && sks[id] != 0
    requires e.id !in BasicReplay(crs.n, h).users && e.id / crs.n == id / crs.n && e.id in sks && sks[e.id] != 0
    ensures var stale := Basic.Upd(BasicReplay(crs.n, h), id);
            !Basic.Dec(crs, id, sks[id], stale, Basic.Enc(crs, BasicReplay(crs.n, h + [e]), id, m, r)).success
  {
    var n := crs.n;
    var he := h + [e];
    assert HonestHistory(crs, h, sks) && e.pk == PublicKey(crs, e.id, sks[e.id]) by {
      assert forall j :: 0 <= j < |h| ==> h[j] == he[j];
      assert he[|h|] == e;
    }
    var db := BasicReplay(n, h);
    var db' := BasicReplay(n, he);
    assert Verifies(crs, id, sks[id], Basic.Upd(db, id), Get(db.pp, id / n)) by {
      DecCorrect(crs, z, h, sks, id, sks[id], m, r);
    }
    assert Get(db'.pp, id / n) == Get(db.pp, id / n) + e.pk by {
      JoinedCommitment(n, h, e);
    }
    StaleDec(crs, z, id, sks[id], Basic.Upd(db, id), Get(db.pp, id / n), e.id, sks[e.id], db', m, r);
  }

  /** `dec` with an update that verified against a commitment, once an
      honest key has joined that commitment. */
  lemma StaleDec(crs: Crs, z: Fr, id: nat, sk: Fr, upd: G1, com: G1, u: nat, sku: Fr, db: BasicDb, m: GT, r: Fr)
    requires EfficientCrs(crs, z) && sku != 0 && Verifies(crs, id, sk, upd, com)
    requires Get(db.pp, id / crs.n) == com + PublicKey(crs, u, sku)
    ensures !Basic.Dec(crs, id, sk, upd, Basic.Enc(crs, db, id, m, r)).success
  {
    KeyPairingNonZero(crs, z, id, u, sku);
    JoinBreaksEquation(crs, id, sk, upd, com, PublicKey(crs, u, sku));
  }

  /** A fresh registration adds its key to its block's commitment. */
  lemma JoinedCommitment(n: nat, h: seq<Registration>, e: Registration)
    requires n >= 1 && e.id !in BasicReplay(n, h).users
    ensures Get(BasicReplay(n, h + [e]).pp, e.id / n) == Get(BasicReplay(n, h).pp, e.id / n) + e.pk
  {
    var he := h + [e];
    assert he[..|he| - 1] == h && he[|he| - 1] == e;
  }

  /** An honest public key never pairs to the identity with a ladder slot
      that `enc` uses. */
  lemma KeyPairingNonZero(crs: Crs, z: Fr, id: nat, u: nat, sk: Fr)
    requires EfficientCrs(crs, z) && sk != 0
    ensures Pair(PublicKey(crs, u, sk), crs.hG2[crs.n - id % crs.n]) != Identity
  {
    var n := crs.n;
    HTermShape(crs, z, id);
    PublicKeyShape(crs, z, n + 1, u, sk);
    PowScaled(z, u % n + 1, n - id % n, sk);
    PowNonZero(z, u % n + 1 + n - id % n);
  }

  /** With the basic ladder, `enc` for a user at position 0 pairs with the
      empty slot n: ct1 is the identity and ct3 is the message itself,
      whatever the randomness. */
  lemma LadderGapLeaksMessage(crs: Crs, z: Fr, db: BasicDb, id: nat, m: GT, r: Fr)
    requires Basic.BasicCrs(crs, z) && id % crs.n == 0
    ensures var c := Basic.Enc(crs, db, id, m, r);
            c.ct1 == Identity && c.ct3 == m
  {
  }

  /** With the gap at n+1 the slot `enc` pairs with is never empty, so for
      non-zero randomness ct3 differs from the message. */
  lemma FixedLadderMasksMessage(crs: Crs, z: Fr, db: BasicDb, id: nat, m: GT, r: Fr)
    requires EfficientCrs(crs, z) && r != 0
    ensures Basic.Enc(crs, db, id, m, r).ct3 != m
  {
    var n := crs.n;
    var a := id % n;
    HTermShape(crs, z, id);
    PowScaled(z, a + 1, n - a, 1);
    PowNonZero(z, n + 1);
    assert Pair(crs.hG1[a + 1], crs.hG2[n - a]) == Pow(z, n + 1);
    assert Pow(z, n + 1) * r != 0;
  }

  /** With the basic ladder, the helping value a user gives for the position
      right after its own reads the empty slot n and is the identity; with
      the gap at n+1 it is z^n raised to the key, which is what cancels the
      user's cross term in its neighbour's equation. */
  lemma NeighbourTermDropped(crs: Crs, z: Fr, u: nat, sk: Fr)
    requires crs.Valid() && u % crs.n + 1 < crs.n
    ensures (forall j :: 0 <= j < |crs.hG1| ==> crs.hG1[j] == LadderAt(z, crs.n, crs.n, j))
            ==> HelpingValue(crs, u, sk, u % crs.n + 1) == Identity
    ensures (forall j :: 0 <= j < |crs.hG1| ==> crs.hG1[j] == LadderAt(z, crs.n, crs.n + 1, j))
            ==> HelpingValue(crs, u, sk, u % crs.n + 1) == Pow(z, crs.n) * sk
  {
  }

  /** The honest `reg` call of user id for secret key sk. */
  function HonestReg(crs: Crs, id: nat, sk: Fr): Registration
    requires crs.Valid()
  {
    Registration(id, PublicKey(crs, id, sk), HelpingValues(crs, id, sk))
  }

  /** The store after users 0 and 1 register, in that order: block 0's
      commitment holds both keys and row 1 holds user 0's helping value for
      position 1. */
  lemma TwoNeighbours(n: nat, e0: Registration, e1: Registration)
    requires n >= 3 && e0.id == 0 && e1.id == 1 && |e0.hv| >= 2
    ensures var db := BasicReplay(n, [e0, e1]);
            Get(db.pp, 0) == e0.pk + e1.pk && Get(db.aux, 1) == e0.hv[1]
  {
    var h := [e0, e1];
    assert h[..1] == [e0] && [e0][..0] == [];
    var db1 := Basic.RegSpec(EmptyBasicDb, n, 0, e0.pk, e0.hv);
    assert BasicReplay(n, [e0]) == db1;
    Basic.AddHelpingRow(map[], n, 0, e0.hv, n, 1);
    assert Get(db1.aux, 1) == e0.hv[1];
    assert 1 !in db1.users;
    Basic.AddHelpingRow(db1.aux, n, 1, e1.hv, n, 1);
  }

  /** With the basic ladder, once users 0 and 1 of a block of n >= 3 have
      registered honestly, `dec` refuses user 1 on `enc`'s output for it with
      `upd`'s answer: the cross term of user 0 in user 1's equation is not
      cancelled by any helping value. */
  lemma NeighbourRefused(crs: Crs, z: Fr, sk0: Fr, sk1: Fr, m: GT, r: Fr)
    requires Basic.BasicCrs(crs, z) && crs.n >= 3 && sk0 != 0
    ensures var db := BasicReplay(crs.n, [HonestReg(crs, 0, sk0), HonestReg(crs, 1, sk1)]);
            !Basic.Dec(crs, 1, sk1, Basic.Upd(db, 1), Basic.Enc(crs, db, 1, m, r)).success
  {
    var e0, e1 := HonestReg(crs, 0, sk0), HonestReg(crs, 1, sk1);
    TwoNeighbours(crs.n, e0, e1);
    assert e0.hv[1] == HelpingValue(crs, 0, sk0, 1);
    NeighbourDbRefused(crs, z, sk0, sk1, BasicReplay(crs.n, [e0, e1]), m, r);
  }

  /** `dec` refuses user 1 on any store whose block 0 holds the keys of users
      0 and 1 and whose row 1 holds user 0's helping value for position 1. */
  lemma NeighbourDbRefused(crs: Crs, z: Fr, sk0: Fr, sk1: Fr, db: BasicDb, m: GT, r: Fr)
    requires Basic.BasicCrs(crs, z) && crs.n >= 3 && sk0 != 0
    requires Get(db.pp, 0) == PublicKey(crs, 0, sk0) + PublicKey(crs, 1, sk1)
    requires Get(db.aux, 1) == HelpingValue(crs, 0, sk0, 1)
    ensures !Basic.Dec(crs, 1, sk1, Basic.Upd(db, 1), Basic.Enc(crs, db, 1, m, r)).success
  {
    NeighbourEquationFails(crs, z, sk0, sk1, Get(db.pp, 0), Get(db.aux, 1));
    assert 1 / crs.n == 0;
    assert Basic.Enc(crs, db, 1, m, r).ct0 == Get(db.pp, 0);
  }

  /** User 1's equation against block 0's commitment with users 0 and 1 in
      it and user 0's helping value as the update, for the basic ladder. */
  lemma NeighbourEquationFails(crs: Crs, z: Fr, sk0: Fr, sk1: Fr, com: G1, upd: G1)
    requires Basic.BasicCrs(crs, z) && crs.n >= 3 && sk0 != 0
    requires com == PublicKey(crs, 0, sk0) + PublicKey(crs, 1, sk1) && upd == HelpingValue(crs, 0, sk0, 1)
    ensures !Verifies(crs, 1, sk1, upd, com)
  {
    var n := crs.n;
    var hT := crs.hG2[n - 1];
    var p0 := crs.hG1[1] * sk0;
    var p1 := crs.hG1[2] * sk1;
    assert 0 % n == 0 && 1 % n == 1;
    assert com == p0 + p1;
    NeighbourTermDropped(crs, z, 0, sk0);
    CrossTermNonZero(crs, z, sk0);
    CrossTermUncancelled(p0, p1, hT, crs.g2);
  }

  /** User 0's key paired with user 1's ladder slot, z^n * sk0, is not the
      identity under the basic ladder. */
  lemma CrossTermNonZero(crs: Crs, z: Fr, sk0: Fr)
    requires Basic.BasicCrs(crs, z) && crs.n >= 3 && sk0 != 0
    ensures crs.hG1[1] * sk0 * crs.hG2[crs.n - 1] != 0
  {
    var n := crs.n;
    assert crs.hG1[1] == Pow(z, 1) && crs.hG2[n - 1] == Pow(z, n - 1);
    PowScaled(z, 1, n - 1, sk0);
    PowNonZero(z, n);
    assert Pow(z, n) * sk0 != 0;
  }

  /** A non-zero cross term with no update to cancel it breaks the equation. */
  lemma CrossTermUncancelled(p0: int, p1: int, hT: int, g2: int)
    requires p0 * hT != 0
    ensures Pair(p0 + p1, hT) != Pair(Identity, g2) + Pair(p1, hT)
  {
    assert Pair(p0 + p1, hT) == p0 * hT + p1 * hT;
  }
}
