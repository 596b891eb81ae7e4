/** End-to-end properties of the efficient version over a run of honest
    `reg` calls: where `upd` as written points a user, when `dec` can then
    succeed, and that the corrected `upd` always lets a registered user
    decrypt. */
module Correctness {
  import opened Group
  import opened Params
  import opened KeyGen
  import opened Storage
  import opened Merge
  import opened Counter
  import opened Aggregate
  import opened History
  import opened Efficient
  import opened Decryption

  /** Every call of h registers the public key and helping values `gen`
      derives from the secret key sks[id] of its id. */
  ghost predicate HonestHistory(crs: Crs, h: seq<Registration>, sks: map<int, Fr>)
  {
    && crs.Valid() && WellFormed(crs.n, h)
    && forall j :: 0 <= j < |h| ==>
         && h[j].id in sks
         && h[j].pk == PublicKey(crs, h[j].id, sks[h[j].id])
         && h[j].hv == HelpingValues(crs, h[j].id, sks[h[j].id])
  }

  /** After an honest history every registered user is honest, and the
      helping vectors recorded are those of the registered users. */
  lemma {:induction false} HonestReplay(crs: Crs, h: seq<Registration>, sks: map<int, Fr>)
    requires HonestHistory(crs, h, sks)
    ensures ReplayHvs(crs.n, h).Keys == ReplayDb(crs.n, h).users.Keys
    ensures forall u :: u in ReplayDb(crs.n, h).users ==>
              HonestUser(crs, ReplayDb(crs.n, h).users, ReplayHvs(crs.n, h), sks, u)
  {
    var n := crs.n;
    if |h| > 0 {
      var p := h[..|h| - 1];
      var e := h[|h| - 1];
      assert forall j :: 0 <= j < |p| ==> p[j] == h[j];
      HonestReplay(crs, p, sks);
      var db := ReplayDb(n, p);
      if e.id !in db.users {
        CascadeUsers(db.(users := db.users[e.id := e.pk]), n, e.id / n, 0, e.pk, e.hv[e.id % n := Identity]);
      }
    }
  }

  /** Row id of a block is present at exactly the occupied levels. */
  lemma OwnRowPresent(db: Db, n: nat, id: nat, at: map<int, int>, hvs: map<int, seq<G1>>, l: int)
    requires n >= 1 && BlockInv(db, n, id / n, at, hvs)
    ensures (id, l) in db.aux <==> Occupied(at, l)
  {
    assert id == Row(n, id / n, id % n);
  }

  /** `upd` as written returns the LOWEST occupied level of the user's block
      (whatever level the user is at), or -1 when no level up to max is
      occupied. */
  lemma UpdLowestOccupied(db: Db, n: nat, id: nat, at: map<int, int>, hvs: map<int, seq<G1>>, max: int)
    requires n >= 1 && BlockInv(db, n, id / n, at, hvs)
    ensures var r := UpdFrom(db, id, 0, max);
            && (r.0 == -1 <==> forall l :: 0 <= l <= max ==> !Occupied(at, l))
            && (r.0 != -1 ==> Occupied(at, r.0) && forall l :: 0 <= l < r.0 ==> !Occupied(at, l))
  {
    forall l
      ensures (id, l) in db.aux <==> Occupied(at, l)
    {
      OwnRowPresent(db, n, id, at, hvs, l);
    }
  }

  /** `dec`'s equation for id on a level of its block that aggregates exactly
      its users there holds exactly when id is at that level. */
  lemma BlockLevelVerifies(crs: Crs, z: Fr, db: Db, at: map<int, int>, hvs: map<int, seq<G1>>, sks: map<int, Fr>,
                           id: nat, sk: Fr, l: int)
    requires EfficientCrs(crs, z)
    requires LevelOk(db, crs.n, id / crs.n, l, LevelSet(at, l), hvs)
    requires forall u :: u in at ==> HonestUser(crs, db.users, hvs, sks, u) && u / crs.n == id / crs.n
    requires sk != 0 && id in sks && sks[id] == sk
    ensures (id, l) in db.aux && (id / crs.n, l) in db.pp
    ensures Verifies(crs, id, sk, db.aux[(id, l)], db.pp[(id / crs.n, l)]) <==> id in at && at[id] == l
  {
    var n := crs.n;
    var k := id / n;
    assert id == Row(n, k, id % n);
    LevelVerifies(crs, z, db.users, hvs, sks, LevelSet(at, l), id, sk, db.pp[(k, l)], db.aux[(id, l)]);
  }

  /** After an honest history every user of block k is honest. */
  lemma ReplayHonestBlock(crs: Crs, h: seq<Registration>, sks: map<int, Fr>, k: int)
    requires HonestHistory(crs, h, sks)
    ensures forall u :: u in ReplayAt(crs.n, h, k) ==>
              HonestUser(crs, ReplayDb(crs.n, h).users, ReplayHvs(crs.n, h), sks, u) && u / crs.n == k
  {
    var n := crs.n;
    ReplayInv(n, h, k);
    HonestReplay(crs, h, sks);
    forall u | u in ReplayAt(n, h, k)
      ensures u in BlockUsers(ReplayDb(n, h), n, k)
    {
    }
  }

  /** After a history, every occupied level of block k aggregates its users. */
  lemma ReplayLevelOk(n: nat, h: seq<Registration>, k: int, l: int)
    requires WellFormed(n, h) && Occupied(ReplayAt(n, h, k), l)
    ensures LevelOk(ReplayDb(n, h), n, k, l, LevelSet(ReplayAt(n, h, k), l), ReplayHvs(n, h))
  {
    ReplayInv(n, h, k);
  }

  /** After a history, row id has an update at exactly the occupied levels of
      its block. */
  lemma ReplayRowPresent(n: nat, h: seq<Registration>, id: nat, l: int)
    requires WellFormed(n, h)
    ensures (id, l) in ReplayDb(n, h).aux <==> Occupied(ReplayAt(n, h, id / n), l)
  {
    ReplayInv(n, h, id / n);
    OwnRowPresent(ReplayDb(n, h), n, id, ReplayAt(n, h, id / n), ReplayHvs(n, h), l);
  }

  /** After an honest history, `dec`'s equation for id on an occupied level
      of its block holds exactly when id is at that level. */
  lemma ReplayLevelVerifies(crs: Crs, z: Fr, h: seq<Registration>, sks: map<int, Fr>, id: nat, sk: Fr, l: int)
    requires EfficientCrs(crs, z) && HonestHistory(crs, h, sks)
    requires sk != 0 && id in sks && sks[id] == sk
    requires Occupied(ReplayAt(crs.n, h, id / crs.n), l)
    ensures (id, l) in ReplayDb(crs.n, h).aux && (id / crs.n, l) in ReplayDb(crs.n, h).pp
    ensures var db := ReplayDb(crs.n, h);
            var at := ReplayAt(crs.n, h, id / crs.n);
            Verifies(crs, id, sk, db.aux[(id, l)], db.pp[(id / crs.n, l)]) <==> id in at && at[id] == l
  {
    var n := crs.n;
    ReplayLevelOk(n, h, id / n, l);
    ReplayHonestBlock(crs, h, sks, id / n);
    BlockLevelVerifies(crs, z, ReplayDb(n, h), ReplayAt(n, h, id / n), ReplayHvs(n, h), sks, id, sk, l);
  }

  /** If `dec` succeeds on the answer of `upd` as written and the output of
      `enc`, the user is registered and sits at the lowest occupied level of
      its block. */
  lemma DecAfterUpdAsWritten(crs: Crs, z: Fr, h: seq<Registration>, sks: map<int, Fr>, id: nat, sk: Fr,
                             m: GT, rand: seq<Fr>)
    requires EfficientCrs(crs, z) && HonestHistory(crs, h, sks)
    requires sk != 0 && id in sks && sks[id] == sk && |rand| > MaxLevel(crs.n)
    requires DecSpec(crs, id, sk, UpdFrom(ReplayDb(crs.n, h), id, 0, MaxLevel(crs.n)),
                     EncFrom(crs, ReplayDb(crs.n, h), id, m, rand, 0)).success
    ensures var at := ReplayAt(crs.n, h, id / crs.n);
            id in at && forall l :: 0 <= l < at[id] ==> !Occupied(at, l)
  {
    var n := crs.n;
    var k := id / n;
    var db := ReplayDb(n, h);
    var at := ReplayAt(n, h, k);
    var info := UpdFrom(db, id, 0, MaxLevel(n));
    var ct := EncFrom(crs, db, id, m, rand, 0);
    ReplayInv(n, h, k);
    UpdLowestOccupied(db, n, id, at, ReplayHvs(n, h), MaxLevel(n));
    EncFromShape(crs, db, id, m, rand, 0);
    var i := FindComponent(ct, info.0).value;
    assert ct[i].ct0 == db.pp[(k, info.0)];
    ReplayLevelVerifies(crs, z, h, sks, id, sk, info.0);
  }

  /** A registered user of an honest history is assigned an occupied level
      of its block. */
  lemma ReplayRegistered(crs: Crs, h: seq<Registration>, sks: map<int, Fr>, id: nat)
    requires HonestHistory(crs, h, sks) && id in ReplayDb(crs.n, h).users
    ensures var at := ReplayAt(crs.n, h, id / crs.n);
            id in at && Occupied(at, at[id]) && 0 <= at[id] < MaxLevel(crs.n)
    ensures id in sks && ReplayDb(crs.n, h).users[id] == PublicKey(crs, id, sks[id])
  {
    var n := crs.n;
    ReplayInv(n, h, id / n);
    HonestReplay(crs, h, sks);
    assert id in BlockUsers(ReplayDb(n, h), n, id / n);
    OccupiedBelowMax(n, h, id / n, ReplayAt(n, h, id / n)[id]);
  }

  /** After an honest history, a level passes the corrected `upd`'s check
      for a registered user exactly when it is the user's level. */
  lemma KeyCheckAtLevel(crs: Crs, z: Fr, h: seq<Registration>, sks: map<int, Fr>, id: nat, l: int)
    requires EfficientCrs(crs, z) && HonestHistory(crs, h, sks)
    requires id in ReplayDb(crs.n, h).users && id in sks && sks[id] != 0
    ensures var at := ReplayAt(crs.n, h, id / crs.n);
            id in at && ((id, l) in ReplayDb(crs.n, h).aux && KeyCheck(crs, ReplayDb(crs.n, h), id, l) <==> l == at[id])
  {
    var n := crs.n;
    var at := ReplayAt(n, h, id / n);
    ReplayRegistered(crs, h, sks, id);
    ReplayRowPresent(n, h, id, l);
    if Occupied(at, l) {
      ReplayLevelVerifies(crs, z, h, sks, id, sks[id], l);
    }
  }

  /** The corrected `upd` answers a registered honest user with its own
      level. */
  lemma UpdFixedFindsLevel(crs: Crs, z: Fr, h: seq<Registration>, sks: map<int, Fr>, id: nat)
    requires EfficientCrs(crs, z) && HonestHistory(crs, h, sks)
    requires id in ReplayDb(crs.n, h).users && id in sks && sks[id] != 0
    ensures var at := ReplayAt(crs.n, h, id / crs.n);
            && id in at
            && UpdFixedFrom(crs, ReplayDb(crs.n, h), id, 0, MaxLevel(crs.n)).0 == at[id]
  {
    var n := crs.n;
    var db := ReplayDb(n, h);
    var at := ReplayAt(n, h, id / n);
    ReplayRegistered(crs, h, sks, id);
    forall l | 0 <= l <= MaxLevel(n)
      ensures (id, l) in db.aux && KeyCheck(crs, db, id, l) <==> l == at[id]
    {
      KeyCheckAtLevel(crs, z, h, sks, id, l);
    }
    UpdFixedFromFinds(crs, db, id, 0, MaxLevel(n), at[id]);
  }

  /** The corrected scan stops at the only level that passes. */
  lemma {:induction false} UpdFixedFromFinds(crs: Crs, db: Db, id: nat, lvl: nat, max: int, t: int)
    requires DecReady(crs) && lvl <= t <= max
    requires forall l :: lvl <= l <= max ==> ((id, l) in db.aux && KeyCheck(crs, db, id, l) <==> l == t)
    ensures UpdFixedFrom(crs, db, id, lvl, max).0 == t
    decreases max - lvl
  {
    if lvl < t {
      UpdFixedFromFinds(crs, db, id, lvl + 1, max, t);
    }
  }

  /** With the corrected `upd`, a registered honest user decrypts the output
      of `enc` for its id, provided the commitment of its level is not the
      identity (`enc` emits no component for such a level). */
  lemma DecCorrect(crs: Crs, z: Fr, h: seq<Registration>, sks: map<int, Fr>, id: nat, m: GT, rand: seq<Fr>)
    requires EfficientCrs(crs, z) && HonestHistory(crs, h, sks)
    requires id in ReplayDb(crs.n, h).users && id in sks && sks[id] != 0 && |rand| > MaxLevel(crs.n)
    requires var at := ReplayAt(crs.n, h, id / crs.n);
             id in at ==> Get(ReplayDb(crs.n, h).pp, (id / crs.n, at[id])) != Identity
    ensures DecSpec(crs, id, sks[id], UpdFixedFrom(crs, ReplayDb(crs.n, h), id, 0, MaxLevel(crs.n)),
                    EncFrom(crs, ReplayDb(crs.n, h), id, m, rand, 0)).success
  {
    var n := crs.n;
    var k := id / n;
    var db := ReplayDb(n, h);
    var at := ReplayAt(n, h, k);
    var info := UpdFixedFrom(crs, db, id, 0, MaxLevel(n));
    var ct := EncFrom(crs, db, id, m, rand, 0);
    UpdFixedFindsLevel(crs, z, h, sks, id);
    var t := at[id];
    ReplayInv(n, h, k);
    OccupiedBelowMax(n, h, k, t);
    EncFromShape(crs, db, id, m, rand, 0);
    assert t in Levels(ct);
    var i := FindComponent(ct, t).value;
    assert ct[i].ct0 == db.pp[(k, t)];
    ReplayLevelVerifies(crs, z, h, sks, id, sks[id], t);
  }

  /** The honest `reg` call of user id. */
  function HonestCall(crs: Crs, sks: map<int, Fr>, id: nat): Registration
    requires crs.Valid() && id in sks
  {
    Registration(id, PublicKey(crs, id, sks[id]), HelpingValues(crs, id, sks[id]))
  }

  /** A call for a new id of block k promotes the assignment of block k. */
  lemma FreshStep(n: nat, p: seq<Registration>, e: Registration, k: int)
    requires WellFormed(n, p) && WellFormed(n, p + [e]) && e.id !in Ids(p) && e.id / n == k
    ensures ReplayAt(n, p + [e], k) == Promote(ReplayAt(n, p, k), e.id)
  {
    assert (p + [e])[..|p|] == p;
    ReplayUsers(n, p);
  }

  /** The domain of a promotion. */
  lemma PromoteKeys(at: map<int, int>, id: int)
    ensures Promote(at, id).Keys == at.Keys + {id}
  {
  }

  /** The new level of a user other than the one joining. */
  lemma PromoteValue(at: map<int, int>, id: int, t: int, u: int)
    requires LowestClear(|at|) == t && u in at && u != id
    ensures Promote(at, id)[u] == if at[u] < t then t else at[u]
  {
  }

  /** Id 0 joins an empty block at level 0. */
  lemma FirstJoin(at1: map<int, int>)
    requires at1 == Promote(map[], 0)
    ensures at1.Keys == {0} && at1[0] == 0
  {
    assert LowestClear(0) == 0;
    PromoteKeys(map[], 0);
  }

  lemma SecondJoinKeys(at1: map<int, int>, at2: map<int, int>)
    requires at1.Keys == {0} && at2 == Promote(at1, 1)
    ensures at2.Keys == {0, 1}
  {
    PromoteKeys(at1, 1);
  }

  lemma OneUserCascade(at1: map<int, int>)
    requires at1.Keys == {0}
    ensures LowestClear(|at1|) == 1
  {
    assert |at1| == 1 by {
      assert |at1.Keys| == 1;
    }
    assert LowestClear(1) == 1;
  }

  /** Id 1 joins: the cascade from level 0 stops at level 1, and 0 moves up. */
  lemma SecondJoin(at1: map<int, int>, at2: map<int, int>)
    requires at1.Keys == {0} && at1[0] == 0 && at2 == Promote(at1, 1)
    ensures at2.Keys == {0, 1} && at2[0] == 1
  {
    SecondJoinKeys(at1, at2);
    OneUserCascade(at1);
    PromoteValue(at1, 1, 1, 0);
  }

  /** Id 2 joins at level 0; 0 stays at level 1. */
  lemma ThirdJoin(at2: map<int, int>, at3: map<int, int>)
    requires at2.Keys == {0, 1} && at2[0] == 1 && at3 == Promote(at2, 2)
    ensures at3.Keys == {0, 1, 2} && at3[0] == 1
  {
    assert |at2| == 2 by {
      assert |at2.Keys| == 2;
    }
    assert LowestClear(2) == 0;
    PromoteKeys(at2, 2);
    PromoteValue(at2, 2, 0, 0);
  }

  /** Ids 0, 1, 2 register, in that order, into block 0 (n >= 3): 0 joins
      level 0, 1 merges with it into level 1, 2 takes level 0 again, so the
      block has three users and user 0 is at level 1. */
  lemma ThreeUsersLevels(crs: Crs, sks: map<int, Fr>)
    requires crs.Valid() && crs.n >= 3 && 0 in sks && 1 in sks && 2 in sks
    ensures var h := [HonestCall(crs, sks, 0), HonestCall(crs, sks, 1), HonestCall(crs, sks, 2)];
            && WellFormed(crs.n, h)
            && ReplayAt(crs.n, h, 0).Keys == {0, 1, 2}
            && ReplayAt(crs.n, h, 0)[0] == 1
  {
    ThreeJoins(crs.n, HonestCall(crs, sks, 0), HonestCall(crs, sks, 1), HonestCall(crs, sks, 2));
  }

  lemma ThreeJoins(n: nat, c0: Registration, c1: Registration, c2: Registration)
    requires n >= 3 && c0.id == 0 && c1.id == 1 && c2.id == 2
    requires |c0.hv| >= n && |c1.hv| >= n && |c2.hv| >= n
    ensures WellFormed(n, [c0, c1, c2])
    ensures ReplayAt(n, [c0, c1, c2], 0).Keys == {0, 1, 2} && ReplayAt(n, [c0, c1, c2], 0)[0] == 1
  {
    var h0: seq<Registration> := [];
    assert [c0, c1, c2] == h0 + [c0] + [c1] + [c2];
    JoinsInOrder(n, h0, h0 + [c0], h0 + [c0] + [c1], h0 + [c0] + [c1] + [c2], c0, c1, c2);
  }

  /** The three joins of ThreeJoins, on histories built call by call. */
  lemma JoinsInOrder(n: nat, h0: seq<Registration>, h1: seq<Registration>, h2: seq<Registration>, h3: seq<Registration>,
                     c0: Registration, c1: Registration, c2: Registration)
    requires n >= 3 && c0.id == 0 && c1.id == 1 && c2.id == 2
    requires |c0.hv| >= n && |c1.hv| >= n && |c2.hv| >= n
    requires h0 == [] && h1 == h0 + [c0] && h2 == h1 + [c1] && h3 == h2 + [c2]
    ensures WellFormed(n, h3)
    ensures ReplayAt(n, h3, 0).Keys == {0, 1, 2} && ReplayAt(n, h3, 0)[0] == 1
  {
    JoinSteps(n, h0, h1, h2, h3, c0, c1, c2);
    ThreePromotions(ReplayAt(n, h1, 0), ReplayAt(n, h2, 0), ReplayAt(n, h3, 0));
  }

  /** Each of the three calls promotes block 0's assignment. */
  lemma JoinSteps(n: nat, h0: seq<Registration>, h1: seq<Registration>, h2: seq<Registration>, h3: seq<Registration>,
                  c0: Registration, c1: Registration, c2: Registration)
    requires n >= 3 && c0.id == 0 && c1.id == 1 && c2.id == 2
    requires |c0.hv| >= n && |c1.hv| >= n && |c2.hv| >= n
    requires h0 == [] && h1 == h0 + [c0] && h2 == h1 + [c1] && h3 == h2 + [c2]
    ensures WellFormed(n, h1) && WellFormed(n, h2) && WellFormed(n, h3)
    ensures ReplayAt(n, h1, 0) == Promote(map[], 0)
    ensures ReplayAt(n, h2, 0) == Promote(ReplayAt(n, h1, 0), 1)
    ensures ReplayAt(n, h3, 0) == Promote(ReplayAt(n, h2, 0), 2)
  {
    JoinFirst(n, h0, c0);
    JoinSecond(n, h1, c1);
    JoinThird(n, h2, c2);
  }

  /** Id 0 joins the empty history. */
  lemma JoinFirst(n: nat, h0: seq<Registration>, c0: Registration)
    requires n >= 3 && c0.id == 0 && |c0.hv| >= n && h0 == []
    ensures WellFormed(n, h0 + [c0]) && Ids(h0 + [c0]) == {0}
    ensures ReplayAt(n, h0 + [c0], 0) == Promote(map[], 0)
  {
    assert Ids(h0) == {} && ReplayAt(n, h0, 0) == map[];
    JoinStep(n, h0, c0, 0);
  }

  /** Id 1 joins a history whose only id is 0. */
  lemma JoinSecond(n: nat, h1: seq<Registration>, c1: Registration)
    requires n >= 3 && c1.id == 1 && |c1.hv| >= n && WellFormed(n, h1) && Ids(h1) == {0}
    ensures WellFormed(n, h1 + [c1]) && Ids(h1 + [c1]) == {0, 1}
    ensures ReplayAt(n, h1 + [c1], 0) == Promote(ReplayAt(n, h1, 0), 1)
  {
    assert 1 / n == 0;
    JoinStep(n, h1, c1, 0);
  }

  /** Id 2 joins a history whose ids are 0 and 1. */
  lemma JoinThird(n: nat, h2: seq<Registration>, c2: Registration)
    requires n >= 3 && c2.id == 2 && |c2.hv| >= n && WellFormed(n, h2) && Ids(h2) == {0, 1}
    ensures WellFormed(n, h2 + [c2])
    ensures ReplayAt(n, h2 + [c2], 0) == Promote(ReplayAt(n, h2, 0), 2)
  {
    assert 2 / n == 0 && 2 !in Ids(h2);
    JoinStep(n, h2, c2, 0);
  }

  /** A call for a new id of block k, with n helping values: the history
      stays well formed, gains the id, and block k's assignment is promoted. */
  lemma JoinStep(n: nat, p: seq<Registration>, e: Registration, k: int)
    requires WellFormed(n, p) && |e.hv| >= n && e.id !in Ids(p) && e.id / n == k
    ensures WellFormed(n, p + [e]) && Ids(p + [e]) == Ids(p) + {e.id}
    ensures ReplayAt(n, p + [e], k) == Promote(ReplayAt(n, p, k), e.id)
  {
    assert forall j :: 0 <= j < |p| ==> (p + [e])[j] == p[j];
    IdsSnoc(p, e);
    FreshStep(n, p, e, k);
  }

  /** A history of honest calls is honest. */
  lemma HonestCalls(crs: Crs, sks: map<int, Fr>, h: seq<Registration>)
    requires crs.Valid() && crs.n >= 1
    requires forall j :: 0 <= j < |h| ==> h[j].id in sks && h[j] == HonestCall(crs, sks, h[j].id)
    ensures HonestHistory(crs, h, sks)
  {
  }

  /** The assignments after ids 0, 1, 2 join an empty block in that order. */
  lemma ThreePromotions(at1: map<int, int>, at2: map<int, int>, at3: map<int, int>)
    requires at1 == Promote(map[], 0) && at2 == Promote(at1, 1) && at3 == Promote(at2, 2)
    ensures at3.Keys == {0, 1, 2} && at3[0] == 1
  {
    FirstJoin(at1);
    SecondJoin(at1, at2);
    ThirdJoin(at2, at3);
  }

  /** When a level below the user's own level is occupied, `upd` as written
      answers with a level that is not the user's and `dec` fails. */
  lemma UpdAsWrittenMisses(crs: Crs, z: Fr, h: seq<Registration>, sks: map<int, Fr>, id: nat, m: GT, rand: seq<Fr>)
    requires EfficientCrs(crs, z) && HonestHistory(crs, h, sks)
    requires id in sks && sks[id] != 0 && |rand| > MaxLevel(crs.n)
    requires var at := ReplayAt(crs.n, h, id / crs.n);
             id in at && exists l :: 0 <= l < at[id] && Occupied(at, l)
    ensures var db := ReplayDb(crs.n, h);
            var info := UpdFrom(db, id, 0, MaxLevel(crs.n));
            && info.0 != ReplayAt(crs.n, h, id / crs.n)[id]
            && !DecSpec(crs, id, sks[id], info, EncFrom(crs, db, id, m, rand, 0)).success
  {
    var n := crs.n;
    var db := ReplayDb(n, h);
    var at := ReplayAt(n, h, id / n);
    var l :| 0 <= l < at[id] && Occupied(at, l);
    ReplayInv(n, h, id / n);
    UpdLowestOccupied(db, n, id, at, ReplayHvs(n, h), MaxLevel(n));
    OccupiedBelowMax(n, h, id / n, l);
    if DecSpec(crs, id, sks[id], UpdFrom(db, id, 0, MaxLevel(n)), EncFrom(crs, db, id, m, rand, 0)).success {
      DecAfterUpdAsWritten(crs, z, h, sks, id, sks[id], m, rand);
    }
  }

  /** After ids 0, 1, 2 register honestly into block 0, user 0 is at level 1
      while level 0 (user 2) is occupied, so `upd` as written answers user 0
      with the wrong level and `dec` of what `enc` produces for user 0 fails. */
  lemma UpdAsWrittenFails(crs: Crs, z: Fr, sks: map<int, Fr>, m: GT, rand: seq<Fr>)
    requires EfficientCrs(crs, z) && crs.n >= 3 && 0 in sks && 1 in sks && 2 in sks && sks[0] != 0
    requires |rand| > MaxLevel(crs.n)
    ensures var h := [HonestCall(crs, sks, 0), HonestCall(crs, sks, 1), HonestCall(crs, sks, 2)];
            var db := ReplayDb(crs.n, h);
            && 0 in ReplayAt(crs.n, h, 0) && ReplayAt(crs.n, h, 0)[0] == 1
            && UpdFrom(db, 0, 0, MaxLevel(crs.n)).0 != ReplayAt(crs.n, h, 0)[0]
            && !DecSpec(crs, 0, sks[0], UpdFrom(db, 0, 0, MaxLevel(crs.n)), EncFrom(crs, db, 0, m, rand, 0)).success
  {
    var n := crs.n;
    var h := [HonestCall(crs, sks, 0), HonestCall(crs, sks, 1), HonestCall(crs, sks, 2)];
    HonestCalls(crs, sks, h);
    ThreeUsersLevels(crs, sks);
    var at := ReplayAt(n, h, 0);
    ThreeUsersOccupied(at);
    assert 0 / n == 0;
    UpdAsWrittenMisses(crs, z, h, sks, 0, m, rand);
  }

  lemma ThreeUsersOccupied(at: map<int, int>)
    requires at.Keys == {0, 1, 2}
    ensures Occupied(at, 0)
  {
    assert |at| == 3 by {
      assert |at.Keys| == 3;
    }
  }

  /** Ids 0, 1, 2, 3 register into block 0 (n >= 4): the block has four
      users, so levels 0 and 1 are empty and level 2 is occupied. */
  lemma FourJoinsMarkers(n: nat, c0: Registration, c1: Registration, c2: Registration, c3: Registration)
    requires n >= 4 && c0.id == 0 && c1.id == 1 && c2.id == 2 && c3.id == 3
    requires |c0.hv| >= n && |c1.hv| >= n && |c2.hv| >= n && |c3.hv| >= n
    ensures WellFormed(n, [c0, c1, c2, c3])
    ensures var db := ReplayDb(n, [c0, c1, c2, c3]);
            Marker(db, 0, 0) == 0 && Marker(db, 0, 1) == 0 && Marker(db, 0, 2) == 1
  {
    FourIds(n, [c0, c1, c2, c3]);
    FourUsersMarkers(n, [c0, c1, c2, c3]);
  }

  /** The ids of four calls for ids 0..3. */
  lemma FourIds(n: nat, h: seq<Registration>)
    requires |h| == 4 && forall j :: 0 <= j < 4 ==> h[j].id == j && |h[j].hv| >= n
    ensures n >= 1 ==> WellFormed(n, h)
    ensures Ids(h) == {0, 1, 2, 3}
  {
    forall u | u in {0, 1, 2, 3}
      ensures u in Ids(h)
    {
      assert h[u].id == u;
    }
  }

  /** A history whose ids are 0..3 leaves levels 0 and 1 of block 0 empty
      and level 2 occupied. */
  lemma FourUsersMarkers(n: nat, h: seq<Registration>)
    requires n >= 4 && WellFormed(n, h) && Ids(h) == {0, 1, 2, 3}
    ensures var db := ReplayDb(n, h);
            Marker(db, 0, 0) == 0 && Marker(db, 0, 1) == 0 && Marker(db, 0, 2) == 1
  {
    ReplayIds(n, h);
    FourUsersInBlock(ReplayDb(n, h), n);
    MarkersAreBits(n, h, 0, 0);
    MarkersAreBits(n, h, 0, 1);
    MarkersAreBits(n, h, 0, 2);
    assert !Bit(4, 0) && !Bit(4, 1) && Bit(4, 2);
  }

  lemma FourUsersInBlock(db: Db, n: nat)
    requires n >= 4 && db.users.Keys == {0, 1, 2, 3}
    ensures |BlockUsers(db, n, 0)| == 4
  {
    assert 0 / n == 0 && 1 / n == 0 && 2 / n == 0 && 3 / n == 0;
    assert BlockUsers(db, n, 0) == {0, 1, 2, 3};
  }
}
