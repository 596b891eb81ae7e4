/** The efficient version's registration, update lookup, encryption and
    decryption outcome over the store. */
module Efficient {
  import opened Group
  import opened Params
  import opened Storage
  import opened Merge

  /** `reg` with the store as a class: a fresh id is saved, then its entry
      climbs the levels of block id / n until it settles at a free one. */
  method Reg(crs: Crs, st: Store, id: nat, pk: G1, hv: seq<G1>)
    requires crs.n >= 1 && |hv| >= crs.n
    modifies st
    ensures st.Snapshot() == RegSpec(old(st.Snapshot()), crs.n, id, pk, hv)
  {
    if st.IsUserRegistered(id) {
      return;
    }
    st.SaveUserPublicKey(id, pk);
    var n := crs.n;
    var k := id / n;
    var idRel := id % n;
    var com := pk;
    var vec := hv;
    vec := vec[idRel := Identity];
    var level := 0;
    ghost var target := RegSpec(old(st.Snapshot()), n, id, pk, hv);
    while true
      invariant |vec| == |hv|
      invariant Cascade(st.Snapshot(), n, k, level, com, vec) == target
      decreases OccupiedFrom(st.counts, k, level)
    {
      ghost var before := st.Snapshot();
      var count := st.GetUserCountInLevel(k, level);
      if count == 0 {
        SettleLevel(st, n, k, level, com, vec);
        break;
      }
      CascadeCollides(before, n, k, level, com, vec);
      com, vec := CollideLevel(st, n, k, level, com, vec);
      level := level + 1;
    }
  }

  /** At an occupied level the cascade is the cascade from the next level
      of the cleared store, with the level's entry absorbed. */
  lemma CascadeCollides(db: Db, n: nat, k: int, level: int, com: G1, vec: seq<G1>)
    requires n <= |vec| && Marker(db, k, level) != 0
    ensures OccupiedFrom(Collide(db, n, k, level).counts, k, level + 1) < OccupiedFrom(db.counts, k, level)
    ensures Cascade(db, n, k, level, com, vec)
            == Cascade(Collide(db, n, k, level), n, k, level + 1,
                       com + Get(db.pp, (k, level)), MergeRows(vec, db.aux, k * n, level, n))
  {
    OccupiedShrinks(db.counts, k, level);
  }

  /** The settling branch of `reg`: save the commitment, set the marker and
      save all n rows of the pending vector at this level. */
  method SettleLevel(st: Store, n: nat, k: int, level: int, com: G1, vec: seq<G1>)
    requires n <= |vec|
    modifies st
    ensures st.Snapshot() == Settle(old(st.Snapshot()), n, k, level, com, vec)
  {
    ghost var before := st.Snapshot();
    st.SavePPCommitment(k, level, com);
    st.SetUserCountInLevel(k, level, 1);
    for i := 0 to n
      invariant st.Snapshot() == before.(pp := before.pp[(k, level) := com],
                                         counts := before.counts[(k, level) := 1],
                                         aux := WriteRows(before.aux, k * n, level, vec, i))
    {
      st.SaveAuxUpdate(k * n + i, level, vec[i]);
    }
  }

  /** The collision branch of `reg`: absorb the stored commitment and the n
      stored rows of this level into the pending entry, then clear the level. */
  method CollideLevel(st: Store, n: nat, k: int, level: int, com: G1, vec: seq<G1>)
    returns (com': G1, vec': seq<G1>)
    requires n <= |vec|
    modifies st
    ensures com' == com + Get(old(st.pp), (k, level))
    ensures vec' == MergeRows(vec, old(st.aux), k * n, level, n)
    ensures st.Snapshot() == Collide(old(st.Snapshot()), n, k, level)
  {
    ghost var before := st.Snapshot();
    var oldCom := st.GetPPCommitment(k, level);
    var oldVec := new G1[n];
    for i := 0 to n
      invariant st.Snapshot() == before
      invariant forall j :: 0 <= j < i ==> oldVec[j] == Get(before.aux, (k * n + j, level))
    {
      oldVec[i] := st.GetAuxUpdate(k * n + i, level);
    }
    com' := com + oldCom;
    vec' := vec;
    for i := 0 to n
      invariant st.Snapshot() == before
      invariant |vec'| == |vec|
      invariant forall j :: 0 <= j < |vec'| ==>
                  vec'[j] == if j < i then vec[j] + Get(before.aux, (k * n + j, level)) else vec[j]
    {
      vec' := vec'[i := vec'[i] + oldVec[i]];
    }
    assert vec' == MergeRows(vec, before.aux, k * n, level, n);
    st.DeletePPCommitment(k, level);
    st.SetUserCountInLevel(k, level, 0);
    for i := 0 to n
      invariant st.Snapshot() == before.(pp := before.pp - {(k, level)},
                                         counts := before.counts[(k, level) := 0],
                                         aux := DeleteRows(before.aux, k * n, level, i))
    {
      st.DeleteAuxUpdate(k * n + i, level);
    }
  }

  /** One ciphertext component, for the commitment of one level. */
  datatype Component = Component(level: int, ct0: G1, ct1: GT, ct2: G2, ct3: GT)

  /** What `enc` needs of the CRS: the two ladder slots it reads exist. */
  predicate EncReady(crs: Crs)
  {
    crs.n >= 1 && |crs.hG1| > crs.n && |crs.hG2| > crs.n
  }

  /** The component for commitment com at level lvl with randomness r:
      ct0 = com, ct1 = e(com, h[n - id%n])^r, ct2 = g2^r and
      ct3 = e(h[id%n + 1], h[n - id%n])^r * m. */
  function Encrypt(crs: Crs, id: nat, m: GT, com: G1, lvl: int, r: Fr): (c: Component)
    requires EncReady(crs)
    ensures c.level == lvl && c.ct0 == com && c.ct2 == crs.g2 * r
  {
    var hTerm := crs.hG2[crs.n - id % crs.n];
    Component(lvl, com, Pair(com, hTerm) * r, crs.g2 * r, Pair(crs.hG1[id % crs.n + 1], hTerm) * r + m)
  }

  /** The components `enc` emits for levels lvl..MaxLevel: one per level whose
      commitment is not the identity, in increasing level order. */
  function EncFrom(crs: Crs, db: Db, id: nat, m: GT, rand: seq<Fr>, lvl: nat): seq<Component>
    requires EncReady(crs) && |rand| > MaxLevel(crs.n)
    decreases MaxLevel(crs.n) + 1 - lvl
  {
    if lvl > MaxLevel(crs.n) then []
    else
      var com := Get(db.pp, (id / crs.n, lvl));
      if com == Identity then EncFrom(crs, db, id, m, rand, lvl + 1)
      else [Encrypt(crs, id, m, com, lvl, rand[lvl])] + EncFrom(crs, db, id, m, rand, lvl + 1)
  }

  /** `enc` with the randomness of level lvl given as rand[lvl]. */
  method Enc(crs: Crs, st: Store, id: nat, m: GT, rand: seq<Fr>) returns (ct: seq<Component>)
    requires EncReady(crs) && |rand| > MaxLevel(crs.n)
    ensures ct == EncFrom(crs, st.Snapshot(), id, m, rand, 0)
  {
    var n := crs.n;
    var k := id / n;
    var maxLevel := CeilLog2(n) + 2;
    ct := [];
    for lvl := 0 to maxLevel + 1
      invariant ct + EncFrom(crs, st.Snapshot(), id, m, rand, lvl) == EncFrom(crs, st.Snapshot(), id, m, rand, 0)
    {
      var com := st.GetPPCommitment(k, lvl);
      if com == Identity {
        continue;
      }
      var comp := Encrypt(crs, id, m, com, lvl, rand[lvl]);
      ct := ct + [comp];
    }
  }

  /** What `enc` promises of its components cs for levels lvl..MaxLevel: each
      has a level in range and is the encryption, under that level's
      randomness, of block id / n's non-identity commitment at that level;
      levels strictly increase; every level in range with a non-identity
      commitment has a component. */
  predicate EncShape(crs: Crs, db: Db, id: nat, m: GT, rand: seq<Fr>, lvl: nat, cs: seq<Component>)
    requires EncReady(crs) && |rand| > MaxLevel(crs.n)
  {
    && (forall i :: 0 <= i < |cs| ==>
          && lvl <= cs[i].level <= MaxLevel(crs.n)
          && cs[i].ct0 == Get(db.pp, (id / crs.n, cs[i].level))
          && cs[i].ct0 != Identity
          && cs[i] == Encrypt(crs, id, m, cs[i].ct0, cs[i].level, rand[cs[i].level]))
    && (forall i, j :: 0 <= i < j < |cs| ==> cs[i].level < cs[j].level)
    && (forall l :: lvl <= l <= MaxLevel(crs.n) && Get(db.pp, (id / crs.n, l)) != Identity ==> l in Levels(cs))
  }

  /** The levels that components cs are for. */
  function Levels(cs: seq<Component>): set<int>
  {
    set c | c in cs :: c.level
  }

  /** `enc`'s output has the shape above. */
  lemma {:induction false} EncFromShape(crs: Crs, db: Db, id: nat, m: GT, rand: seq<Fr>, lvl: nat)
    requires EncReady(crs) && |rand| > MaxLevel(crs.n)
    ensures EncShape(crs, db, id, m, rand, lvl, EncFrom(crs, db, id, m, rand, lvl))
    decreases MaxLevel(crs.n) + 1 - lvl
  {
    if lvl <= MaxLevel(crs.n) {
      EncFromShape(crs, db, id, m, rand, lvl + 1);
      var com := Get(db.pp, (id / crs.n, lvl));
      if com != Identity {
        EncConsShape(crs, db, id, m, rand, lvl, EncFrom(crs, db, id, m, rand, lvl + 1));
      } else {
        EncSkipShape(crs, db, id, m, rand, lvl, EncFrom(crs, db, id, m, rand, lvl + 1));
      }
    }
  }

  /** A level with an identity commitment adds no component. */
  lemma EncSkipShape(crs: Crs, db: Db, id: nat, m: GT, rand: seq<Fr>, lvl: nat, rest: seq<Component>)
    requires EncReady(crs) && |rand| > MaxLevel(crs.n) && lvl <= MaxLevel(crs.n)
    requires Get(db.pp, (id / crs.n, lvl)) == Identity
    requires EncShape(crs, db, id, m, rand, lvl + 1, rest)
    ensures EncShape(crs, db, id, m, rand, lvl, rest)
  {
  }

  /** A level with a non-identity commitment puts its component in front. */
  lemma EncConsShape(crs: Crs, db: Db, id: nat, m: GT, rand: seq<Fr>, lvl: nat, rest: seq<Component>)
    requires EncReady(crs) && |rand| > MaxLevel(crs.n) && lvl <= MaxLevel(crs.n)
    requires Get(db.pp, (id / crs.n, lvl)) != Identity
    requires EncShape(crs, db, id, m, rand, lvl + 1, rest)
    ensures EncShape(crs, db, id, m, rand, lvl,
                     [Encrypt(crs, id, m, Get(db.pp, (id / crs.n, lvl)), lvl, rand[lvl])] + rest)
  {
    var c := Encrypt(crs, id, m, Get(db.pp, (id / crs.n, lvl)), lvl, rand[lvl]);
    var cs := [c] + rest;
    assert cs[0] == c;
    assert forall i :: 1 <= i < |cs| ==> cs[i] == rest[i - 1];
    forall i, j | 0 <= i < j < |cs|
      ensures cs[i].level < cs[j].level
    {
      assert cs[j] == rest[j - 1];
    }
    forall l | lvl <= l <= MaxLevel(crs.n) && Get(db.pp, (id / crs.n, l)) != Identity
      ensures l in Levels(cs)
    {
      if l == lvl {
        assert c in cs;
      } else {
        var d :| d in rest && d.level == l;
        assert d in cs;
      }
    }
  }

  /** `upd`'s scan from level lvl: the first level up to max at which row id
      has a stored update, with that update; (-1, identity) when there is none. */
  function UpdFrom(db: Db, id: int, lvl: nat, max: int): (r: (int, G1))
    ensures r.0 == -1 ==> r.1 == Identity && forall l :: lvl <= l <= max ==> (id, l) !in db.aux
    ensures r.0 != -1 ==> lvl <= r.0 <= max && (id, r.0) in db.aux && r.1 == db.aux[(id, r.0)]
                          && forall l :: lvl <= l < r.0 ==> (id, l) !in db.aux
    decreases max - lvl
  {
    if lvl > max then (-1, Identity)
    else if (id, lvl) in db.aux then (lvl, db.aux[(id, lvl)])
    else UpdFrom(db, id, lvl + 1, max)
  }

  /** `upd`: scans levels 0..MaxLevel of row id and returns the first stored
      update with its level, or (-1, identity). */
  method Upd(crs: Crs, st: Store, id: nat) returns (r: (int, G1))
    requires crs.n >= 1
    ensures r == UpdFrom(st.Snapshot(), id, 0, MaxLevel(crs.n))
  {
    var maxLevel := CeilLog2(crs.n) + 2;
    for lvl := 0 to maxLevel + 1
      invariant UpdFrom(st.Snapshot(), id, lvl, maxLevel) == UpdFrom(st.Snapshot(), id, 0, maxLevel)
    {
      if st.HasAux(id, lvl) {
        return (lvl, st.GetAuxUpdate(id, lvl));
      }
    }
    return (-1, Identity);
  }

  /** The check a corrected `upd` can make with public data only: the stored
      public key of id passes `dec`'s verification equation against the
      commitment and row id of the level (the key stands in for
      h[id%n + 1]^sk). */
  predicate KeyCheck(crs: Crs, db: Db, id: nat, lvl: int)
    requires DecReady(crs)
  {
    var hTerm := crs.hG2[crs.n - id % crs.n];
    Pair(Get(db.pp, (id / crs.n, lvl)), hTerm) == Pair(Get(db.aux, (id, lvl)), crs.g2) + Pair(Get(db.users, id), hTerm)
  }

  /** The corrected `upd` scan from level lvl: the first level up to max at
      which row id has a stored update that passes the key check. */
  function UpdFixedFrom(crs: Crs, db: Db, id: nat, lvl: nat, max: int): (r: (int, G1))
    requires DecReady(crs)
    ensures r.0 == -1 ==> r.1 == Identity && forall l :: lvl <= l <= max ==> !((id, l) in db.aux && KeyCheck(crs, db, id, l))
    ensures r.0 != -1 ==> lvl <= r.0 <= max && (id, r.0) in db.aux && KeyCheck(crs, db, id, r.0)
                          && r.1 == db.aux[(id, r.0)]
                          && forall l :: lvl <= l < r.0 ==> !((id, l) in db.aux && KeyCheck(crs, db, id, l))
    decreases max - lvl
  {
    if lvl > max then (-1, Identity)
    else if (id, lvl) in db.aux && KeyCheck(crs, db, id, lvl) then (lvl, db.aux[(id, lvl)])
    else UpdFixedFrom(crs, db, id, lvl + 1, max)
  }

  /** The corrected `upd`: the same scan as `upd`, skipping levels whose
      update does not pass the key check. */
  method UpdFixed(crs: Crs, st: Store, id: nat) returns (r: (int, G1))
    requires DecReady(crs)
    ensures r == UpdFixedFrom(crs, st.Snapshot(), id, 0, MaxLevel(crs.n))
  {
    var maxLevel := CeilLog2(crs.n) + 2;
    var n := crs.n;
    var hTerm := crs.hG2[n - id % n];
    for lvl := 0 to maxLevel + 1
      invariant UpdFixedFrom(crs, st.Snapshot(), id, lvl, maxLevel) == UpdFixedFrom(crs, st.Snapshot(), id, 0, maxLevel)
    {
      if st.HasAux(id, lvl) {
        var aux := st.GetAuxUpdate(id, lvl);
        var com := st.GetPPCommitment(id / n, lvl);
        var pk := Get(st.users, id);
        if Pair(com, hTerm) == Pair(aux, crs.g2) + Pair(pk, hTerm) {
          return (lvl, aux);
        }
      }
    }
    return (-1, Identity);
  }

  datatype Option<T> = None | Some(value: T)

  /** The position of the first component at level lvl. */
  function FindComponent(cs: seq<Component>, lvl: int): (r: Option<nat>)
    ensures r.None? <==> forall i :: 0 <= i < |cs| ==> cs[i].level != lvl
    ensures r.Some? ==> r.value < |cs| && cs[r.value].level == lvl
                        && forall i :: 0 <= i < r.value ==> cs[i].level != lvl
  {
    if |cs| == 0 then None
    else if cs[0].level == lvl then Some(0)
    else match FindComponent(cs[1..], lvl)
      case None => None
      case Some(i) => Some(i + 1)
  }

  /** What `dec` reports: success, or that the user must fetch a new update. */
  datatype DecResult = DecResult(success: bool, needUpdate: bool)

  /** What `dec` needs of the CRS: the ladder slots it reads exist. */
  predicate DecReady(crs: Crs)
  {
    crs.n >= 1 && |crs.hG1| > crs.n && |crs.hG2| > crs.n
  }

  /** The verification equation of `dec`:
      e(ct0, h[n - id%n]) == e(aux, g2) * e(h[id%n + 1]^sk, h[n - id%n]). */
  predicate Verifies(crs: Crs, id: nat, sk: Fr, aux: G1, ct0: G1)
    requires DecReady(crs)
  {
    var hTerm := crs.hG2[crs.n - id % crs.n];
    Pair(ct0, hTerm) == Pair(aux, crs.g2) + Pair(crs.hG1[id % crs.n + 1] * sk, hTerm)
  }

  /** `dec`'s outcome: it succeeds exactly when the user's level is not -1, a
      component of that level exists and the first such component passes
      verification; in every other case it asks for an update. */
  function DecSpec(crs: Crs, id: nat, sk: Fr, info: (int, G1), ct: seq<Component>): (r: DecResult)
    requires DecReady(crs)
    ensures r.success != r.needUpdate
    ensures r.success <==> info.0 != -1
                           && (exists i :: 0 <= i < |ct| && ct[i].level == info.0)
                           && Verifies(crs, id, sk, info.1, ct[FindComponent(ct, info.0).value].ct0)
  {
    if info.0 == -1 then DecResult(false, true)
    else match FindComponent(ct, info.0)
      case None => DecResult(false, true)
      case Some(i) =>
        if !Verifies(crs, id, sk, info.1, ct[i].ct0) then DecResult(false, true)
        else DecResult(true, false)
  }

  /** `dec`: looks for the first component at the user's level, then checks
      the verification equation on it. */
  method Dec(crs: Crs, id: nat, sk: Fr, info: (int, G1), ct: seq<Component>) returns (r: DecResult)
    requires DecReady(crs)
    ensures r == DecSpec(crs, id, sk, info, ct)
  {
    if info.0 == -1 {
      return DecResult(false, true);
    }
    var target: Option<nat> := None;
    for i := 0 to |ct|
      invariant target.None? ==> forall j :: 0 <= j < i ==> ct[j].level != info.0
      invariant target.Some? ==> target == FindComponent(ct, info.0)
    {
      if ct[i].level == info.0 {
        target := Some(i);
        break;
      }
    }
    if target.None? {
      return DecResult(false, true);
    }
    if !Verifies(crs, id, sk, info.1, ct[target.value].ct0) {
      return DecResult(false, true);
    }
    return DecResult(true, false);
  }
}
