/** What the efficient store holds for one block, stated against an abstract
    assignment of the block's registered users to levels: level l is occupied
    exactly when bit l of the number of registrants is set, an occupied level
    holds 2^l users, its commitment is the sum of their public keys and its
    row for position i is the sum of their helping values for position i. */
module Aggregate {
  import opened Group
  import opened Sums
  import opened Storage
  import opened Merge
  import opened Counter

  /** The global row of position i of block k. */
  function Row(n: nat, k: int, i: int): int
  {
    k * n + i
  }

  lemma MulAtLeast(d: int, n: int)
    requires d >= 1 && n >= 1
    ensures d * n >= n
  {
    assert d * n == n + (d - 1) * n;
  }

  lemma DivModUnique(x: int, n: int, q: int, r: int)
    requires n >= 1 && 0 <= r < n && x == q * n + r
    ensures x / n == q && x % n == r
  {
    var q', r' := x / n, x % n;
    assert x == q' * n + r';
    assert (q - q') * n == r' - r;
    if q > q' {
      MulAtLeast(q - q', n);
    } else if q < q' {
      MulAtLeast(q' - q, n);
    }
  }

  /** Row i of block k belongs to block k at position i. */
  lemma RowOfBlock(n: nat, k: int, i: int)
    requires n >= 1 && 0 <= i < n
    ensures Row(n, k, i) / n == k && Row(n, k, i) % n == i
  {
    DivModUnique(Row(n, k, i), n, k, i);
  }

  /** Two ids of one block at one position are the same id. */
  lemma SamePosition(n: nat, u: int, v: int)
    requires n >= 1 && u / n == v / n && u % n == v % n
    ensures u == v
  {
  }

  /** The rows of two different blocks are disjoint. */
  lemma RowsOfOtherBlock(n: nat, k: int, k2: int, i: int)
    requires n >= 1 && k != k2 && 0 <= i < n
    ensures !(k * n <= Row(n, k2, i) < k * n + n)
  {
    RowOfBlock(n, k2, i);
    if k * n <= Row(n, k2, i) < k * n + n {
      DivModUnique(Row(n, k2, i), n, k, Row(n, k2, i) - k * n);
    }
  }

  /** The registered ids of block k. */
  ghost function BlockUsers(db: Db, n: nat, k: int): set<int>
    requires n >= 1
  {
    set u | u in db.users && u / n == k
  }

  /** Entry i of the helping vector user u registered with (identity if none). */
  function HvAt(hvs: map<int, seq<G1>>, u: int, i: int): G1
  {
    if u in hvs && 0 <= i < |hvs[u]| then hvs[u][i] else Identity
  }

  /** What user u adds to row r: nothing to its own row, otherwise its helping
      value for the row's position. */
  function Contrib(hvs: map<int, seq<G1>>, n: nat, u: int, r: int): G1
  {
    if n == 0 || r % n == u % n then Identity else HvAt(hvs, u, r % n)
  }

  function PkOf(users: map<int, G1>): int -> int
  {
    u => Get(users, u)
  }

  function ContribOf(hvs: map<int, seq<G1>>, n: nat, r: int): int -> int
  {
    u => Contrib(hvs, n, u, r)
  }

  /** The users at level l. */
  ghost function LevelSet(at: map<int, int>, l: int): set<int>
  {
    set u | u in at && at[u] == l
  }

  /** The users at levels lo..hi-1. */
  ghost function Between(at: map<int, int>, lo: int, hi: int): set<int>
  {
    set u | u in at && lo <= at[u] < hi
  }

  /** Level l is occupied when bit l of the number of registrants is set. */
  predicate Occupied(at: map<int, int>, l: int)
  {
    l >= 0 && Bit(|at|, l)
  }

  /** The stored commitment of level l of block k sums the keys of S. */
  ghost predicate CommitmentOk(db: Db, k: int, l: int, s: set<int>)
  {
    (k, l) in db.pp && db.pp[(k, l)] == SumOver(s, PkOf(db.users))
  }

  /** The n stored rows of level l of block k sum S's contributions. */
  ghost predicate RowsOk(db: Db, n: nat, k: int, l: int, s: set<int>, hvs: map<int, seq<G1>>)
  {
    forall i :: 0 <= i < n ==>
      (Row(n, k, i), l) in db.aux && db.aux[(Row(n, k, i), l)] == SumOver(s, ContribOf(hvs, n, Row(n, k, i)))
  }

  /** Level l of block k aggregates exactly the users S, and S has 2^l users. */
  ghost predicate LevelOk(db: Db, n: nat, k: int, l: int, s: set<int>, hvs: map<int, seq<G1>>)
  {
    l >= 0 && |s| == Pow2(l) && CommitmentOk(db, k, l, s) && RowsOk(db, n, k, l, s, hvs)
  }

  /** The invariant of block k under the assignment `at` of its users to
      levels, where hvs holds the helping vector each user registered with. */
  ghost predicate BlockInv(db: Db, n: nat, k: int, at: map<int, int>, hvs: map<int, seq<G1>>)
  {
    && n >= 1
    && at.Keys == BlockUsers(db, n, k)
    && (forall u :: u in at ==> Occupied(at, at[u]))
    && (forall l :: Marker(db, k, l) == if Occupied(at, l) then 1 else 0)
    && (forall l :: (k, l) in db.pp <==> Occupied(at, l))
    && (forall i, l :: 0 <= i < n ==> ((Row(n, k, i), l) in db.aux <==> Occupied(at, l)))
    && (forall l :: Occupied(at, l) ==> LevelOk(db, n, k, l, LevelSet(at, l), hvs))
  }

  /** The assignment after user id joins: with t the lowest clear bit of the
      count, id and every user below level t move to level t. */
  ghost function Promote(at: map<int, int>, id: int): map<int, int>
  {
    PromoteTo(at, id, LowestClear(|at|))
  }

  ghost function PromoteTo(at: map<int, int>, id: int, t: int): map<int, int>
  {
    map u | u in at.Keys + {id} :: if u == id || at[u] < t then t else at[u]
  }

  lemma EmptyBlockInv(n: nat, k: int)
    requires n >= 1
    ensures BlockInv(EmptyDb, n, k, map[], map[])
  {
    forall l | l >= 0
      ensures !Bit(0, l)
    {
      BitBeyond(0, l);
    }
  }

  /** Under the invariant the cascade stops at the lowest clear bit. */
  lemma FirstFreeIsLowestClear(db: Db, n: nat, k: int, at: map<int, int>, hvs: map<int, seq<G1>>)
    requires BlockInv(db, n, k, at, hvs)
    ensures FirstFree(db.counts, k, 0) == LowestClear(|at|)
  {
    var t := LowestClear(|at|);
    assert Marker(db, k, t) == 0;
    forall l | 0 <= l < t
      ensures Get(db.counts, (k, l)) != 0
    {
      assert Marker(db, k, l) == 1;
    }
    FirstFreeUnique(db.counts, k, 0, t);
  }

  lemma {:induction false} BetweenCard(at: map<int, int>, lo: int, hi: int)
    requires 0 <= lo <= hi
    requires forall l :: lo <= l < hi ==> |LevelSet(at, l)| == Pow2(l)
    ensures |Between(at, lo, hi)| + Pow2(lo) == Pow2(hi)
    decreases hi - lo
  {
    if lo < hi {
      BetweenCard(at, lo + 1, hi);
      assert Between(at, lo, hi) == LevelSet(at, lo) + Between(at, lo + 1, hi);
      assert LevelSet(at, lo) !! Between(at, lo + 1, hi);
    } else {
      assert Between(at, lo, hi) == {};
    }
  }

  /** The commitments of levels lo..hi-1 sum to the keys of their users. */
  lemma {:induction false} BetweenCommitments(db: Db, k: int, at: map<int, int>, lo: int, hi: int)
    requires forall l :: lo <= l < hi ==> CommitmentOk(db, k, l, LevelSet(at, l))
    ensures SumLevels(db.pp, k, lo, hi) == SumOver(Between(at, lo, hi), PkOf(db.users))
    decreases hi - lo
  {
    if lo < hi {
      BetweenCommitments(db, k, at, lo + 1, hi);
      assert Between(at, lo, hi) == LevelSet(at, lo) + Between(at, lo + 1, hi);
      SumOverUnion(LevelSet(at, lo), Between(at, lo + 1, hi), PkOf(db.users));
    } else {
      assert Between(at, lo, hi) == {};
    }
  }

  /** The rows of levels lo..hi-1 sum to their users' contributions. */
  lemma {:induction false} BetweenRows(db: Db, n: nat, k: int, at: map<int, int>, hvs: map<int, seq<G1>>, i: int, lo: int, hi: int)
    requires 0 <= i < n
    requires forall l :: lo <= l < hi ==> RowsOk(db, n, k, l, LevelSet(at, l), hvs)
    ensures SumLevels(db.aux, Row(n, k, i), lo, hi) == SumOver(Between(at, lo, hi), ContribOf(hvs, n, Row(n, k, i)))
    decreases hi - lo
  {
    if lo < hi {
      BetweenRows(db, n, k, at, hvs, i, lo + 1, hi);
      assert Between(at, lo, hi) == LevelSet(at, lo) + Between(at, lo + 1, hi);
      SumOverUnion(LevelSet(at, lo), Between(at, lo + 1, hi), ContribOf(hvs, n, Row(n, k, i)));
    } else {
      assert Between(at, lo, hi) == {};
    }
  }

  lemma PromoteCount(at: map<int, int>, id: int)
    requires id !in at
    ensures Promote(at, id).Keys == at.Keys + {id}
    ensures |Promote(at, id)| == |at| + 1
  {
    var at' := PromoteTo(at, id, LowestClear(|at|));
    assert at'.Keys == at.Keys + {id};
    assert |at'.Keys| == |at.Keys| + 1;
  }

  /** The levels after a new user joins: level t gains id and everyone
      below t, the levels below t empty, the levels above t are unchanged. */
  lemma PromoteLevels(at: map<int, int>, id: int, l: int)
    requires id !in at && forall u :: u in at ==> Occupied(at, at[u])
    ensures var t := LowestClear(|at|);
            LevelSet(Promote(at, id), l) == if l == t then {id} + Between(at, 0, t)
                                            else if l < t then {}
                                            else LevelSet(at, l)
  {
    PromoteToLevels(at, id, LowestClear(|at|), l);
  }

  lemma PromoteToLevels(at: map<int, int>, id: int, t: int, l: int)
    requires id !in at && forall u :: u in at ==> at[u] >= 0 && at[u] != t
    ensures LevelSet(PromoteTo(at, id, t), l) == if l == t then {id} + Between(at, 0, t)
                                                 else if l < t then {}
                                                 else LevelSet(at, l)
  {
    var at' := PromoteTo(at, id, t);
    assert at'.Keys == at.Keys + {id};
    assert forall u :: u in at' ==> at'[u] == if u == id || at[u] < t then t else at[u];
    if l == t {
      forall u
        ensures u in LevelSet(at', l) <==> u in {id} + Between(at, 0, t)
      {
        if u in at && u != id {
          assert at'[u] == if at[u] < t then t else at[u];
        }
      }
      assert LevelSet(at', l) == {id} + Between(at, 0, t);
    } else if l < t {
      assert LevelSet(at', l) == {};
    } else {
      assert LevelSet(at', l) == LevelSet(at, l);
    }
  }

  lemma PkCongruent(s: set<int>, users: map<int, G1>, id: int, pk: G1)
    requires id !in s
    ensures SumOver(s, PkOf(users[id := pk])) == SumOver(s, PkOf(users))
  {
    SumOverCongruent(s, PkOf(users[id := pk]), PkOf(users));
  }

  lemma ContribCongruent(s: set<int>, hvs: map<int, seq<G1>>, n: nat, id: int, hv: seq<G1>, r: int)
    requires id !in s
    ensures SumOver(s, ContribOf(hvs[id := hv], n, r)) == SumOver(s, ContribOf(hvs, n, r))
  {
    SumOverCongruent(s, ContribOf(hvs[id := hv], n, r), ContribOf(hvs, n, r));
  }

  /** The count's bits after one more user: bit t clears below, sets at t. */
  lemma PromoteOccupied(at: map<int, int>, id: int, l: int)
    requires id !in at
    ensures Occupied(Promote(at, id), l) <==>
              l >= 0 && if l < LowestClear(|at|) then false else l == LowestClear(|at|) || Bit(|at|, l)
  {
    PromoteCount(at, id);
    if l >= 0 {
      IncrementBits(|at|, LowestClear(|at|), l);
    }
  }

  /** The users of id's block after `reg` of a fresh id. */
  lemma RegOwnUsers(db: Db, n: nat, id: nat, pk: G1, hv: seq<G1>, at: map<int, int>)
    requires n >= 1 && |hv| >= n && id !in db.users
    requires at.Keys == BlockUsers(db, n, id / n)
    ensures id !in at
    ensures RegSpec(db, n, id, pk, hv).users == db.users[id := pk]
    ensures BlockUsers(RegSpec(db, n, id, pk, hv), n, id / n) == Promote(at, id).Keys
  {
    var db1 := db.(users := db.users[id := pk]);
    CascadeUsers(db1, n, id / n, 0, pk, hv[id % n := Identity]);
    PromoteCount(at, id);
    assert BlockUsers(db1, n, id / n) == BlockUsers(db, n, id / n) + {id};
  }

  /** A fresh registration into block id / n, where the cascade stops at the
      lowest clear bit of the count of at. */
  ghost predicate FreshReg(db: Db, n: nat, id: nat, hv: seq<G1>, at: map<int, int>)
  {
    && n >= 1 && |hv| >= n && id !in db.users && id !in at
    && FirstFree(db.counts, id / n, 0) == LowestClear(|at|)
  }

  /** The marker of level l of id's block after `reg` of a fresh id follows
      the new count. */
  lemma RegOwnMarker(db: Db, n: nat, id: nat, pk: G1, hv: seq<G1>, at: map<int, int>, l: int)
    requires FreshReg(db, n, id, hv, at)
    requires Marker(db, id / n, l) == if Occupied(at, l) then 1 else 0
    ensures Marker(RegSpec(db, n, id, pk, hv), id / n, l) == if Occupied(Promote(at, id), l) then 1 else 0
  {
    PromoteOccupied(at, id, l);
    CascadeCounts(db.(users := db.users[id := pk]), n, id / n, 0, pk, hv[id % n := Identity], (id / n, l));
  }

  /** The commitment of level l of id's block is present after `reg` of a
      fresh id exactly when the level is occupied under the new count. */
  lemma RegOwnCommitmentPresent(db: Db, n: nat, id: nat, pk: G1, hv: seq<G1>, at: map<int, int>, l: int)
    requires FreshReg(db, n, id, hv, at)
    requires (id / n, l) in db.pp <==> Occupied(at, l)
    ensures (id / n, l) in RegSpec(db, n, id, pk, hv).pp <==> Occupied(Promote(at, id), l)
  {
    PromoteOccupied(at, id, l);
    CascadeCommitments(db.(users := db.users[id := pk]), n, id / n, 0, pk, hv[id % n := Identity], (id / n, l));
  }

  /** Row i of level l of id's block is present after `reg` of a fresh id
      exactly when the level is occupied under the new count. */
  lemma RegOwnRowPresent(db: Db, n: nat, id: nat, pk: G1, hv: seq<G1>, at: map<int, int>, i: int, l: int)
    requires FreshReg(db, n, id, hv, at) && 0 <= i < n
    requires (Row(n, id / n, i), l) in db.aux <==> Occupied(at, l)
    ensures (Row(n, id / n, i), l) in RegSpec(db, n, id, pk, hv).aux <==> Occupied(Promote(at, id), l)
  {
    PromoteOccupied(at, id, l);
    CascadeRows(db.(users := db.users[id := pk]), n, id / n, 0, pk, hv[id % n := Identity], (Row(n, id / n, i), l));
  }

  /** What `reg` of a fresh id leaves at level t of its block: the key saved,
      and the commitment pk plus every commitment below t. */
  lemma RegOwnSettledCommitment(db: Db, n: nat, id: nat, pk: G1, hv: seq<G1>, at: map<int, int>)
    requires FreshReg(db, n, id, hv, at)
    ensures RegSpec(db, n, id, pk, hv).users == db.users[id := pk]
    ensures (id / n, LowestClear(|at|)) in RegSpec(db, n, id, pk, hv).pp
    ensures RegSpec(db, n, id, pk, hv).pp[(id / n, LowestClear(|at|))] == pk + SumLevels(db.pp, id / n, 0, LowestClear(|at|))
  {
    var db1 := db.(users := db.users[id := pk]);
    var vec := hv[id % n := Identity];
    CascadeUsers(db1, n, id / n, 0, pk, vec);
    CascadeCommitments(db1, n, id / n, 0, pk, vec, (id / n, LowestClear(|at|)));
  }

  lemma RegOwnNewCommitment(db: Db, n: nat, id: nat, pk: G1, hv: seq<G1>, at: map<int, int>)
    requires FreshReg(db, n, id, hv, at)
    requires forall l :: 0 <= l < LowestClear(|at|) ==> CommitmentOk(db, id / n, l, LevelSet(at, l))
    ensures CommitmentOk(RegSpec(db, n, id, pk, hv), id / n, LowestClear(|at|), {id} + Between(at, 0, LowestClear(|at|)))
  {
    var t := LowestClear(|at|);
    var b := Between(at, 0, t);
    assert id !in b;
    BetweenCommitments(db, id / n, at, 0, t);
    RegOwnSettledCommitment(db, n, id, pk, hv, at);
    PkInsert(b, db.users, id, pk);
  }

  /** Adding a fresh user to a set adds its key to the sum of keys. */
  lemma PkInsert(b: set<int>, users: map<int, G1>, id: int, pk: G1)
    requires id !in b
    ensures SumOver({id} + b, PkOf(users[id := pk])) == pk + SumOver(b, PkOf(users))
  {
    var s' := {id} + b;
    assert s' - {id} == b;
    SumOverRemove(s', PkOf(users[id := pk]), id);
    assert PkOf(users[id := pk])(id) == pk;
    PkCongruent(b, users, id, pk);
  }

  lemma RegOwnNewRow(db: Db, n: nat, id: nat, pk: G1, hv: seq<G1>, at: map<int, int>, hvs: map<int, seq<G1>>, i: int)
    requires FreshReg(db, n, id, hv, at) && 0 <= i < n
    requires forall l :: 0 <= l < LowestClear(|at|) ==> RowsOk(db, n, id / n, l, LevelSet(at, l), hvs)
    ensures (Row(n, id / n, i), LowestClear(|at|)) in RegSpec(db, n, id, pk, hv).aux
    ensures RegSpec(db, n, id, pk, hv).aux[(Row(n, id / n, i), LowestClear(|at|))]
            == SumOver({id} + Between(at, 0, LowestClear(|at|)), ContribOf(hvs[id := hv], n, Row(n, id / n, i)))
  {
    var t := LowestClear(|at|);
    var b := Between(at, 0, t);
    assert id !in b;
    BetweenRows(db, n, id / n, at, hvs, i, 0, t);
    RegOwnSettledRow(db, n, id, pk, hv, at, i);
    ContribOwn(hvs, n, id, hv, i);
    ContribInsert(b, hvs, n, id, hv, Row(n, id / n, i));
  }

  /** Adding a fresh user to a set adds its contribution to row r's sum. */
  lemma ContribInsert(b: set<int>, hvs: map<int, seq<G1>>, n: nat, id: int, hv: seq<G1>, r: int)
    requires id !in b
    ensures SumOver({id} + b, ContribOf(hvs[id := hv], n, r))
            == ContribOf(hvs[id := hv], n, r)(id) + SumOver(b, ContribOf(hvs, n, r))
  {
    var s' := {id} + b;
    assert s' - {id} == b;
    SumOverRemove(s', ContribOf(hvs[id := hv], n, r), id);
    ContribCongruent(b, hvs, n, id, hv, r);
  }

  /** The registrant's contribution to its block's row i is entry i of its
      helping vector, except the identity for its own row. */
  lemma ContribOwn(hvs: map<int, seq<G1>>, n: nat, id: nat, hv: seq<G1>, i: int)
    requires n >= 1 && |hv| >= n && 0 <= i < n
    ensures ContribOf(hvs[id := hv], n, Row(n, id / n, i))(id) == hv[id % n := Identity][i]
  {
    RowOfBlock(n, id / n, i);
  }

  /** What `reg` of a fresh id leaves in row i of level t of its block: the
      pending entry plus every entry of that row below t. */
  lemma RegOwnSettledRow(db: Db, n: nat, id: nat, pk: G1, hv: seq<G1>, at: map<int, int>, i: int)
    requires FreshReg(db, n, id, hv, at) && 0 <= i < n
    ensures (Row(n, id / n, i), LowestClear(|at|)) in RegSpec(db, n, id, pk, hv).aux
    ensures RegSpec(db, n, id, pk, hv).aux[(Row(n, id / n, i), LowestClear(|at|))]
            == hv[id % n := Identity][i] + SumLevels(db.aux, Row(n, id / n, i), 0, LowestClear(|at|))
  {
    var db1 := db.(users := db.users[id := pk]);
    CascadeRows(db1, n, id / n, 0, pk, hv[id % n := Identity], (Row(n, id / n, i), LowestClear(|at|)));
  }

  /** Level t, where the cascade stops, holds id and every user below t:
      2^t users, whose keys its commitment sums and whose contributions its
      rows sum. */
  lemma RegOwnNewLevel(db: Db, n: nat, id: nat, pk: G1, hv: seq<G1>, at: map<int, int>, hvs: map<int, seq<G1>>)
    requires FreshReg(db, n, id, hv, at)
    requires forall l :: 0 <= l < LowestClear(|at|) ==> LevelOk(db, n, id / n, l, LevelSet(at, l), hvs)
    ensures LevelOk(RegSpec(db, n, id, pk, hv), n, id / n, LowestClear(|at|),
                    {id} + Between(at, 0, LowestClear(|at|)), hvs[id := hv])
  {
    var t := LowestClear(|at|);
    var s' := {id} + Between(at, 0, t);
    LevelParts(db, n, id / n, t, at, hvs);
    assert id !in Between(at, 0, t);
    BetweenCard(at, 0, t);
    assert |s'| == Pow2(t);
    RegOwnNewCommitment(db, n, id, pk, hv, at);
    RegOwnNewRows(db, n, id, pk, hv, at, hvs);
  }

  /** The parts of LevelOk, level by level. */
  lemma LevelParts(db: Db, n: nat, k: int, t: int, at: map<int, int>, hvs: map<int, seq<G1>>)
    requires forall l :: 0 <= l < t ==> LevelOk(db, n, k, l, LevelSet(at, l), hvs)
    ensures forall l :: 0 <= l < t ==> |LevelSet(at, l)| == Pow2(l)
    ensures forall l :: 0 <= l < t ==> CommitmentOk(db, k, l, LevelSet(at, l))
    ensures forall l :: 0 <= l < t ==> RowsOk(db, n, k, l, LevelSet(at, l), hvs)
  {
  }

  /** The n rows of level t, where the cascade stops, sum the contributions
      of id and every user below t. */
  lemma RegOwnNewRows(db: Db, n: nat, id: nat, pk: G1, hv: seq<G1>, at: map<int, int>, hvs: map<int, seq<G1>>)
    requires FreshReg(db, n, id, hv, at)
    requires forall l :: 0 <= l < LowestClear(|at|) ==> RowsOk(db, n, id / n, l, LevelSet(at, l), hvs)
    ensures RowsOk(RegSpec(db, n, id, pk, hv), n, id / n, LowestClear(|at|),
                   {id} + Between(at, 0, LowestClear(|at|)), hvs[id := hv])
  {
    forall i | 0 <= i < n
      ensures (Row(n, id / n, i), LowestClear(|at|)) in RegSpec(db, n, id, pk, hv).aux
      ensures RegSpec(db, n, id, pk, hv).aux[(Row(n, id / n, i), LowestClear(|at|))]
              == SumOver({id} + Between(at, 0, LowestClear(|at|)), ContribOf(hvs[id := hv], n, Row(n, id / n, i)))
    {
      RegOwnNewRow(db, n, id, pk, hv, at, hvs, i);
    }
  }

  /** A level above t keeps its users, its commitment and its rows. */
  lemma RegOwnOldLevel(db: Db, n: nat, id: nat, pk: G1, hv: seq<G1>, at: map<int, int>, hvs: map<int, seq<G1>>, l: int)
    requires FreshReg(db, n, id, hv, at)
    requires forall u :: u in at ==> Occupied(at, at[u])
    requires l > LowestClear(|at|)
    requires LevelOk(db, n, id / n, l, LevelSet(at, l), hvs)
    ensures LevelOk(RegSpec(db, n, id, pk, hv), n, id / n, l, LevelSet(Promote(at, id), l), hvs[id := hv])
  {
    var k := id / n;
    var t := LowestClear(|at|);
    var r := RegSpec(db, n, id, pk, hv);
    var db1 := db.(users := db.users[id := pk]);
    var vec := hv[id % n := Identity];
    var s := LevelSet(at, l);
    PromoteLevels(at, id, l);
    assert id !in s;
    CascadeUsers(db1, n, k, 0, pk, vec);
    CascadeCommitments(db1, n, k, 0, pk, vec, (k, l));
    PkCongruent(s, db.users, id, pk);
    forall i | 0 <= i < n
      ensures (Row(n, k, i), l) in r.aux <==> (Row(n, k, i), l) in db.aux
      ensures Get(r.aux, (Row(n, k, i), l)) == Get(db.aux, (Row(n, k, i), l))
      ensures SumOver(s, ContribOf(hvs[id := hv], n, Row(n, k, i))) == SumOver(s, ContribOf(hvs, n, Row(n, k, i)))
    {
      CascadeRows(db1, n, k, 0, pk, vec, (Row(n, k, i), l));
      ContribCongruent(s, hvs, n, id, hv, Row(n, k, i));
    }
    LevelOkTransfer(db, r, n, k, l, s, hvs, hvs[id := hv]);
  }

  /** Every level occupied after `reg` of a fresh id aggregates its users. */
  lemma RegOwnLevel(db: Db, n: nat, id: nat, pk: G1, hv: seq<G1>, at: map<int, int>, hvs: map<int, seq<G1>>, l: int)
    requires FreshReg(db, n, id, hv, at)
    requires forall u :: u in at ==> Occupied(at, at[u])
    requires forall l :: Occupied(at, l) ==> LevelOk(db, n, id / n, l, LevelSet(at, l), hvs)
    requires Occupied(Promote(at, id), l)
    ensures LevelOk(RegSpec(db, n, id, pk, hv), n, id / n, l, LevelSet(Promote(at, id), l), hvs[id := hv])
  {
    var t := LowestClear(|at|);
    PromoteOccupied(at, id, l);
    if l == t {
      assert forall j :: 0 <= j < t ==> Occupied(at, j);
      RegOwnNewLevel(db, n, id, pk, hv, at, hvs);
      PromoteLevels(at, id, l);
    } else {
      RegOwnOldLevel(db, n, id, pk, hv, at, hvs, l);
    }
  }

  /** Every user sits at an occupied level after a new user joins. */
  lemma PromoteKeepsOccupied(at: map<int, int>, id: int)
    requires id !in at && forall u :: u in at ==> Occupied(at, at[u])
    ensures forall u :: u in Promote(at, id) ==> Occupied(Promote(at, id), Promote(at, id)[u])
  {
    var t := LowestClear(|at|);
    var at' := Promote(at, id);
    forall u | u in at'
      ensures Occupied(at', at'[u])
    {
      PromoteOccupied(at, id, at'[u]);
      if u != id {
        assert at[u] != t;
      }
    }
  }

  /** `reg` of a fresh id keeps the invariant of its block, under the
      assignment in which the new user has joined. */
  lemma RegOwnBlock(db: Db, n: nat, id: nat, pk: G1, hv: seq<G1>, at: map<int, int>, hvs: map<int, seq<G1>>)
    requires n >= 1 && BlockInv(db, n, id / n, at, hvs)
    requires id !in db.users && |hv| >= n
    ensures BlockInv(RegSpec(db, n, id, pk, hv), n, id / n, Promote(at, id), hvs[id := hv])
  {
    var k := id / n;
    var r := RegSpec(db, n, id, pk, hv);
    var at' := Promote(at, id);
    RegOwnUsers(db, n, id, pk, hv, at);
    FirstFreeIsLowestClear(db, n, k, at, hvs);
    assert FreshReg(db, n, id, hv, at);
    PromoteKeepsOccupied(at, id);
    forall l
      ensures Marker(r, k, l) == if Occupied(at', l) then 1 else 0
      ensures (k, l) in r.pp <==> Occupied(at', l)
    {
      RegOwnMarker(db, n, id, pk, hv, at, l);
      RegOwnCommitmentPresent(db, n, id, pk, hv, at, l);
    }
    forall i, l | 0 <= i < n
      ensures (Row(n, k, i), l) in r.aux <==> Occupied(at', l)
    {
      RegOwnRowPresent(db, n, id, pk, hv, at, i, l);
    }
    forall l | Occupied(at', l)
      ensures LevelOk(r, n, k, l, LevelSet(at', l), hvs[id := hv])
    {
      RegOwnLevel(db, n, id, pk, hv, at, hvs, l);
    }
  }

  /** A level of another block keeps its markers, entries and sums when id
      registers. */
  lemma RegOtherLevel(db: Db, n: nat, id: nat, pk: G1, hv: seq<G1>, k2: int, at: map<int, int>, hvs: map<int, seq<G1>>, l: int)
    requires n >= 1 && |hv| >= n && id !in db.users && k2 != id / n
    requires BlockInv(db, n, k2, at, hvs)
    ensures Marker(RegSpec(db, n, id, pk, hv), k2, l) == Marker(db, k2, l)
    ensures (k2, l) in RegSpec(db, n, id, pk, hv).pp <==> (k2, l) in db.pp
    ensures forall i :: 0 <= i < n ==>
              ((Row(n, k2, i), l) in RegSpec(db, n, id, pk, hv).aux <==> (Row(n, k2, i), l) in db.aux)
    ensures Occupied(at, l) ==> LevelOk(RegSpec(db, n, id, pk, hv), n, k2, l, LevelSet(at, l), hvs[id := hv])
  {
    var k := id / n;
    var r := RegSpec(db, n, id, pk, hv);
    var db1 := db.(users := db.users[id := pk]);
    var vec := hv[id % n := Identity];
    var s := LevelSet(at, l);
    assert id !in s;
    CascadeUsers(db1, n, k, 0, pk, vec);
    CascadeCounts(db1, n, k, 0, pk, vec, (k2, l));
    CascadeCommitments(db1, n, k, 0, pk, vec, (k2, l));
    PkCongruent(s, db.users, id, pk);
    forall i | 0 <= i < n
      ensures (Row(n, k2, i), l) in r.aux <==> (Row(n, k2, i), l) in db.aux
      ensures Get(r.aux, (Row(n, k2, i), l)) == Get(db.aux, (Row(n, k2, i), l))
      ensures SumOver(s, ContribOf(hvs[id := hv], n, Row(n, k2, i))) == SumOver(s, ContribOf(hvs, n, Row(n, k2, i)))
    {
      RowsOfOtherBlock(n, k, k2, i);
      CascadeRows(db1, n, k, 0, pk, vec, (Row(n, k2, i), l));
      ContribCongruent(s, hvs, n, id, hv, Row(n, k2, i));
    }
    if Occupied(at, l) {
      LevelOkTransfer(db, r, n, k2, l, s, hvs, hvs[id := hv]);
    }
  }

  /** A level whose commitment, rows and sums read the same in r as in db
      aggregates the same users in r. */
  lemma LevelOkTransfer(db: Db, r: Db, n: nat, k: int, l: int, s: set<int>, hvs: map<int, seq<G1>>, hvs': map<int, seq<G1>>)
    requires LevelOk(db, n, k, l, s, hvs)
    requires ((k, l) in r.pp <==> (k, l) in db.pp) && Get(r.pp, (k, l)) == Get(db.pp, (k, l))
    requires SumOver(s, PkOf(r.users)) == SumOver(s, PkOf(db.users))
    requires forall i :: 0 <= i < n ==>
               && ((Row(n, k, i), l) in r.aux <==> (Row(n, k, i), l) in db.aux)
               && Get(r.aux, (Row(n, k, i), l)) == Get(db.aux, (Row(n, k, i), l))
               && SumOver(s, ContribOf(hvs', n, Row(n, k, i))) == SumOver(s, ContribOf(hvs, n, Row(n, k, i)))
    ensures LevelOk(r, n, k, l, s, hvs')
  {
  }

  /** `reg` of a fresh id keeps the invariant of every other block, with the
      same assignment. */
  lemma RegOtherBlock(db: Db, n: nat, id: nat, pk: G1, hv: seq<G1>, k2: int, at: map<int, int>, hvs: map<int, seq<G1>>)
    requires n >= 1 && |hv| >= n && id !in db.users && k2 != id / n
    requires BlockInv(db, n, k2, at, hvs)
    ensures BlockInv(RegSpec(db, n, id, pk, hv), n, k2, at, hvs[id := hv])
  {
    var r := RegSpec(db, n, id, pk, hv);
    CascadeUsers(db.(users := db.users[id := pk]), n, id / n, 0, pk, hv[id % n := Identity]);
    assert BlockUsers(r, n, k2) == BlockUsers(db, n, k2);
    forall l
      ensures Marker(r, k2, l) == if Occupied(at, l) then 1 else 0
      ensures (k2, l) in r.pp <==> Occupied(at, l)
      ensures forall i :: 0 <= i < n ==> ((Row(n, k2, i), l) in r.aux <==> Occupied(at, l))
      ensures Occupied(at, l) ==> LevelOk(r, n, k2, l, LevelSet(at, l), hvs[id := hv])
    {
      RegOtherLevel(db, n, id, pk, hv, k2, at, hvs, l);
    }
  }
}
