/** The level-merge registration of the efficient version, as a function of
    the store it starts from. `Cascade` is the "2048-style" loop of `reg`:
    settle the pending entry at the first unoccupied level of the block, or
    absorb the occupied level into it, clear that level and move one level up. */
module Merge {
  import opened Group
  import opened Storage

  /** The occupancy marker of level `level` of block k (0 when missing). */
  function Marker(db: Db, k: int, level: int): int
  {
    Get(db.counts, (k, level))
  }

  /** The occupied levels of block k at or above `level`; finite, so the
      cascade terminates. */
  ghost function OccupiedFrom(counts: map<Key, int>, k: int, level: int): set<int>
  {
    set p | p in counts && p.0 == k && p.1 >= level && counts[p] != 0 :: p.1
  }

  lemma OccupiedShrinks(counts: map<Key, int>, k: int, level: int)
    requires Get(counts, (k, level)) != 0
    ensures OccupiedFrom(counts, k, level + 1) < OccupiedFrom(counts, k, level)
    ensures OccupiedFrom(counts[(k, level) := 0], k, level + 1) == OccupiedFrom(counts, k, level + 1)
  {
    assert level in OccupiedFrom(counts, k, level);
  }

  /** The first level of block k at or above `level` whose marker is 0. */
  function FirstFree(counts: map<Key, int>, k: int, level: int): (t: int)
    ensures t >= level && Get(counts, (k, t)) == 0
    ensures forall l :: level <= l < t ==> Get(counts, (k, l)) != 0
    decreases OccupiedFrom(counts, k, level)
  {
    if Get(counts, (k, level)) == 0 then level
    else
      OccupiedShrinks(counts, k, level);
      FirstFree(counts, k, level + 1)
  }

  lemma FirstFreeUnique(counts: map<Key, int>, k: int, from: int, t: int)
    requires t >= from && Get(counts, (k, t)) == 0
    requires forall l :: from <= l < t ==> Get(counts, (k, l)) != 0
    ensures FirstFree(counts, k, from) == t
  {
  }

  /** The sum of the values stored under (key0, l) for lo <= l < hi. */
  function SumLevels(m: map<Key, G1>, key0: int, lo: int, hi: int): G1
    decreases hi - lo
  {
    if lo >= hi then Identity else Get(m, (key0, lo)) + SumLevels(m, key0, lo + 1, hi)
  }

  lemma {:induction false} SumLevelsFrame(m1: map<Key, G1>, m2: map<Key, G1>, key0: int, lo: int, hi: int)
    requires forall l :: lo <= l < hi ==> Get(m1, (key0, l)) == Get(m2, (key0, l))
    ensures SumLevels(m1, key0, lo, hi) == SumLevels(m2, key0, lo, hi)
    decreases hi - lo
  {
    if lo < hi {
      SumLevelsFrame(m1, m2, key0, lo + 1, hi);
    }
  }

  /** The settling loop after i iterations: rows base..base+i-1 of `level`
      hold the first i entries of vec. */
  function WriteRows(aux: map<Key, G1>, base: int, level: int, vec: seq<G1>, i: nat): map<Key, G1>
    requires i <= |vec|
  {
    if i == 0 then aux else WriteRows(aux, base, level, vec, i - 1)[(base + i - 1, level) := vec[i - 1]]
  }

  /** The clearing loop after i iterations: rows base..base+i-1 of `level` deleted. */
  function DeleteRows(aux: map<Key, G1>, base: int, level: int, i: nat): map<Key, G1>
  {
    if i == 0 then aux else DeleteRows(aux, base, level, i - 1) - {(base + i - 1, level)}
  }

  /** The pending vector after absorbing rows base..base+n-1 of `level`
      component-wise. */
  function MergeRows(vec: seq<G1>, aux: map<Key, G1>, base: int, level: int, n: nat): (r: seq<G1>)
    requires n <= |vec|
    ensures |r| == |vec|
  {
    seq(|vec|, j requires 0 <= j < |vec| => if j < n then vec[j] + Get(aux, (base + j, level)) else vec[j])
  }

  lemma {:induction false} WriteRowsAt(aux: map<Key, G1>, base: int, level: int, vec: seq<G1>, i: nat, p: Key)
    requires i <= |vec|
    ensures var r := WriteRows(aux, base, level, vec, i);
            if p.1 == level && base <= p.0 < base + i then p in r && r[p] == vec[p.0 - base]
            else (p in r <==> p in aux) && Get(r, p) == Get(aux, p)
  {
    if i > 0 {
      WriteRowsAt(aux, base, level, vec, i - 1, p);
    }
  }

  lemma {:induction false} DeleteRowsAt(aux: map<Key, G1>, base: int, level: int, i: nat, p: Key)
    ensures var r := DeleteRows(aux, base, level, i);
            if p.1 == level && base <= p.0 < base + i then p !in r
            else (p in r <==> p in aux) && Get(r, p) == Get(aux, p)
  {
    if i > 0 {
      DeleteRowsAt(aux, base, level, i - 1, p);
    }
  }

  /** Settling at `level`: save the commitment, set the marker to 1 and save
      all n entries of the pending vector as rows k*n..k*n+n-1. */
  function Settle(db: Db, n: nat, k: int, level: int, com: G1, vec: seq<G1>): Db
    requires n <= |vec|
  {
    db.(pp := db.pp[(k, level) := com],
        counts := db.counts[(k, level) := 1],
        aux := WriteRows(db.aux, k * n, level, vec, n))
  }

  /** Clearing a level after a collision: delete the commitment, set the
      marker to 0 and delete rows k*n..k*n+n-1. */
  function Collide(db: Db, n: nat, k: int, level: int): Db
  {
    db.(pp := db.pp - {(k, level)},
        counts := db.counts[(k, level) := 0],
        aux := DeleteRows(db.aux, k * n, level, n))
  }

  /** The merge loop of `reg` from `level` on, with pending commitment com and
      pending update vector vec. */
  function Cascade(db: Db, n: nat, k: int, level: int, com: G1, vec: seq<G1>): Db
    requires n <= |vec|
    decreases OccupiedFrom(db.counts, k, level)
  {
    if Marker(db, k, level) == 0 then Settle(db, n, k, level, com, vec)
    else
      OccupiedShrinks(db.counts, k, level);
      Cascade(Collide(db, n, k, level), n, k, level + 1,
              com + Get(db.pp, (k, level)), MergeRows(vec, db.aux, k * n, level, n))
  }

  /** `reg`: nothing happens for an id that already has a public key;
      otherwise the key is saved and the entry (pk, helping values with the
      registrant's own position set to the identity) cascades from level 0 of
      block id / n. */
  function RegSpec(db: Db, n: nat, id: nat, pk: G1, hv: seq<G1>): Db
    requires n >= 1 && |hv| >= n
  {
    if id in db.users then db
    else Cascade(db.(users := db.users[id := pk]), n, id / n, 0, pk, hv[id % n := Identity])
  }

  /** After a collision at `level`, the first free level seen from level+1 is
      the one seen from `level`. */
  lemma CollideFirstFree(db: Db, n: nat, k: int, level: int)
    requires Marker(db, k, level) != 0
    ensures FirstFree(Collide(db, n, k, level).counts, k, level + 1) == FirstFree(db.counts, k, level)
  {
    var t := FirstFree(db.counts, k, level);
    FirstFreeUnique(Collide(db, n, k, level).counts, k, level + 1, t);
  }

  lemma {:induction false} CascadeUsers(db: Db, n: nat, k: int, level: int, com: G1, vec: seq<G1>)
    requires n <= |vec|
    ensures Cascade(db, n, k, level, com, vec).users == db.users
    decreases OccupiedFrom(db.counts, k, level)
  {
    if Marker(db, k, level) != 0 {
      OccupiedShrinks(db.counts, k, level);
      CascadeUsers(Collide(db, n, k, level), n, k, level + 1,
                   com + Get(db.pp, (k, level)), MergeRows(vec, db.aux, k * n, level, n));
    }
  }

  /** The markers after a cascade from `level`: with t the first free level,
      levels level..t-1 read 0, level t reads 1, every other marker is unchanged. */
  lemma {:induction false} CascadeCounts(db: Db, n: nat, k: int, level: int, com: G1, vec: seq<G1>, p: Key)
    requires n <= |vec|
    ensures var t := FirstFree(db.counts, k, level);
            var r := Cascade(db, n, k, level, com, vec);
            && (p in r.counts <==> p in db.counts || (p.0 == k && level <= p.1 <= t))
            && Get(r.counts, p) == if p == (k, t) then 1
                                   else if p.0 == k && level <= p.1 < t then 0
                                   else Get(db.counts, p)
    decreases OccupiedFrom(db.counts, k, level)
  {
    if Marker(db, k, level) != 0 {
      OccupiedShrinks(db.counts, k, level);
      CollideFirstFree(db, n, k, level);
      CascadeCounts(Collide(db, n, k, level), n, k, level + 1,
                    com + Get(db.pp, (k, level)), MergeRows(vec, db.aux, k * n, level, n), p);
    }
  }

  /** Commitment p of rpp, the commitments after a cascade from `level` over
      pp that settled at level t of block k: levels level..t-1 of the block
      are deleted, level t holds com plus every commitment deleted, every
      other commitment is unchanged. */
  ghost predicate CommitmentsAfter(pp: map<Key, G1>, rpp: map<Key, G1>, k: int, level: int, t: int, com: G1, p: Key)
  {
    && (p in rpp <==> if p.0 == k && level <= p.1 < t then false else p == (k, t) || p in pp)
    && (p == (k, t) ==> rpp[p] == com + SumLevels(pp, k, level, t))
    && (!(p.0 == k && level <= p.1 <= t) ==> Get(rpp, p) == Get(pp, p))
  }

  /** The commitments after a cascade from `level`, as CommitmentsAfter
      states them. */
  lemma {:induction false} CascadeCommitments(db: Db, n: nat, k: int, level: int, com: G1, vec: seq<G1>, p: Key)
    requires n <= |vec|
    ensures CommitmentsAfter(db.pp, Cascade(db, n, k, level, com, vec).pp, k, level,
                             FirstFree(db.counts, k, level), com, p)
    decreases OccupiedFrom(db.counts, k, level)
  {
    var t := FirstFree(db.counts, k, level);
    if Marker(db, k, level) != 0 {
      var db' := Collide(db, n, k, level);
      var com' := com + Get(db.pp, (k, level));
      OccupiedShrinks(db.counts, k, level);
      CollideFirstFree(db, n, k, level);
      CascadeCommitments(db', n, k, level + 1, com', MergeRows(vec, db.aux, k * n, level, n), p);
      SumLevelsFrame(db'.pp, db.pp, k, level + 1, t);
      CascadeCommitmentsStep(db.pp, db'.pp, Cascade(db', n, k, level + 1, com', MergeRows(vec, db.aux, k * n, level, n)).pp,
                             k, level, t, com, com', p);
    }
  }

  /** One collision step of CascadeCommitments. */
  lemma CascadeCommitmentsStep(pp: map<Key, G1>, pp': map<Key, G1>, rpp: map<Key, G1>, k: int, level: int, t: int,
                               com: G1, com': G1, p: Key)
    requires level < t && com' == com + Get(pp, (k, level)) && pp' == pp - {(k, level)}
    requires SumLevels(pp', k, level + 1, t) == SumLevels(pp, k, level + 1, t)
    requires CommitmentsAfter(pp', rpp, k, level + 1, t, com', p)
    ensures CommitmentsAfter(pp, rpp, k, level, t, com, p)
  {
  }

  /** Clearing a level leaves the sums of every row over higher levels alone. */
  lemma CollideKeepsHigherRows(db: Db, n: nat, k: int, level: int, row: int, t: int)
    ensures SumLevels(Collide(db, n, k, level).aux, row, level + 1, t) == SumLevels(db.aux, row, level + 1, t)
  {
    forall l | level + 1 <= l < t
      ensures Get(Collide(db, n, k, level).aux, (row, l)) == Get(db.aux, (row, l))
    {
      DeleteRowsAt(db.aux, k * n, level, n, (row, l));
    }
    SumLevelsFrame(Collide(db, n, k, level).aux, db.aux, row, level + 1, t);
  }

  /** Row entry p of raux, the update rows after a cascade from `level` over
      aux that settled at level t: rows base..base+n-1 lose levels level..t-1,
      row base+i at level t holds vec[i] plus every entry of that row deleted,
      every other row and level is unchanged. */
  ghost predicate RowsAfter(aux: map<Key, G1>, raux: map<Key, G1>, base: int, n: nat, level: int, t: int,
                            vec: seq<G1>, p: Key)
    requires n <= |vec|
  {
    var inBlock := base <= p.0 < base + n;
    && (p in raux <==> if inBlock && level <= p.1 < t then false else (inBlock && p.1 == t) || p in aux)
    && (inBlock && p.1 == t ==> raux[p] == vec[p.0 - base] + SumLevels(aux, p.0, level, t))
    && (!(inBlock && level <= p.1 <= t) ==> Get(raux, p) == Get(aux, p))
  }

  /** The update rows after a cascade from `level`, as RowsAfter states them. */
  lemma {:induction false} CascadeRows(db: Db, n: nat, k: int, level: int, com: G1, vec: seq<G1>, p: Key)
    requires n <= |vec|
    ensures RowsAfter(db.aux, Cascade(db, n, k, level, com, vec).aux, k * n, n, level,
                      FirstFree(db.counts, k, level), vec, p)
    decreases OccupiedFrom(db.counts, k, level)
  {
    var t := FirstFree(db.counts, k, level);
    if Marker(db, k, level) == 0 {
      WriteRowsAt(db.aux, k * n, level, vec, n, p);
    } else {
      var db' := Collide(db, n, k, level);
      OccupiedShrinks(db.counts, k, level);
      CollideFirstFree(db, n, k, level);
      var vec' := MergeRows(vec, db.aux, k * n, level, n);
      CascadeRows(db', n, k, level + 1, com + Get(db.pp, (k, level)), vec', p);
      DeleteRowsAt(db.aux, k * n, level, n, p);
      CollideKeepsHigherRows(db, n, k, level, p.0, t);
      CascadeRowsStep(db.aux, db'.aux, Cascade(db', n, k, level + 1, com + Get(db.pp, (k, level)), vec').aux,
                      k * n, n, level, t, vec, vec', p);
    }
  }

  /** One collision step of CascadeRows: what the cascade from level + 1
      leaves in raux, read against the rows before level was cleared. */
  lemma CascadeRowsStep(aux: map<Key, G1>, aux': map<Key, G1>, raux: map<Key, G1>, base: int, n: nat,
                        level: int, t: int, vec: seq<G1>, vec': seq<G1>, p: Key)
    requires n <= |vec| && |vec'| == |vec| && level < t
    requires base <= p.0 < base + n ==> vec'[p.0 - base] == vec[p.0 - base] + Get(aux, (p.0, level))
    requires if p.1 == level && base <= p.0 < base + n then p !in aux'
             else (p in aux' <==> p in aux) && Get(aux', p) == Get(aux, p)
    requires SumLevels(aux', p.0, level + 1, t) == SumLevels(aux, p.0, level + 1, t)
    requires RowsAfter(aux', raux, base, n, level + 1, t, vec', p)
    ensures RowsAfter(aux, raux, base, n, level, t, vec, p)
  {
    if base <= p.0 < base + n && p.1 == t {
      calc {
        raux[p];
        vec[p.0 - base] + Get(aux, (p.0, level)) + SumLevels(aux, p.0, level + 1, t);
        vec[p.0 - base] + SumLevels(aux, p.0, level, t);
      }
    }
  }
}
