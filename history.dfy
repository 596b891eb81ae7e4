/** A run of the efficient store from empty: a sequence of `reg` calls.
    Every block of the resulting store satisfies the block invariant under an
    assignment of its users to levels that the history determines, so the
    occupancy markers of a block are the binary digits of its number of
    registrants and no block ever occupies a level past the scan limit. */
module History {
  import opened Group
  import opened Params
  import opened Storage
  import opened Merge
  import opened Counter
  import opened Aggregate

  /** One `reg` call: the id, its public key and its helping values. */
  datatype Registration = Registration(id: nat, pk: G1, hv: seq<G1>)

  /** Every call in h passes n helping values or more, as `gen` produces. */
  predicate WellFormed(n: nat, h: seq<Registration>)
  {
    n >= 1 && forall j :: 0 <= j < |h| ==> |h[j].hv| >= n
  }

  /** The store after the calls of h, in order, from the empty store. */
  function ReplayDb(n: nat, h: seq<Registration>): Db
    requires WellFormed(n, h)
  {
    if |h| == 0 then EmptyDb
    else
      var e := h[|h| - 1];
      RegSpec(ReplayDb(n, h[..|h| - 1]), n, e.id, e.pk, e.hv)
  }

  /** The helping vector each registered user joined with: that of its first
      `reg`, since later calls for the same id change nothing. */
  ghost function ReplayHvs(n: nat, h: seq<Registration>): map<int, seq<G1>>
    requires WellFormed(n, h)
  {
    if |h| == 0 then map[]
    else
      var p := h[..|h| - 1];
      var e := h[|h| - 1];
      if e.id in ReplayDb(n, p).users then ReplayHvs(n, p) else ReplayHvs(n, p)[e.id := e.hv]
  }

  /** The level of each user of block k after the calls of h. */
  ghost function ReplayAt(n: nat, h: seq<Registration>, k: int): map<int, int>
    requires WellFormed(n, h)
  {
    if |h| == 0 then map[]
    else
      var p := h[..|h| - 1];
      var e := h[|h| - 1];
      if e.id !in ReplayDb(n, p).users && e.id / n == k then Promote(ReplayAt(n, p, k), e.id)
      else ReplayAt(n, p, k)
  }

  /** The ids that appear in h. */
  ghost function Ids(h: seq<Registration>): set<int>
  {
    set j | 0 <= j < |h| :: h[j].id
  }

  /** The registered users after h are exactly the ids of h, each with the
      key of its first call. */
  lemma ReplayUsers(n: nat, h: seq<Registration>)
    requires WellFormed(n, h)
    ensures ReplayDb(n, h).users.Keys == Ids(h)
    ensures forall j :: 0 <= j < |h| && (forall i :: 0 <= i < j ==> h[i].id != h[j].id) ==>
              ReplayDb(n, h).users[h[j].id] == h[j].pk
  {
    ReplayIds(n, h);
    forall j | 0 <= j < |h| && (forall i :: 0 <= i < j ==> h[i].id != h[j].id)
      ensures ReplayDb(n, h).users[h[j].id] == h[j].pk
    {
      ReplayFirstKey(n, h, j);
    }
  }

  /** The users after one more call: the new id is added with its key
      unless it is already registered. */
  lemma ReplayLastUsers(n: nat, h: seq<Registration>)
    requires WellFormed(n, h) && |h| > 0
    ensures WellFormed(n, h[..|h| - 1])
    ensures var db := ReplayDb(n, h[..|h| - 1]);
            var e := h[|h| - 1];
            ReplayDb(n, h).users == if e.id in db.users then db.users else db.users[e.id := e.pk]
  {
    var db := ReplayDb(n, h[..|h| - 1]);
    var e := h[|h| - 1];
    if e.id !in db.users {
      CascadeUsers(db.(users := db.users[e.id := e.pk]), n, e.id / n, 0, e.pk, e.hv[e.id % n := Identity]);
    }
  }

  /** The registered ids after h are the ids of h. */
  lemma {:induction false} ReplayIds(n: nat, h: seq<Registration>)
    requires WellFormed(n, h)
    ensures ReplayDb(n, h).users.Keys == Ids(h)
  {
    if |h| > 0 {
      var p := h[..|h| - 1];
      ReplayLastUsers(n, h);
      ReplayIds(n, p);
      assert h == p + [h[|h| - 1]];
      IdsSnoc(p, h[|h| - 1]);
    }
  }

  /** A user keeps the key of its first call. */
  lemma {:induction false} ReplayFirstKey(n: nat, h: seq<Registration>, j: int)
    requires WellFormed(n, h) && 0 <= j < |h|
    requires forall i :: 0 <= i < j ==> h[i].id != h[j].id
    ensures h[j].id in ReplayDb(n, h).users && ReplayDb(n, h).users[h[j].id] == h[j].pk
  {
    var p := h[..|h| - 1];
    var e := h[|h| - 1];
    ReplayLastUsers(n, h);
    if j < |p| {
      assert p[j] == h[j];
      assert forall i :: 0 <= i < j ==> p[i] == h[i];
      ReplayFirstKey(n, p, j);
    } else {
      ReplayIds(n, p);
      assert forall i :: 0 <= i < |p| ==> p[i] == h[i];
      assert e.id !in Ids(p);
    }
  }

  /** The ids of a history with one more call. */
  lemma IdsSnoc(p: seq<Registration>, e: Registration)
    ensures Ids(p + [e]) == Ids(p) + {e.id}
  {
    var q := p + [e];
    forall u | u in Ids(q)
      ensures u in Ids(p) + {e.id}
    {
      var j :| 0 <= j < |q| && q[j].id == u;
      if j < |p| {
        assert p[j] == q[j];
      }
    }
    forall u | u in Ids(p)
      ensures u in Ids(q)
    {
      var j :| 0 <= j < |p| && p[j].id == u;
      assert q[j] == p[j];
    }
    assert q[|p|] == e;
  }

  /** One step of a replay keeps the invariant of block k. */
  lemma ReplayStep(n: nat, p: seq<Registration>, e: Registration, k: int)
    requires WellFormed(n, p + [e])
    requires WellFormed(n, p)
    requires BlockInv(ReplayDb(n, p), n, k, ReplayAt(n, p, k), ReplayHvs(n, p))
    ensures BlockInv(ReplayDb(n, p + [e]), n, k, ReplayAt(n, p + [e], k), ReplayHvs(n, p + [e]))
  {
    var h := p + [e];
    assert h[..|h| - 1] == p && h[|h| - 1] == e;
    var db := ReplayDb(n, p);
    if e.id !in db.users {
      if e.id / n == k {
        RegOwnBlock(db, n, e.id, e.pk, e.hv, ReplayAt(n, p, k), ReplayHvs(n, p));
      } else {
        RegOtherBlock(db, n, e.id, e.pk, e.hv, k, ReplayAt(n, p, k), ReplayHvs(n, p));
      }
    }
  }

  /** Every block of a store built by `reg` calls from empty satisfies the
      block invariant. */
  lemma {:induction false} ReplayInv(n: nat, h: seq<Registration>, k: int)
    requires WellFormed(n, h)
    ensures BlockInv(ReplayDb(n, h), n, k, ReplayAt(n, h, k), ReplayHvs(n, h))
  {
    if |h| == 0 {
      EmptyBlockInv(n, k);
    } else {
      var p := h[..|h| - 1];
      assert h == p + [h[|h| - 1]];
      ReplayInv(n, p, k);
      ReplayStep(n, p, h[|h| - 1], k);
    }
  }

  /** The occupancy markers of a block are the binary digits of its number
      of registrants. */
  lemma MarkersAreBits(n: nat, h: seq<Registration>, k: int, l: int)
    requires WellFormed(n, h)
    ensures Marker(ReplayDb(n, h), k, l) == if l >= 0 && Bit(|BlockUsers(ReplayDb(n, h), n, k)|, l) then 1 else 0
  {
    ReplayInv(n, h, k);
    var at := ReplayAt(n, h, k);
    assert |at| == |at.Keys|;
  }

  /** The rows of block k at positions 0..m-1. */
  ghost function BlockRows(n: nat, k: int, m: nat): set<int>
  {
    set i | 0 <= i < m :: Row(n, k, i)
  }

  lemma {:induction false} BlockRowsCard(n: nat, k: int, m: nat)
    ensures |BlockRows(n, k, m)| <= m
  {
    if m > 0 {
      BlockRowsCard(n, k, m - 1);
      assert BlockRows(n, k, m) == BlockRows(n, k, m - 1) + {Row(n, k, m - 1)};
    } else {
      assert BlockRows(n, k, m) == {};
    }
  }

  /** A block never holds more than n users. */
  lemma BlockUsersBound(db: Db, n: nat, k: int)
    requires n >= 1
    ensures |BlockUsers(db, n, k)| <= n
  {
    forall u | u in BlockUsers(db, n, k)
      ensures u in BlockRows(n, k, n)
    {
      assert u == Row(n, k, u % n);
    }
    BlockRowsCard(n, k, n);
    assert BlockUsers(db, n, k) <= BlockRows(n, k, n);
    SubsetCard(BlockUsers(db, n, k), BlockRows(n, k, n));
  }

  lemma SubsetCard(a: set<int>, b: set<int>)
    requires a <= b
    ensures |a| <= |b|
  {
    assert b == a + (b - a);
  }

  /** An occupied level l satisfies 2^l <= n, so l <= ceil(log2 n) < MaxLevel(n):
      `enc` and `upd` scan every level a block can occupy. */
  lemma OccupiedBelowMax(n: nat, h: seq<Registration>, k: int, l: int)
    requires WellFormed(n, h)
    requires Occupied(ReplayAt(n, h, k), l)
    ensures 0 <= l <= CeilLog2(n) && l < MaxLevel(n)
  {
    var db := ReplayDb(n, h);
    var at := ReplayAt(n, h, k);
    ReplayInv(n, h, k);
    assert |at| == |at.Keys|;
    BlockUsersBound(db, n, k);
    BitBound(|at|, l);
    if l > CeilLog2(n) {
      Pow2Monotone(CeilLog2(n), l);
    }
  }
}
