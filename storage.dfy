/** The key-value store of the efficient version, with the observable
    behaviour of its SQLite tables: a missing row reads as the identity (or as
    count 0), INSERT OR REPLACE overwrites, DELETE removes. */
module Storage {
  import opened Group

  /** (block, level) for commitments and markers, (row, level) for updates. */
  type Key = (int, int)

  /** A snapshot of the four tables. */
  datatype Db = Db(users: map<int, G1>, pp: map<Key, G1>, aux: map<Key, G1>, counts: map<Key, int>)

  const EmptyDb := Db(map[], map[], map[], map[])

  /** A read of a table: the stored value, or 0 (the identity, or count 0)
      when the row is missing. */
  function Get<K>(m: map<K, int>, key: K): int
  {
    if key in m then m[key] else 0
  }

  class Store {
    var users: map<int, G1>
    var pp: map<Key, G1>
    var aux: map<Key, G1>
    var counts: map<Key, int>

    constructor ()
      ensures Snapshot() == EmptyDb
    {
      users, pp, aux, counts := map[], map[], map[], map[];
    }

    function Snapshot(): Db
      reads this
    {
      Db(users, pp, aux, counts)
    }

    predicate IsUserRegistered(id: int)
      reads this
    {
      id in users
    }

    method SaveUserPublicKey(id: int, pk: G1)
      modifies this
      ensures Snapshot() == old(Snapshot()).(users := old(users)[id := pk])
    {
      users := users[id := pk];
    }

    function GetPPCommitment(block: int, level: int): G1
      reads this
    {
      Get(pp, (block, level))
    }

    method SavePPCommitment(block: int, level: int, com: G1)
      modifies this
      ensures Snapshot() == old(Snapshot()).(pp := old(pp)[(block, level) := com])
    {
      pp := pp[(block, level) := com];
    }

    method DeletePPCommitment(block: int, level: int)
      modifies this
      ensures Snapshot() == old(Snapshot()).(pp := old(pp) - {(block, level)})
    {
      pp := pp - {(block, level)};
    }

    function GetAuxUpdate(row: int, level: int): G1
      reads this
    {
      Get(aux, (row, level))
    }

    method SaveAuxUpdate(row: int, level: int, upd: G1)
      modifies this
      ensures Snapshot() == old(Snapshot()).(aux := old(aux)[(row, level) := upd])
    {
      aux := aux[(row, level) := upd];
    }

    method DeleteAuxUpdate(row: int, level: int)
      modifies this
      ensures Snapshot() == old(Snapshot()).(aux := old(aux) - {(row, level)})
    {
      aux := aux - {(row, level)};
    }

    function GetUserCountInLevel(block: int, level: int): int
      reads this
    {
      Get(counts, (block, level))
    }

    method SetUserCountInLevel(block: int, level: int, count: int)
      modifies this
      ensures Snapshot() == old(Snapshot()).(counts := old(counts)[(block, level) := count])
    {
      counts := counts[(block, level) := count];
    }

    predicate HasAux(row: int, level: int)
      reads this
    {
      (row, level) in aux
    }
  }
}
