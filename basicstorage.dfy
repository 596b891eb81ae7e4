/** The key-value store of the basic version: one public key per user, one
    commitment per block and one update per row (the row of a user is its
    id). As with the efficient store, a missing row reads as the identity
    and a save overwrites. */
module BasicStorage {
  import opened Group
  import opened Storage

  /** A snapshot of the three tables. */
  datatype BasicDb = BasicDb(users: map<int, G1>, pp: map<int, G1>, aux: map<int, G1>)

  const EmptyBasicDb := BasicDb(map[], map[], map[])

  class BasicStore {
    var users: map<int, G1>
    var pp: map<int, G1>
    var aux: map<int, G1>

    constructor ()
      ensures Snapshot() == EmptyBasicDb
    {
      users, pp, aux := map[], map[], map[];
    }

    function Snapshot(): BasicDb
      reads this
    {
      BasicDb(users, pp, aux)
    }

    predicate IsUserRegistered(id: int)
      reads this
    {
      id in users
    }

    method SaveUserPublicKey(id: int, pk: G1)
      modifies this
      ensures Snapshot() == old(Snapshot()).(users := old(users)[id := pk])
    {
      users := users[id := pk];
    }

    function GetPPCommitment(block: int): G1
      reads this
    {
      Get(pp, block)
    }

    method SavePPCommitment(block: int, com: G1)
      modifies this
      ensures Snapshot() == old(Snapshot()).(pp := old(pp)[block := com])
    {
      pp := pp[block := com];
    }

    function GetAuxUpdate(row: int): G1
      reads this
    {
      Get(aux, row)
    }

    method SaveAuxUpdate(row: int, upd: G1)
      modifies this
      ensures Snapshot() == old(Snapshot()).(aux := old(aux)[row := upd])
    {
      aux := aux[row := upd];
    }
  }
}
