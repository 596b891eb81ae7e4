# Registration-based encryption: a Dafny model of the two C++ cores

This project models the registration-based encryption (RBE) scheme of the
repository in its two versions. Each version has one `algos.cpp` holding
`setup`, `gen`, `reg`, `upd`, `enc` and `dec`:

- The **efficient version** keeps, per block of n = ceil(sqrt(N)) users, a
  stack of levels. Each level holds one commitment, n update rows and an
  occupancy marker. `reg` works like a binary counter ("2048-style" merging).
  The new entry climbs from level 0. At each occupied level it absorbs that
  level's commitment and rows and clears the level. It settles at the first
  free level.
- The **basic version** keeps one commitment per block and one update per
  user. `reg` updates both by read-modify-write.

Group elements are modelled by their discrete logarithms. G1, G2, GT and Fr
are `int`. The group operation is `+`, the identity is 0, and the pairing is
multiplication. The ladder of the CRS holds z^i at slot i, except slot 0 and
the skipped slot (the "gap"), which hold 0. The trapdoor z, the secret keys
and the encryption randomness are parameters. The key-value store is a class
whose tables are `map` fields. A missing entry reads as 0, as the SQLite
store's `clear()` default does.

What is proved:

- **Efficient `reg`** (a loop over a class store) is proved against the pure
  cascade `Merge.RegSpec`. Every store built by `reg` calls from empty keeps a
  block invariant:
  - level l of a block is occupied exactly when bit l of the block's number
    of registrants is set;
  - each occupied level aggregates 2^l users, with the sum of their keys as
    commitment and the sum of their helping values in every row;
  - no occupied level lies past the level `enc` and `upd` scan.
- **Efficient `dec`'s verification equation**, with honest keys and the
  efficient setup, holds for a user exactly at the level its own key is
  aggregated in. `upd` as written returns the lowest occupied level instead;
  a corrected `upd` is modelled and proved to make `dec` succeed.
- **Basic `reg`** (a loop over a class store) is proved against
  `Basic.RegSpec`:
  - after any history, each commitment and each update is the sum over the
    block's registrants;
  - the result is independent of the registration order;
  - with the gap at n+1, `dec` succeeds exactly for registered users and
    recovers the message;
  - with the gap at n, as the basic `setup` is written, two neighbours in a
    block cannot decrypt, and user 0 of every block receives its message in
    the clear.

## Model

| member | source | states |
|---|---|---|
| Params.CeilSqrt | BasicVersion/RBE-C++/include/RBE_Common.h:28 | n is the least natural number with n*n >= N (the integer meaning of ceil(sqrt(N))) |
| Params.CeilLog2 | EfficientVersion/RBE-C++/include/algos.cpp:231 | c is the least natural number with 2^c >= n (the integer meaning of ceil(log2(n))) |
| Params.LadderShape | EfficientVersion/RBE-C++/include/algos.cpp:29-43 | for z != 0, ladder slot i is the identity exactly when i is 0, past 2n, or the skipped slot |
| Params.BuildCrs | EfficientVersion/RBE-C++/include/algos.cpp:5-48 | the setup loop: n = ceil(sqrt(N)), 2n+1 slots in both ladders, and slot i holds z^i except slot 0 and the gap n + gapOffset |
| Basic.Setup | BasicVersion/RBE-C++/include/algos.cpp:5-48 | the basic setup: for z != 0, the empty slots of both ladders are exactly 0 and n; for N >= 1 the result is a valid basic CRS |
| Basic.SetupFixed | EfficientVersion/RBE-C++/include/algos.cpp:29-43 | the setup with the gap moved to n+1, as the efficient version writes it: the empty slots are exactly 0 and n+1, and the CRS satisfies what the decryption proofs assume |
| KeyGen.Gen | EfficientVersion/RBE-C++/include/algos.cpp:51-120 | `gen` aborts exactly when slot id%n+1 is missing, which never happens on a valid CRS; otherwise pk = h[id%n+1]^sk and xi[i] = h[id%n+n+1-i]^sk, or the identity when that slot is missing or is slot n+1 |
| KeyGen.HelpingValuesShape | EfficientVersion/RBE-C++/include/algos.cpp:78-117 | under the efficient ladder, helping value i of id is z^(id%n+n+1-i)*sk, and it is the identity exactly at id's own position (the slot n+1 it would need is skipped) |
| KeyGen.PublicKeyShape | EfficientVersion/RBE-C++/include/algos.cpp:61-72 | the public key reads a slot in 1..n and equals z^(id%n+1)*sk |
| Storage.Store.constructor | EfficientVersion/RBE-C++/include/SQLiteStorage.cpp:25-40 | a new store has four empty tables |
| Storage.Store.SaveUserPublicKey | EfficientVersion/RBE-C++/include/SQLiteStorage.cpp:59-75 | insert-or-replace of the key; nothing else changes |
| Storage.Store.SavePPCommitment | EfficientVersion/RBE-C++/include/SQLiteStorage.cpp:99-113 | insert-or-replace of (block, level); nothing else changes |
| Storage.Store.DeletePPCommitment | EfficientVersion/RBE-C++/include/SQLiteStorage.cpp:116-125 | (block, level) is removed; nothing else changes |
| Storage.Store.SaveAuxUpdate | EfficientVersion/RBE-C++/include/SQLiteStorage.cpp:148-160 | insert-or-replace of (row, level); nothing else changes |
| Storage.Store.DeleteAuxUpdate | EfficientVersion/RBE-C++/include/SQLiteStorage.cpp:163-171 | (row, level) is removed; nothing else changes |
| Storage.Store.SetUserCountInLevel | EfficientVersion/RBE-C++/include/SQLiteStorage.cpp:190-201 | insert-or-replace of the marker of (block, level); nothing else changes |
| Merge.FirstFree | EfficientVersion/RBE-C++/include/algos.cpp:155-177 | the level where the cascade settles: at or above the start, marker 0, and every level between is occupied |
| Merge.CascadeUsers | EfficientVersion/RBE-C++/include/algos.cpp:155-214 | the merge loop never touches the key table |
| Merge.CascadeCounts | EfficientVersion/RBE-C++/include/algos.cpp:159-205 | with t the first free level: markers of levels start..t-1 of the block become 0, level t becomes 1, all others are unchanged |
| Merge.CascadeCommitments | EfficientVersion/RBE-C++/include/algos.cpp:162-204 | levels start..t-1 of the block lose their commitment; level t holds the pending commitment plus all the deleted ones; every other commitment is unchanged |
| Merge.CascadeRows | EfficientVersion/RBE-C++/include/algos.cpp:168-210 | rows of the block lose levels start..t-1; row k*n+i at level t holds vec[i] plus everything deleted from that row; every other row and level is unchanged |
| Counter.IncrementBits | EfficientVersion/RBE-C++/include/algos.cpp:155-214 | adding one to m clears the bits below its lowest clear bit t, sets bit t and keeps the rest (the counter the merge loop implements) |
| Counter.LowestClear | EfficientVersion/RBE-C++/include/algos.cpp:159 | bit t of m is clear and every lower bit is set |
| Efficient.SettleLevel | EfficientVersion/RBE-C++/include/algos.cpp:159-177 | the settling branch: the new store is the old one with the commitment, marker 1 and all n rows written at this level |
| Efficient.CollideLevel | EfficientVersion/RBE-C++/include/algos.cpp:184-213 | the collision branch: the pending commitment and each pending row absorb the stored ones, and the level's commitment, marker and n rows are cleared |
| Efficient.Reg | EfficientVersion/RBE-C++/include/algos.cpp:129-215 | a registered id changes nothing; otherwise the store afterwards is the key saved plus the cascade of (pk, hv with the own position cleared) from level 0 |
| Aggregate.RegOwnBlock | EfficientVersion/RBE-C++/include/algos.cpp:129-215 | a fresh registration keeps the block invariant of its own block: the newcomer and every user below the lowest clear bit move to that level |
| Aggregate.RegOtherBlock | EfficientVersion/RBE-C++/include/algos.cpp:135-171 | a registration keeps the block invariant of every other block with the same level assignment |
| History.ReplayUsers | EfficientVersion/RBE-C++/include/algos.cpp:132-133 | after any sequence of `reg` calls the registered ids are exactly the ids called, each with the key of its first call |
| History.ReplayInv | EfficientVersion/RBE-C++/include/algos.cpp:129-215 | every block of a store built by `reg` calls from empty satisfies the block invariant |
| History.MarkersAreBits | EfficientVersion/RBE-C++/include/algos.cpp:157-205 | the marker of level l of a block is 1 exactly when bit l of the block's number of registrants is set |
| History.BlockUsersBound | EfficientVersion/RBE-C++/include/algos.cpp:136-137 | a block never holds more than n registrants |
| History.OccupiedBelowMax | EfficientVersion/RBE-C++/include/algos.cpp:231-274 | every occupied level is at most ceil(log2 n), below the scan limit ceil(log2 n)+2 of `enc` and `upd` |
| Correctness.FourJoinsMarkers | EfficientVersion/RBE-C++/include/algos.cpp:155-214 | after ids 0..3 join block 0 (n >= 4), levels 0 and 1 are empty and level 2 is occupied (binary 100) |
| Correctness.ThreeUsersLevels | EfficientVersion/RBE-C++/include/algos.cpp:155-214 | after ids 0, 1, 2 join block 0 (n >= 3), user 0 sits at level 1 |
| Efficient.Encrypt | EfficientVersion/RBE-C++/include/algos.cpp:241-260 | a component carries its level, the commitment as ct0 and g2^r as ct2 |
| Efficient.Enc | EfficientVersion/RBE-C++/include/algos.cpp:219-267 | the loop emits exactly the components of the specification function, in level order |
| Efficient.EncFromShape | EfficientVersion/RBE-C++/include/algos.cpp:233-264 | every component is an encryption of a non-identity commitment of the block at a level in range; levels strictly increase; every level in range with a non-identity commitment has a component |
| Efficient.UpdFrom | EfficientVersion/RBE-C++/include/algos.cpp:276-286 | the result is the first level in range with a stored row with that row's value, or (-1, identity) when no level in range has one |
| Efficient.Upd | EfficientVersion/RBE-C++/include/algos.cpp:269-287 | the loop returns what the scan specification returns |
| Correctness.UpdLowestOccupied | EfficientVersion/RBE-C++/include/algos.cpp:269-287 | on an invariant-holding block, `upd` answers -1 exactly when no level is occupied, and otherwise the lowest occupied level, whoever sits there |
| Efficient.UpdFixedFrom | EfficientVersion/RBE-C++/include/algos.cpp:276-286 | the corrected scan: the first level whose stored row passes the key check against the stored public key, or (-1, identity) |
| Efficient.UpdFixed | EfficientVersion/RBE-C++/include/algos.cpp:269-287 | the corrected `upd` loop returns what the corrected scan returns |
| Efficient.FindComponent | EfficientVersion/RBE-C++/include/algos.cpp:304-310 | None exactly when no component has the level; otherwise the first index with that level |
| Efficient.DecSpec | EfficientVersion/RBE-C++/include/algos.cpp:289-345 | success and need-update are opposites; success exactly when the level is not -1, a component of that level exists and the verification equation holds on it |
| Efficient.Dec | EfficientVersion/RBE-C++/include/algos.cpp:289-362 | the loop returns the outcome of the specification function |
| Decryption.LevelVerifies | EfficientVersion/RBE-C++/include/algos.cpp:324-345 | under the efficient ladder with honest keys, the equation on a level that sums the users S holds for id exactly when id is in S |
| Decryption.MessageRecovered | EfficientVersion/RBE-C++/include/algos.cpp:348-357 | when the equation holds, the ciphertext unmasks to m, and for a non-zero key to nothing else |
| Correctness.HonestReplay | EfficientVersion/RBE-C++/include/algos.cpp:129-133 | after honest `reg` calls every registered user holds the key and helping values `gen` derives from its secret key |
| Correctness.BlockLevelVerifies | EfficientVersion/RBE-C++/include/algos.cpp:324-345 | on an aggregated level of id's block, id's row and commitment exist, and the equation holds exactly when id sits at that level |
| Correctness.ReplayRegistered | EfficientVersion/RBE-C++/include/algos.cpp:129-215 | after an honest history a registered user sits at an occupied level below the scan limit |
| Correctness.KeyCheckAtLevel | EfficientVersion/RBE-C++/include/algos.cpp:324-345 | after an honest history the key check on row id passes exactly at id's own level |
| Correctness.UpdFixedFindsLevel | EfficientVersion/RBE-C++/include/algos.cpp:269-287 | the corrected `upd` returns the user's own level |
| Correctness.DecCorrect | EfficientVersion/RBE-C++/include/algos.cpp:219-345 | with the corrected `upd`, a registered honest user's `dec` of `enc`'s output succeeds |
| Correctness.DecAfterUpdAsWritten | EfficientVersion/RBE-C++/include/algos.cpp:269-345 | if `dec` succeeds on the answer of `upd` as written, no level below the user's own is occupied |
| Correctness.UpdAsWrittenMisses | EfficientVersion/RBE-C++/include/algos.cpp:269-287 | when a level below the user's own is occupied, `upd` as written returns another level and `dec` fails |
| Correctness.UpdAsWrittenFails | EfficientVersion/RBE-C++/include/algos.cpp:269-287 | after honest ids 0, 1, 2 join block 0, user 0 is at level 1, `upd` answers a different level and `dec` fails |
| Basic.AddHelpingRow | BasicVersion/RBE-C++/include/algos.cpp:163-204 | after positions 0..i-1, a row of id's block other than id, with a helping value, holds its old value plus that value; every other row is unchanged |
| Basic.Reg | BasicVersion/RBE-C++/include/algos.cpp:129-208 | the loop leaves the store the specification function describes |
| Basic.RegEffect | BasicVersion/RBE-C++/include/algos.cpp:132-204 | a registered id changes nothing; otherwise the key is saved, only block id/n's commitment grows (by pk), and exactly the other rows of the block with a helping value grow by it |
| Basic.Dec | BasicVersion/RBE-C++/include/algos.cpp:272-343 | success and need-update are opposites; success exactly when the verification equation holds on ct0 |
| BasicCorrectness.ReplaySums | BasicVersion/RBE-C++/include/algos.cpp:140-204 | after any history each commitment is the sum of its block's keys, and each row r is the sum of the helping values its block's registrants gave for r's position |
| BasicCorrectness.OrderIndependent | BasicVersion/RBE-C++/include/algos.cpp:140-204 | two histories with the same registrants and helping values give the same commitments and updates |
| BasicCorrectness.SwapCommutes | BasicVersion/RBE-C++/include/algos.cpp:129-204 | two registrations of different ids give the same store in either order |
| BasicCorrectness.UpdIsRowSum | BasicVersion/RBE-C++/include/algos.cpp:266-270 | `upd` returns the sum, over id's block-mates, of their helping values for id's position |
| BasicCorrectness.DecCorrect | BasicVersion/RBE-C++/include/algos.cpp:212-343 | with the gap at n+1 and honest keys, `dec` of `enc` with the current `upd` succeeds exactly when id is registered, and then unmasks m |
| BasicCorrectness.StaleUpdateRefused | BasicVersion/RBE-C++/include/algos.cpp:272-305 | after another user joins the block, `dec` with the update fetched before the join fails (need update) |
| BasicCorrectness.LadderGapLeaksMessage | BasicVersion/RBE-C++/include/algos.cpp:212-262 | with the basic setup's gap at n, for a user at position 0 of a block, `enc` gives ct1 = identity and ct3 = m |
| BasicCorrectness.FixedLadderMasksMessage | EfficientVersion/RBE-C++/include/algos.cpp:32 | with the gap at n+1 and r != 0, ct3 differs from m |
| BasicCorrectness.NeighbourTermDropped | BasicVersion/RBE-C++/include/algos.cpp:80-117 | with the gap at n, user u's helping value for position u%n+1 is the identity; with the gap at n+1 it is z^n * sk |
| BasicCorrectness.TwoNeighbours | BasicVersion/RBE-C++/include/algos.cpp:140-204 | after ids 0 and 1 register, block 0's commitment is the sum of their keys and row 1 holds user 0's helping value for position 1 |
| BasicCorrectness.NeighbourRefused | BasicVersion/RBE-C++/include/algos.cpp:272-305 | with the basic setup and n >= 3, after honest ids 0 and 1 register, `dec` for user 1 with its current update fails |
| BasicStorage.BasicStore.constructor | BasicVersion/RBE-C++/include/SQLiteStorage.h:25-50 | a new store has three empty tables |
| BasicStorage.BasicStore.SaveUserPublicKey | BasicVersion/RBE-C++/include/SQLiteStorage.h:69-85 | insert-or-replace of the key; nothing else changes |
| BasicStorage.BasicStore.SavePPCommitment | BasicVersion/RBE-C++/include/SQLiteStorage.h:108-120 | insert-or-replace of the block's commitment; nothing else changes |
| BasicStorage.BasicStore.SaveAuxUpdate | BasicVersion/RBE-C++/include/SQLiteStorage.h:143-155 | insert-or-replace of the row's update; nothing else changes |

## Left out

- The elliptic-curve library (BLS12-381 groups, pairing, hashing to the curve): group elements are discrete logarithms, and the generators g1 and g2 are both modelled as 1.
- The group order: integers are unbounded, so nothing wraps modulo the order of Fr. As a result a sum of keys may be 0 only where the integers make it so.
- Field inversion in `dec`: message recovery is stated as the relation `Decryption.Unmasks`, (ct3 - m) * sk == ct1 - e(upd, ct2), not as a computed value.
- The floating-point `ceil(sqrt(N))` and `ceil(log2(n))`: they are replaced by their exact integer meanings `CeilSqrt` and `CeilLog2`. Rounding error for large N is not modelled.
- Randomness (`setRand` for z, sk and r): all are parameters. Efficient `enc` takes one random value per level as `rand[lvl]`.
- Console output and the `exit(1)` in `gen`: the abort is the `IndexOutOfRange` result.
- Negative ids: ids are `nat`. C++ `/` and `%` on negative ids are not modelled.
- SQLite itself (SQL text, serialization, error reporting) and the in-memory store: the store is a class of maps, with the insert-or-replace and missing-reads-as-zero behaviour of the SQLite store.
- Opening a store on a database file that already holds tables: the constructors model a fresh, empty database.
- The basic version's `gen` is identical to the efficient one and is modelled once as `KeyGen.Gen`.
- Basic `upd` and `enc` are the functions `Basic.Upd` and `Basic.Enc` over a store snapshot. They make no loop and change nothing; their properties are stated by `BasicCorrectness.UpdIsRowSum`, `BasicCorrectness.DecCorrect` and `BasicCorrectness.LadderGapLeaksMessage`.
- Efficient.Reg: requires at least n helping values, since the C++ code indexes positions 0..n-1 of the vector without a check.
- Correctness.DecCorrect: requires that the commitment at the user's level is not the identity. Over the integers a sum of keys can be 0, and `enc` skips identity commitments.
- BasicCorrectness.DecCorrect and BasicCorrectness.StaleUpdateRefused: they assume the corrected ladder (gap at n+1), since with the ladder as written `dec` fails for neighbours (see Findings).
- Tests, benchmarks, `main_full.cpp` and `my_utils.h` are not part of this model.

## Findings

| source | as written | input that shows it | evidently intended | confidence | as-written member | corrected member |
|---|---|---|---|---|---|---|
| EfficientVersion/RBE-C++/include/algos.cpp:269-287 | `upd` returns the first level at which row id has any update, and every occupied level of a block has a row for every position | ids 0, 1, 2 register into block 0 with n >= 3: user 0 sits at level 1 while user 2 occupies level 0, so `upd(0)` answers level 0 and `dec` for user 0 fails | return the level at which the user's own key is aggregated | high, not executed | Correctness.UpdAsWrittenFails | Efficient.UpdFixed |
| BasicVersion/RBE-C++/include/algos.cpp:30 | the basic `setup` leaves ladder slot n empty, while `gen` skips slot n+1 | ids 0 and 1 register into block 0 with n >= 3: user 0's helping value for position 1 reads the empty slot n, so row 1 lacks the term that cancels, and `dec` for user 1 fails | leave slot n+1 empty, as the efficient `setup` does | high, not executed | BasicCorrectness.NeighbourRefused | BasicCorrectness.DecCorrect |
| BasicVersion/RBE-C++/include/algos.cpp:30 | the same empty slot n is the slot `enc` pairs with for a user at position 0 | any user id with id % n == 0: ct1 is the identity and ct3 equals the message | leave slot n+1 empty, so that slot n masks the message | high, not executed | BasicCorrectness.LadderGapLeaksMessage | BasicCorrectness.FixedLadderMasksMessage |
