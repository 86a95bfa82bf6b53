# Journal index: a verified model of the temporal floor search

`JournalIndex` is a B-tree that maps the create time of each journal (a Java
`long`) to the serialized resource-metadata record of that journal. A
transaction manager asks it "which journal was current at time `t`?": `find`
returns the record with the largest create time at most `t`, or `null`.
`findIndexOf` does the same search but returns the position, decoding the
B-tree's sign-encoded `indexOf` result (an exact hit is a position `p >= 0`,
a miss is `-(insertionPoint + 1)`). `add` validates a record, refuses a
create time that is already a key, and inserts one entry.

The Dafny model:

- `int64.dfy` (`Int64`): Java's `long` as a newtype.
- `wrappers.dfy` (`Wrappers`): `Option` for `null`, `Result`/`Outcome` for thrown exceptions.
- `ordered_store.dfy` (`OrderedStore`): the part of the B-tree the index relies on. The keys are a
  strictly ascending `seq<Long>`. `IndexOf` returns the sign-encoded search result. `Contains` is
  the existence test. `InsertAt` places a new entry at its insertion point.
- `journal_index.dfy` (`Journal`): the record and its serialized form, `GetKey`,
  `SerializeEntry`/`DeserializeEntry`, and the class `JournalIndex` with the B-tree's `keys` and
  `vals` as fields. `FindIndexOf` and `Find` are functions that read the fields. `Insert` (the
  B-tree's insert) and `Add` are methods that update them. The floor search is proved against
  `IsFloor` and against an independent backward scan, `LastAtOrBefore`.
- `journal_index_client.dfy` (`JournalClient`): journals at times 100, 300 and 200 added in that
  order, then probed at 250, 50, 300 and 0, and a second journal at 200 refused. It is proved
  from the contracts alone.

Behaviour the model keeps exactly as the code has it:

- `findIndexOf` does not validate its timestamp (`JournalIndex.java:204-241`). Only `find` refuses
  a timestamp `<= 0`.
- `add` refuses only a create time equal to `0` (`JournalIndex.java:265`). A negative create time
  is accepted and stored, and `find` of a positive timestamp can return it.
- All refusals are `IllegalArgumentException` in the code. The model's `Error` datatype names the
  reason (`NullRecord`, `ZeroCreateTime`, `EntryExists`, `NonPositiveTimestamp`). There is no
  separate duplicate-key or corruption error.

## Model

| member | source | states |
|---|---|---|
| `OrderedStore.InsertionPoint` | bigdata/src/java/com/bigdata/journal/JournalIndex.java:210-218 | the insertion point is in `[0, size]`; every key before it is smaller than the probe, and the key at it (if any) is not smaller |
| `OrderedStore.IndexOf` | bigdata/src/java/com/bigdata/journal/JournalIndex.java:206-218 | a non-negative result is a position holding exactly the probe key; a negative result occurs iff the key is absent, and `-(r+1)` is then in `[0, size]` with smaller keys before it and larger keys from it on |
| `OrderedStore.Contains` | bigdata/src/java/com/bigdata/journal/JournalIndex.java:270 | the existence test is true iff the key is stored |
| `OrderedStore.InsertAtIndex` | bigdata/src/java/com/bigdata/journal/JournalIndex.java:278 | an insertion grows the entries by one, keeps every entry before the insertion point, puts the new one at it and shifts the rest up by one |
| `OrderedStore.InsertAtMembers` | bigdata/src/java/com/bigdata/journal/JournalIndex.java:278 | after an insertion the stored keys are the old keys plus the new key |
| `OrderedStore.InsertKeepsAscending` | bigdata/src/java/com/bigdata/journal/JournalIndex.java:268-278 | inserting an absent key at its insertion point keeps the keys strictly ascending |
| `OrderedStore.AscendingUnique` | bigdata/src/java/com/bigdata/journal/JournalIndex.java:258-280 | two strictly ascending key sequences holding the same keys are equal; with `Add`'s membership guarantee, position `i` holds the `i`-th smallest create time added, whatever order the adds came in |
| `Journal.KeyOrder` | bigdata/src/java/com/bigdata/journal/JournalIndex.java:97-104 | the key `GetKey` gives a commit time is injective and preserves order |
| `Journal.SerializeEntry` | bigdata/src/java/com/bigdata/journal/JournalIndex.java:290-297 | a `null` entry is refused and nothing else is; every other entry is serialized to bytes that `DeserializeEntry` turns back into it |
| `Journal.SerializedRoundTrip` | bigdata/src/java/com/bigdata/journal/JournalIndex.java:307-311 | `DeserializeEntry` inverts serialization: every stored serialized form is the serialization of the record it deserializes to |
| `Journal.FloorUnique` | bigdata/src/java/com/bigdata/journal/JournalIndex.java:195-203 | at most one position is the floor of a timestamp |
| `Journal.LastAtOrBefore` | bigdata/src/java/com/bigdata/journal/JournalIndex.java:195-203 | the reference backward scan returns the floor position: the last key at most the timestamp, or -1 when all keys are greater |
| `Journal.InsertKeepsFloorBelow` | bigdata/src/java/com/bigdata/journal/JournalIndex.java:268-278 | inserting a key larger than `t` leaves the floor of `t` at the same position, before the insertion point |
| `Journal.InsertKeepsRecordKeys` | bigdata/src/java/com/bigdata/journal/JournalIndex.java:268-278 | storing a record under the key of its create time keeps every record stored under its own create time |
| `Journal.JournalIndex.constructor` | bigdata/src/java/com/bigdata/journal/JournalIndex.java:63-71 | a new index is empty and `find` of every positive timestamp returns no record |
| `Journal.JournalIndex.FindIndexOf` | bigdata/src/java/com/bigdata/journal/JournalIndex.java:204-241 | the result is the floor position: -1 iff every stored key is greater than the timestamp; otherwise a position whose key is at most the timestamp and whose successor (if any) is greater; an exact hit from `indexOf` is returned unchanged |
| `Journal.JournalIndex.Find` | bigdata/src/java/com/bigdata/journal/JournalIndex.java:170-193 | a timestamp `<= 0` is refused and a positive one never is; for a positive timestamp, no record iff `findIndexOf` is -1, else a stored record with create time at most the timestamp and no smaller than any other stored create time at most the timestamp |
| `Journal.JournalIndex.Insert` | bigdata/src/java/com/bigdata/journal/JournalIndex.java:278 | the B-tree insert overwrites the value of a present key, and otherwise places the new entry at its insertion point, keeping the keys strictly ascending |
| `Journal.JournalIndex.Add` | bigdata/src/java/com/bigdata/journal/JournalIndex.java:258-280 | refuses a `null` record, a create time of 0 and a create time already present, leaving keys and values unchanged; otherwise inserts exactly that record at its ordered position, keeping the index valid and growing it by one |
| `Journal.ExactHitIsFound` | bigdata/src/java/com/bigdata/journal/JournalIndex.java:231-237 | probing a stored positive create time yields its own position and its own record |
| `Journal.AddKeepsEarlierFloors` | bigdata/src/java/com/bigdata/journal/JournalIndex.java:258-280 | after adding create time `k`, `findIndexOf` of every timestamp below `k` is the floor in the old keys, and that position holds the same value as before |
| `Journal.FindIndexOfMatchesScan` | bigdata/src/java/com/bigdata/journal/JournalIndex.java:195-203 | the sign-decoding floor search agrees with the backward scan on every input |
| `JournalClient.BuildExample` | bigdata/src/java/com/bigdata/journal/JournalIndex.java:258-280 | adding create times 100, 300, 200 in that order leaves the entries sorted by create time |
| `JournalClient.FloorSearchExample` | bigdata/src/java/com/bigdata/journal/JournalIndex.java:152-169 | over 100, 200, 300, the timestamp 250 finds 200, 50 finds nothing, 300 finds 300, 0 is refused, and a second 200 is refused as an existing entry |

## Left out

- B-tree internals and persistence are not modelled: `create`'s index metadata and random UUID (`JournalIndex.java:65-69`), the checkpoint-loading constructor (`JournalIndex.java:83-87`), the raw store and checkpoints. The B-tree is a pair of parallel sequences with strictly ascending keys.
- `Journal.KeyOrder`: the byte layout of the `KeyBuilder` key (`JournalIndex.java:102`) is not modelled, because `KeyBuilder` is not part of this model. The key is the commit time itself, so injectivity and order preservation hold by construction rather than being proved of a byte encoding.
- `Journal.SerializeEntry`: Java object serialization (`SerializerUtil`) is a foreign call. The serialized form is a wrapper around the record, so deserialization cannot fail and no corruption error is modelled.
- The reuse of one mutable `keyBuilder` buffer by `getKey` is not modelled. It matters only for thread safety.
- `synchronized` and the single-writer locking discipline are left out. The model is single-threaded.
- Positions are unbounded integers. The B-tree's positions are Java `int`. The decoding `-(pos + 1)` cannot overflow for any `int` that `indexOf` returns, but an index of more than 2^31 - 1 entries is not modelled.
- The commented-out `hasTimestamp` and `get` (`JournalIndex.java:106-150`) are not live code.
- `bigdata-blueprints/src/test/com/bigdata/blueprints/AbstractTestBigdataGraph.java` is test-suite set-up with no index logic. It is not part of this model.
