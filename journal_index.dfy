/**
 * The journal index: a B-tree from the create time of each journal to the
 * serialized resource-metadata record of that journal, answering "which
 * journal was current at time t" by a floor search.
 */
module Journal {
  import opened Int64
  import opened Wrappers
  import opened OrderedStore

  /**
   * A resource-metadata record: the create time of a journal and the rest of
   * the record (file, identifiers, ...), which the index never inspects.
   */
  datatype ResourceMetadata<P> = ResourceMetadata(createTime: Long, details: P)

  /** The bytes a record is stored as in the B-tree. */
  datatype Serialized<P> = Serialized(image: ResourceMetadata<P>)

  /** The reasons the Java code throws `IllegalArgumentException`. */
  datatype Error =
    | NullRecord                  // `add(null)` or `serializeEntry(null)`
    | ZeroCreateTime              // `add` of a record whose create time is 0
    | EntryExists(time: Long)     // `add` of a create time that is already a key
    | NonPositiveTimestamp        // `find` of a timestamp that is not positive

  /**
   * The B-tree key of a commit time. The key encoding is modelled as the time
   * itself: what the index needs of it is that it is injective and preserves
   * order, which `KeyOrder` states.
   */
  function GetKey(commitTime: Long): (key: Long) {
    commitTime
  }

  lemma KeyOrder(a: Long, b: Long)
    ensures GetKey(a) < GetKey(b) <==> a < b
    ensures GetKey(a) == GetKey(b) <==> a == b
  {
  }

  /** Serializes a record; a `null` record is refused. */
  function SerializeEntry<P>(entry: Option<ResourceMetadata<P>>): (r: Result<Serialized<P>, Error>)
    ensures entry.None? <==> r == Failure(NullRecord)
    ensures entry.Some? <==> r.Success?
    ensures r.Success? ==> DeserializeEntry(r.value) == entry.value
  {
    match entry
    case None => Failure(NullRecord)
    case Some(e) => Success(Serialized(e))
  }

  /** Materializes the record held in serialized form. */
  function DeserializeEntry<P>(data: Serialized<P>): (entry: ResourceMetadata<P>) {
    data.image
  }

  /** Every serialized form is the serialization of the record it decodes to. */
  lemma SerializedRoundTrip<P>(data: Serialized<P>)
    ensures SerializeEntry(Some(DeserializeEntry(data))) == Success(data)
  {
  }

  /**
   * `p` is the floor position of `t` in `keys`: the last position whose key is
   * at most `t`, or -1 when every key is greater than `t`.
   */
  ghost predicate IsFloor(keys: seq<Long>, t: Long, p: int) {
    -1 <= p < |keys| &&
    (0 <= p ==> keys[p] <= t) &&
    (forall i :: p < i < |keys| ==> t < keys[i])
  }

  /** At most one position is the floor of `t`, whatever the order of `keys`. */
  lemma FloorUnique(keys: seq<Long>, t: Long, p: int, q: int)
    requires IsFloor(keys, t, p) && IsFloor(keys, t, q)
    ensures p == q
  {
  }

  /**
   * Reference floor search: scan backwards from the last key for the first
   * key at most `t`. It needs no ordering and no sign-encoded search.
   */
  function LastAtOrBefore(keys: seq<Long>, t: Long): (p: int)
    ensures IsFloor(keys, t, p)
  {
    if |keys| == 0 then -1
    else if keys[|keys| - 1] <= t then |keys| - 1
    else LastAtOrBefore(keys[..|keys| - 1], t)
  }

  /**
   * Inserting a key `k` greater than `t` leaves the floor of `t` where it was,
   * strictly before the insertion point.
   */
  lemma InsertKeepsFloorBelow(keys: seq<Long>, k: Long, t: Long, p: int)
    requires Ascending(keys) && k !in keys
    requires t < k
    requires IsFloor(keys, t, p)
    ensures p < InsertionPoint(keys, k)
    ensures IsFloor(InsertAt(keys, InsertionPoint(keys, k), k), t, p)
  {
  }

  /** Each value is the serialized record whose create time is the key it is stored under. */
  ghost predicate KeyedByCreateTime<P>(keys: seq<Long>, vals: seq<Serialized<P>>) {
    |keys| == |vals| &&
    forall i :: 0 <= i < |keys| ==> GetKey(DeserializeEntry(vals[i]).createTime) == keys[i]
  }

  /** Storing a record under the key of its own create time keeps every record under its own key. */
  lemma InsertKeepsRecordKeys<P>(keys: seq<Long>, vals: seq<Serialized<P>>, ip: nat, rec: ResourceMetadata<P>)
    requires KeyedByCreateTime(keys, vals)
    requires ip <= |keys|
    ensures KeyedByCreateTime(InsertAt(keys, ip, GetKey(rec.createTime)), InsertAt(vals, ip, Serialized(rec)))
  {
  }

  class JournalIndex<P> {
    /** The B-tree's keys, in key order. */
    var keys: seq<Long>
    /** The B-tree's values: `vals[i]` is stored under `keys[i]`. */
    var vals: seq<Serialized<P>>

    /** What the B-tree guarantees: one value per key, keys strictly ascending. */
    ghost predicate StoreValid()
      reads this
    {
      |keys| == |vals| && Ascending(keys)
    }

    /** The journal index's invariant: each record is stored under its own create time. */
    ghost predicate Valid()
      reads this
    {
      StoreValid() && KeyedByCreateTime(keys, vals)
    }

    /** A new, empty index. */
    constructor ()
      ensures Valid()
      ensures keys == [] && vals == []
      ensures forall t: Long :: 0 < t ==> Find(t) == Success(None)
    {
      keys := [];
      vals := [];
    }

    /**
     * The position of the entry with the largest create time at most
     * `timestamp`, or -1 when there is none.
     */
    function FindIndexOf(timestamp: Long): (pos: int)
      reads this
      requires StoreValid()
      ensures IsFloor(keys, timestamp, pos)
      ensures pos == -1 <==> forall i :: 0 <= i < |keys| ==> timestamp < keys[i]
      ensures 0 <= pos ==> pos < |keys| && keys[pos] <= timestamp
      ensures 0 <= pos ==> pos == |keys| - 1 || timestamp < keys[pos + 1]
      ensures 0 <= IndexOf(keys, GetKey(timestamp)) ==> pos == IndexOf(keys, GetKey(timestamp))
    {
      var pos := IndexOf(keys, GetKey(timestamp));
      if pos < 0 then
        // a miss: decode the insertion point, the floor is just before it
        var ip := -(pos + 1);
        if ip == 0 then -1 else ip - 1
      else
        // an exact hit
        pos
    }

    /**
     * The record of the journal with the largest create time at most
     * `timestamp`, or `None` when there is none; a timestamp that is not
     * positive is refused.
     */
    function Find(timestamp: Long): (r: Result<Option<ResourceMetadata<P>>, Error>)
      reads this
      requires Valid()
      ensures timestamp <= 0 <==> r == Failure(NonPositiveTimestamp)
      ensures 0 < timestamp ==> r.Success?
      ensures r.Success? ==> (r.value.None? <==> FindIndexOf(timestamp) == -1)
      ensures r.Success? && r.value.None? ==>
        forall i :: 0 <= i < |vals| ==> timestamp < DeserializeEntry(vals[i]).createTime
      ensures r.Success? && r.value.Some? ==>
        Serialized(r.value.value) in vals &&
        r.value.value.createTime <= timestamp &&
        forall i :: 0 <= i < |vals| && DeserializeEntry(vals[i]).createTime <= timestamp ==>
          DeserializeEntry(vals[i]).createTime <= r.value.value.createTime
    {
      if timestamp <= 0 then Failure(NonPositiveTimestamp)
      else
        var index := FindIndexOf(timestamp);
        if index == -1 then Success(None)
        else Success(Some(DeserializeEntry(vals[index])))
    }

    /**
     * The B-tree's insert: overwrites the value of a key already present,
     * otherwise places the new entry at its ordered position.
     */
    method Insert(key: Long, value: Serialized<P>)
      requires StoreValid()
      modifies this
      ensures StoreValid()
      ensures key in old(keys) ==>
        keys == old(keys) && vals == old(vals)[IndexOf(old(keys), key) := value]
      ensures key !in old(keys) ==>
        keys == InsertAt(old(keys), InsertionPoint(old(keys), key), key) &&
        vals == InsertAt(old(vals), InsertionPoint(old(keys), key), value)
    {
      var pos := IndexOf(keys, key);
      if 0 <= pos {
        vals := vals[pos := value];
      } else {
        var ip := -(pos + 1);
        InsertKeepsAscending(keys, key);
        InsertAtIndex(keys, ip, key);
        InsertAtIndex(vals, ip, value);
        keys := InsertAt(keys, ip, key);
        vals := InsertAt(vals, ip, value);
      }
    }

    /**
     * Adds a record under its create time. Refuses a `null` record, a create
     * time of 0 and a create time that is already present, leaving the index
     * unchanged; otherwise adds exactly that one entry.
     */
    method Add(metadata: Option<ResourceMetadata<P>>) returns (r: Outcome<Error>)
      requires Valid()
      modifies this
      ensures Valid()
      ensures metadata.None? ==> r == Fail(NullRecord)
      ensures metadata.Some? && metadata.value.createTime == 0 ==> r == Fail(ZeroCreateTime)
      ensures metadata.Some? && metadata.value.createTime != 0 && metadata.value.createTime in old(keys) ==>
        r == Fail(EntryExists(metadata.value.createTime))
      ensures r.Fail? ==> keys == old(keys) && vals == old(vals)
      ensures r.Pass? <==>
        metadata.Some? && metadata.value.createTime != 0 && metadata.value.createTime !in old(keys)
      ensures r.Pass? ==>
        keys == InsertAt(old(keys), InsertionPoint(old(keys), metadata.value.createTime), metadata.value.createTime) &&
        vals == InsertAt(old(vals), InsertionPoint(old(keys), metadata.value.createTime), Serialized(metadata.value))
      ensures r.Pass? ==>
        |keys| == |old(keys)| + 1 &&
        forall k :: k in keys <==> k in old(keys) || k == metadata.value.createTime
    {
      if metadata.None? {
        r := Fail(NullRecord);
      } else if metadata.value.createTime == 0 {
        r := Fail(ZeroCreateTime);
      } else {
        var key := GetKey(metadata.value.createTime);
        if Contains(keys, key) {
          r := Fail(EntryExists(metadata.value.createTime));
        } else {
          var data := SerializeEntry(metadata);
          ghost var ip := InsertionPoint(keys, key);
          InsertKeepsAscending(keys, key);
          InsertKeepsRecordKeys(keys, vals, ip, metadata.value);
          Insert(key, data.value);
          r := Pass;
        }
      }
    }
  }

  /** A probe equal to a stored create time finds exactly that entry. */
  lemma ExactHitIsFound<P>(index: JournalIndex<P>, i: int)
    requires index.Valid()
    requires 0 <= i < |index.keys| && 0 < index.keys[i]
    ensures index.FindIndexOf(index.keys[i]) == i
    ensures index.Find(index.keys[i]) == Success(Some(DeserializeEntry(index.vals[i])))
  {
  }

  /**
   * Adding a record with create time `k` leaves the floor of every earlier
   * timestamp at the same position, holding the same record.
   */
  lemma AddKeepsEarlierFloors<P>(index: JournalIndex<P>, keys: seq<Long>, vals: seq<Serialized<P>>, k: Long, v: Serialized<P>)
    requires Ascending(keys) && |keys| == |vals| && k !in keys
    requires index.keys == InsertAt(keys, InsertionPoint(keys, k), k)
    requires index.vals == InsertAt(vals, InsertionPoint(keys, k), v)
    ensures index.StoreValid()
    ensures forall t :: t < k ==> index.FindIndexOf(t) == LastAtOrBefore(keys, t)
    ensures forall t :: t < k && 0 <= LastAtOrBefore(keys, t) ==> index.vals[LastAtOrBefore(keys, t)] == vals[LastAtOrBefore(keys, t)]
  {
    var ip := InsertionPoint(keys, k);
    InsertKeepsAscending(keys, k);
    InsertAtIndex(vals, ip, v);
    forall t | t < k
      ensures index.FindIndexOf(t) == LastAtOrBefore(keys, t)
      ensures 0 <= LastAtOrBefore(keys, t) ==> index.vals[LastAtOrBefore(keys, t)] == vals[LastAtOrBefore(keys, t)]
    {
      var p := LastAtOrBefore(keys, t);
      InsertKeepsFloorBelow(keys, k, t, p);
      FloorUnique(index.keys, t, p, index.FindIndexOf(t));
    }
  }

  /** The sign-decoding floor search agrees with the backward scan on every input. */
  lemma FindIndexOfMatchesScan<P>(index: JournalIndex<P>, t: Long)
    requires index.StoreValid()
    ensures index.FindIndexOf(t) == LastAtOrBefore(index.keys, t)
  {
  }
}
