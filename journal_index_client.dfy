/**
 * A client of the journal index that relies on its contracts alone: three
 * journals created at times 100, 300 and 200 (in that order), probed below,
 * between and on their create times, and a second journal at time 200
 * refused.
 */
module JournalClient {
  import opened Int64
  import opened Wrappers
  import opened OrderedStore
  import opened Journal

  /** Adding out of order still leaves the entries in create-time order. */
  method BuildExample() returns (index: JournalIndex<string>)
    ensures fresh(index) && index.Valid()
    ensures index.keys == [100, 200, 300]
    ensures index.vals == [Serialized(ResourceMetadata(100, "first")),
                           Serialized(ResourceMetadata(200, "second")),
                           Serialized(ResourceMetadata(300, "third"))]
  {
    index := new JournalIndex<string>();
    var r := index.Add(Some(ResourceMetadata(100, "first")));
    assert index.keys == [100];
    r := index.Add(Some(ResourceMetadata(300, "third")));
    assert InsertionPoint([100], 300) == 1;
    assert index.keys == [100, 300];
    r := index.Add(Some(ResourceMetadata(200, "second")));
    assert InsertionPoint([100, 300], 200) == 1;
  }

  /** Floor search over the example, and the refused duplicate. */
  method FloorSearchExample()
    returns (at250: Result<Option<ResourceMetadata<string>>, Error>,
             at50: Result<Option<ResourceMetadata<string>>, Error>,
             at300: Result<Option<ResourceMetadata<string>>, Error>,
             at0: Result<Option<ResourceMetadata<string>>, Error>,
             again200: Outcome<Error>)
    ensures at250 == Success(Some(ResourceMetadata(200, "second")))
    ensures at50 == Success(None)
    ensures at300 == Success(Some(ResourceMetadata(300, "third")))
    ensures at0 == Failure(NonPositiveTimestamp)
    ensures again200 == Fail(EntryExists(200))
  {
    var index := BuildExample();
    again200 := index.Add(Some(ResourceMetadata(200, "duplicate")));
    FindIndexOfMatchesScan(index, 250);
    FindIndexOfMatchesScan(index, 50);
    FindIndexOfMatchesScan(index, 300);
    at250 := index.Find(250);
    at50 := index.Find(50);
    at300 := index.Find(300);
    at0 := index.Find(0);
  }
}
