/** The early object-literal draft (src/archive.ts): `createChronicle`
    returns an object with the fields `currentRecord` and `pastRecords`, a
    computed `allRecords`, and `addRecord`, which updates the object in place
    and returns it for chaining. */
module Archive {
  import opened History

  class Chronicle<E> {
    var currentRecord: E
    var pastRecords: seq<E>

    /** Every record ever installed as current, oldest first. */
    ghost var installed: seq<E>

    ghost predicate Valid()
      reads this
    {
      installed != [] && [currentRecord] + pastRecords == Reverse(installed)
    }

    /** `createChronicle(initialRecord, options)`: the initial record is
        current and there are no past records. */
    constructor (initialRecord: E)
      ensures Valid()
      ensures currentRecord == initialRecord && pastRecords == [] && installed == [initialRecord]
    {
      currentRecord := initialRecord;
      pastRecords := [];
      installed := [initialRecord];
    }

    /** The `allRecords` getter: every installed record newest first, so one
        more than the past records. */
    function AllRecords(): (all: seq<E>)
      reads this
      requires Valid()
      ensures all == Reverse(installed) && |all| == 1 + |pastRecords|
      ensures all[0] == currentRecord && all[1..] == pastRecords
    {
      [currentRecord] + pastRecords
    }

    /** Move the current record to the front of the past records, install the
        new one, and return the same object. */
    method AddRecord(newRecord: E) returns (self: Chronicle<E>)
      requires Valid()
      modifies this
      ensures self == this && Valid()
      ensures pastRecords == [old(currentRecord)] + old(pastRecords) && currentRecord == newRecord
      ensures installed == old(installed) + [newRecord]
      ensures AllRecords() == [newRecord] + old(AllRecords())
    {
      pastRecords := [currentRecord] + pastRecords;
      currentRecord := newRecord;
      ReverseSnoc(installed, newRecord);
      installed := installed + [newRecord];
      self := this;
    }
  }

  /** The module's own example: two records added to 'initial record' give
      the full history newest first. */
  method ArchiveExample() returns (all: seq<string>)
    ensures all == ["record 3", "record 2", "initial record"]
  {
    var archive := new Chronicle("initial record");
    var same := archive.AddRecord("record 2");
    same := same.AddRecord("record 3");
    all := archive.AllRecords();
  }
}
