/**
 * The map-backed OntapKVRecordStore of ontapkv_record_store_mock.cpp and its
 * cursor OntapKVIterator: records live in a std::map from id to an owned
 * copy of the bytes, ids are handed out from 1, and the record and byte
 * counters follow the add-then-reset rule of KvCounters.
 */
module MockRecordStore {
  import opened KvTypes
  import opened OrderedKeys
  import opened KvCounters
  import opened MockBackend

  class RecordStoreMock {
    /** _kvmap: record id to the record's bytes. */
    var kvmap: map<int64, Bytes>
    /** _nextIdNum: the id the next insert takes. */
    var nextIdNum: int64
    var numRecords: int64
    var dataSize: int64

    /** Every stored record is shorter than 2^31 bytes: RecordData sizes are int. */
    ghost predicate Valid()
      reads this
    {
      forall k :: k in kvmap ==> |kvmap[k]| < TWO_31
    }

    /** The constructor seeds the id counter with 1; the map and both counters start empty. */
    constructor ()
      ensures Valid()
      ensures kvmap == map[] && nextIdNum == 1 && numRecords == 0 && dataSize == 0
    {
      kvmap := map[];
      nextIdNum := 1;
      numRecords := 0;
      dataSize := 0;
    }

    /** getNextRecordId: the counter before fetchAndAdd(1), which must be a normal id. */
    method GetNextRecordId() returns (id: int64)
      requires IsNormal(nextIdNum)
      modifies this
      ensures id == old(nextIdNum) && nextIdNum == id + 1
      ensures kvmap == old(kvmap) && numRecords == old(numRecords) && dataSize == old(dataSize)
    {
      id := nextIdNum;
      nextIdNum := nextIdNum + 1;
    }

    /** _changeNumRecords. */
    method ChangeNumRecords(diff: int64)
      modifies this
      ensures numRecords == AddThenReset(old(numRecords), diff)
      ensures kvmap == old(kvmap) && nextIdNum == old(nextIdNum) && dataSize == old(dataSize)
    {
      var prev := numRecords;
      numRecords := Wrap64(numRecords + diff);
      if prev < 0 {
        numRecords := if diff > 0 then diff else 0;
      }
    }

    /** _increaseDataSize. */
    method IncreaseDataSize(amount: int64)
      modifies this
      ensures dataSize == AddThenReset(old(dataSize), amount)
      ensures kvmap == old(kvmap) && nextIdNum == old(nextIdNum) && numRecords == old(numRecords)
    {
      var prev := dataSize;
      dataSize := Wrap64(dataSize + amount);
      if prev < 0 {
        dataSize := if amount > 0 then amount else 0;
      }
    }

    /**
     * insertRecord: the next id, one more record, len more bytes, and an
     * owned copy of the bytes stored under the id.
     */
    method InsertRecord(data: array<byte>, len: int32) returns (s: StatusWithId)
      requires Valid() && 0 <= len <= data.Length && IsNormal(nextIdNum)
      modifies this
      ensures Valid()
      ensures s == Ok(old(nextIdNum)) && nextIdNum == old(nextIdNum) + 1
      ensures kvmap == old(kvmap)[old(nextIdNum) := data[..len]]
      ensures numRecords == AddThenReset(old(numRecords), 1)
      ensures dataSize == AddThenReset(old(dataSize), len)
    {
      var id := GetNextRecordId();
      ChangeNumRecords(1);
      IncreaseDataSize(len);
      var rd := Owned(data[..len]);
      kvmap := kvmap[id := rd];
      s := Ok(id);
    }

    /** findRecord: false for an absent id (the caller's record untouched), else true and a copy. */
    method FindRecord(id: int64, out: Bytes) returns (found: bool, result: Bytes)
      ensures found <==> id in kvmap
      ensures result == if found then kvmap[id] else out
    {
      if id !in kvmap {
        return false, out;
      }
      result := Owned(kvmap[id]);
      found := true;
    }

    /** dataFor: findRecord into an empty record. */
    method DataFor(id: int64) returns (rd: Bytes)
      ensures rd == if id in kvmap then kvmap[id] else []
    {
      var found;
      found, rd := FindRecord(id, []);
    }

    /**
     * deleteRecord: _kvmap[key] default-inserts an empty record for an absent
     * id, and an empty record stays with the counters unchanged. A non-empty
     * record is erased, with one record and its length taken off the counters.
     */
    method DeleteRecord(id: int64)
      requires Valid()
      modifies this
      ensures Valid()
      ensures nextIdNum == old(nextIdNum)
      ensures var rd := if id in old(kvmap) then old(kvmap)[id] else [];
              if |rd| == 0 then
                kvmap == old(kvmap)[id := rd]
                && numRecords == old(numRecords) && dataSize == old(dataSize)
              else
                kvmap == old(kvmap) - {id}
                && numRecords == AddThenReset(old(numRecords), -1)
                && dataSize == AddThenReset(old(dataSize), -|rd|)
    {
      var rd := if id in kvmap then kvmap[id] else [];
      kvmap := kvmap[id := rd];
      if |rd| == 0 {
        return;
      }
      var length: int64 := |rd|;
      kvmap := kvmap - {id};
      ChangeNumRecords(-1);
      IncreaseDataSize(-length);
    }

    /**
     * updateRecord: an absent id falls back to insertRecord (a fresh id). A
     * present one has len minus its old length added to the byte count, gets
     * the new bytes, and keeps its id; the record count does not change.
     */
    method UpdateRecord(oldLocation: int64, data: array<byte>, len: int32) returns (s: StatusWithId)
      requires Valid() && 0 <= len <= data.Length
      requires oldLocation !in kvmap ==> IsNormal(nextIdNum)
      modifies this
      ensures Valid()
      ensures oldLocation in old(kvmap) ==>
                s == Ok(oldLocation) && nextIdNum == old(nextIdNum)
                && kvmap == old(kvmap)[oldLocation := data[..len]]
                && numRecords == old(numRecords)
                && dataSize == AddThenReset(old(dataSize), len - |old(kvmap)[oldLocation]|)
      ensures oldLocation !in old(kvmap) ==>
                s == Ok(old(nextIdNum)) && nextIdNum == old(nextIdNum) + 1
                && kvmap == old(kvmap)[old(nextIdNum) := data[..len]]
                && numRecords == AddThenReset(old(numRecords), 1)
                && dataSize == AddThenReset(old(dataSize), len)
    {
      if oldLocation !in kvmap {
        s := InsertRecord(data, len);
        return;
      }
      var oldLen: int32 := |kvmap[oldLocation]|;
      IncreaseDataSize(len - oldLen);
      var rd := Owned(data[..len]);
      kvmap := kvmap[oldLocation := rd];
      s := Ok(oldLocation);
    }

    /** updateStatsAfterRepair: both counters take exactly the given values. */
    method UpdateStatsAfterRepair(numRecords: int64, dataSize: int64)
      modifies this
      ensures this.numRecords == numRecords && this.dataSize == dataSize
      ensures kvmap == old(kvmap) && nextIdNum == old(nextIdNum)
    {
      this.numRecords := numRecords;
      this.dataSize := dataSize;
    }
  }

  /** OntapKVIterator: the cursor over a record store's map. */
  class CursorMock {
    const rs: RecordStoreMock
    const forward: bool
    /** _curr: 0 before the first call, then the key to resume from, LLONG_MAX at the end. */
    var curr: int64

    constructor (rs: RecordStoreMock, forward: bool)
      ensures this.rs == rs && this.forward == forward && curr == 0
    {
      this.rs := rs;
      this.forward := forward;
      curr := 0;
    }

    /** next, forward direction: as for the mock backend's iterator. */
    method Next() returns (rec: Option<Record>)
      requires forward
      modifies this
      ensures (rec, curr) == ForwardNext(rs.kvmap, old(curr))
    {
      if curr == INT64_MAX {
        return None;
      }
      var searchKey := if curr == 0 then FIRST_RECORD_ID else curr;
      var iter := LowerBound(rs.kvmap, searchKey);
      if iter.None? {
        curr := INT64_MAX;
        return None;
      }
      var key := iter.value;
      rec := Some(Record(key, rs.kvmap[key]));
      var succ := LowerBound(rs.kvmap, key as int + 1);
      curr := if succ.None? then INT64_MAX else succ.value;
    }

    /** seekExact: nothing for an absent id, otherwise its record through dataFor. */
    method SeekExact(id: int64) returns (rec: Option<Record>)
      ensures rec == if id in rs.kvmap then Some(Record(id, rs.kvmap[id])) else None
    {
      if id !in rs.kvmap {
        return None;
      }
      var rd := rs.DataFor(id);
      rec := Some(Record(id, rd));
    }
  }

  /**
   * Inserting from a fresh store: ids 1, 2, .. in order; while nothing is
   * deleted the counters are the number of records and the sum of their
   * lengths.
   */
  method InsertTwiceFromFresh(a: array<byte>, la: int32, b: array<byte>, lb: int32)
    returns (rs: RecordStoreMock, first: StatusWithId, second: StatusWithId)
    requires 0 <= la <= a.Length && 0 <= lb <= b.Length
    ensures rs.Valid() && first == Ok(1) && second == Ok(2)
    ensures rs.kvmap == map[1 := a[..la], 2 := b[..lb]]
    ensures rs.numRecords == 2 && rs.dataSize == la + lb
  {
    rs := new RecordStoreMock();
    first := rs.InsertRecord(a, la);
    second := rs.InsertRecord(b, lb);
  }
}
