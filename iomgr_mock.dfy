/**
 * OntapKVIOMgr_mock and OntapKVIterator_mock of ontapkv_iomgr_mock.cpp: the
 * in-memory backend, a std::map from record id to an owned copy of the
 * record's bytes, with an id counter seeded from the store id, and its
 * forward cursor.
 */
module MockBackend {
  import opened KvTypes
  import opened IpcMessages
  import opened OrderedKeys

  /** RecordData(data, len).getOwned(): a freshly allocated copy of the bytes. */
  method Owned(src: Bytes) returns (copy: Bytes)
    ensures copy == src
  {
    var buf := new byte[|src|];
    Memcpy(buf, 0, src);
    assert buf[..] == buf[..0 + |src|];
    copy := buf[..];
  }

  class IOMgrMock {
    /** _kvmap: record id to the record's bytes. */
    var kvmap: map<int64, Bytes>
    /** _nextIdNum: the id the next write takes. */
    var nextIdNum: int64

    /** The constructor seeds the id counter with (rsid << 32) | 1; the map starts empty. */
    constructor (rsid: int64)
      ensures kvmap == map[] && nextIdNum == ShiftOr(rsid, 1)
    {
      kvmap := map[];
      nextIdNum := ShiftOr(rsid, 1);
    }

    /**
     * getNextRecordId: fetchAndAdd(1) hands out the counter's value before the
     * increment, and invariant(isNormal) rejects the null and maximum ids.
     */
    method GetNextRecordId() returns (id: int64)
      requires IsNormal(nextIdNum)
      modifies this
      ensures id == old(nextIdNum) && nextIdNum == id + 1 && kvmap == old(kvmap)
    {
      id := nextIdNum;
      nextIdNum := nextIdNum + 1;
    }

    /** writeRecord: the next id, under which an owned copy of the first len bytes is stored. */
    method WriteRecord(data: array<byte>, len: int32) returns (s: StatusWithId)
      requires 0 <= len <= data.Length && IsNormal(nextIdNum)
      modifies this
      ensures s == Ok(old(nextIdNum)) && nextIdNum == old(nextIdNum) + 1
      ensures kvmap == old(kvmap)[old(nextIdNum) := data[..len]]
    {
      var id := GetNextRecordId();
      var rd := Owned(data[..len]);
      kvmap := kvmap[id := rd];
      s := Ok(id);
    }

    /**
     * readRecord: an absent id reports false and leaves the caller's record
     * as it was; a present one reports true with a copy of its bytes.
     */
    method ReadRecord(id: int64, out: Bytes) returns (found: bool, result: Bytes)
      ensures found <==> id in kvmap
      ensures result == if found then kvmap[id] else out
    {
      if id !in kvmap {
        return false, out;
      }
      result := Owned(kvmap[id]);
      found := true;
    }

    /** dataFor: readRecord into an empty record, so an absent id gives no bytes. */
    method DataFor(id: int64) returns (rd: Bytes)
      ensures rd == if id in kvmap then kvmap[id] else []
    {
      var found;
      found, rd := ReadRecord(id, []);
    }

    /**
     * deleteRecord: _kvmap[key] default-inserts an empty record for an absent
     * id. An empty record (just inserted or stored empty) stays; a non-empty
     * one is erased.
     */
    method DeleteRecord(id: int64)
      modifies this
      ensures nextIdNum == old(nextIdNum)
      ensures var rd := if id in old(kvmap) then old(kvmap)[id] else [];
              kvmap == if |rd| == 0 then old(kvmap)[id := rd] else old(kvmap) - {id}
    {
      var rd := if id in kvmap then kvmap[id] else [];
      kvmap := kvmap[id := rd];
      if |rd| == 0 {
        return;
      }
      kvmap := kvmap - {id};
    }

    /**
     * updateRecord: an absent id is written as a new record under a fresh id
     * (not oldLocation); a present one gets the new bytes under the same id.
     */
    method UpdateRecord(oldLocation: int64, data: array<byte>, len: int32) returns (s: StatusWithId)
      requires 0 <= len <= data.Length
      requires oldLocation !in kvmap ==> IsNormal(nextIdNum)
      modifies this
      ensures oldLocation in old(kvmap) ==>
                s == Ok(oldLocation) && nextIdNum == old(nextIdNum)
                && kvmap == old(kvmap)[oldLocation := data[..len]]
      ensures oldLocation !in old(kvmap) ==>
                s == Ok(old(nextIdNum)) && nextIdNum == old(nextIdNum) + 1
                && kvmap == old(kvmap)[old(nextIdNum) := data[..len]]
    {
      if oldLocation !in kvmap {
        s := WriteRecord(data, len);
        return;
      }
      var rd := Owned(data[..len]);
      kvmap := kvmap[oldLocation := rd];
      s := Ok(oldLocation);
    }
  }

  class IteratorMock {
    const mgr: IOMgrMock
    const forward: bool
    /** _curr: 0 before the first call, then the key to resume from, LLONG_MAX at the end. */
    var curr: int64

    constructor (mgr: IOMgrMock, forward: bool)
      ensures this.mgr == mgr && this.forward == forward && curr == 0
    {
      this.mgr := mgr;
      this.forward := forward;
      curr := 0;
    }

    /**
     * next, forward direction: the record at lower_bound of the cursor, the
     * cursor moving to the following key or to LLONG_MAX.
     */
    method Next() returns (rec: Option<Record>)
      requires forward
      modifies this
      ensures (rec, curr) == ForwardNext(mgr.kvmap, old(curr))
    {
      if curr == INT64_MAX {
        return None;
      }
      var searchKey := if curr == 0 then FIRST_RECORD_ID else curr;
      var iter := LowerBound(mgr.kvmap, searchKey);
      if iter.None? {
        curr := INT64_MAX;
        return None;
      }
      var key := iter.value;
      rec := Some(Record(key, mgr.kvmap[key]));
      var succ := LowerBound(mgr.kvmap, key as int + 1);
      curr := if succ.None? then INT64_MAX else succ.value;
    }

    /** seekExact: nothing for an absent id, otherwise its record; the cursor does not move. */
    method SeekExact(id: int64) returns (rec: Option<Record>)
      ensures rec == if id in mgr.kvmap then Some(Record(id, mgr.kvmap[id])) else None
    {
      if id !in mgr.kvmap {
        return None;
      }
      var rd := mgr.DataFor(id);
      rec := Some(Record(id, rd));
    }
  }

  /** writeRecord followed by readRecord of the id it returns gives back the same bytes. */
  method WriteThenRead(m: IOMgrMock, data: array<byte>, len: int32, out: Bytes)
    returns (found: bool, result: Bytes)
    requires 0 <= len <= data.Length && IsNormal(m.nextIdNum)
    modifies m
    ensures found && result == data[..len]
  {
    var s := m.WriteRecord(data, len);
    found, result := m.ReadRecord(s.id, out);
  }

  /**
   * deleteRecord of an id that was never written leaves an empty record
   * behind, which readRecord then reports as present.
   */
  method DeleteAbsentThenRead(m: IOMgrMock, id: int64, out: Bytes) returns (found: bool, result: Bytes)
    requires id !in m.kvmap
    modifies m
    ensures found && result == []
  {
    m.DeleteRecord(id);
    found, result := m.ReadRecord(id, out);
  }
}
