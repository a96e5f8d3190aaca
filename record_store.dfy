/**
 * The OntapKVRecordStore façade of ontapkv_record_store.cpp: every record
 * operation goes to the IPC backend, the shared record cache is kept in step
 * under container 1234, and the record and byte counters follow the
 * add-then-reset rule of KvCounters.
 */
module RecordStoreFacade {
  import opened KvTypes
  import opened WireFormat
  import opened IpcMessages
  import opened CacheEntry
  import opened CacheManager
  import opened IpcBackend
  import opened KvCounters

  /** LENGTH_BLAH: what deleteRecord takes off the byte count, whatever the record's size. */
  const DELETE_CHARGE: int64 := 400

  class RecordStore {
    const rsId: int64
    /** The record cache shared by every store of the engine. */
    const cacheMgr: CacheMgr
    const ioMgr: IOMgrIPC
    /** _nextIdNum: seeded, but read by nothing (getNextRecordId is disabled). */
    var nextIdNum: int64
    var numRecords: int64
    var dataSize: int64

    /** The backend works on this store's cache, and the cache keeps its table invariant. */
    ghost predicate Valid()
      reads this, cacheMgr, cacheMgr.cache
    {
      ioMgr.cacheMgr == cacheMgr && cacheMgr.Valid()
    }

    /**
     * The constructor seeds _nextIdNum with (rsID << 32) | 1 and builds the
     * IPC backend for rsID on the given cache; both counters start at 0.
     */
    constructor (cacheMgr: CacheMgr, rsID: int64, txnSize: nat)
      ensures this.rsId == rsID && this.cacheMgr == cacheMgr && fresh(ioMgr) && ioMgr.cacheMgr == cacheMgr
      ensures ioMgr.rsid == ShiftLeft32(rsID) && ioMgr.nextIdNum == ioMgr.rsid && ioMgr.txnSize == txnSize
      ensures nextIdNum == ShiftOr(rsID, 1) && numRecords == 0 && dataSize == 0
      ensures cacheMgr.Valid() ==> Valid()
    {
      rsId := rsID;
      this.cacheMgr := cacheMgr;
      nextIdNum := ShiftOr(rsID, 1);
      ioMgr := new IOMgrIPC(rsID, cacheMgr, txnSize);
      numRecords := 0;
      dataSize := 0;
    }

    /** _changeNumRecords. */
    method ChangeNumRecords(diff: int64)
      modifies this
      ensures numRecords == AddThenReset(old(numRecords), diff)
      ensures nextIdNum == old(nextIdNum) && dataSize == old(dataSize)
    {
      var prev := numRecords;
      numRecords := Wrap64(numRecords + diff);
      if prev < 0 {
        numRecords := if diff > 0 then diff else 0;
      }
    }

    /** _increaseDataSize. */
    method IncreaseDataSize(amount: int64)
      modifies this
      ensures dataSize == AddThenReset(old(dataSize), amount)
      ensures nextIdNum == old(nextIdNum) && numRecords == old(numRecords)
    {
      var prev := dataSize;
      dataSize := Wrap64(dataSize + amount);
      if prev < 0 {
        dataSize := if amount > 0 then amount else 0;
      }
    }

    /**
     * insertRecord: the backend writes the record under its next id. A failed
     * reply gives BadValue and touches neither cache nor counters. Otherwise
     * the bytes and the reply's hint go into the cache under (1234, id), the
     * counters grow by one record and len bytes, and the id is returned.
     * hint is whatever the caller's uninitialised hint holds.
     */
    method InsertRecord(data: array<byte>, len: int32, hint: Bytes, reply: Bytes)
      returns (s: StatusWithId, sent: Bytes)
      requires Valid() && 0 <= len <= data.Length
      requires |hint| == cacheMgr.hintSize && |reply| == PutRespSize(cacheMgr.hintSize)
      modifies this, ioMgr, cacheMgr.cache
      ensures Valid()
      ensures ioMgr.nextIdNum == Wrap64(old(ioMgr.nextIdNum) + 1) && nextIdNum == old(nextIdNum)
      ensures sent == PutOneRequest(PutOne, ioMgr.nextIdNum, data[..len], ioMgr.txnSize)
      ensures var resp := DecodePutResp(reply, cacheMgr.hintSize);
              if resp.code != KV_NO_ERROR then
                s == Err(BadValue) && cacheMgr.cache[..] == old(cacheMgr.cache[..])
                && numRecords == old(numRecords) && dataSize == old(dataSize)
              else
                var key := GenerateKey(CACHE_CONTAINER, ioMgr.nextIdNum);
                s == Ok(ioMgr.nextIdNum)
                && cacheMgr.Get(key).Some? && cacheMgr.Get(key).value.data == Some(data[..len])
                && cacheMgr.Get(key).value.meta == MakeMetadata(resp.hint, cacheMgr.hintSize)
                && (forall k :: k != key ==> cacheMgr.Get(k) == old(cacheMgr.Get(k)))
                && numRecords == AddThenReset(old(numRecords), 1)
                && dataSize == AddThenReset(old(dataSize), len)
    {
      var w, req, hintOut := ioMgr.WriteRecord(data, len, hint, reply);
      sent := req;
      if !w.Ok? {
        return Err(BadValue), sent;
      }
      var ok := cacheMgr.Insert(CACHE_CONTAINER, data, hintOut, len, w.id);
      ChangeNumRecords(1);
      IncreaseDataSize(len);
      s := w;
    }

    /**
     * findRecord: FOUND in the cache under (1234, id) answers at once with the
     * cached bytes. Otherwise the backend is asked, with the hint lookup left
     * (MD_ONLY) or a zeroed one (NOT_FOUND), and its answer is the result.
     */
    method FindRecord(id: int64, header: Bytes, payload: Bytes)
      returns (found: bool, out: Option<Bytes>, sent: Option<Bytes>)
      requires Valid()
      requires |header| == GetRespSize(cacheMgr.hintSize) && ReplyFits(header, payload, cacheMgr.hintSize)
      modifies cacheMgr.cache
      ensures Valid()
      ensures AfterLookup(old(cacheMgr.cache[..]), cacheMgr.cache[..], GenerateKey(CACHE_CONTAINER, id), cacheMgr.hintSize)
      ensures var look := LookupOutcome(old(cacheMgr.Get(GenerateKey(CACHE_CONTAINER, id))),
                                        cacheMgr.hintSize);
              (look.Found? ==> found && out == Some(look.bytes) && sent.None?)
              && (!look.Found? ==>
                    sent == Some(GetOneRequest(GetOne, id, Some(HintAfterMiss(look, cacheMgr.hintSize)),
                                               cacheMgr.hintSize))
                    && found == (DecodeGetResp(header, cacheMgr.hintSize).code == KV_NO_ERROR)
                    && out == if found then Some(payload) else None)
    {
      var look := cacheMgr.Lookup(CACHE_CONTAINER, id);
      if look.Found? {
        return true, Some(look.bytes), None;
      }
      var h := HintAfterMiss(look, cacheMgr.hintSize);
      var req;
      out, req := ioMgr.ReadRecord(id, Some(h), header, payload);
      found := out.Some?;
      sent := Some(req);
    }

    /**
     * deleteRecord: the backend delete (which sends nothing), then the cache
     * entry for (1234, id) is invalidated, one record and a fixed 400 bytes
     * come off the counters, whether or not the record existed.
     */
    method DeleteRecord(id: int64) returns (sent: Bytes)
      requires Valid()
      modifies this, cacheMgr.cache
      ensures Valid() && sent == [] && nextIdNum == old(nextIdNum)
      ensures cacheMgr.Get(GenerateKey(CACHE_CONTAINER, id)).None?
      ensures forall k :: k != GenerateKey(CACHE_CONTAINER, id) ==> cacheMgr.Get(k) == old(cacheMgr.Get(k))
      ensures numRecords == AddThenReset(old(numRecords), -1)
      ensures dataSize == AddThenReset(old(dataSize), -DELETE_CHARGE)
    {
      sent := ioMgr.DeleteRecord(id);
      var ok := cacheMgr.Invalidate(CACHE_CONTAINER, id);
      ChangeNumRecords(-1);
      var length := DELETE_CHARGE;
      IncreaseDataSize(-length);
    }

    /**
     * updateRecord: the backend rewrites oldLocation. A failed reply gives
     * BadValue and touches nothing else. Otherwise the cache entry for
     * (1234, oldLocation) is inserted or refreshed with the new bytes and the
     * reply's hint, and oldLocation is returned; the counters stay.
     */
    method UpdateRecord(oldLocation: int64, data: array<byte>, len: int32, hint: Bytes, reply: Bytes)
      returns (s: StatusWithId, sent: Bytes)
      requires Valid() && 0 <= len <= data.Length
      requires |hint| == cacheMgr.hintSize && |reply| == PutRespSize(cacheMgr.hintSize)
      modifies cacheMgr.cache
      ensures Valid()
      ensures sent == PutOneRequest(PutOne, oldLocation, data[..len], ioMgr.txnSize)
      ensures var resp := DecodePutResp(reply, cacheMgr.hintSize);
              if resp.code != KV_NO_ERROR then
                s == Err(BadValue) && cacheMgr.cache[..] == old(cacheMgr.cache[..])
              else
                var key := GenerateKey(CACHE_CONTAINER, oldLocation);
                s == Ok(oldLocation)
                && cacheMgr.Get(key).Some? && cacheMgr.Get(key).value.data == Some(data[..len])
                && cacheMgr.Get(key).value.meta == MakeMetadata(resp.hint, cacheMgr.hintSize)
                && (forall k :: k != key ==> cacheMgr.Get(k) == old(cacheMgr.Get(k)))
    {
      var u, req, hintOut := ioMgr.UpdateRecord(oldLocation, data, len, hint, reply);
      sent := req;
      if !u.Ok? {
        return Err(BadValue), sent;
      }
      var ok := cacheMgr.Insert(CACHE_CONTAINER, data, hintOut, len, u.id);
      s := u;
    }
  }

  /**
   * A successful insertRecord followed by findRecord of the id it returned is
   * answered from the cache with the same bytes, and nothing is sent.
   */
  method InsertThenFind(rs: RecordStore, data: array<byte>, len: int32, hint: Bytes, reply: Bytes,
                        header: Bytes, payload: Bytes)
    returns (found: bool, out: Option<Bytes>, sent: Option<Bytes>)
    requires rs.Valid() && 0 <= len <= data.Length
    requires |hint| == rs.cacheMgr.hintSize && |reply| == PutRespSize(rs.cacheMgr.hintSize)
    requires DecodePutResp(reply, rs.cacheMgr.hintSize).code == KV_NO_ERROR
    requires |header| == GetRespSize(rs.cacheMgr.hintSize) && ReplyFits(header, payload, rs.cacheMgr.hintSize)
    modifies rs, rs.ioMgr, rs.cacheMgr.cache
    ensures found && out == Some(data[..len]) && sent.None?
  {
    var s, req := rs.InsertRecord(data, len, hint, reply);
    found, out, sent := rs.FindRecord(s.id, header, payload);
  }

  /**
   * A findRecord answered from the cache leaves the entry where it was, so
   * the same findRecord again is answered from the cache with the same
   * bytes, and sends nothing either time.
   */
  method FindTwice(rs: RecordStore, id: int64, header: Bytes, payload: Bytes)
    returns (first: Option<Bytes>, sent1: Option<Bytes>, second: Option<Bytes>, sent2: Option<Bytes>)
    requires rs.Valid()
    requires |header| == GetRespSize(rs.cacheMgr.hintSize) && ReplyFits(header, payload, rs.cacheMgr.hintSize)
    modifies rs.cacheMgr.cache
    ensures sent1.None? ==> sent2.None? && second == first
  {
    ghost var t0 := rs.cacheMgr.cache[..];
    var f1, f2;
    f1, first, sent1 := rs.FindRecord(id, header, payload);
    LookupKeepsEntries(t0, rs.cacheMgr.cache[..], GenerateKey(CACHE_CONTAINER, id), rs.cacheMgr.hintSize);
    f2, second, sent2 := rs.FindRecord(id, header, payload);
  }

  /** After deleteRecord, findRecord of the same id misses the cache and asks the backend. */
  method DeleteThenFind(rs: RecordStore, id: int64, header: Bytes, payload: Bytes)
    returns (found: bool, out: Option<Bytes>, sent: Option<Bytes>)
    requires rs.Valid()
    requires |header| == GetRespSize(rs.cacheMgr.hintSize) && ReplyFits(header, payload, rs.cacheMgr.hintSize)
    modifies rs, rs.cacheMgr.cache
    ensures sent == Some(GetOneRequest(GetOne, id, Some(Zeros(rs.cacheMgr.hintSize)), rs.cacheMgr.hintSize))
  {
    var d := rs.DeleteRecord(id);
    found, out, sent := rs.FindRecord(id, header, payload);
  }
}
