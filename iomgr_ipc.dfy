/**
 * OntapKVIOMgrIPC and OntapKVIteratorIPC of ontapkv_iomgr_ipc.h/.cpp: the
 * backend that ships each record operation to the key/value server as one
 * request, and the cursor that walks the store's dense id range, trying the
 * cache before the server.
 *
 * The socket is not modelled: each operation returns the request bytes it
 * sends, and takes the reply bytes the server sends back as parameters.
 */
module IpcBackend {
  import opened KvTypes
  import opened WireFormat
  import opened IpcMessages
  import opened CacheEntry
  import opened CacheManager

  /** The container id the iterator uses for its cache lookups, std::stoi("1234"). */
  const CACHE_CONTAINER: int32 := 1234

  // ---------------------------------------------------------------------------
  // Bitwise and, for checkRange

  /** The and of the low n bits of a and b, built bit by bit from the bottom. */
  function BitAnd(a: nat, b: nat, n: nat): (r: nat)
    ensures r < Pow2(n)
    decreases n
  {
    if n == 0 then 0
    else (if a % 2 == 1 && b % 2 == 1 then 1 else 0) + 2 * BitAnd(a / 2, b / 2, n - 1)
  }

  /** Anything and zero is zero. */
  lemma {:induction false} BitAndZero(b: nat, n: nat)
    ensures BitAnd(0, b, n) == 0
  {
    if n > 0 {
      BitAndZero(b / 2, n - 1);
    }
  }

  /** A value that fits in n bits is its own and. */
  lemma {:induction false} BitAndSelf(a: nat, n: nat)
    requires a < Pow2(n)
    ensures BitAnd(a, a, n) == a
  {
    if n > 0 {
      BitAndSelf(a / 2, n - 1);
    }
  }

  lemma MulTwo(x: int, p: int)
    ensures x * (2 * p) == 2 * (x * p) == (2 * p) * x
  {
  }

  /**
   * A * 2^k, anded with A * 2^k plus anything below 2^k, keeps only the top
   * part: the low k bits of the left operand are clear.
   */
  lemma {:induction false} BitAndHigh(x: nat, j: nat, k: nat, n: nat)
    requires j < Pow2(k)
    ensures BitAnd(x * Pow2(k), x * Pow2(k) + j, k + n) == Pow2(k) * BitAnd(x, x, n)
  {
    if k > 0 {
      var p := Pow2(k - 1);
      var h := x * p;
      var q := BitAnd(x, x, n);
      var m := k - 1 + n;
      MulTwo(x, p);
      assert j / 2 < p;
      calc {
        BitAnd(x * Pow2(k), x * Pow2(k) + j, k + n);
        BitAnd(2 * h, 2 * h + j, m + 1);
        { BitAndEvenStep(h, j, m); }
        2 * BitAnd(h, h + j / 2, m);
        { BitAndHigh(x, j / 2, k - 1, n); }
        2 * (p * q);
        { MulTwo(q, p); }
        Pow2(k) * q;
      }
    } else {
      assert x * Pow2(k) == x && j == 0;
    }
  }

  /** One bit of the and of an even number: the bottom bit is clear, the rest is halved. */
  lemma BitAndEvenStep(h: nat, j: nat, m: nat)
    ensures BitAnd(2 * h, 2 * h + j, m + 1) == 2 * BitAnd(h, h + j / 2, m)
  {
    assert (2 * h) % 2 == 0 && (2 * h) / 2 == h && (2 * h + j) / 2 == h + j / 2;
  }

  /** checkRange: rsid & curr on the 64-bit two's-complement patterns, tested for non-zero. */
  predicate InRange(rsid: int64, curr: int64)
  {
    BitAnd(AsUnsigned64(rsid), AsUnsigned64(curr), 64) != 0
  }

  /**
   * For a store id 1 <= r < 2^31, every id in its block of 2^32 ids,
   * (r << 32) + j, passes checkRange.
   */
  lemma InRangeInBlock(r: int64, j: nat)
    requires 1 <= r < TWO_31 && j < TWO_32
    ensures ShiftLeft32(r) + j <= INT64_MAX
    ensures InRange(ShiftLeft32(r), (ShiftLeft32(r) + j) as int64)
  {
    var rsid := ShiftLeft32(r);
    assert rsid == r * TWO_32;
    AlignedBound(rsid);
    var c := rsid + j;
    assert AsUnsigned64(rsid) == rsid && AsUnsigned64(c as int64) == c;
    Pow2ThirtyTwo();
    var k := 32;
    BitAndHalves(r, j, k);
    assert r * Pow2(k) == rsid;
  }

  /** The and of x * 2^k and x * 2^k + j, for x and j below 2^k, is x * 2^k. */
  lemma BitAndHalves(x: nat, j: nat, k: nat)
    requires j < Pow2(k) && x < Pow2(k)
    ensures BitAnd(x * Pow2(k), x * Pow2(k) + j, k + k) == Pow2(k) * x
  {
    BitAndHigh(x, j, k, k);
    BitAndSelf(x, k);
  }

  /** The store with id 0 has rsid 0, and no cursor id passes its checkRange. */
  lemma NoneInRangeOfStoreZero(curr: int64)
    ensures !InRange(ShiftLeft32(0), curr)
  {
    BitAndZero(AsUnsigned64(curr), 64);
  }

  /** A get reply whose data, on success, is exactly as long as its header declares. */
  predicate ReplyFits(header: Bytes, payload: Bytes, hintSize: nat)
    requires |header| == GetRespSize(hintSize)
  {
    var r := DecodeGetResp(header, hintSize);
    r.code == KV_NO_ERROR ==> r.dataLen == |payload|
  }

  class IOMgrIPC {
    /** _rsid: the store id shifted into the top 32 bits. */
    const rsid: Aligned32
    /** _nextIdNum: the last record id handed out. */
    var nextIdNum: int64
    const cacheMgr: CacheMgr
    /** sizeof(kv_txn_id). */
    const txnSize: nat

    /** The constructor sets _rsid = rsid << 32 and seeds the id counter with _rsid | 0. */
    constructor (rsId: int64, cacheMgr: CacheMgr, txnSize: nat)
      ensures rsid == ShiftLeft32(rsId) && nextIdNum == rsid
      ensures this.cacheMgr == cacheMgr && this.txnSize == txnSize
    {
      rsid := ShiftLeft32(rsId);
      nextIdNum := ShiftOr(rsId, 0);
      this.cacheMgr := cacheMgr;
      this.txnSize := txnSize;
    }

    /** getNextRecordId: addAndFetch(1) on the 64-bit counter. */
    method GetNextRecordId() returns (id: int64)
      modifies this
      ensures nextIdNum == Wrap64(old(nextIdNum) + 1) && id == nextIdNum
      ensures old(nextIdNum) < INT64_MAX ==> id == old(nextIdNum) + 1
    {
      nextIdNum := Wrap64(nextIdNum + 1);
      id := nextIdNum;
    }

    /**
     * writeRecord: takes the next id, sends a put request for it, and on a
     * KV_NO_ERROR reply returns that id (the reply's record id is ignored)
     * with the reply's hint; otherwise BadValue.
     */
    method WriteRecord(data: array<byte>, len: int32, hint: Bytes, reply: Bytes)
      returns (s: StatusWithId, sent: Bytes, hintOut: Bytes)
      requires 0 <= len <= data.Length && |reply| == PutRespSize(cacheMgr.hintSize)
      modifies this
      ensures nextIdNum == Wrap64(old(nextIdNum) + 1)
      ensures sent == PutOneRequest(PutOne, nextIdNum, data[..len], txnSize)
      ensures var p := ParsePutResponse(reply, hint, cacheMgr.hintSize);
              hintOut == p.1 && s == if p.0 then Ok(nextIdNum) else Err(BadValue)
    {
      var recId := GetNextRecordId();
      var req := new Request(PutOne, cacheMgr.hintSize, txnSize);
      req.PreparePutOne(data, len, recId);
      sent := req.buf[..];
      var p := ParsePutResponse(reply, hint, cacheMgr.hintSize);
      hintOut := p.1;
      if !p.0 {
        return Err(BadValue), sent, hintOut;
      }
      s := Ok(recId);
    }

    /**
     * readRecord: sends a get request carrying the hint. A reply whose code
     * is not KV_NO_ERROR yields nothing; otherwise the declared number of
     * bytes is received and a copy of them returned.
     */
    method ReadRecord(id: int64, hint: Option<Bytes>, header: Bytes, payload: Bytes)
      returns (out: Option<Bytes>, sent: Bytes)
      requires hint.Some? ==> |hint.value| == cacheMgr.hintSize
      requires |header| == GetRespSize(cacheMgr.hintSize) && ReplyFits(header, payload, cacheMgr.hintSize)
      ensures sent == GetOneRequest(GetOne, id, hint, cacheMgr.hintSize)
      ensures out == if DecodeGetResp(header, cacheMgr.hintSize).code == KV_NO_ERROR then Some(payload) else None
    {
      var req := new Request(GetOne, cacheMgr.hintSize, txnSize);
      req.PrepareGetOne(id, hint);
      sent := req.buf[..];
      var resp := new Response(cacheMgr.hintSize);
      var ok, len := resp.ParseGetResponse(header, 0);
      if !ok {
        return None, sent;
      }
      var buf := resp.buf;
      assert buf.Length == |payload|;
      Memcpy(buf, 0, payload);
      assert buf[..] == buf[..0 + |payload|];
      out := Some(buf[..]);
    }

    /**
     * updateRecord: sends a put request for oldLocation; on a KV_NO_ERROR
     * reply returns oldLocation with the reply's hint, otherwise BadValue.
     * The id counter is not touched.
     */
    method UpdateRecord(oldLocation: int64, data: array<byte>, len: int32, hint: Bytes, reply: Bytes)
      returns (s: StatusWithId, sent: Bytes, hintOut: Bytes)
      requires 0 <= len <= data.Length && |reply| == PutRespSize(cacheMgr.hintSize)
      ensures sent == PutOneRequest(PutOne, oldLocation, data[..len], txnSize)
      ensures var p := ParsePutResponse(reply, hint, cacheMgr.hintSize);
              hintOut == p.1 && s == if p.0 then Ok(oldLocation) else Err(BadValue)
    {
      var req := new Request(PutOne, cacheMgr.hintSize, txnSize);
      req.PreparePutOne(data, len, oldLocation);
      sent := req.buf[..];
      var p := ParsePutResponse(reply, hint, cacheMgr.hintSize);
      hintOut := p.1;
      if !p.0 {
        return Err(BadValue), sent, hintOut;
      }
      s := Ok(oldLocation);
    }

    /** deleteRecord: prepareDelOne builds nothing and the send is disabled, so nothing goes out. */
    method DeleteRecord(id: int64) returns (sent: Bytes)
      ensures sent == []
    {
      var req := new Request(DelOne, cacheMgr.hintSize, txnSize);
      sent := req.buf[..];
    }
  }

  /** The first id a fresh manager hands out is (rsid << 32) + 1. */
  lemma FirstIdAfterConstruction(rsId: int64)
    ensures Wrap64(ShiftLeft32(rsId) + 1) == ShiftOr(rsId, 1)
  {
  }

  class IteratorIPC {
    const mgr: IOMgrIPC
    const forward: bool
    /** _curr: the id the next call reads. */
    var curr: int64

    /** A forward cursor starts just above rsid, a backward one at the last id handed out. */
    constructor (mgr: IOMgrIPC, forward: bool)
      ensures this.mgr == mgr && this.forward == forward
      ensures curr == if forward then mgr.rsid + 1 else mgr.nextIdNum
    {
      this.mgr := mgr;
      this.forward := forward;
      AlignedBound(mgr.rsid);
      curr := if forward then mgr.rsid + 1 else mgr.nextIdNum;
    }

    predicate CheckRange()
      reads this, mgr
    {
      InRange(mgr.rsid, curr)
    }

    /** Forward: past the last id handed out. Backward: down at rsid itself. */
    predicate AtEnd()
      reads this, mgr
    {
      (forward && curr > mgr.nextIdNum) || (!forward && curr == mgr.rsid)
    }

    /** The cursor after a non-terminal next: one up or one down, in 64-bit arithmetic. */
    function Advance(c: int64): (n: int64)
    {
      Wrap64(if forward then c as int + 1 else c as int - 1)
    }

    /**
     * The read both next and seekExact make: lookup of (1234, id) in the
     * cache, answered from the cache on FOUND; otherwise a get request with
     * the cached hint (MD_ONLY) or a zero hint (NOT_FOUND), answered by the
     * server's reply.
     */
    method Fetch(id: int64, header: Bytes, payload: Bytes) returns (data: Option<Bytes>, sent: Option<Bytes>)
      requires mgr.cacheMgr.Valid()
      requires |header| == GetRespSize(mgr.cacheMgr.hintSize) && ReplyFits(header, payload, mgr.cacheMgr.hintSize)
      modifies mgr.cacheMgr.cache
      ensures mgr.cacheMgr.Valid()
      ensures AfterLookup(old(mgr.cacheMgr.cache[..]), mgr.cacheMgr.cache[..],
                          GenerateKey(CACHE_CONTAINER, id), mgr.cacheMgr.hintSize)
      ensures var look := LookupOutcome(old(mgr.cacheMgr.Get(GenerateKey(CACHE_CONTAINER, id))),
                                        mgr.cacheMgr.hintSize);
              (look.Found? ==> data == Some(look.bytes) && sent.None?)
              && (!look.Found? ==>
                    sent == Some(GetOneRequest(GetOne, id, Some(HintAfterMiss(look, mgr.cacheMgr.hintSize)),
                                               mgr.cacheMgr.hintSize))
                    && data == if DecodeGetResp(header, mgr.cacheMgr.hintSize).code == KV_NO_ERROR
                               then Some(payload) else None)
    {
      var look := mgr.cacheMgr.Lookup(CACHE_CONTAINER, id);
      if look.Found? {
        return Some(look.bytes), None;
      }
      var hint := HintAfterMiss(look, mgr.cacheMgr.hintSize);
      var out, req := mgr.ReadRecord(id, Some(hint), header, payload);
      return out, Some(req);
    }

    /**
     * next: at the end, nothing, with the cursor where it is. Otherwise the
     * record under the cursor, as Fetch reads it. Either way the cursor
     * moves one step, even when the read fails.
     */
    method Next(header: Bytes, payload: Bytes) returns (rec: Option<Record>, sent: Option<Bytes>)
      requires CheckRange() && mgr.cacheMgr.Valid()
      requires |header| == GetRespSize(mgr.cacheMgr.hintSize) && ReplyFits(header, payload, mgr.cacheMgr.hintSize)
      modifies this, mgr.cacheMgr.cache
      ensures mgr.cacheMgr.Valid()
      ensures old(AtEnd()) ==>
                rec.None? && sent.None? && curr == old(curr)
                && mgr.cacheMgr.cache[..] == old(mgr.cacheMgr.cache[..])
      ensures !old(AtEnd()) ==>
                var id := old(curr);
                var look := LookupOutcome(old(mgr.cacheMgr.Get(GenerateKey(CACHE_CONTAINER, id))),
                                          mgr.cacheMgr.hintSize);
                curr == Advance(id)
                && AfterLookup(old(mgr.cacheMgr.cache[..]), mgr.cacheMgr.cache[..],
                               GenerateKey(CACHE_CONTAINER, id), mgr.cacheMgr.hintSize)
                && (look.Found? ==> rec == Some(Record(id, look.bytes)) && sent.None?)
                && (!look.Found? ==>
                      sent == Some(GetOneRequest(GetOne, id, Some(HintAfterMiss(look, mgr.cacheMgr.hintSize)),
                                                 mgr.cacheMgr.hintSize))
                      && rec == if DecodeGetResp(header, mgr.cacheMgr.hintSize).code == KV_NO_ERROR
                                then Some(Record(id, payload)) else None)
    {
      if AtEnd() {
        return None, None;
      }
      var id := curr;
      var data;
      data, sent := Fetch(id, header, payload);
      curr := Advance(curr);
      rec := if data.Some? then Some(Record(id, data.value)) else None;
    }

    /**
     * seekExact: the record with the given id, as Fetch reads it; the cursor
     * moves to id exactly when a record comes back.
     */
    method SeekExact(id: int64, header: Bytes, payload: Bytes) returns (rec: Option<Record>, sent: Option<Bytes>)
      requires CheckRange() && mgr.cacheMgr.Valid()
      requires |header| == GetRespSize(mgr.cacheMgr.hintSize) && ReplyFits(header, payload, mgr.cacheMgr.hintSize)
      modifies this, mgr.cacheMgr.cache
      ensures mgr.cacheMgr.Valid()
      ensures AfterLookup(old(mgr.cacheMgr.cache[..]), mgr.cacheMgr.cache[..],
                          GenerateKey(CACHE_CONTAINER, id), mgr.cacheMgr.hintSize)
      ensures var look := LookupOutcome(old(mgr.cacheMgr.Get(GenerateKey(CACHE_CONTAINER, id))),
                                        mgr.cacheMgr.hintSize);
              (look.Found? ==> rec == Some(Record(id, look.bytes)) && sent.None?)
              && (!look.Found? ==>
                    sent == Some(GetOneRequest(GetOne, id, Some(HintAfterMiss(look, mgr.cacheMgr.hintSize)),
                                               mgr.cacheMgr.hintSize))
                    && rec == if DecodeGetResp(header, mgr.cacheMgr.hintSize).code == KV_NO_ERROR
                              then Some(Record(id, payload)) else None)
      ensures curr == if rec.Some? then id else old(curr)
    {
      var data;
      data, sent := Fetch(id, header, payload);
      if data.Some? {
        curr := id;
        rec := Some(Record(id, data.value));
      } else {
        rec := None;
      }
    }
  }
}
