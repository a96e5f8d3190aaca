/**
 * The Request and Response classes of ontapkv_iomgr_ipc.cpp: a request
 * allocates its buffer and fills it field by field with memcpy; a response
 * checks the reply header and, for a get, allocates the buffer the data is
 * received into.
 */
module IpcMessages {
  import opened KvTypes
  import opened WireFormat

  /**
   * memcpy(dst + off, src, |src|): the bytes before off are kept, src is
   * written after them, and the bytes beyond are untouched.
   */
  method Memcpy(dst: array<byte>, off: nat, src: Bytes)
    requires off + |src| <= dst.Length
    modifies dst
    ensures dst[..off + |src|] == old(dst[..off]) + src
    ensures dst[off + |src|..] == old(dst[off + |src|..])
  {
    var i := 0;
    while i < |src|
      invariant 0 <= i <= |src|
      invariant forall j :: 0 <= j < off ==> dst[j] == old(dst[j])
      invariant forall j :: 0 <= j < i ==> dst[off + j] == src[j]
      invariant forall j :: off + i <= j < dst.Length ==> dst[j] == old(dst[j])
    {
      dst[off + i] := src[i];
      i := i + 1;
    }
    assert dst[..off + |src|] == old(dst[..off]) + src;
  }

  /**
   * The memcpy calls of a request: header, payload, key and data, each placed
   * right after the one before, filling the whole buffer. An empty key (the
   * null id, which the put skips copying) or empty data copies nothing.
   */
  method CopyInOrder(dst: array<byte>, hdr: Bytes, payload: Bytes, key: Bytes, data: Bytes)
    requires dst.Length == |hdr| + |payload| + |key| + |data|
    modifies dst
    ensures dst[..] == hdr + payload + key + data
  {
    var n1, n2, n3 := |hdr|, |hdr| + |payload|, |hdr| + |payload| + |key|;
    Memcpy(dst, 0, hdr);
    assert dst[..n1] == hdr;
    Memcpy(dst, n1, payload);
    assert dst[..n2] == hdr + payload;
    if |key| > 0 {
      Memcpy(dst, n2, key);
    } else {
      assert n3 == n2 && hdr + payload + key == hdr + payload;
    }
    assert dst[..n3] == hdr + payload + key;
    Memcpy(dst, n3, data);
    assert dst[..] == dst[..|hdr| + |payload| + |key| + |data|];
  }

  /**
   * parsePutResponse: a reply whose code is not KV_NO_ERROR fails and leaves
   * the caller's hint; otherwise the reply's hint replaces it. The record id
   * in the reply is not read.
   */
  function ParsePutResponse(reply: Bytes, hint: Bytes, hintSize: nat): (r: (bool, Bytes))
    requires |reply| == PutRespSize(hintSize)
  {
    var resp := DecodePutResp(reply, hintSize);
    if resp.code != KV_NO_ERROR then (false, hint) else (true, resp.hint)
  }

  /**
   * For any reply the server encodes: success exactly when its code is
   * KV_NO_ERROR, the hint it carries comes back on success, the caller's hint
   * is kept on failure, and the record id it carries plays no part.
   */
  lemma PutReplyOutcome(recordId: int64, code: uint32, replyHint: Bytes, hint: Bytes)
    ensures ParsePutResponse(EncodePutResp(PutResp(recordId, code, replyHint)), hint, |replyHint|)
         == if code == KV_NO_ERROR then (true, replyHint) else (false, hint)
  {
    PutRespRoundTrip(PutResp(recordId, code, replyHint));
  }

  class Request {
    /** _reqId: the request type written into the header. */
    const reqType: ReqType
    /** sizeof(kv_storage_hint_t) and sizeof(kv_txn_id). */
    const hintSize: nat
    const txnSize: nat
    /** _buf and _len; an empty buffer stands for the NULL of a fresh request. */
    var buf: array<byte>
    var len: nat

    constructor (reqType: ReqType, hintSize: nat, txnSize: nat)
      ensures this.reqType == reqType && this.hintSize == hintSize && this.txnSize == txnSize
      ensures buf.Length == 0 && len == 0
    {
      this.reqType := reqType;
      this.hintSize := hintSize;
      this.txnSize := txnSize;
      buf := new byte[0];
      len := 0;
    }

    /**
     * preparePutOne: allocates header + payload + key + data bytes and copies
     * in the header, the put payload, the decimal key (none for the null id)
     * and the first len bytes of data.
     */
    method PreparePutOne(data: array<byte>, dataLen: int32, id: int64)
      requires 0 <= dataLen <= data.Length
      modifies this
      ensures fresh(buf) && len == buf.Length
      ensures buf[..] == PutOneRequest(reqType, id, data[..dataLen], txnSize)
    {
      var idStr := RecordIdStr(id, []);
      var keylen := idStr.0;
      KeyBytesIsRecordIdStr(id);
      var total := HEADER_SIZE + PutOneSize(txnSize) + keylen + dataLen;
      var b := new byte[total];
      var hdr := EncodeHeader(RequestHeader(reqType));
      var put := Int32LE(keylen) + Int32LE(dataLen) + Zeros(txnSize);
      var key := idStr.1[..keylen];
      var bytes := data[..dataLen];
      assert |hdr| == HEADER_SIZE && |put| == PutOneSize(txnSize) && |key| == keylen;
      CopyInOrder(b, hdr, put, key, bytes);
      PutOneRequestPieces(reqType, id, bytes, txnSize);
      buf := b;
      len := total;
    }

    /**
     * prepareGetOne: allocates header + payload + key bytes and copies in the
     * header, the hint (zeros when there is no hint), keylen and the key.
     */
    method PrepareGetOne(id: int64, hint: Option<Bytes>)
      requires hint.Some? ==> |hint.value| == hintSize
      modifies this
      ensures fresh(buf) && len == buf.Length
      ensures buf[..] == GetOneRequest(reqType, id, hint, hintSize)
    {
      var idStr := RecordIdStr(id, []);
      var keylen := idStr.0;
      KeyBytesIsRecordIdStr(id);
      var total := HEADER_SIZE + GetOneSize(hintSize) + keylen;
      var b := new byte[total];
      var hdr := EncodeHeader(RequestHeader(reqType));
      var h := if hint.Some? then hint.value else Zeros(hintSize);
      var get := h + Int32LE(keylen);
      var key := idStr.1[..keylen];
      assert |hdr| == HEADER_SIZE && |get| == GetOneSize(hintSize) && |key| == keylen;
      CopyInOrder(b, hdr, get, key, []);
      GetOneRequestPieces(reqType, id, hint, hintSize);
      buf := b;
      len := total;
    }
  }

  /** A put request is the header, the put payload, the key and the data, copied one after another. */
  lemma PutOneRequestPieces(t: ReqType, id: int64, data: Bytes, txnSize: nat)
    requires |data| < TWO_31
    ensures PutOneRequest(t, id, data, txnSize)
         == EncodeHeader(RequestHeader(t)) + (Int32LE(|KeyBytes(id)|) + Int32LE(|data|) + Zeros(txnSize))
            + KeyBytes(id) + data
  {
  }

  /** A get request is the header, the get payload and the key, copied one after another. */
  lemma GetOneRequestPieces(t: ReqType, id: int64, hint: Option<Bytes>, hintSize: nat)
    requires hint.Some? ==> |hint.value| == hintSize
    ensures GetOneRequest(t, id, hint, hintSize)
         == EncodeHeader(RequestHeader(t)) + ((if hint.Some? then hint.value else Zeros(hintSize)) + Int32LE(|KeyBytes(id)|))
            + KeyBytes(id) + []
  {
  }

  /** The key getRecordIdStr produces is the key a request carries. */
  lemma KeyBytesIsRecordIdStr(id: int64)
    ensures var r := RecordIdStr(id, []);
            0 <= r.0 == |KeyBytes(id)| <= 20 && r.1[..r.0] == KeyBytes(id)
  {
  }

  class Response {
    const hintSize: nat
    /** _buf and _len: the buffer a get reply's data is received into, and its int length. */
    var buf: array<byte>
    var len: int

    constructor (hintSize: nat)
      ensures this.hintSize == hintSize && buf.Length == 0 && len == 0
    {
      this.hintSize := hintSize;
      buf := new byte[0];
      len := 0;
    }

    /**
     * parseGetResponse: a reply whose code is not KV_NO_ERROR fails and
     * changes nothing; otherwise the declared data length is reported and
     * stored, and a buffer of that length is allocated. The reply's hint is
     * not read. A negative declared length is still a success: malloc then
     * gets that int converted to a size_t near 2^64 and returns NULL, which
     * the model renders as an empty buffer.
     */
    method ParseGetResponse(reply: Bytes, lenIn: int) returns (ok: bool, lenOut: int)
      requires |reply| == GetRespSize(hintSize)
      modifies this
      ensures var r := DecodeGetResp(reply, hintSize);
              ok == (r.code == KV_NO_ERROR)
              && (ok ==> lenOut == r.dataLen == len && fresh(buf))
              && (ok && r.dataLen >= 0 ==> buf.Length == r.dataLen)
              && (ok && r.dataLen < 0 ==> buf.Length == 0)
              && (!ok ==> lenOut == lenIn && buf == old(buf) && len == old(len))
    {
      var resp := DecodeGetResp(reply, hintSize);
      if resp.code != KV_NO_ERROR {
        return false, lenIn;
      }
      lenOut := resp.dataLen;
      len := lenOut;
      buf := new byte[if len >= 0 then len else 0];
      ok := true;
    }
  }
}
