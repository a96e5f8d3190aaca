/**
 * The request and response layouts of kv_format.h and the byte sequences
 * the IPC request builders of ontapkv_iomgr_ipc.cpp produce.
 *
 * Every struct is packed, so a message is its fields back to back. Integers
 * are stored little-endian (the host byte order of the x86 servers the
 * engine runs on); enums are 4-byte unsigned fields. The two 16-bit
 * bit-fields of the request header share one 32-bit unit, magic in the low
 * half. The sizes of kv_storage_hint_t and kv_txn_id come from kv.h, which is
 * not part of this model: they are the parameters hintSize and txnSize.
 */
module WireFormat {
  import opened KvTypes

  // ---------------------------------------------------------------------------
  // Enumerations and constants

  /** kvreq_type_t. */
  datatype ReqType = GetOne | PutOne | DelOne | GetBulk | DelBulk

  function ReqCode(t: ReqType): (c: uint32)
    ensures 1 <= c <= 5
  {
    match t
    case GetOne => 1
    case PutOne => 2
    case DelOne => 3
    case GetBulk => 4
    case DelBulk => 5
  }

  const KV_LAST_REQ_TYPE: uint32 := 5

  /** The request codes are 1 .. KV_LAST_REQ_TYPE, one per request type. */
  lemma ReqCodesConsecutive()
    ensures ReqCode(GetOne) == 1 && ReqCode(DelBulk) == KV_LAST_REQ_TYPE
    ensures forall t: ReqType, u: ReqType :: ReqCode(t) == ReqCode(u) ==> t == u
  {
  }

  /** kvresp_code_t. */
  const KV_NO_ERROR: uint32 := 0
  const KV_NO_CONTAINER: uint32 := 1
  const KV_KEY_NOT_FOUND: uint32 := 2
  const KV_NO_SPACE: uint32 := 3

  const KV_MAGIC: uint32 := 0x4B56
  /** The request builders send container id -1, which the uint32_t field stores as 0xFFFFFFFF. */
  const NO_CONTAINER_ID: uint32 := 0xFFFF_FFFF

  /** The magic is the two ASCII letters "KV". */
  lemma MagicSpellsKV()
    ensures KV_MAGIC == ('K' as int) * 0x100 + 'V' as int
  {
  }

  // ---------------------------------------------------------------------------
  // Little-endian integers

  function Pow256(n: nat): (p: nat)
    ensures p >= 1
  {
    if n == 0 then 1 else 256 * Pow256(n - 1)
  }

  /** The n low bytes of x, least significant first. */
  function LE(x: nat, n: nat): (b: Bytes)
    ensures |b| == n
  {
    if n == 0 then [] else [x % 256] + LE(x / 256, n - 1)
  }

  /** The number whose little-endian bytes are b. */
  function FromLE(b: Bytes): (x: nat)
    ensures x < Pow256(|b|)
  {
    if |b| == 0 then 0 else b[0] + 256 * FromLE(b[1..])
  }

  lemma {:induction false} FromLEOfLE(x: nat, n: nat)
    requires x < Pow256(n)
    ensures FromLE(LE(x, n)) == x
  {
    if n > 0 {
      FromLEOfLE(x / 256, n - 1);
      assert LE(x, n)[1..] == LE(x / 256, n - 1);
    }
  }

  lemma {:induction false} LEOfFromLE(b: Bytes)
    ensures LE(FromLE(b), |b|) == b
  {
    if |b| > 0 {
      LEOfFromLE(b[1..]);
      var x := FromLE(b);
      assert x % 256 == b[0] && x / 256 == FromLE(b[1..]);
    }
  }

  lemma Pow256Values()
    ensures Pow256(2) == TWO_16 && Pow256(4) == TWO_32 && Pow256(8) == TWO_64
  {
    assert Pow256(4) == TWO_32;
    assert Pow256(8) == Pow256(4) * Pow256(4) by {
      assert Pow256(8) == 256 * 256 * 256 * 256 * Pow256(4);
    }
  }

  /** A signed 32-bit field: its two's-complement bit pattern, little-endian. */
  function Int32LE(x: int32): (b: Bytes)
    ensures |b| == 4
  {
    LE(if x < 0 then x + TWO_32 else x, 4)
  }

  function FromInt32LE(b: Bytes): (x: int32)
    requires |b| == 4
  {
    Pow256Values();
    var u := FromLE(b);
    if u >= TWO_31 then u - TWO_32 else u
  }

  lemma Int32RoundTrip(x: int32)
    ensures FromInt32LE(Int32LE(x)) == x
  {
    Pow256Values();
    FromLEOfLE(if x < 0 then x + TWO_32 else x, 4);
  }

  function Uint32LE(x: uint32): (b: Bytes)
    ensures |b| == 4
  {
    LE(x, 4)
  }

  function FromUint32LE(b: Bytes): (x: uint32)
    requires |b| == 4
  {
    Pow256Values();
    FromLE(b)
  }

  lemma Uint32RoundTrip(x: uint32)
    ensures FromUint32LE(Uint32LE(x)) == x
  {
    Pow256Values();
    FromLEOfLE(x, 4);
  }

  function Int64LE(x: int64): (b: Bytes)
    ensures |b| == 8
  {
    LE(AsUnsigned64(x), 8)
  }

  function FromInt64LE(b: Bytes): (x: int64)
    requires |b| == 8
  {
    Pow256Values();
    var u := FromLE(b);
    if u >= TWO_63 then u - TWO_64 else u
  }

  lemma Int64RoundTrip(x: int64)
    ensures FromInt64LE(Int64LE(x)) == x
  {
    Pow256Values();
    FromLEOfLE(AsUnsigned64(x), 8);
  }

  // ---------------------------------------------------------------------------
  // The record id as key bytes (getRecordIdStr)

  function DigitByte(d: nat): (c: byte)
    requires d < 10
    ensures '0' as int <= c <= '9' as int
  {
    '0' as int + d
  }

  predicate IsDigit(c: byte)
  {
    '0' as int <= c <= '9' as int
  }

  /** The decimal digits of n, most significant first, no leading zero. */
  function Digits(n: nat): (s: Bytes)
    ensures |s| >= 1 && forall i :: 0 <= i < |s| ==> IsDigit(s[i])
    ensures |s| > 1 ==> s[0] != '0' as int
  {
    if n < 10 then [DigitByte(n)] else Digits(n / 10) + [DigitByte(n % 10)]
  }

  /** The value of a string of decimal digits. */
  function DigitsValue(s: Bytes): nat
    requires forall i :: 0 <= i < |s| ==> IsDigit(s[i])
  {
    if |s| == 0 then 0
    else
      assert IsDigit(s[|s| - 1]);
      var d := s[|s| - 1] as int - '0' as int;
      DigitsValue(s[..|s| - 1]) * 10 + d
  }

  lemma {:induction false} DigitsRoundTrip(n: nat)
    ensures DigitsValue(Digits(n)) == n
  {
    if n >= 10 {
      DigitsRoundTrip(n / 10);
      var s := Digits(n);
      assert s[..|s| - 1] == Digits(n / 10);
    }
  }

  function Pow10(k: nat): (p: nat)
    ensures p >= 1
  {
    if k == 0 then 1 else 10 * Pow10(k - 1)
  }

  lemma {:induction false} DigitsLength(n: nat, k: nat)
    requires k >= 1 && n < Pow10(k)
    ensures |Digits(n)| <= k
  {
    if n >= 10 {
      assert k > 1;
      assert n / 10 < Pow10(k - 1);
      DigitsLength(n / 10, k - 1);
    }
  }

  lemma {:induction false} Pow10Add(a: nat, b: nat)
    ensures Pow10(a + b) == Pow10(a) * Pow10(b)
  {
    if a > 0 {
      Pow10Add(a - 1, b);
    }
  }

  lemma Pow10Nineteen()
    ensures Pow10(19) == 10_000_000_000_000_000_000
  {
    assert Pow10(3) == 1000;
    Pow10Add(3, 3);
    Pow10Add(6, 6);
    Pow10Add(12, 6);
    Pow10Add(18, 1);
  }

  /** std::to_string of a 64-bit id: an optional minus sign, then the digits. */
  function Decimal(x: int64): (s: Bytes)
    ensures |s| >= 1
  {
    if x < 0 then ['-' as int] + Digits(-(x as int)) else Digits(x)
  }

  /** Reads back the output of Decimal. */
  function ParseDecimal(s: Bytes): int
  {
    if |s| > 0 && s[0] == '-' as int && forall i :: 1 <= i < |s| ==> IsDigit(s[i]) then
      -(DigitsValue(s[1..]) as int)
    else if forall i :: 0 <= i < |s| ==> IsDigit(s[i]) then DigitsValue(s)
    else 0
  }

  lemma DecimalRoundTrip(x: int64)
    ensures ParseDecimal(Decimal(x)) == x
  {
    if x < 0 {
      DigitsRoundTrip(-(x as int));
      assert Decimal(x)[1..] == Digits(-(x as int));
    } else {
      DigitsRoundTrip(x);
    }
  }

  /** The rendering of an int64 needs at most 20 bytes (a sign and 19 digits). */
  lemma DecimalLength(x: int64)
    ensures |Decimal(x)| <= 20
  {
    Pow10Nineteen();
    DigitsLength(if x < 0 then -(x as int) else x, 19);
  }

  /**
   * getRecordIdStr: a null id (repr 0) gives key length 0 and leaves idbuf
   * as it was; any other id sets idbuf to its decimal rendering.
   */
  function RecordIdStr(id: int64, idbuf: Bytes): (r: (int, Bytes))
    ensures id == 0 ==> r == (0, idbuf)
    ensures id != 0 ==> r.1 == Decimal(id) && r.0 == |r.1| && ParseDecimal(r.1) == id
  {
    DecimalRoundTrip(id);
    if id == 0 then (0, idbuf) else (|Decimal(id)|, Decimal(id))
  }

  /** The key bytes a request carries for id: none for the null id. */
  function KeyBytes(id: int64): (k: Bytes)
    ensures |k| <= 20
  {
    DecimalLength(id);
    if id == 0 then [] else Decimal(id)
  }

  // ---------------------------------------------------------------------------
  // Request header and payloads

  const HEADER_SIZE: nat := 12

  /** kvreq_header_t. */
  datatype Header = Header(magic: uint32, flags: uint32, reqType: uint32, container: uint32)

  predicate HeaderOk(h: Header)
  {
    h.magic < TWO_16 && h.flags < TWO_16
  }

  function EncodeHeader(h: Header): (b: Bytes)
    requires HeaderOk(h)
    ensures |b| == HEADER_SIZE
  {
    Uint32LE(h.magic + h.flags * TWO_16) + Uint32LE(h.reqType) + Uint32LE(h.container)
  }

  function DecodeHeader(b: Bytes): (h: Header)
    requires |b| == HEADER_SIZE
    ensures HeaderOk(h)
  {
    var unit := FromUint32LE(b[..4]);
    Header(unit % TWO_16, unit / TWO_16, FromUint32LE(b[4..8]), FromUint32LE(b[8..]))
  }

  lemma HeaderRoundTrip(h: Header)
    requires HeaderOk(h)
    ensures DecodeHeader(EncodeHeader(h)) == h
  {
    var b := EncodeHeader(h);
    assert b[..4] == Uint32LE(h.magic + h.flags * TWO_16);
    assert b[4..8] == Uint32LE(h.reqType);
    assert b[8..] == Uint32LE(h.container);
    Uint32RoundTrip(h.magic + h.flags * TWO_16);
    Uint32RoundTrip(h.reqType);
    Uint32RoundTrip(h.container);
  }

  /** The header every request builder writes: magic, flags 0, the type, container -1. */
  function RequestHeader(t: ReqType): (h: Header)
    ensures HeaderOk(h)
  {
    Header(KV_MAGIC, 0, ReqCode(t), NO_CONTAINER_ID)
  }

  /** The header starts with the bytes 'V', 'K', then two zero flag bytes. */
  lemma RequestHeaderBytes(t: ReqType)
    ensures EncodeHeader(RequestHeader(t))[..4] == ['V' as int, 'K' as int, 0, 0]
    ensures EncodeHeader(RequestHeader(t))[8..] == [0xFF, 0xFF, 0xFF, 0xFF]
  {
    var b := EncodeHeader(RequestHeader(t));
    assert b[..4] == Uint32LE(KV_MAGIC);
    assert b[8..] == Uint32LE(NO_CONTAINER_ID);
  }

  /** sizeof(kvreq_put_one_t): keylen, datalen, then the transaction id. */
  function PutOneSize(txnSize: nat): nat
  {
    8 + txnSize
  }

  /** sizeof(kvreq_get_one_t): the hint, then keylen. */
  function GetOneSize(hintSize: nat): nat
  {
    hintSize + 4
  }

  /**
   * preparePutOne: header, then keylen, datalen = |data| and a zero
   * transaction id, then the key bytes, then the data bytes.
   */
  function PutOneRequest(t: ReqType, id: int64, data: Bytes, txnSize: nat): (b: Bytes)
    requires |data| < TWO_31
    ensures |b| == HEADER_SIZE + PutOneSize(txnSize) + |KeyBytes(id)| + |data|
  {
    var key := KeyBytes(id);
    EncodeHeader(RequestHeader(t)) + Int32LE(|key|) + Int32LE(|data|) + Zeros(txnSize) + key + data
  }

  /** The fields a put request carries. */
  datatype PutFields = PutFields(header: Header, txn: Bytes, key: Bytes, data: Bytes)

  /** Reads a put request: the lengths in the payload say where the key and data end. */
  function ParsePutOneRequest(b: Bytes, txnSize: nat): Option<PutFields>
  {
    var off := HEADER_SIZE + PutOneSize(txnSize);
    if |b| < off then None
    else
      var keylen := FromInt32LE(b[HEADER_SIZE..HEADER_SIZE + 4]);
      var datalen := FromInt32LE(b[HEADER_SIZE + 4..HEADER_SIZE + 8]);
      if keylen < 0 || datalen < 0 || |b| != off + keylen + datalen then None
      else Some(PutFields(DecodeHeader(b[..HEADER_SIZE]), b[HEADER_SIZE + 8..off],
                          b[off..off + keylen], b[off + keylen..]))
  }

  /** The pieces of a four-part message are where their lengths put them. */
  lemma Slices4(a: Bytes, b: Bytes, c: Bytes, d: Bytes)
    ensures var s := a + b + c + d;
            s[..|a|] == a && s[|a|..|a| + |b|] == b && s[|a| + |b|..|a| + |b| + |c|] == c
            && s[|a| + |b| + |c|..] == d
  {
    var s := a + b + c + d;
    assert s == (a + b) + (c + d);
    assert (a + b)[..|a|] == a;
    assert (c + d)[..|c|] == c;
  }

  /** The pieces of a six-part message are where their lengths put them. */
  lemma Slices6(a: Bytes, b: Bytes, c: Bytes, d: Bytes, e: Bytes, f: Bytes)
    ensures var s := a + b + c + d + e + f;
            var i, j, k, l, m := |a|, |a| + |b|, |a| + |b| + |c|, |a| + |b| + |c| + |d|, |a| + |b| + |c| + |d| + |e|;
            s[..i] == a && s[i..j] == b && s[j..k] == c && s[k..l] == d && s[l..m] == e && s[m..] == f
  {
    var s := a + b + c + d + e + f;
    assert s == (a + b + c) + (d + e + f);
    Slices4(a, b, c, []);
    Slices4(d, e, f, []);
    assert (a + b + c + []) == a + b + c && (d + e + f + []) == d + e + f;
  }

  /** What preparePutOne builds reads back as its header, a zero txn id, the key and the data. */
  lemma PutOneRoundTrip(t: ReqType, id: int64, data: Bytes, txnSize: nat)
    requires |data| < TWO_31
    ensures ParsePutOneRequest(PutOneRequest(t, id, data, txnSize), txnSize)
         == Some(PutFields(RequestHeader(t), Zeros(txnSize), KeyBytes(id), data))
  {
    var key := KeyBytes(id);
    var hdr := EncodeHeader(RequestHeader(t));
    Slices6(hdr, Int32LE(|key|), Int32LE(|data|), Zeros(txnSize), key, data);
    HeaderRoundTrip(RequestHeader(t));
    Int32RoundTrip(|key|);
    Int32RoundTrip(|data|);
  }

  /**
   * prepareGetOne: header, then the hint (all zero without a hint pointer),
   * then keylen, then the key bytes.
   */
  function GetOneRequest(t: ReqType, id: int64, hint: Option<Bytes>, hintSize: nat): (b: Bytes)
    requires hint.Some? ==> |hint.value| == hintSize
    ensures |b| == HEADER_SIZE + GetOneSize(hintSize) + |KeyBytes(id)|
  {
    var key := KeyBytes(id);
    var h := if hint.Some? then hint.value else Zeros(hintSize);
    EncodeHeader(RequestHeader(t)) + h + Int32LE(|key|) + key
  }

  /** The fields a get request carries. */
  datatype GetFields = GetFields(header: Header, hint: Bytes, key: Bytes)

  function ParseGetOneRequest(b: Bytes, hintSize: nat): Option<GetFields>
  {
    var off := HEADER_SIZE + GetOneSize(hintSize);
    if |b| < off then None
    else
      var keylen := FromInt32LE(b[HEADER_SIZE + hintSize..off]);
      if keylen < 0 || |b| != off + keylen then None
      else Some(GetFields(DecodeHeader(b[..HEADER_SIZE]), b[HEADER_SIZE..HEADER_SIZE + hintSize],
                          b[off..]))
  }

  /** What prepareGetOne builds reads back as its header, the hint or zeros, and the key. */
  lemma GetOneRoundTrip(t: ReqType, id: int64, hint: Option<Bytes>, hintSize: nat)
    requires hint.Some? ==> |hint.value| == hintSize
    ensures ParseGetOneRequest(GetOneRequest(t, id, hint, hintSize), hintSize)
         == Some(GetFields(RequestHeader(t), if hint.Some? then hint.value else Zeros(hintSize),
                           KeyBytes(id)))
  {
    var key := KeyBytes(id);
    var h := if hint.Some? then hint.value else Zeros(hintSize);
    Slices4(EncodeHeader(RequestHeader(t)), h, Int32LE(|key|), key);
    HeaderRoundTrip(RequestHeader(t));
    Int32RoundTrip(|key|);
  }

  // ---------------------------------------------------------------------------
  // Responses

  /** sizeof(kvresp_put_one_t): record id, code, hint. */
  function PutRespSize(hintSize: nat): nat
  {
    12 + hintSize
  }

  /** sizeof(kvresp_get_one_t): code, hint, data length. */
  function GetRespSize(hintSize: nat): nat
  {
    8 + hintSize
  }

  datatype PutResp = PutResp(recordId: int64, code: uint32, hint: Bytes)
  datatype GetResp = GetResp(code: uint32, hint: Bytes, dataLen: int32)

  function EncodePutResp(r: PutResp): (b: Bytes)
    ensures |b| == PutRespSize(|r.hint|)
  {
    Int64LE(r.recordId) + Uint32LE(r.code) + r.hint
  }

  function DecodePutResp(b: Bytes, hintSize: nat): (r: PutResp)
    requires |b| == PutRespSize(hintSize)
    ensures |r.hint| == hintSize
  {
    PutResp(FromInt64LE(b[..8]), FromUint32LE(b[8..12]), b[12..])
  }

  lemma PutRespRoundTrip(r: PutResp)
    ensures DecodePutResp(EncodePutResp(r), |r.hint|) == r
  {
    var b := EncodePutResp(r);
    assert b[..8] == Int64LE(r.recordId);
    assert b[8..12] == Uint32LE(r.code);
    assert b[12..] == r.hint;
    Int64RoundTrip(r.recordId);
    Uint32RoundTrip(r.code);
  }

  function EncodeGetResp(r: GetResp): (b: Bytes)
    ensures |b| == GetRespSize(|r.hint|)
  {
    Uint32LE(r.code) + r.hint + Int32LE(r.dataLen)
  }

  function DecodeGetResp(b: Bytes, hintSize: nat): (r: GetResp)
    requires |b| == GetRespSize(hintSize)
    ensures |r.hint| == hintSize
  {
    GetResp(FromUint32LE(b[..4]), b[4..4 + hintSize], FromInt32LE(b[4 + hintSize..]))
  }

  lemma GetRespRoundTrip(r: GetResp)
    ensures DecodeGetResp(EncodeGetResp(r), |r.hint|) == r
  {
    var b := EncodeGetResp(r);
    assert b[..4] == Uint32LE(r.code);
    assert b[4..4 + |r.hint|] == r.hint;
    assert b[4 + |r.hint|..] == Int32LE(r.dataLen);
    Uint32RoundTrip(r.code);
    Int32RoundTrip(r.dataLen);
  }
}
