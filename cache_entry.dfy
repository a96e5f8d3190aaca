/**
 * The values kept by the record cache of ontapkv_cachemgr.h: the combined
 * cache key, the Fibonacci bucket hash, the metadata (StorageUberContext) and
 * the cache entry itself.
 */
module CacheEntry {
  import opened KvTypes

  /** Number of bucket heads, 2^H_BITS. */
  const CACHE_SIZE: nat := 1024
  const H_BITS: nat := 10
  /** 2^64 divided by the golden ratio, the multiplier of the Fibonacci hash. */
  const FIB_MULTIPLIER: nat := 11400714819323198549

  /** The C macros KVCACHE_FOUND, KVCACHE_NOT_FOUND, KVCACHE_MD_ONLY. */
  const KVCACHE_FOUND: int := 0
  const KVCACHE_NOT_FOUND: int := -1
  const KVCACHE_MD_ONLY: int := 1

  /**
   * generateKey / OntapKVCacheEntry::getKey: the container id plus the record
   * id, in signed 64-bit arithmetic. The sum of an int32 and an int64 leaves
   * the int64 range by less than 2^31, so one correction by 2^64 is the
   * two's-complement wrap (GenerateKeyWraps).
   */
  function GenerateKey(container: int32, id: int64): (key: int64)
    ensures INT64_MIN <= container + id <= INT64_MAX ==> key == container + id
  {
    var sum := container as int + id as int;
    if sum > INT64_MAX then sum - TWO_64
    else if sum < INT64_MIN then sum + TWO_64
    else sum
  }

  /** The key is the sum reduced modulo 2^64 into the signed 64-bit range. */
  lemma GenerateKeyWraps(container: int32, id: int64)
    ensures GenerateKey(container, id) == Wrap64(container as int + id as int)
    ensures (GenerateKey(container, id) - (container as int + id as int)) % TWO_64 == 0
  {
  }

  /** Two (container, id) pairs with the same sum share one cache key. */
  lemma KeysCollideOnEqualSums(c1: int32, id1: int64, c2: int32, id2: int64)
    requires c1 + id1 == c2 + id2
    ensures GenerateKey(c1, id1) == GenerateKey(c2, id2)
  {
  }

  /** For keys with the same container, the key determines the record id. */
  lemma KeyDeterminesIdWithinContainer(c: int32, id1: int64, id2: int64)
    requires INT64_MIN <= c + id1 <= INT64_MAX && INT64_MIN <= c + id2 <= INT64_MAX
    requires GenerateKey(c, id1) == GenerateKey(c, id2)
    ensures id1 == id2
  {
  }

  lemma Pow2Values()
    ensures Pow2(10) == 1024
    ensures Pow2(54) == 0x40_0000_0000_0000
    ensures Pow2(64) == TWO_64
  {
    assert Pow2(2) == 4;
    Pow2Add(2, 2);
    assert Pow2(4) == 16;
    Pow2Add(4, 4);
    assert Pow2(8) == 256;
    Pow2Add(8, 8);
    assert Pow2(16) == 65536;
    Pow2Add(16, 16);
    assert Pow2(32) == 4294967296;
    Pow2Add(32, 32);
    assert Pow2(64) == 18446744073709551616;
    Pow2Add(8, 2);
    assert Pow2(10) == 1024;
    Pow2Add(32, 16);
    assert Pow2(48) == 281474976710656;
    Pow2Add(48, 4);
    assert Pow2(52) == 4503599627370496;
    Pow2Add(52, 2);
    assert Pow2(54) == 18014398509481984;
  }

  /**
   * generateHashKey: the unsigned 64-bit product of the key with the
   * Fibonacci multiplier, shifted right by 64 - H_BITS, i.e. its top ten bits.
   */
  function HashKey(key: int64): (bucket: nat)
    ensures bucket < CACHE_SIZE
  {
    var product := (AsUnsigned64(key) * FIB_MULTIPLIER) % TWO_64;
    product / 0x40_0000_0000_0000
  }

  /** The shift in HashKey keeps exactly H_BITS bits. */
  lemma HashKeyIsTopBits(key: int64)
    ensures HashKey(key) == ((AsUnsigned64(key) * FIB_MULTIPLIER) % Pow2(64)) / Pow2(64 - H_BITS)
    ensures CACHE_SIZE == Pow2(H_BITS)
  {
    Pow2Values();
  }

  /**
   * StorageUberContext: the storage hint and the data context, which records
   * the size of the hint it was built for.
   */
  datatype StorageUberContext = StorageUberContext(hint: Bytes, ctx: int)

  /**
   * OntapKVCacheEntry::setMetadata: the hint together with a data context of
   * sizeof(hint). hintSize is sizeof(kv_storage_hint_t).
   */
  function MakeMetadata(hint: Bytes, hintSize: nat): (m: StorageUberContext)
    ensures m.hint == hint
    ensures m.ctx == hintSize
  {
    StorageUberContext(hint, hintSize)
  }

  /**
   * OntapKVCacheEntry. The bytes are None when the entry holds metadata only
   * (the source's NULL _data).
   */
  datatype Entry = Entry(container: int32, id: int64, data: Option<Bytes>, dataLen: int,
                         meta: StorageUberContext)

  function EntryKey(e: Entry): (key: int64)
  {
    GenerateKey(e.container, e.id)
  }

  /** The bytes of an entry are exactly dataLen long. */
  predicate EntryOk(e: Entry)
  {
    e.dataLen >= 0 && (e.data.Some? ==> |e.data.value| == e.dataLen)
  }

  /**
   * The entry constructor: container, id, metadata built from the hint, a
   * private copy of the first len bytes of the caller's buffer, and len.
   */
  function NewEntry(container: int32, id: int64, hint: Bytes, data: Bytes, len: nat,
                    hintSize: nat): (e: Entry)
    requires len <= |data|
    ensures e.container == container && e.id == id
    ensures e.data == Some(data[..len]) && e.dataLen == len
    ensures e.meta.hint == hint && e.meta.ctx == hintSize
    ensures EntryOk(e) && EntryKey(e) == GenerateKey(container, id)
  {
    Entry(container, id, Some(data[..len]), len, MakeMetadata(hint, hintSize))
  }

  /**
   * The update branch of the cache: new bytes, length and metadata; the
   * container and record id of the existing entry are kept.
   */
  function Refresh(e: Entry, hint: Bytes, data: Bytes, len: nat, hintSize: nat): (f: Entry)
    requires len <= |data|
    ensures f.container == e.container && f.id == e.id && EntryKey(f) == EntryKey(e)
    ensures f.data == Some(data[..len]) && f.dataLen == len
    ensures f.meta == MakeMetadata(hint, hintSize)
    ensures EntryOk(f)
  {
    e.(data := Some(data[..len]), dataLen := len, meta := MakeMetadata(hint, hintSize))
  }

  /** What lookup reports. */
  datatype LookupResult = Found(bytes: Bytes, hint: Bytes) | MdOnly(hint: Bytes) | NotFound

  /**
   * The hint a caller of lookup hands to the backend after a miss: the hint
   * lookup wrote for a metadata-only entry, or all zeros (bzero) after
   * NOT_FOUND.
   */
  function HintAfterMiss(r: LookupResult, hintSize: nat): (h: Bytes)
    ensures r.NotFound? ==> h == Zeros(hintSize)
    ensures r.MdOnly? ==> h == r.hint
  {
    if r.NotFound? then Zeros(hintSize) else r.hint
  }

  /** The integer lookup returns for each outcome. */
  function ResultCode(r: LookupResult): (code: int)
    ensures r.Found? <==> code == KVCACHE_FOUND
    ensures r.NotFound? <==> code == KVCACHE_NOT_FOUND
    ensures r.MdOnly? <==> code == KVCACHE_MD_ONLY
  {
    match r
    case Found(_, _) => KVCACHE_FOUND
    case MdOnly(_) => KVCACHE_MD_ONLY
    case NotFound => KVCACHE_NOT_FOUND
  }
}
