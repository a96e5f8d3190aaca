# ONTAP KV storage engine: a Dafny model

This project models the ONTAP KV storage engine of a MongoDB fork
(`src/mongo/db/storage/ontapkv/`). The engine keeps the documents of each
collection on an ONTAP key-value server that it reaches over a socket, and
it puts a record cache in front of it. The model covers these parts:

- **Record cache** (`OntapKVCacheMgr`, `OntapKVCacheEntry`). This is a
  table of `CACHE_SIZE` = 1024 chained buckets.
  - The key is `containerId + recordId`, reduced to 64 bits.
  - The bucket is chosen by Fibonacci hashing: the top 10 bits of the key
    times 11400714819323198549.
  - Each entry holds a private copy of the record bytes and a storage hint.
  - Lookup answers `FOUND`, `NOT_FOUND` or `MD_ONLY`. Insert appends a new
    entry or replaces an existing one. Update refreshes a present entry.
    Invalidate unlinks an entry.
- **Latency histogram** (`Histogram`): linear or exponential bucket
  boundaries in 32-bit arithmetic, and the binary search that places a
  sample in a bucket.
- **Wire format** (`kv_format.h`): the packed little-endian request and
  response layouts, and the decimal record keys.
- **IPC backend** (`OntapKVIOMgrIPC`, `Request`, `Response`,
  `OntapKVIteratorIPC`):
  - requests are built with `memcpy`;
  - replies are parsed;
  - the per-store id counter starts at `rsid << 32`;
  - the cursor consults the cache first.
- **Connection cache** (`IPCConnectionCache`): the slot flags and the scan
  that hands out the lowest free slot, modelled as a class on its own.
  `OntapKVIOMgrIPC` keeps a pointer to a connection cache but never uses
  it: every backend call opens its own `IPCConnection`. So no backend
  operation of the model goes through `ConnectionSlots`.
- **Memory-backed backends** (`ontapkv_iomgr_mock.cpp` and
  `ontapkv_record_store_mock.cpp`): a `std::map` from id to bytes, and a
  forward cursor driven by `lower_bound` with `LLONG_MAX` as its end
  sentinel.
- **Record store façade** (`ontapkv_record_store.cpp`): it ties the cache
  to the backend. It also keeps the record and byte counters with their
  add-then-reset rule.
- **Engine** (`ontapkv_kv_engine.cpp`): record-store ids and the
  per-namespace store registry.
- **Index** (`ontapkv_index.cpp`): a sorted multimap from key to record id,
  with a duplicate-key check.
- **Recovery unit** (`ontapkv_recovery_unit_mock.cpp`): the unit-of-work
  state machine.

The model has the following parts:

- Pure data is modelled by datatypes and functions.
- Objects the C++ updates in place are classes:
  - `CacheMgr` has an array of chains;
  - `Histogram` has arrays of boundaries and counts;
  - the connection cache has an array of slot flags;
  - the record stores, backends, cursors, index, engine and recovery unit
    are classes too.
- The methods of these classes are proved against the specification
  functions, and lemmas state the properties that hold across several
  calls. Examples of such properties:
  - insert then lookup;
  - invalidate then lookup;
  - what a full cursor walk yields;
  - how counters evolve;
  - how units of work alternate.
- Integers have the widths of the C++ types. `int64`, `int32` and `uint32`
  wrap around explicitly where the source can overflow.

The socket is not modelled. A method that talks to the server takes the
reply bytes as parameters and returns the bytes it would send. Its contract
ties both to the wire-format functions.

## Model

| member | source | states |
|---|---|---|
| CacheEntry.GenerateKey | src/mongo/db/storage/ontapkv/ontapkv_cachemgr.h:182-184 | the combined key is container + id, the plain sum whenever it fits in 64 bits |
| CacheEntry.GenerateKeyWraps | src/mongo/db/storage/ontapkv/ontapkv_cachemgr.h:145-147 | the key is the sum reduced modulo 2^64 into the signed range (getKey and generateKey agree) |
| CacheEntry.KeysCollideOnEqualSums | src/mongo/db/storage/ontapkv/ontapkv_cachemgr.h:182-184 | two (container, id) pairs with equal sums get the same cache key |
| CacheEntry.KeyDeterminesIdWithinContainer | src/mongo/db/storage/ontapkv/ontapkv_cachemgr.h:182-184 | within one container the key determines the record id |
| CacheEntry.HashKey | src/mongo/db/storage/ontapkv/ontapkv_cachemgr.h:186-188 | the bucket of a key is always below CACHE_SIZE |
| CacheEntry.HashKeyIsTopBits | src/mongo/db/storage/ontapkv/ontapkv_cachemgr.h:25-26 | the bucket is the top h_bits = 10 bits of the unsigned 64-bit product with 11400714819323198549, and CACHE_SIZE = 2^10 |
| CacheEntry.MakeMetadata | src/mongo/db/storage/ontapkv/ontapkv_cachemgr.h:95-100 | setMetadata keeps the hint and records sizeof(hint) as the data context |
| CacheEntry.NewEntry | src/mongo/db/storage/ontapkv/ontapkv_cachemgr.h:77-87 | the entry constructor keeps container, id, hint, a private copy of len bytes and len, and its key is generateKey of its two ids |
| CacheEntry.Refresh | src/mongo/db/storage/ontapkv/ontapkv_cachemgr.cpp:112-117 | update replaces bytes, length and metadata and keeps the container, id and key |
| CacheEntry.HintAfterMiss | src/mongo/db/storage/ontapkv/ontapkv_record_store.cpp:112-121 | after NOT_FOUND the backend gets a zeroed hint, after MD_ONLY the hint lookup wrote |
| CacheEntry.ResultCode | src/mongo/db/storage/ontapkv/ontapkv_cachemgr.h:165-167 | FOUND, NOT_FOUND and MD_ONLY map to 0, -1 and 1, each code to exactly one outcome |
| CacheChain.ChainFind | src/mongo/db/storage/ontapkv/ontapkv_cachemgr.cpp:29-38 | the entry found for a key has that key |
| CacheChain.FindNoneIff | src/mongo/db/storage/ontapkv/ontapkv_cachemgr.cpp:29-38 | a chain walk finds nothing exactly when the key is not among the chain's keys |
| CacheChain.ChainUpdate | src/mongo/db/storage/ontapkv/ontapkv_cachemgr.cpp:100-110 | update keeps the chain length and changes nothing for an absent key |
| CacheChain.ChainRemove | src/mongo/db/storage/ontapkv/ontapkv_cachemgr.cpp:123-148 | invalidate of an absent key changes nothing; of a present key it removes exactly one entry |
| CacheChain.FindAfterUpdate | src/mongo/db/storage/ontapkv/ontapkv_cachemgr.cpp:100-120 | after an update the key finds the refreshed entry |
| CacheChain.UpdateTouchesOneEntry | src/mongo/db/storage/ontapkv/ontapkv_cachemgr.cpp:100-120 | every entry with a different key is unchanged by an update |
| CacheChain.FindOtherAfterUpdate | src/mongo/db/storage/ontapkv/ontapkv_cachemgr.cpp:100-120 | other keys find what they found before the update |
| CacheChain.FindAfterInsert | src/mongo/db/storage/ontapkv/ontapkv_cachemgr.cpp:69-92 | after an insert the key finds the new bytes and hint, a new entry when it was absent |
| CacheChain.FindOtherAfterInsert | src/mongo/db/storage/ontapkv/ontapkv_cachemgr.cpp:76-89 | other keys find what they found before the insert |
| CacheChain.InsertShape | src/mongo/db/storage/ontapkv/ontapkv_cachemgr.cpp:76-85 | an absent key is appended at the tail with earlier entries kept in order; a present key keeps the length |
| CacheChain.InsertKeepsDistinct | src/mongo/db/storage/ontapkv/ontapkv_cachemgr.cpp:79-89 | insert keeps the chain's keys pairwise distinct |
| CacheChain.InsertKeepsPlaced | src/mongo/db/storage/ontapkv/ontapkv_cachemgr.cpp:69-92 | insert keeps every entry in the bucket its key hashes to |
| CacheChain.UpdateKeepsInvariant | src/mongo/db/storage/ontapkv/ontapkv_cachemgr.cpp:94-121 | update keeps keys distinct and entries placed |
| CacheChain.FindAfterRemove | src/mongo/db/storage/ontapkv/ontapkv_cachemgr.cpp:123-148 | after invalidate the key is not found |
| CacheChain.FindOtherAfterRemove | src/mongo/db/storage/ontapkv/ontapkv_cachemgr.cpp:123-148 | other keys find what they found before the invalidate |
| CacheChain.RemoveKeepsInvariant | src/mongo/db/storage/ontapkv/ontapkv_cachemgr.cpp:123-148 | invalidate keeps keys distinct and entries placed |
| KeyList.FirstIndex | src/mongo/db/storage/ontapkv/ontapkv_cachemgr.cpp:29-38 | the chain walk stops at the first matching key, with no match before it |
| KeyList.FirstIndexAbsent | src/mongo/db/storage/ontapkv/ontapkv_cachemgr.cpp:29-38 | the walk runs off the end exactly when the key does not occur |
| CacheManager.ReplaceChain | src/mongo/db/storage/ontapkv/ontapkv_cachemgr.cpp:69-148 | rewriting one bucket with a valid chain keeps the table invariant and what keys of other buckets find |
| CacheManager.InsertIntoTable | src/mongo/db/storage/ontapkv/ontapkv_cachemgr.cpp:69-92 | insert at table level: the key finds the new bytes, every other key is unaffected |
| CacheManager.UpdateInTable | src/mongo/db/storage/ontapkv/ontapkv_cachemgr.cpp:94-121 | update at table level: present key refreshed, absent key no change, other keys unaffected |
| CacheManager.RemoveFromTable | src/mongo/db/storage/ontapkv/ontapkv_cachemgr.cpp:123-148 | invalidate at table level: key gone, other keys unaffected |
| CacheManager.LookupOutcome | src/mongo/db/storage/ontapkv/ontapkv_cachemgr.cpp:22-67 | lookup reports NOT_FOUND for no entry or a stale context, FOUND with the stored bytes and hint iff the entry holds data, otherwise MD_ONLY with the hint |
| CacheManager.CacheMgr.Lookup | src/mongo/db/storage/ontapkv/ontapkv_cachemgr.cpp:22-67 | lookup's result is LookupOutcome of the entry held; a stale entry is invalidated, otherwise nothing changes (AfterLookup); on a coherent cache a present key is FOUND |
| CacheManager.LookupKeepsEntries | src/mongo/db/storage/ontapkv/ontapkv_cachemgr.cpp:22-67 | after a lookup the table keeps its invariant, every other key finds what it found before, and a second lookup of the key reports what the first did |
| CacheManager.CacheMgr.Insert | src/mongo/db/storage/ontapkv/ontapkv_cachemgr.cpp:69-92 | insert returns true, the key then holds the new bytes and hint, and every other key is unchanged |
| CacheManager.CacheMgr.Update | src/mongo/db/storage/ontapkv/ontapkv_cachemgr.cpp:94-121 | update returns true iff the key was present; absent leaves the table unchanged; present refreshes only that entry |
| CacheManager.CacheMgr.Invalidate | src/mongo/db/storage/ontapkv/ontapkv_cachemgr.cpp:123-148 | invalidate returns true, the key is then absent, every other key unchanged |
| CacheManager.Unlink | src/mongo/db/storage/ontapkv/ontapkv_cachemgr.cpp:128-145 | the walk with its predecessor pointer removes exactly the first entry carrying the key and keeps the chain as it was when no entry has it |
| CacheProperties.InsertThenLookup | src/mongo/db/storage/ontapkv/ontapkv_cachemgr.cpp:22-92 | insert then lookup of the same (container, id) is FOUND with the same bytes and hint |
| CacheProperties.CopyIsPrivate | src/mongo/db/storage/ontapkv/ontapkv_cachemgr.h:126-131 | overwriting the caller's buffer after insert does not change what lookup returns |
| CacheProperties.InvalidateThenLookup | src/mongo/db/storage/ontapkv/ontapkv_cachemgr.cpp:123-148 | after invalidate, lookup is NOT_FOUND |
| CacheProperties.InsertTwiceThenLookup | src/mongo/db/storage/ontapkv/ontapkv_cachemgr.cpp:79-92 | a second insert under the same key replaces bytes and hint |
| CacheProperties.AliasedKeysShareAnEntry | src/mongo/db/storage/ontapkv/ontapkv_cachemgr.h:145-147 | an insert under (c1, id1) is found under any (c2, id2) with the same sum |
| LatencyHistogram.DefaultOptions | src/mongo/db/storage/ontapkv/ontapkv_histogram.h:50-54 | Options() has zero counts and sizes and linear buckets |
| LatencyHistogram.Boundaries | src/mongo/db/storage/ontapkv/ontapkv_histogram.cpp:24-38 | one boundary per bucket |
| LatencyHistogram.LinearExample | src/mongo/db/storage/ontapkv/ontapkv_histogram.h:21-25 | 3 linear buckets of size 10 have boundaries 10, 20, UINT32_MAX |
| LatencyHistogram.ExponentialExample | src/mongo/db/storage/ontapkv/ontapkv_histogram.h:33-40 | 4 exponential buckets of size 125 have boundaries 125, 250, 500, UINT32_MAX |
| LatencyHistogram.LinearValue | src/mongo/db/storage/ontapkv/ontapkv_histogram.cpp:33-36 | without wrap-around linear boundary i is initial + size * (i + 1) |
| LatencyHistogram.LinearAscending | src/mongo/db/storage/ontapkv/ontapkv_histogram.cpp:33-38 | without wrap-around linear boundaries ascend |
| LatencyHistogram.ExpValue | src/mongo/db/storage/ontapkv/ontapkv_histogram.cpp:25-31 | without wrap-around exponential boundary i is initial + size * 2^i |
| LatencyHistogram.ExponentialAscending | src/mongo/db/storage/ontapkv/ontapkv_histogram.cpp:25-38 | without wrap-around exponential boundaries ascend |
| LatencyHistogram.LinearStep | src/mongo/db/storage/ontapkv/ontapkv_histogram.cpp:34-36 | one pass of the linear loop adds bucketSize to the previous boundary, modulo 2^32 |
| LatencyHistogram.ExpStep | src/mongo/db/storage/ontapkv/ontapkv_histogram.cpp:26-30 | one pass of the exponential loop computes boundary i from twoPow = 2^i mod 2^32 and doubles it |
| LatencyHistogram.Search | src/mongo/db/storage/ontapkv/ontapkv_histogram.cpp:100-112 | the binary search stays inside [low, high] |
| LatencyHistogram.SearchBrackets | src/mongo/db/storage/ontapkv/ontapkv_histogram.cpp:100-112 | the search ends in a bucket whose boundary is at least e and whose predecessor's is below e |
| LatencyHistogram.FindBucketSpec | src/mongo/db/storage/ontapkv/ontapkv_histogram.cpp:97-113 | the bucket is below numBuckets, its boundary is at least e and the one before is below e |
| LatencyHistogram.FindBucketIsLeast | src/mongo/db/storage/ontapkv/ontapkv_histogram.h:99-104 | with ascending boundaries e is in bucket i iff i is the least bucket whose boundary is at least e |
| LatencyHistogram.LinearExamplePlacement | src/mongo/db/storage/ontapkv/ontapkv_histogram.h:21-25 | in the documented example 10, 15 and 21 fall in buckets 0, 1 and 2 |
| LatencyHistogram.MaxCount | src/mongo/db/storage/ontapkv/ontapkv_histogram.cpp:58-63 | the maximum count bounds every count and is one of them (or 0) |
| LatencyHistogram.Histogram.constructor | src/mongo/db/storage/ontapkv/ontapkv_histogram.cpp:14-43 | boundaries are Boundaries(opts) and every count is 0 |
| LatencyHistogram.Histogram.FindBucket | src/mongo/db/storage/ontapkv/ontapkv_histogram.cpp:97-113 | the loop returns FindBucketSpec: the first boundary at least the element. It uses the midpoint `low + (high - low) / 2` of the comment on line 103, not the `(low + high) >> 1` of line 104; MidpointsAgree shows the two agree below 2^31 buckets, and the Findings row covers the rest |
| LatencyHistogram.Histogram.Insert | src/mongo/db/storage/ontapkv/ontapkv_histogram.cpp:50-55 | an element below initialValue changes nothing; otherwise exactly the count of its bucket grows by one (mod 2^64) |
| LatencyHistogram.Histogram.ToHTML | src/mongo/db/storage/ontapkv/ontapkv_histogram.cpp:57-66 | the text is "histogram is empty\n" exactly when every count is 0 |
| LatencyHistogram.Histogram.GetCount | src/mongo/db/storage/ontapkv/ontapkv_histogram.cpp:81-85 | 0 past the last bucket, otherwise the stored count |
| LatencyHistogram.Histogram.GetBoundary | src/mongo/db/storage/ontapkv/ontapkv_histogram.cpp:87-91 | 0 past the last bucket, otherwise the bucket's boundary |
| LatencyHistogram.Histogram.GetBucketsNum | src/mongo/db/storage/ontapkv/ontapkv_histogram.cpp:93-95 | the number of buckets |
| LatencyHistogram.MidAsWritten | src/mongo/db/storage/ontapkv/ontapkv_histogram.cpp:104 | the uint32 midpoint as written stays below high when low < high |
| LatencyHistogram.MidpointsAgree | src/mongo/db/storage/ontapkv/ontapkv_histogram.cpp:103-104 | below 2^31 buckets the written midpoint equals low + (high - low) / 2 |
| LatencyHistogram.AsWrittenSearchNeverEnds | src/mongo/db/storage/ontapkv/ontapkv_histogram.cpp:100-112 | with 2^32 - 1 zero-sized buckets, inserting 1 keeps low below high after any number of iterations |
| LatencyHistogram.CycleStep | src/mongo/db/storage/ontapkv/ontapkv_histogram.cpp:104-106 | each iteration of that search moves low around a cycle of powers of two |
| WireFormat.ReqCode | src/mongo/db/storage/ontapkv/kv_format.h:6-13 | request types have codes 1 to 5 |
| WireFormat.ReqCodesConsecutive | src/mongo/db/storage/ontapkv/kv_format.h:6-13 | KV_GET_ONE is 1, KV_DEL_BULK is KV_LAST_REQ_TYPE, and codes are distinct |
| WireFormat.MagicSpellsKV | src/mongo/db/storage/ontapkv/kv_format.h:25 | KV_MAGIC is the ASCII letters "KV" |
| WireFormat.FromLEOfLE | src/mongo/db/storage/ontapkv/kv_format.h:27-80 | little-endian encoding of a field reads back as the value |
| WireFormat.LEOfFromLE | src/mongo/db/storage/ontapkv/kv_format.h:27-80 | and every byte string is the encoding of what it reads as |
| WireFormat.Int32RoundTrip | src/mongo/db/storage/ontapkv/kv_format.h:44 | a signed 32-bit field reads back |
| WireFormat.Uint32RoundTrip | src/mongo/db/storage/ontapkv/kv_format.h:31 | an unsigned 32-bit field reads back |
| WireFormat.Int64RoundTrip | src/mongo/db/storage/ontapkv/kv_format.h:77 | a signed 64-bit field reads back |
| WireFormat.DecimalRoundTrip | src/mongo/db/storage/ontapkv/ontapkv_iomgr_ipc.cpp:115 | the decimal rendering of a record id parses back to it |
| WireFormat.DecimalLength | src/mongo/db/storage/ontapkv/ontapkv_iomgr_ipc.cpp:115-116 | a rendered id takes at most 20 bytes |
| WireFormat.RecordIdStr | src/mongo/db/storage/ontapkv/ontapkv_iomgr_ipc.cpp:111-118 | the null id gives length 0 and leaves idbuf; any other id sets idbuf to its decimal rendering and returns its length |
| WireFormat.HeaderRoundTrip | src/mongo/db/storage/ontapkv/kv_format.h:27-32 | the packed header (magic, flags, type, container) reads back |
| WireFormat.RequestHeaderBytes | src/mongo/db/storage/ontapkv/ontapkv_iomgr_ipc.cpp:189-193 | a request header starts 'V','K',0,0 and ends with container 0xFFFFFFFF |
| WireFormat.PutOneRequest | src/mongo/db/storage/ontapkv/ontapkv_iomgr_ipc.cpp:182-185 | a put request is header + put payload + key + data bytes long |
| WireFormat.PutOneRoundTrip | src/mongo/db/storage/ontapkv/ontapkv_iomgr_ipc.cpp:182-210 | a put request reads back as its header, keylen, datalen, zero txn, key and data |
| WireFormat.GetOneRequest | src/mongo/db/storage/ontapkv/ontapkv_iomgr_ipc.cpp:220-223 | a get request is header + get payload + key bytes long |
| WireFormat.GetOneRoundTrip | src/mongo/db/storage/ontapkv/ontapkv_iomgr_ipc.cpp:224-238 | a get request reads back as its header, the hint or zeros, keylen and key |
| WireFormat.PutRespRoundTrip | src/mongo/db/storage/ontapkv/kv_format.h:76-80 | a put response (record id, code, hint) reads back |
| WireFormat.GetRespRoundTrip | src/mongo/db/storage/ontapkv/kv_format.h:68-74 | a get response (code, hint, datalen) reads back |
| IpcMessages.Memcpy | src/mongo/db/storage/ontapkv/ontapkv_iomgr_ipc.cpp:205-209 | memcpy writes src at the offset and keeps the bytes around it |
| IpcMessages.CopyInOrder | src/mongo/db/storage/ontapkv/ontapkv_iomgr_ipc.cpp:205-209 | the request's memcpy calls leave header, payload, key and data back to back |
| IpcMessages.PutReplyOutcome | src/mongo/db/storage/ontapkv/ontapkv_iomgr_ipc.cpp:148-159 | parsePutResponse succeeds iff the code is KV_NO_ERROR, returns the reply's hint then, keeps the caller's hint otherwise, and ignores the record id |
| IpcMessages.Request.PreparePutOne | src/mongo/db/storage/ontapkv/ontapkv_iomgr_ipc.cpp:174-210 | the buffer is exactly PutOneRequest of the id and the first len bytes |
| IpcMessages.Request.PrepareGetOne | src/mongo/db/storage/ontapkv/ontapkv_iomgr_ipc.cpp:212-239 | the buffer is exactly GetOneRequest of the id and hint |
| IpcMessages.Response.ParseGetResponse | src/mongo/db/storage/ontapkv/ontapkv_iomgr_ipc.cpp:161-172 | false and no change unless KV_NO_ERROR; otherwise true with the declared length stored and reported, a buffer of that size for a length of at least 0, and an empty buffer (malloc's NULL) for a negative one |
| ConnectionSlots.LowestFree | src/mongo/db/storage/ontapkv/ontapkv_iomgr_ipc.h:56-60 | the scan stops at the lowest free slot, all before it in use |
| ConnectionSlots.LowestFreeFull | src/mongo/db/storage/ontapkv/ontapkv_iomgr_ipc.h:56-61 | the scan finds no slot exactly when all are in use |
| ConnectionSlots.AcquireFrom | src/mongo/db/storage/ontapkv/ontapkv_iomgr_ipc.h:53-66 | from slots 0..k-1 taken, n acquisitions report k..k+n-1 |
| ConnectionSlots.AcquiresFromFresh | src/mongo/db/storage/ontapkv/ontapkv_iomgr_ipc.h:56-63 | k <= 20 acquisitions from fresh report 0..k-1, pairwise distinct |
| ConnectionSlots.TwentyFirstAcquireFails | src/mongo/db/storage/ontapkv/ontapkv_iomgr_ipc.h:61 | with all 20 slots taken the scan reaches MAX_CONN: invariant(i < MAX_CONN) fails |
| ConnectionSlots.ConnectionCache.constructor | src/mongo/db/storage/ontapkv/ontapkv_iomgr_ipc.h:40-46 | all MAX_CONN slots start free |
| ConnectionSlots.ConnectionCache.GetConnection | src/mongo/db/storage/ontapkv/ontapkv_iomgr_ipc.h:53-66 | reports the lowest free slot, marks it used, changes no other slot |
| ConnectionSlots.ConnectionCache.DropConnection | src/mongo/db/storage/ontapkv/ontapkv_iomgr_ipc.h:68-72 | clears only slot i |
| IpcBackend.InRangeInBlock | src/mongo/db/storage/ontapkv/ontapkv_iomgr_ipc.cpp:426-428 | every id of a store's 2^32 block passes checkRange |
| IpcBackend.NoneInRangeOfStoreZero | src/mongo/db/storage/ontapkv/ontapkv_iomgr_ipc.cpp:426-428 | store 0 passes no id through checkRange |
| IpcBackend.IOMgrIPC.constructor | src/mongo/db/storage/ontapkv/ontapkv_iomgr_ipc.h:100-102 | _rsid = rsid << 32 and the id counter starts at _rsid |
| IpcBackend.IOMgrIPC.GetNextRecordId | src/mongo/db/storage/ontapkv/ontapkv_iomgr_ipc.cpp:241-244 | addAndFetch: the new counter is returned, one more than before |
| IpcBackend.FirstIdAfterConstruction | src/mongo/db/storage/ontapkv/ontapkv_iomgr_ipc.cpp:241-244 | the first id handed out is (rsid << 32) + 1 |
| IpcBackend.IOMgrIPC.WriteRecord | src/mongo/db/storage/ontapkv/ontapkv_iomgr_ipc.cpp:247-270 | sends the put request for the next id; on KV_NO_ERROR returns that id and the reply's hint, else BadValue |
| IpcBackend.IOMgrIPC.ReadRecord | src/mongo/db/storage/ontapkv/ontapkv_iomgr_ipc.cpp:272-301 | sends the get request with the hint; returns the received bytes iff the code is KV_NO_ERROR |
| IpcBackend.IOMgrIPC.UpdateRecord | src/mongo/db/storage/ontapkv/ontapkv_iomgr_ipc.cpp:303-322 | sends the put for oldLocation; on success returns oldLocation, else BadValue; the counter stays |
| IpcBackend.IOMgrIPC.DeleteRecord | src/mongo/db/storage/ontapkv/ontapkv_iomgr_ipc.cpp:324-337 | nothing is sent |
| IpcBackend.IteratorIPC.constructor | src/mongo/db/storage/ontapkv/ontapkv_iomgr_ipc.cpp:341-351 | forward cursor starts at rsid + 1, backward at the last id handed out |
| IpcBackend.IteratorIPC.Fetch | src/mongo/db/storage/ontapkv/ontapkv_iomgr_ipc.cpp:369-385 | the cache answers on FOUND with nothing sent; otherwise a get request goes out with the cached hint (MD_ONLY) or a zero hint (NOT_FOUND), and the reply decides the result; the cache afterwards is AfterLookup of the cache before: a stale entry for (1234, id) is unlinked, nothing else changes |
| IpcBackend.IteratorIPC.Next | src/mongo/db/storage/ontapkv/ontapkv_iomgr_ipc.cpp:355-391 | at the end nothing; otherwise the cache answer on FOUND, else a get request with the cached or zero hint; the cursor moves one step either way; at the end the cache is unchanged, otherwise it is AfterLookup of the cache before |
| IpcBackend.IteratorIPC.SeekExact | src/mongo/db/storage/ontapkv/ontapkv_iomgr_ipc.cpp:392-422 | cache first, then a get request; the cursor moves to id exactly when a record comes back; the cache afterwards is AfterLookup of the cache before: a stale entry for (1234, id) is unlinked, nothing else changes |
| KvCounters.NegativeIsRepaired | src/mongo/db/storage/ontapkv/ontapkv_record_store.cpp:124-135 | a negative counter is non-negative after the next change |
| KvCounters.PlainAddFromNonNegative | src/mongo/db/storage/ontapkv/ontapkv_record_store.cpp:124-135 | from a non-negative value an in-range change is a plain add |
| KvCounters.CounterIsSum | src/mongo/db/storage/ontapkv/ontapkv_record_store.cpp:124-135 | while running totals stay non-negative the counter is the start plus the sum of deltas |
| KvCounters.ResetForgetsHistory | src/mongo/db/storage/ontapkv/ontapkv_record_store_mock.cpp:232-243 | the reset to max(delta, 0) forgets a dip below zero: -1 then +1 gives 1 |
| RecordStoreFacade.RecordStore.constructor | src/mongo/db/storage/ontapkv/ontapkv_record_store.cpp:27-48 | _nextIdNum = (rsID << 32) OR 1, a backend for rsID on the shared cache, counters 0 |
| RecordStoreFacade.RecordStore.ChangeNumRecords | src/mongo/db/storage/ontapkv/ontapkv_record_store.cpp:131-135 | numRecords takes the add-then-reset rule |
| RecordStoreFacade.RecordStore.IncreaseDataSize | src/mongo/db/storage/ontapkv/ontapkv_record_store.cpp:124-129 | dataSize takes the add-then-reset rule |
| RecordStoreFacade.RecordStore.InsertRecord | src/mongo/db/storage/ontapkv/ontapkv_record_store.cpp:64-87 | failure: BadValue, cache and counters unchanged; success: the backend id, cache entry (1234, id) with the bytes and hint, +1 record and +len bytes |
| RecordStoreFacade.RecordStore.FindRecord | src/mongo/db/storage/ontapkv/ontapkv_record_store.cpp:103-122 | FOUND answers from the cache with nothing sent; otherwise the backend's answer to a get with the hint after miss; the cache afterwards is AfterLookup of the cache before: a stale entry for (1234, id) is unlinked, nothing else changes |
| RecordStoreFacade.RecordStore.DeleteRecord | src/mongo/db/storage/ontapkv/ontapkv_record_store.cpp:160-172 | the cache entry is gone, other keys unchanged, -1 record and -400 bytes |
| RecordStoreFacade.RecordStore.UpdateRecord | src/mongo/db/storage/ontapkv/ontapkv_record_store.cpp:186-213 | failure: BadValue, nothing else changes; success: oldLocation, cache upserted, counters unchanged |
| RecordStoreFacade.InsertThenFind | src/mongo/db/storage/ontapkv/ontapkv_record_store.cpp:64-122 | a successful insert then find of its id is answered from the cache with the same bytes |
| RecordStoreFacade.FindTwice | src/mongo/db/storage/ontapkv/ontapkv_record_store.cpp:103-122 | a find answered from the cache is answered again from the cache with the same bytes, and nothing is sent |
| RecordStoreFacade.DeleteThenFind | src/mongo/db/storage/ontapkv/ontapkv_record_store.cpp:103-172 | after delete, find misses the cache and sends a get with a zero hint |
| OrderedKeys.LeastExists | src/mongo/db/storage/ontapkv/ontapkv_iomgr_mock.cpp:61 | a key at or above k means a least such key exists, so lower_bound is defined |
| OrderedKeys.LowerBound | src/mongo/db/storage/ontapkv/ontapkv_iomgr_mock.cpp:61-62 | lower_bound is the least key at or above k, and none iff all keys are below k |
| OrderedKeys.KeysFrom | src/mongo/db/storage/ontapkv/ontapkv_iomgr_mock.cpp:54-74 | every listed key is in the map and at least k |
| OrderedKeys.KeysFromSpec | src/mongo/db/storage/ontapkv/ontapkv_iomgr_mock.cpp:54-74 | the keys from k are strictly ascending and include every key at least k |
| OrderedKeys.RecordsAt | src/mongo/db/storage/ontapkv/ontapkv_iomgr_mock.cpp:63-64 | one record per key, holding that key's bytes |
| OrderedKeys.WalkPastEnd | src/mongo/db/storage/ontapkv/ontapkv_iomgr_mock.cpp:56-58 | past the end every call yields nothing and stays at LLONG_MAX |
| OrderedKeys.WalkYieldsKeysFrom | src/mongo/db/storage/ontapkv/ontapkv_iomgr_mock.cpp:54-74 | from cursor k, repeated next yields the records of the keys from k, ascending, each once, then the end |
| OrderedKeys.FreshCursorWalk | src/mongo/db/storage/ontapkv/ontapkv_iomgr_mock.cpp:23-74 | a fresh cursor yields every record with key >= firstRecordId in ascending order, then nothing forever |
| OrderedKeys.SentinelKeySkipped | src/mongo/db/storage/ontapkv/ontapkv_iomgr_mock.cpp:65-69 | a record stored under LLONG_MAX is skipped, since the cursor moving onto it reads as the end |
| MockBackend.Owned | src/mongo/db/storage/ontapkv/ontapkv_iomgr_mock.cpp:153-156 | the owned copy holds the same bytes |
| MockBackend.IOMgrMock.constructor | src/mongo/db/storage/ontapkv/ontapkv_iomgr_mock.cpp:126-131 | empty map, counter (rsid << 32) OR 1 |
| MockBackend.IOMgrMock.GetNextRecordId | src/mongo/db/storage/ontapkv/ontapkv_iomgr_mock.cpp:133-138 | fetchAndAdd: the old counter is returned and the counter grows by one |
| MockBackend.IOMgrMock.WriteRecord | src/mongo/db/storage/ontapkv/ontapkv_iomgr_mock.cpp:141-157 | stores a copy under the next id and returns it |
| MockBackend.IOMgrMock.ReadRecord | src/mongo/db/storage/ontapkv/ontapkv_iomgr_mock.cpp:177-197 | found iff the id is a key; then the stored bytes, else out untouched |
| MockBackend.IOMgrMock.DataFor | src/mongo/db/storage/ontapkv/ontapkv_iomgr_mock.cpp:167-175 | the stored bytes, or empty for an absent id |
| MockBackend.IOMgrMock.DeleteRecord | src/mongo/db/storage/ontapkv/ontapkv_iomgr_mock.cpp:236-256 | a present non-empty record is erased; an absent key is left as a size-0 entry by operator[] |
| MockBackend.IOMgrMock.UpdateRecord | src/mongo/db/storage/ontapkv/ontapkv_iomgr_mock.cpp:271-294 | a present id is overwritten and returned; an absent id is written as a new record under a fresh id |
| MockBackend.IteratorMock.constructor | src/mongo/db/storage/ontapkv/ontapkv_iomgr_mock.cpp:24-29 | the cursor starts at 0 |
| MockBackend.IteratorMock.Next | src/mongo/db/storage/ontapkv/ontapkv_iomgr_mock.cpp:50-74 | one forward step is ForwardNext of the map and the cursor |
| MockBackend.IteratorMock.SeekExact | src/mongo/db/storage/ontapkv/ontapkv_iomgr_mock.cpp:31-42 | none iff the key is absent, otherwise that key's record |
| MockBackend.WriteThenRead | src/mongo/db/storage/ontapkv/ontapkv_iomgr_mock.cpp:141-197 | write then read of the returned id gives true and the same bytes |
| MockBackend.DeleteAbsentThenRead | src/mongo/db/storage/ontapkv/ontapkv_iomgr_mock.cpp:241-251 | deleting an absent id then reading it gives true and empty bytes |
| MockRecordStore.RecordStoreMock.constructor | src/mongo/db/storage/ontapkv/ontapkv_record_store_mock.cpp:148-163 | empty map, id counter 1, counters 0 |
| MockRecordStore.RecordStoreMock.GetNextRecordId | src/mongo/db/storage/ontapkv/ontapkv_record_store_mock.cpp:169-175 | the old counter is returned and the counter grows by one |
| MockRecordStore.RecordStoreMock.ChangeNumRecords | src/mongo/db/storage/ontapkv/ontapkv_record_store_mock.cpp:239-243 | numRecords takes the add-then-reset rule |
| MockRecordStore.RecordStoreMock.IncreaseDataSize | src/mongo/db/storage/ontapkv/ontapkv_record_store_mock.cpp:232-237 | dataSize takes the add-then-reset rule |
| MockRecordStore.RecordStoreMock.InsertRecord | src/mongo/db/storage/ontapkv/ontapkv_record_store_mock.cpp:177-192 | stores a copy under the next id, +1 record, +len bytes |
| MockRecordStore.RecordStoreMock.FindRecord | src/mongo/db/storage/ontapkv/ontapkv_record_store_mock.cpp:210-230 | false for an absent id, otherwise true with the stored bytes |
| MockRecordStore.RecordStoreMock.DataFor | src/mongo/db/storage/ontapkv/ontapkv_record_store_mock.cpp:202-208 | the stored bytes, or empty |
| MockRecordStore.RecordStoreMock.DeleteRecord | src/mongo/db/storage/ontapkv/ontapkv_record_store_mock.cpp:268-286 | a present non-empty record is erased, -1 record and -its length; absent or empty leaves the counters |
| MockRecordStore.RecordStoreMock.UpdateRecord | src/mongo/db/storage/ontapkv/ontapkv_record_store_mock.cpp:301-324 | present: overwrite, +(len - oldLen) bytes, returns oldLocation; absent: insertRecord |
| MockRecordStore.RecordStoreMock.UpdateStatsAfterRepair | src/mongo/db/storage/ontapkv/ontapkv_record_store_mock.cpp:374-379 | both counters are set to the given values |
| MockRecordStore.CursorMock.constructor | src/mongo/db/storage/ontapkv/ontapkv_record_store_mock.cpp:46-52 | the cursor starts at 0 |
| MockRecordStore.CursorMock.Next | src/mongo/db/storage/ontapkv/ontapkv_record_store_mock.cpp:75-98 | one forward step is ForwardNext of the map and the cursor |
| MockRecordStore.CursorMock.SeekExact | src/mongo/db/storage/ontapkv/ontapkv_record_store_mock.cpp:55-73 | none iff the key is absent, otherwise that key's record |
| MockRecordStore.InsertTwiceFromFresh | src/mongo/db/storage/ontapkv/ontapkv_record_store_mock.cpp:161-192 | two inserts on a fresh store get ids 1 and 2 and count 2 records and both lengths |
| KvEngine.LookupHistogramBoundaries | src/mongo/db/storage/ontapkv/ontapkv_kv_engine.cpp:65-67 | the engine's 11 buckets of size 10 have boundaries 10..100 and UINT32_MAX |
| KvEngine.Engine.constructor | src/mongo/db/storage/ontapkv/ontapkv_kv_engine.cpp:48-70 | requires repair false; fresh cache, no stores, id counter 1 |
| KvEngine.Engine.NextRecordStoreId | src/mongo/db/storage/ontapkv/ontapkv_kv_engine.cpp:76-78 | fetchAndAdd: the old counter is returned |
| KvEngine.Engine.CreateRecordStore | src/mongo/db/storage/ontapkv/ontapkv_kv_engine.cpp:85-102 | requires a new namespace; a fresh store with the next id rsID is registered, with _nextIdNum = (rsID << 32) OR 1 and a backend whose rsid is rsID << 32, both on the engine's cache, so the new store is Valid; other namespaces keep their stores, ids stay distinct |
| KvEngine.Engine.GetRecordStore | src/mongo/db/storage/ontapkv/ontapkv_kv_engine.cpp:104-117 | the registered store, NULL for an unknown namespace |
| KvEngine.Engine.NewRecoveryUnit | src/mongo/db/storage/ontapkv/ontapkv_kv_engine.cpp:80-84 | a new recovery unit with every flag clear |
| KvEngine.Engine.GetSortedDataInterface | src/mongo/db/storage/ontapkv/ontapkv_kv_engine.cpp:119-124 | a new, empty index |
| KvEngine.Engine.CreateSortedDataInterface | src/mongo/db/storage/ontapkv/ontapkv_kv_engine.cpp:126-131 | always OK |
| KvEngine.Engine.RepairIdent | src/mongo/db/storage/ontapkv/ontapkv_kv_engine.cpp:137-139 | always OK |
| KvEngine.Engine.DropIdent | src/mongo/db/storage/ontapkv/ontapkv_kv_engine.cpp:141-143 | always OK |
| KvEngine.Engine.SupportsDocLocking | src/mongo/db/storage/ontapkv/ontapkv_kv_engine.cpp:145-147 | true |
| KvEngine.Engine.SupportsDirectoryPerDB | src/mongo/db/storage/ontapkv/ontapkv_kv_engine.cpp:149-151 | false |
| KvEngine.Engine.GetIdentSize | src/mongo/db/storage/ontapkv/ontapkv_kv_engine.cpp:133-135 | always 0 |
| KvEngine.Engine.HasIdent | src/mongo/db/storage/ontapkv/ontapkv_kv_engine.cpp:153-155 | always false |
| KvEngine.Engine.GetAllIdents | src/mongo/db/storage/ontapkv/ontapkv_kv_engine.cpp:157-160 | always empty |
| KvEngine.CreateThreeThenGet | src/mongo/db/storage/ontapkv/ontapkv_kv_engine.cpp:69-116 | stores created in order get ids 1, 2, 3, each namespace finds its own, and each store is Valid with backend rsid equal to its id << 32 |
| KvEngine.GetUnknown | src/mongo/db/storage/ontapkv/ontapkv_kv_engine.cpp:111-114 | an unknown namespace gets NULL |
| KvIndex.InsertSortedAt | src/mongo/db/storage/ontapkv/ontapkv_index.cpp:101 | the pair goes at the upper bound of its key |
| KvIndex.InsertSortedSpec | src/mongo/db/storage/ontapkv/ontapkv_index.cpp:101 | insert keeps the index sorted and adds exactly the one pair to its multiset |
| KvIndex.Index.constructor | src/mongo/db/storage/ontapkv/ontapkv_index.cpp:73-85 | a new index is empty |
| KvIndex.Index.Insert | src/mongo/db/storage/ontapkv/ontapkv_index.cpp:87-103 | unique and key present: DuplicateKey, no change; otherwise OK and exactly the pair added |
| KvIndex.Index.IsEmpty | src/mongo/db/storage/ontapkv/ontapkv_index.cpp:135-137 | true iff no key is present |
| KvIndex.Index.FullValidate | src/mongo/db/storage/ontapkv/ontapkv_index.cpp:112-118 | the number of pairs |
| KvIndex.Index.SpaceUsedBytes | src/mongo/db/storage/ontapkv/ontapkv_index.cpp:143-146 | 72 bytes per pair (8 + DEFAULT_KEY_SIZE) |
| KvIndex.Index.DupKeyCheck | src/mongo/db/storage/ontapkv/ontapkv_index.cpp:129-133 | always OK |
| KvIndex.InsertTwiceUnique | src/mongo/db/storage/ontapkv/ontapkv_index.cpp:91-102 | a unique index accepts a key once and refuses it next, while dupKeyCheck passes it |
| KvIndex.InsertTwiceDuplicatesAllowed | src/mongo/db/storage/ontapkv/ontapkv_index.cpp:101-102 | a non-unique index keeps both pairs of a key in insertion order |
| RecoveryUnitMock.EverStartedWriteSticky | src/mongo/db/storage/ontapkv/ontapkv_recovery_unit_mock.cpp:36 | once set, _everStartedWrite stays set, and _active never changes |
| RecoveryUnitMock.EverStartedWriteIffBegan | src/mongo/db/storage/ontapkv/ontapkv_recovery_unit_mock.cpp:32-50 | after a run the write flag is set iff it was before or a begin occurred |
| RecoveryUnitMock.UnitsAlternate | src/mongo/db/storage/ontapkv/ontapkv_recovery_unit_mock.cpp:32-50 | begins and commits/aborts strictly alternate |
| RecoveryUnitMock.NewUnitStartedWriteIffBegan | src/mongo/db/storage/ontapkv/ontapkv_recovery_unit_mock.cpp:17-38 | from a new unit the write flag is set iff a unit of work was begun |
| RecoveryUnitMock.BannedNeverBegins | src/mongo/db/storage/ontapkv/ontapkv_recovery_unit_mock.cpp:33 | with write units of work banned, any run with a begin fails |
| RecoveryUnitMock.RecoveryUnit.constructor | src/mongo/db/storage/ontapkv/ontapkv_recovery_unit_mock.cpp:17-22 | all three flags start false |
| RecoveryUnitMock.RecoveryUnit.BeginUnitOfWork | src/mongo/db/storage/ontapkv/ontapkv_recovery_unit_mock.cpp:32-38 | requires not banned and none open; opens a unit and sets the write flag |
| RecoveryUnitMock.RecoveryUnit.CommitUnitOfWork | src/mongo/db/storage/ontapkv/ontapkv_recovery_unit_mock.cpp:40-44 | requires one open; closes it |
| RecoveryUnitMock.RecoveryUnit.AbortUnitOfWork | src/mongo/db/storage/ontapkv/ontapkv_recovery_unit_mock.cpp:46-50 | requires one open; closes it |
| RecoveryUnitMock.RecoveryUnit.RegisterChange | src/mongo/db/storage/ontapkv/ontapkv_recovery_unit_mock.cpp:65-68 | requires one open; changes nothing |
| RecoveryUnitMock.RecoveryUnit.WaitUntilDurable | src/mongo/db/storage/ontapkv/ontapkv_recovery_unit_mock.cpp:52-55 | requires none open; returns false |
| RecoveryUnitMock.BeginCommitWait | src/mongo/db/storage/ontapkv/ontapkv_recovery_unit_mock.cpp:32-55 | begin, register, commit, wait: closed, write started, not durable |
| CacheManager.CacheMgr.constructor | src/mongo/db/storage/ontapkv/ontapkv_cachemgr.h:171-178 | every one of the CACHE_SIZE bucket heads starts empty; the table invariant holds |
| KvTypes.ShiftOr | src/mongo/db/storage/ontapkv/ontapkv_record_store.cpp:42 | (rsID << 32) OR low is the shifted id plus low, whose low 32 bits are low |
| KvTypes.ShiftLeft32 | src/mongo/db/storage/ontapkv/ontapkv_iomgr_ipc.h:100 | rsid << 32 is a multiple of 2^32, and rsid * 2^32 for ids below 2^31 |
| LatencyHistogram.HugeBoundaries | src/mongo/db/storage/ontapkv/ontapkv_histogram.cpp:33-38 | with 2^32 - 1 buckets of size 0 every boundary but the last is 0 |
| LatencyHistogram.StepAsWritten | src/mongo/db/storage/ontapkv/ontapkv_histogram.cpp:104-110 | one iteration of the search as written never raises high |
| LatencyHistogram.RunAsWritten | src/mongo/db/storage/ontapkv/ontapkv_histogram.cpp:102-112 | any number of iterations as written keep high inside the boundaries |
| ConnectionSlots.TakenStep | src/mongo/db/storage/ontapkv/ontapkv_iomgr_ipc.h:56-62 | with slots 0..k-1 in use the scan picks k and then 0..k are in use |

## Left out

- Socket I/O, `IPCConnection` and its `send`/`recv`: replies are parameters, and request bytes are results. The connection cache is modelled as slot flags only. The backend stores a pointer to one (`ontapkv_iomgr_ipc.h:104`) but every call opens its own `IPCConnection` (`ontapkv_iomgr_ipc.cpp:253,277,309,331`), so the model's backend has no connection cache.
- The connection cache's lock and the atomics `fetchAndAdd`/`addAndFetch`/`store`: each call is modelled as one atomic step, and concurrency is not modelled.
- The hint size `sizeof(kv_storage_hint_t)` and the transaction id size `sizeof(kv_txn_id)`: both come from a server header that is not part of this model, so they are parameters (`hintSize`, `txnSize`).
- Host layout: the model assumes a little-endian host. Its 12-byte request header is magic and flags (16 bits each), a 4-byte request type and a 4-byte container id.
- `RecordId::isNormal`, `isNull` and `repr` belong to the host database: ids are `int64`, and null is 0.
- Signed overflow of `int64` counters and keys is undefined in C++. It is modelled as two's-complement wrap-around.
- `LatencyHistogram.Histogram.constructor` requires at least one bucket, although `Options()` defaults to 0. With 0 buckets the source allocates arrays of length 0 and still writes `_boundaries[_numBuckets - 1]` into them, and for linear boundaries also `_boundaries[0]` (`ontapkv_histogram.cpp:17,33,38`). That out-of-bounds write is not modelled.
- `Histogram::toHTML` past the empty check: the bar rendering (streams and floating point) is left out, and only the "histogram is empty" decision is modelled.
- The timers that feed the latency histograms, and the engine's use of `setLookupLatency`, are left out (clock).
- `ontapkv_kv_engine.cpp` passes histogram options to `OntapKVCacheMgr(opts)`, but the header declares only a constructor without arguments. The model builds `CacheMgr(hintSize)` and records the options as `lookupOptions`.
- `ontapkv_record_store.cpp` constructs `OntapKVIOMgrIPC` with one argument, while the header's constructor takes three. The model passes the shared cache and `txnSize`.
- In the record store façade, `findRecord`'s `hint` is not initialised before `lookup` in the source. The model takes what `lookup` writes.
- `parseGetResponse` does not read the reply's hint, and `parsePutResponse` leaves the record id of the reply unused. Both are modelled as written.
- `IpcMessages.Response.ParseGetResponse`: a successful reply with a negative declared length makes the source call `malloc` with that int converted to a size near 2^64. The model takes the NULL result as an empty buffer and does not model a later write through it. `IOMgrIPC.ReadRecord`, its only caller, requires `ReplyFits`, which gives a non-negative length on success.
- `IOMgrIPC.ReadRecord` requires the payload received to have the declared length (`ReplyFits`). Short reads on the socket are left out.
- Backward iteration of the map-backed cursors (the `_forward == false` branch) is left out. Only forward `next` is modelled. The IPC cursor models both directions.
- `touch`, `appendCustomStats`, `validate` and `getBulkBuilder` do nothing, or only report a status, in the source. So do the memory-backed store's `truncate` and `cappedTruncateAfter`. They are left out.
- The record store façade's `truncate` and `temp_cappedTruncateAfter` (`ontapkv_record_store.cpp:238,246`), and the index's `unindex`, `addKey` and `newCursor`: they stop at `invariant(0)` or return nothing in the source, and are left out.
- The index container's type is not shown in the source. It is modelled as a multimap sorted by key, with a new pair after equal keys. If it were a `std::map`, an insert of a present key with dupsAllowed would leave the index unchanged.
- Index keys are `BSONObj` compared with an `Ordering`. They are modelled as integers compared numerically.
- Recovery unit `getSnapshotId` (returns a default `SnapshotId()`, a type of the host database) and `writingPtr` (unreachable in the source), `_commit`/`_abort` (empty) and the change list (commented out) are left out. `abandonSnapshot` is a no-op step of the state machine.
- `RecoveryUnitMock.RecoveryUnit.Release`: the destructor's `invariant(!_inUnitOfWork)` is its precondition, and it states no effect.
- `KvEngine.Engine.constructor`: the `repair` path is not modelled, so the constructor requires `repair` to be false.
- `KvEngine.Engine.CreateRecordStore`: the registry invariant is re-established only while the id counter is below `INT64_MAX`. Past that the counter wraps and ids could repeat.
- `MockBackend.IOMgrMock.DeleteRecord` and `MockRecordStore.RecordStoreMock.DeleteRecord`: `operator[]` on an absent id inserts an empty record, and the model keeps that.

## Findings

| source | as written | input that shows it | evidently intended | confidence | as-written member | corrected member |
|---|---|---|---|---|---|---|
| src/mongo/db/storage/ontapkv/ontapkv_histogram.cpp:104 | `mid = (low + high) >> 1` computed in `uint32_t`, so `low + high` wraps when both are large | `numBuckets` = 2^32 - 1 and `bucketSize` = 0 (every boundary but the last is 0), then `insert(1)`: the sum wraps, `low` cycles, and the search never ends | `low + (high - low) / 2` (the comment on line 103) | not executed | LatencyHistogram.AsWrittenSearchNeverEnds | LatencyHistogram.Search |
