/**
 * OntapKVEngine of ontapkv_kv_engine.cpp: one record cache for the whole
 * engine, and a registry from namespace to record store whose ids come from
 * a counter starting at 1.
 */
module KvEngine {
  import opened KvTypes
  import opened LatencyHistogram
  import opened CacheManager
  import opened RecordStoreFacade
  import opened KvIndex
  import opened RecoveryUnitMock

  /** The histogram options the constructor fills in: 11 linear buckets of size 10 from 0. */
  function LookupHistogramOptions(): (o: Options)
  {
    DefaultOptions().(numBuckets := 11, bucketSize := 10)
  }

  /**
   * Those options give the buckets [0..10], [11..20], .., [91..100] and
   * [101..UINT32_MAX].
   */
  lemma LookupHistogramBoundaries()
    ensures LookupHistogramOptions() == Options(11, 10, 0, false)
    ensures Boundaries(LookupHistogramOptions())
         == [10, 20, 30, 40, 50, 60, 70, 80, 90, 100, UINT32_MAX]
  {
    var o := LookupHistogramOptions();
    var b := Boundaries(o);
    forall i | 0 <= i < 10
      ensures b[i] == 10 * (i + 1)
    {
      LinearValue(o, i);
    }
  }

  class Engine {
    const durable: bool
    const ephemeral: bool
    /** The record cache every record store of the engine shares. */
    const cacheMgr: CacheMgr
    /** The histogram options the cache would be built with. */
    const lookupOptions: Options
    /** sizeof(kv_txn_id), handed to every store's backend. */
    const txnSize: nat
    /** _nextrsID: the id the next record store takes. */
    var nextRsId: int64
    /** _recordStores: namespace to record store. */
    var stores: map<string, RecordStore>

    /**
     * The cache keeps its invariant, every store and its backend work on it,
     * and the stores' ids are distinct and below the counter.
     */
    ghost predicate Valid()
      reads this, cacheMgr, cacheMgr.cache
    {
      cacheMgr.Valid() && 1 <= nextRsId
      && (forall ns :: ns in stores ==>
            stores[ns].cacheMgr == cacheMgr && stores[ns].ioMgr.cacheMgr == cacheMgr
            && 1 <= stores[ns].rsId < nextRsId)
      && (forall a, b :: a in stores && b in stores && a != b ==> stores[a].rsId != stores[b].rsId)
    }

    /**
     * The constructor: invariant(repair == false), a cache configured with the
     * lookup histogram options, an empty registry and the id counter at 1.
     */
    constructor (durable: bool, ephemeral: bool, repair: bool, hintSize: nat, txnSize: nat)
      requires !repair
      ensures Valid() && fresh(cacheMgr) && cacheMgr.hintSize == hintSize
      ensures this.durable == durable && this.ephemeral == ephemeral && this.txnSize == txnSize
      ensures lookupOptions == LookupHistogramOptions()
      ensures stores == map[] && nextRsId == 1
    {
      this.durable := durable;
      this.ephemeral := ephemeral;
      this.txnSize := txnSize;
      lookupOptions := LookupHistogramOptions();
      cacheMgr := new CacheMgr(hintSize);
      stores := map[];
      nextRsId := 1;
    }

    /** nextRecordStoreID: fetchAndAdd(1), the counter before the increment. */
    method NextRecordStoreId() returns (id: int64)
      modifies this
      ensures id == old(nextRsId) && nextRsId == Wrap64(old(nextRsId) + 1)
      ensures stores == old(stores)
    {
      id := nextRsId;
      nextRsId := Wrap64(nextRsId + 1);
    }

    /**
     * createRecordStore: a namespace already registered is an invariant
     * failure. Otherwise a new store takes the next id rsID, is built on the
     * engine's cache with _nextIdNum = (rsID << 32) | 1 and an IPC backend for
     * rsID on the same cache, and is registered under ns; every other
     * namespace keeps its store.
     */
    method CreateRecordStore(ns: string) returns (s: Status)
      requires Valid() && ns !in stores
      modifies this
      ensures s == StatusOK && nextRsId == Wrap64(old(nextRsId) + 1)
      ensures ns in stores && fresh(stores[ns]) && stores == old(stores)[ns := stores[ns]]
      ensures stores[ns].rsId == old(nextRsId) && stores[ns].cacheMgr == cacheMgr
      ensures stores[ns].numRecords == 0 && stores[ns].dataSize == 0
      ensures stores[ns].nextIdNum == ShiftOr(old(nextRsId), 1)
      ensures stores[ns].ioMgr.cacheMgr == cacheMgr && stores[ns].ioMgr.txnSize == txnSize
      ensures stores[ns].ioMgr.rsid == ShiftLeft32(old(nextRsId)) && stores[ns].ioMgr.nextIdNum == stores[ns].ioMgr.rsid
      ensures stores[ns].Valid()
      ensures old(nextRsId) < INT64_MAX ==> Valid()
    {
      var rsID := NextRecordStoreId();
      var rs := new RecordStore(cacheMgr, rsID, txnSize);
      stores := stores[ns := rs];
      s := StatusOK;
    }

    /** getRecordStore: the store registered under ns, or NULL. */
    method GetRecordStore(ns: string) returns (rs: Option<RecordStore>)
      ensures rs.Some? <==> ns in stores
      ensures rs.Some? ==> rs.value == stores[ns]
    {
      if ns !in stores {
        return None;
      }
      rs := Some(stores[ns]);
    }

    /** newRecoveryUnit: a new unit, with every flag clear. */
    method NewRecoveryUnit() returns (u: RecoveryUnit)
      ensures fresh(u) && u.State() == INITIAL && !u.writeUnitOfWorksBanned
    {
      u := new RecoveryUnit(false);
    }

    /** getSortedDataInterface: a new, empty in-memory index. */
    method GetSortedDataInterface() returns (ix: Index)
      ensures fresh(ix) && ix.Valid() && ix.entries == [] && ix.IsEmpty()
    {
      ix := new Index();
    }

    /** createSortedDataInterface, repairIdent and dropIdent do nothing and report OK. */
    function CreateSortedDataInterface(ident: string): (s: Status)
      ensures s == StatusOK
    {
      StatusOK
    }

    function RepairIdent(ident: string): (s: Status)
      ensures s == StatusOK
    {
      StatusOK
    }

    function DropIdent(ident: string): (s: Status)
      ensures s == StatusOK
    {
      StatusOK
    }

    /** supportsDocLocking: true; supportsDirectoryPerDB: false. */
    function SupportsDocLocking(): (b: bool)
      ensures b
    {
      true
    }

    function SupportsDirectoryPerDB(): (b: bool)
      ensures !b
    {
      false
    }

    /** getIdentSize: always 0. */
    function GetIdentSize(ident: string): (size: int64)
      ensures size == 0
    {
      0
    }

    /** hasIdent: always false. */
    function HasIdent(ident: string): (has: bool)
      ensures !has
    {
      false
    }

    /** getAllIdents: always empty. */
    function GetAllIdents(): (idents: seq<string>)
      ensures idents == []
    {
      []
    }
  }

  /**
   * Stores created one after another on a fresh engine get the ids 1, 2, 3,
   * and each namespace then finds its own store.
   */
  method CreateThreeThenGet(hintSize: nat, txnSize: nat, a: string, b: string, c: string)
    returns (e: Engine, ra: Option<RecordStore>, rb: Option<RecordStore>, rc: Option<RecordStore>)
    requires a != b && b != c && a != c
    ensures e.Valid() && e.nextRsId == 4
    ensures ra.Some? && ra.value.rsId == 1 && ra.value.ioMgr.rsid == ShiftLeft32(1) && ra.value.Valid()
    ensures rb.Some? && rb.value.rsId == 2 && rb.value.ioMgr.rsid == ShiftLeft32(2) && rb.value.Valid()
    ensures rc.Some? && rc.value.rsId == 3 && rc.value.ioMgr.rsid == ShiftLeft32(3) && rc.value.Valid()
  {
    e := new Engine(false, false, false, hintSize, txnSize);
    var s := e.CreateRecordStore(a);
    s := e.CreateRecordStore(b);
    s := e.CreateRecordStore(c);
    ra := e.GetRecordStore(a);
    rb := e.GetRecordStore(b);
    rc := e.GetRecordStore(c);
  }

  /** A namespace that was never created has no store. */
  method GetUnknown(hintSize: nat, txnSize: nat, ns: string, other: string)
    returns (r: Option<RecordStore>)
    requires ns != other
    ensures r.None?
  {
    var e := new Engine(false, false, false, hintSize, txnSize);
    var s := e.CreateRecordStore(other);
    r := e.GetRecordStore(ns);
  }
}
