/**
 * OntapKVCacheMgr of ontapkv_cachemgr.h/.cpp: 1024 bucket heads, each a
 * chain of entries. A chain is kept as a sequence (head first) in one array
 * slot; the methods walk it with the source's while loops and are proved to
 * leave exactly the chain the functions of CacheChain describe.
 */
module CacheManager {
  import opened KvTypes
  import opened CacheEntry
  import opened CacheChain

  /** The table invariant on the contents of the bucket array. */
  ghost predicate TableValid(t: seq<seq<Entry>>, hintSize: nat)
  {
    |t| == CACHE_SIZE
    && forall b :: 0 <= b < CACHE_SIZE ==> KeysDistinct(t[b]) && Placed(t[b], b, hintSize)
  }

  /** Every entry of the chain passes lookup's context check and holds bytes. */
  ghost predicate ChainCoherent(c: seq<Entry>, hintSize: nat)
  {
    forall i :: 0 <= i < |c| ==> c[i].meta.ctx == hintSize && c[i].data.Some?
  }

  ghost predicate TableCoherent(t: seq<seq<Entry>>, hintSize: nat)
  {
    |t| == CACHE_SIZE && forall b :: 0 <= b < CACHE_SIZE ==> ChainCoherent(t[b], hintSize)
  }

  ghost function TableGet(t: seq<seq<Entry>>, key: int64): Option<Entry>
    requires |t| == CACHE_SIZE
  {
    ChainFind(t[HashKey(key)], key)
  }

  /**
   * Replacing the chain of bucket b by one that keeps the chain invariant
   * keeps the table invariant, and keys of other buckets are unaffected.
   */
  lemma ReplaceChain(t: seq<seq<Entry>>, b: nat, c: seq<Entry>, hintSize: nat)
    requires TableValid(t, hintSize) && b < CACHE_SIZE
    requires KeysDistinct(c) && Placed(c, b, hintSize)
    ensures TableValid(t[b := c], hintSize)
    ensures forall k :: HashKey(k) != b ==> TableGet(t[b := c], k) == TableGet(t, k)
    ensures TableCoherent(t, hintSize) && ChainCoherent(c, hintSize) ==>
              TableCoherent(t[b := c], hintSize)
  {
  }

  /** What an insert does to the table, at its own key and at every other key. */
  lemma InsertIntoTable(t: seq<seq<Entry>>, container: int32, id: int64, hint: Bytes,
                        data: Bytes, len: nat, hintSize: nat)
    requires TableValid(t, hintSize) && len <= |data| && |hint| == hintSize
    ensures var key := GenerateKey(container, id);
            var b := HashKey(key);
            var t' := t[b := ChainInsert(t[b], container, id, hint, data, len, hintSize)];
            TableValid(t', hintSize)
            && TableGet(t', key).Some? && TableGet(t', key).value.data == Some(data[..len])
            && TableGet(t', key).value.dataLen == len
            && TableGet(t', key).value.meta == MakeMetadata(hint, hintSize)
            && (forall k :: k != key ==> TableGet(t', k) == TableGet(t, k))
            && (TableCoherent(t, hintSize) ==> TableCoherent(t', hintSize))
  {
    var key := GenerateKey(container, id);
    var b := HashKey(key);
    var c := ChainInsert(t[b], container, id, hint, data, len, hintSize);
    InsertKeepsDistinct(t[b], container, id, hint, data, len, hintSize);
    InsertKeepsPlaced(t[b], b, container, id, hint, data, len, hintSize);
    FindAfterInsert(t[b], container, id, hint, data, len, hintSize);
    ReplaceChain(t, b, c, hintSize);
    forall k: int64 | k != key && HashKey(k) == b
      ensures TableGet(t[b := c], k) == TableGet(t, k)
    {
      FindOtherAfterInsert(t[b], container, id, hint, data, len, hintSize, k);
    }
    if TableCoherent(t, hintSize) {
      InsertShape(t[b], container, id, hint, data, len, hintSize);
      assert ChainCoherent(c, hintSize);
    }
  }

  /** What an update does to the table, at its own key and at every other key. */
  lemma UpdateInTable(t: seq<seq<Entry>>, key: int64, hint: Bytes, data: Bytes, len: nat,
                      hintSize: nat)
    requires TableValid(t, hintSize) && len <= |data| && |hint| == hintSize
    ensures var b := HashKey(key);
            var t' := t[b := ChainUpdate(t[b], key, hint, data, len, hintSize)];
            TableValid(t', hintSize)
            && (TableGet(t, key).Some? ==>
                  TableGet(t', key) == Some(Refresh(TableGet(t, key).value, hint, data, len, hintSize)))
            && (forall k :: k != key ==> TableGet(t', k) == TableGet(t, k))
            && (TableCoherent(t, hintSize) ==> TableCoherent(t', hintSize))
  {
    var b := HashKey(key);
    var c := ChainUpdate(t[b], key, hint, data, len, hintSize);
    UpdateKeepsInvariant(t[b], b, key, hint, data, len, hintSize);
    ReplaceChain(t, b, c, hintSize);
    if TableGet(t, key).Some? {
      FindAfterUpdate(t[b], key, hint, data, len, hintSize);
    }
    forall k: int64 | k != key && HashKey(k) == b
      ensures TableGet(t[b := c], k) == TableGet(t, k)
    {
      FindOtherAfterUpdate(t[b], key, hint, data, len, hintSize, k);
    }
  }

  /** What an invalidate does to the table, at its own key and at every other key. */
  lemma RemoveFromTable(t: seq<seq<Entry>>, key: int64, hintSize: nat)
    requires TableValid(t, hintSize)
    ensures var b := HashKey(key);
            var t' := t[b := ChainRemove(t[b], key)];
            TableValid(t', hintSize)
            && TableGet(t', key).None?
            && (forall k :: k != key ==> TableGet(t', k) == TableGet(t, k))
            && (TableCoherent(t, hintSize) ==> TableCoherent(t', hintSize))
  {
    var b := HashKey(key);
    var c := ChainRemove(t[b], key);
    RemoveKeepsInvariant(t[b], b, key, hintSize);
    FindAfterRemove(t[b], key);
    ReplaceChain(t, b, c, hintSize);
    forall k: int64 | k != key && HashKey(k) == b
      ensures TableGet(t[b := c], k) == TableGet(t, k)
    {
      FindOtherAfterRemove(t[b], key, k);
    }
    var i := MatchIndex(t[b], key);
    if i < |t[b]| {
      CutAt(t[b], i);
    }
  }

  /**
   * What lookup does to the table: a stale entry for the key (one whose
   * context is not sizeof(hint)) is unlinked from its bucket, and otherwise
   * nothing changes.
   */
  ghost predicate AfterLookup(t: seq<seq<Entry>>, t': seq<seq<Entry>>, key: int64, hintSize: nat)
    requires |t| == CACHE_SIZE
  {
    var e := TableGet(t, key);
    var b := HashKey(key);
    t' == if e.Some? && e.value.meta.ctx != hintSize then t[b := ChainRemove(t[b], key)] else t
  }

  /**
   * After a lookup the table keeps its invariant, every other key finds what
   * it found before, and a second lookup of the key reports what the first
   * one did: a FOUND stays FOUND with the same bytes.
   */
  lemma LookupKeepsEntries(t: seq<seq<Entry>>, t': seq<seq<Entry>>, key: int64, hintSize: nat)
    requires TableValid(t, hintSize) && AfterLookup(t, t', key, hintSize)
    ensures TableValid(t', hintSize)
    ensures forall k :: k != key ==> TableGet(t', k) == TableGet(t, k)
    ensures LookupOutcome(TableGet(t', key), hintSize) == LookupOutcome(TableGet(t, key), hintSize)
  {
    var e := TableGet(t, key);
    if e.Some? && e.value.meta.ctx != hintSize {
      RemoveFromTable(t, key, hintSize);
    }
  }

  /**
   * The walk of invalidate over one chain: find the first entry with the key
   * (tracking its predecessor) and link around it; a chain without the key
   * is left as it is.
   */
  method Unlink(chain: seq<Entry>, key: int64) returns (next: seq<Entry>)
    ensures next == ChainRemove(chain, key)
  {
    next := chain;
    if |chain| != 0 {
      var prev := -1;
      var i := 0;
      while i + 1 < |chain| && EntryKey(chain[i]) != key
        invariant 0 <= i < |chain| && prev == i - 1
        invariant forall j :: 0 <= j < i ==> EntryKey(chain[j]) != key
      {
        prev := i;
        i := i + 1;
      }
      WalkStop(chain, key, i);
      if EntryKey(chain[i]) == key {
        if prev == -1 {
          // very first entry: the head moves to its successor
          next := chain[1..];
          assert next == chain[..0] + chain[1..];
        } else {
          // the predecessor's next pointer skips the entry
          next := chain[..prev + 1] + chain[i + 1..];
        }
      }
    }
  }

  /** What lookup reports for the entry the cache holds under the key. */
  function LookupOutcome(e: Option<Entry>, hintSize: nat): (r: LookupResult)
    ensures e.None? ==> r == NotFound
    ensures e.Some? && e.value.meta.ctx != hintSize ==> r == NotFound
    ensures r.Found? <==> e.Some? && e.value.meta.ctx == hintSize && e.value.data.Some?
    ensures r.Found? ==> r == Found(e.value.data.value, e.value.meta.hint)
    ensures r.MdOnly? ==> r == MdOnly(e.value.meta.hint)
  {
    match e
    case None => NotFound
    case Some(x) =>
      if x.meta.ctx != hintSize then NotFound
      else if x.data.None? then MdOnly(x.meta.hint)
      else Found(x.data.value, x.meta.hint)
  }

  class CacheMgr {
    /** sizeof(kv_storage_hint_t): the bytes in one storage hint. */
    const hintSize: nat
    /** The bucket heads; cache[b] is the chain hanging off head b. */
    var cache: array<seq<Entry>>

    /** Table invariant: every chain sits in its own bucket and has distinct keys. */
    ghost predicate Valid()
      reads this, cache
    {
      cache.Length == CACHE_SIZE && TableValid(cache[..], hintSize)
    }

    /**
     * Every entry was built by setMetadata for this hint size and holds its
     * bytes, as every entry made by insert and update does.
     */
    ghost predicate Coherent()
      reads this, cache
    {
      cache.Length == CACHE_SIZE && TableCoherent(cache[..], hintSize)
    }

    /** The abstraction: the entry the cache holds for a combined key. */
    ghost function Get(key: int64): Option<Entry>
      reads this, cache
      requires Valid()
    {
      TableGet(cache[..], key)
    }

    /** The constructor sets all CACHE_SIZE bucket heads to NULL. */
    constructor (hintSize: nat)
      ensures this.hintSize == hintSize && fresh(cache)
      ensures Valid() && Coherent()
      ensures forall b :: 0 <= b < CACHE_SIZE ==> cache[b] == []
    {
      this.hintSize := hintSize;
      var heads := new seq<Entry>[CACHE_SIZE];
      var i := 0;
      while i < CACHE_SIZE
        invariant 0 <= i <= CACHE_SIZE
        invariant forall b :: 0 <= b < i ==> heads[b] == []
      {
        heads[i] := [];
        i := i + 1;
      }
      cache := heads;
    }

    /**
     * lookup. An absent key reports NOT_FOUND and changes nothing. An entry
     * whose data context does not match the hint size is invalidated and
     * reports NOT_FOUND. Otherwise the stored hint is returned, with a copy of
     * the entry's dataLen bytes when it holds data (FOUND) or alone (MD_ONLY).
     */
    method Lookup(container: int32, id: int64) returns (r: LookupResult)
      requires Valid()
      modifies cache
      ensures Valid()
      ensures var key := GenerateKey(container, id);
              var b := HashKey(key);
              match old(Get(key))
              case None =>
                r == NotFound && cache[..] == old(cache[..])
              case Some(e) =>
                if e.meta.ctx != hintSize then
                  r == NotFound && Get(key).None?
                  && cache[..] == old(cache[..])[b := ChainRemove(old(cache[b]), key)]
                else
                  cache[..] == old(cache[..])
                  && (e.data.None? ==> r == MdOnly(e.meta.hint))
                  && (e.data.Some? ==> r == Found(e.data.value, e.meta.hint))
      ensures old(Coherent()) && old(Get(GenerateKey(container, id))).Some? ==> r.Found?
      ensures r == LookupOutcome(old(Get(GenerateKey(container, id))), hintSize)
      ensures AfterLookup(old(cache[..]), cache[..], GenerateKey(container, id), hintSize)
      ensures !r.NotFound? ==> |r.hint| == hintSize
    {
      var key := GenerateKey(container, id);
      var index := HashKey(key);
      var chain := cache[index];
      if |chain| == 0 {
        return NotFound;
      }
      var i := 0;
      while i < |chain| && EntryKey(chain[i]) != key
        invariant 0 <= i <= |chain|
        invariant forall j :: 0 <= j < i ==> EntryKey(chain[j]) != key
      {
        i := i + 1;
      }
      if i == |chain| {
        return NotFound;
      }
      MatchIndexAt(chain, key, i);
      var entry := chain[i];
      if hintSize != entry.meta.ctx {
        var dropped := Invalidate(container, id);
        return NotFound;
      }
      if entry.data.None? {
        return MdOnly(entry.meta.hint);
      }
      var size := entry.dataLen;
      var bytes := entry.data.value[..size];
      return Found(bytes, entry.meta.hint);
    }

    /**
     * insert: a new one-entry chain in an empty bucket, a new tail entry when
     * the key is absent from the chain, and otherwise the result of update.
     */
    method Insert(container: int32, data: array<byte>, hint: Bytes, len: nat, id: int64)
      returns (ok: bool)
      requires Valid() && len <= data.Length && |hint| == hintSize
      modifies cache
      ensures Valid() && ok
      ensures var key := GenerateKey(container, id);
              var b := HashKey(key);
              cache[..] == old(cache[..])[b := ChainInsert(old(cache[b]), container, id, hint,
                                                           data[..], len, hintSize)]
      ensures var key := GenerateKey(container, id);
              Get(key).Some? && Get(key).value.data == Some(data[..len])
              && Get(key).value.dataLen == len && Get(key).value.meta == MakeMetadata(hint, hintSize)
      ensures forall k :: k != GenerateKey(container, id) ==> Get(k) == old(Get(k))
      ensures old(Coherent()) ==> Coherent()
    {
      var key := GenerateKey(container, id);
      var index := HashKey(key);
      var chain := cache[index];
      InsertIntoTable(cache[..], container, id, hint, data[..], len, hintSize);
      ghost var t := cache[..];
      var entry := NewEntry(container, id, hint, data[..], len, hintSize);
      if |chain| == 0 {
        cache[index] := [entry];
        assert [entry] == ChainInsert(chain, container, id, hint, data[..], len, hintSize);
        assert cache[..] == t[index := [entry]];
      } else {
        var i := 0;
        while i + 1 < |chain| && EntryKey(chain[i]) != key
          invariant 0 <= i < |chain|
          invariant forall j :: 0 <= j < i ==> EntryKey(chain[j]) != key
        {
          i := i + 1;
        }
        WalkStop(chain, key, i);
        if EntryKey(chain[i]) != key {
          // the walk reached the tail without a match: link a new entry after it
          cache[index] := chain + [entry];
          assert cache[..] == t[index := chain + [entry]];
        } else {
          ok := Update(container, data, hint, len, id);
          return;
        }
      }
      ok := true;
    }

    /**
     * update: false and no change when the key is absent; otherwise the
     * entry's bytes, length and metadata are replaced (its container and id
     * stay), every other entry and the chain shape stay, and the result is true.
     */
    method Update(container: int32, data: array<byte>, hint: Bytes, len: nat, id: int64)
      returns (ok: bool)
      requires Valid() && len <= data.Length && |hint| == hintSize
      modifies cache
      ensures Valid()
      ensures ok == old(Get(GenerateKey(container, id))).Some?
      ensures var key := GenerateKey(container, id);
              var b := HashKey(key);
              cache[..] == old(cache[..])[b := ChainUpdate(old(cache[b]), key, hint, data[..],
                                                           len, hintSize)]
      ensures !ok ==> cache[..] == old(cache[..])
      ensures ok ==> Get(GenerateKey(container, id))
                     == Some(Refresh(old(Get(GenerateKey(container, id))).value, hint, data[..],
                                     len, hintSize))
      ensures old(Coherent()) ==> Coherent()
    {
      var key := GenerateKey(container, id);
      var index := HashKey(key);
      var chain := cache[index];
      UpdateInTable(cache[..], key, hint, data[..], len, hintSize);
      if |chain| == 0 {
        // should have called insert
        return false;
      }
      var i := 0;
      while i + 1 < |chain| && EntryKey(chain[i]) != key
        invariant 0 <= i < |chain|
        invariant forall j :: 0 <= j < i ==> EntryKey(chain[j]) != key
      {
        i := i + 1;
      }
      WalkStop(chain, key, i);
      if EntryKey(chain[i]) != key {
        // should have called insert
        return false;
      }
      var next := chain[i := Refresh(chain[i], hint, data[..], len, hintSize)];
      ghost var t := cache[..];
      cache[index] := next;
      assert cache[..] == t[index := next];
      ok := true;
    }

    /**
     * invalidate: always true. An absent key changes nothing; a present one is
     * unlinked (the head moves to its successor, or the predecessor's next
     * skips it), after which the key is not found and every other key finds
     * what it found before.
     */
    method Invalidate(container: int32, id: int64) returns (ok: bool)
      requires Valid()
      modifies cache
      ensures Valid() && ok
      ensures var key := GenerateKey(container, id);
              var b := HashKey(key);
              cache[..] == old(cache[..])[b := ChainRemove(old(cache[b]), key)]
      ensures Get(GenerateKey(container, id)).None?
      ensures forall k :: k != GenerateKey(container, id) ==> Get(k) == old(Get(k))
      ensures old(Coherent()) ==> Coherent()
    {
      var key := GenerateKey(container, id);
      var index := HashKey(key);
      var chain := cache[index];
      RemoveFromTable(cache[..], key, hintSize);
      var next := Unlink(chain, key);
      ghost var t := cache[..];
      cache[index] := next;
      assert cache[..] == t[index := next];
      ok := true;
    }
  }
}
