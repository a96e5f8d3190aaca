/**
 * Properties of the record cache that relate several operations, stated as
 * call sequences on one CacheMgr.
 */
module CacheProperties {
  import opened KvTypes
  import opened CacheEntry
  import opened CacheChain
  import opened CacheManager

  /** insert(c, data, h, len, id) then lookup(c, id) is FOUND with the same bytes and hint. */
  method InsertThenLookup(m: CacheMgr, container: int32, id: int64, data: array<byte>,
                          len: nat, hint: Bytes) returns (r: LookupResult)
    requires m.Valid() && len <= data.Length && |hint| == m.hintSize
    modifies m.cache
    ensures m.Valid()
    ensures r == Found(data[..len], hint)
  {
    var ok := m.Insert(container, data, hint, len, id);
    r := m.Lookup(container, id);
  }

  /**
   * The entry keeps a private copy of the caller's bytes: overwriting the
   * caller's buffer after the insert does not change what lookup returns.
   */
  method CopyIsPrivate(m: CacheMgr, container: int32, id: int64, data: array<byte>,
                       len: nat, hint: Bytes) returns (r: LookupResult)
    requires m.Valid() && 0 < len <= data.Length && |hint| == m.hintSize
    modifies m.cache, data
    ensures m.Valid()
    ensures data[0] != old(data[0])
    ensures r == Found(old(data[..len]), hint)
  {
    ghost var bytes := data[..len];
    var ok := m.Insert(container, data, hint, len, id);
    ghost var stored := m.Get(GenerateKey(container, id));
    assert stored.Some? && stored.value.data == Some(bytes);
    data[0] := (data[0] as int + 1) % 0x100;
    assert m.Valid() && m.Get(GenerateKey(container, id)) == stored;
    r := m.Lookup(container, id);
  }

  /** After invalidate(c, id), lookup(c, id) is NOT_FOUND and changes nothing. */
  method InvalidateThenLookup(m: CacheMgr, container: int32, id: int64) returns (r: LookupResult)
    requires m.Valid()
    modifies m.cache
    ensures m.Valid()
    ensures r == NotFound
  {
    var ok := m.Invalidate(container, id);
    r := m.Lookup(container, id);
  }

  /**
   * A second insert under the same key replaces the bytes and hint: lookup
   * returns the second pair.
   */
  method InsertTwiceThenLookup(m: CacheMgr, container: int32, id: int64,
                               first: array<byte>, len1: nat, hint1: Bytes,
                               second: array<byte>, len2: nat, hint2: Bytes)
    returns (r: LookupResult)
    requires m.Valid() && len1 <= first.Length && len2 <= second.Length
    requires |hint1| == m.hintSize && |hint2| == m.hintSize
    modifies m.cache
    ensures m.Valid()
    ensures r == Found(second[..len2], hint2)
  {
    var ok := m.Insert(container, first, hint1, len1, id);
    ok := m.Insert(container, second, hint2, len2, id);
    r := m.Lookup(container, id);
  }

  /**
   * Entries match only by the summed key: an insert under (c1, id1) is found
   * by a lookup under any (c2, id2) with the same sum.
   */
  method AliasedKeysShareAnEntry(m: CacheMgr, c1: int32, id1: int64, c2: int32, id2: int64,
                                 data: array<byte>, len: nat, hint: Bytes)
    returns (r: LookupResult)
    requires m.Valid() && len <= data.Length && |hint| == m.hintSize
    requires c1 + id1 == c2 + id2
    modifies m.cache
    ensures m.Valid()
    ensures r == Found(data[..len], hint)
  {
    var ok := m.Insert(c1, data, hint, len, id1);
    KeysCollideOnEqualSums(c1, id1, c2, id2);
    r := m.Lookup(c2, id2);
  }
}
