/**
 * One bucket chain of the record cache as a sequence of entries, head first.
 * These functions say what the chain walks of ontapkv_cachemgr.cpp compute;
 * they are the specification the CacheMgr methods are proved against.
 * Entries match by the combined key alone, as in the source.
 */
module CacheChain {
  import opened KvTypes
  import opened CacheEntry
  import opened KeyList

  /** The combined keys of the chain's entries, head first. */
  function Keys(chain: seq<Entry>): (ks: seq<int64>)
    ensures |ks| == |chain|
  {
    seq(|chain|, j requires 0 <= j < |chain| => EntryKey(chain[j]))
  }

  /** The keys of two chains linked one after the other. */
  lemma KeysConcat(a: seq<Entry>, b: seq<Entry>)
    ensures Keys(a + b) == Keys(a) + Keys(b)
  {
  }

  /** The keys of a prefix and of a suffix of a chain. */
  lemma KeysSplit(chain: seq<Entry>, i: nat)
    requires i <= |chain|
    ensures Keys(chain[..i]) == Keys(chain)[..i]
    ensures Keys(chain[i..]) == Keys(chain)[i..]
  {
  }

  /** Position j of the keys is the key of entry j. */
  lemma KeyAt(chain: seq<Entry>, j: nat)
    requires j < |chain|
    ensures Keys(chain)[j] == EntryKey(chain[j])
  {
  }

  /**
   * Where the chain walk stops: the first entry whose key is key, or |chain|
   * when there is none.
   */
  function MatchIndex(chain: seq<Entry>, key: int64): (i: nat)
    ensures i <= |chain|
    ensures i < |chain| ==> EntryKey(chain[i]) == key
  {
    var i := FirstIndex(Keys(chain), key);
    if i < |chain| then KeyAt(chain, i); i else i
  }

  /** The entry the chain holds for key, if any. */
  function ChainFind(chain: seq<Entry>, key: int64): (r: Option<Entry>)
    ensures r.Some? ==> EntryKey(r.value) == key
  {
    var i := MatchIndex(chain, key);
    if i < |chain| then Some(chain[i]) else None
  }

  /** The chain holds an entry for key exactly when key is among its keys. */
  lemma {:induction false} FindNoneIff(chain: seq<Entry>, key: int64)
    ensures ChainFind(chain, key).None? <==> key !in Keys(chain)
  {
    FirstIndexAbsent(Keys(chain), key);
  }

  /** No two entries of a chain share a key. */
  predicate KeysDistinct(chain: seq<Entry>)
  {
    Distinct(Keys(chain))
  }

  /** Every entry of the chain hashes to bucket b and is well formed. */
  predicate Placed(chain: seq<Entry>, b: nat, hintSize: nat)
  {
    var keys := Keys(chain);
    forall i :: 0 <= i < |chain| ==>
      HashKey(keys[i]) == b && EntryOk(chain[i]) && |chain[i].meta.hint| == hintSize
  }

  /** update: refresh the entry with key in place; an absent key changes nothing. */
  function ChainUpdate(chain: seq<Entry>, key: int64, hint: Bytes, data: Bytes, len: nat,
                       hintSize: nat): (r: seq<Entry>)
    requires len <= |data|
    ensures |r| == |chain|
    ensures ChainFind(chain, key).None? ==> r == chain
  {
    var i := MatchIndex(chain, key);
    if i < |chain| then chain[i := Refresh(chain[i], hint, data, len, hintSize)] else chain
  }

  /**
   * insert: a new entry at the tail when the key is absent, otherwise the
   * update of the existing one.
   */
  function ChainInsert(chain: seq<Entry>, container: int32, id: int64, hint: Bytes,
                       data: Bytes, len: nat, hintSize: nat): (r: seq<Entry>)
    requires len <= |data|
  {
    var key := GenerateKey(container, id);
    if ChainFind(chain, key).Some? then ChainUpdate(chain, key, hint, data, len, hintSize)
    else chain + [NewEntry(container, id, hint, data, len, hintSize)]
  }

  /** invalidate: unlink the first entry with key; an absent key changes nothing. */
  function ChainRemove(chain: seq<Entry>, key: int64): (r: seq<Entry>)
    ensures ChainFind(chain, key).None? ==> r == chain
    ensures ChainFind(chain, key).Some? ==> |r| == |chain| - 1
  {
    var i := MatchIndex(chain, key);
    if i < |chain| then chain[..i] + chain[i + 1..] else chain
  }

  /** The walk stops at the first key match, whatever comes after it. */
  lemma {:induction false} MatchIndexAt(chain: seq<Entry>, key: int64, i: nat)
    requires i < |chain| && EntryKey(chain[i]) == key
    requires forall j :: 0 <= j < i ==> EntryKey(chain[j]) != key
    ensures MatchIndex(chain, key) == i
  {
    forall j | 0 <= j <= i
      ensures Keys(chain)[j] == EntryKey(chain[j])
    {
      KeyAt(chain, j);
    }
    FirstIndexAt(Keys(chain), key, i);
  }

  /**
   * Where a walk that stopped at position i, with no match before it, leaves
   * the chain: at the match, or past the end when the tail does not match.
   */
  lemma {:induction false} WalkStop(chain: seq<Entry>, key: int64, i: nat)
    requires i < |chain| && forall j :: 0 <= j < i ==> EntryKey(chain[j]) != key
    ensures EntryKey(chain[i]) == key ==> MatchIndex(chain, key) == i
    ensures EntryKey(chain[i]) != key && i == |chain| - 1 ==>
              MatchIndex(chain, key) == |chain| && ChainFind(chain, key).None?
  {
    if EntryKey(chain[i]) == key {
      MatchIndexAt(chain, key, i);
    } else if i == |chain| - 1 {
      NoMatch(chain, key);
    }
  }

  /** A walk that reaches the end without a match finds nothing. */
  lemma {:induction false} NoMatch(chain: seq<Entry>, key: int64)
    requires forall j :: 0 <= j < |chain| ==> EntryKey(chain[j]) != key
    ensures ChainFind(chain, key).None?
  {
    forall j | 0 <= j < |chain|
      ensures Keys(chain)[j] != key
    {
      KeyAt(chain, j);
    }
  }

  /** Refreshing an entry keeps every key of the chain. */
  lemma {:induction false} KeysAfterRefresh(chain: seq<Entry>, i: nat, f: Entry)
    requires i < |chain| && EntryKey(f) == EntryKey(chain[i])
    ensures Keys(chain[i := f]) == Keys(chain)
  {
    var r := chain[i := f];
    assert r == chain[..i] + [f] + chain[i + 1..];
    assert chain == chain[..i] + [chain[i]] + chain[i + 1..];
    KeysConcat(chain[..i] + [f], chain[i + 1..]);
    KeysConcat(chain[..i], [f]);
    KeysConcat(chain[..i] + [chain[i]], chain[i + 1..]);
    KeysConcat(chain[..i], [chain[i]]);
  }

  /** Linking an entry at the tail adds its key at the end. */
  lemma {:induction false} KeysAfterAppend(chain: seq<Entry>, e: Entry)
    ensures Keys(chain + [e]) == Keys(chain) + [EntryKey(e)]
  {
    KeysConcat(chain, [e]);
  }

  /** Cutting an entry out cuts its key out. */
  lemma {:induction false} KeysAfterCut(chain: seq<Entry>, i: nat)
    requires i < |chain|
    ensures Keys(chain[..i] + chain[i + 1..]) == Keys(chain)[..i] + Keys(chain)[i + 1..]
  {
    KeysConcat(chain[..i], chain[i + 1..]);
    KeysSplit(chain, i);
    KeysSplit(chain, i + 1);
  }

  /** Positions of a chain after the entry at i is cut out. */
  lemma CutAt(chain: seq<Entry>, i: nat)
    requires i < |chain|
    ensures var r := chain[..i] + chain[i + 1..];
            |r| == |chain| - 1
            && (forall j :: 0 <= j < i ==> r[j] == chain[j])
            && (forall j :: i <= j < |r| ==> r[j] == chain[j + 1])
  {
  }

  /** What an update does at the updated position. */
  lemma {:induction false} UpdateAt(chain: seq<Entry>, key: int64, hint: Bytes, data: Bytes, len: nat,
                 hintSize: nat)
    requires len <= |data| && ChainFind(chain, key).Some?
    ensures var i := MatchIndex(chain, key);
            var r := ChainUpdate(chain, key, hint, data, len, hintSize);
            r == chain[i := Refresh(chain[i], hint, data, len, hintSize)]
            && Keys(r) == Keys(chain) && MatchIndex(r, key) == i
  {
    var i := MatchIndex(chain, key);
    KeysAfterRefresh(chain, i, Refresh(chain[i], hint, data, len, hintSize));
  }

  /** After an update the key finds the refreshed entry. */
  lemma {:induction false} FindAfterUpdate(chain: seq<Entry>, key: int64, hint: Bytes, data: Bytes, len: nat,
                        hintSize: nat)
    requires len <= |data| && ChainFind(chain, key).Some?
    ensures ChainFind(ChainUpdate(chain, key, hint, data, len, hintSize), key)
         == Some(Refresh(ChainFind(chain, key).value, hint, data, len, hintSize))
  {
    UpdateAt(chain, key, hint, data, len, hintSize);
  }

  /** An update touches only its own entry: every other position is unchanged. */
  lemma UpdateTouchesOneEntry(chain: seq<Entry>, key: int64, hint: Bytes, data: Bytes,
                              len: nat, hintSize: nat, j: nat)
    requires len <= |data| && j < |chain| && EntryKey(chain[j]) != key
    ensures ChainUpdate(chain, key, hint, data, len, hintSize)[j] == chain[j]
  {
  }

  /** Keys other than the updated one find what they found before. */
  lemma {:induction false} FindOtherAfterUpdate(chain: seq<Entry>, key: int64, hint: Bytes, data: Bytes,
                             len: nat, hintSize: nat, other: int64)
    requires len <= |data| && other != key
    ensures ChainFind(ChainUpdate(chain, key, hint, data, len, hintSize), other)
         == ChainFind(chain, other)
  {
    if ChainFind(chain, key).Some? {
      UpdateAt(chain, key, hint, data, len, hintSize);
    }
  }

  /** After an insert the key finds an entry holding the new bytes and metadata. */
  lemma {:induction false} FindAfterInsert(chain: seq<Entry>, container: int32, id: int64, hint: Bytes,
                        data: Bytes, len: nat, hintSize: nat)
    requires len <= |data|
    ensures var f := ChainFind(ChainInsert(chain, container, id, hint, data, len, hintSize),
                               GenerateKey(container, id));
            f.Some? && f.value.data == Some(data[..len]) && f.value.dataLen == len
            && f.value.meta == MakeMetadata(hint, hintSize)
    ensures ChainFind(chain, GenerateKey(container, id)).None? ==>
              ChainFind(ChainInsert(chain, container, id, hint, data, len, hintSize),
                        GenerateKey(container, id))
              == Some(NewEntry(container, id, hint, data, len, hintSize))
  {
    var key := GenerateKey(container, id);
    if ChainFind(chain, key).Some? {
      FindAfterUpdate(chain, key, hint, data, len, hintSize);
    } else {
      var e := NewEntry(container, id, hint, data, len, hintSize);
      KeysAfterAppend(chain, e);
      FirstIndexAfterAppend(Keys(chain), key, key);
    }
  }

  /** Keys other than the inserted one find what they found before. */
  lemma {:induction false} FindOtherAfterInsert(chain: seq<Entry>, container: int32, id: int64, hint: Bytes,
                             data: Bytes, len: nat, hintSize: nat, other: int64)
    requires len <= |data| && other != GenerateKey(container, id)
    ensures ChainFind(ChainInsert(chain, container, id, hint, data, len, hintSize), other)
         == ChainFind(chain, other)
  {
    var key := GenerateKey(container, id);
    if ChainFind(chain, key).Some? {
      FindOtherAfterUpdate(chain, key, hint, data, len, hintSize, other);
    } else {
      var e := NewEntry(container, id, hint, data, len, hintSize);
      var r := chain + [e];
      KeysAfterAppend(chain, e);
      FirstIndexAfterAppend(Keys(chain), key, other);
      var m := MatchIndex(chain, other);
      if m < |chain| {
        assert r[m] == chain[m];
      }
    }
  }

  /**
   * Insert into a chain without the key extends it by one entry at the tail
   * and keeps the earlier entries in order; with the key present it keeps the
   * chain's length and every other entry.
   */
  lemma {:induction false} InsertShape(chain: seq<Entry>, container: int32, id: int64, hint: Bytes,
                    data: Bytes, len: nat, hintSize: nat)
    requires len <= |data|
    ensures var r := ChainInsert(chain, container, id, hint, data, len, hintSize);
            var key := GenerateKey(container, id);
            (ChainFind(chain, key).None? ==>
               |r| == |chain| + 1 && r[..|chain|] == chain
               && r[|chain|] == NewEntry(container, id, hint, data, len, hintSize))
            && (ChainFind(chain, key).Some? ==>
               |r| == |chain| && forall j :: 0 <= j < |chain| && EntryKey(chain[j]) != key ==> r[j] == chain[j])
  {
    var r := ChainInsert(chain, container, id, hint, data, len, hintSize);
    if ChainFind(chain, GenerateKey(container, id)).None? {
      assert r[..|chain|] == chain;
    }
  }

  /** Insert keeps the keys of a chain pairwise distinct. */
  lemma {:induction false} InsertKeepsDistinct(chain: seq<Entry>, container: int32, id: int64, hint: Bytes,
                            data: Bytes, len: nat, hintSize: nat)
    requires len <= |data| && KeysDistinct(chain)
    ensures KeysDistinct(ChainInsert(chain, container, id, hint, data, len, hintSize))
  {
    var key := GenerateKey(container, id);
    if ChainFind(chain, key).Some? {
      UpdateAt(chain, key, hint, data, len, hintSize);
    } else {
      KeysAfterAppend(chain, NewEntry(container, id, hint, data, len, hintSize));
      AppendKeepsDistinct(Keys(chain), key);
    }
  }

  /** Insert keeps every entry in the bucket its key hashes to. */
  lemma {:induction false} InsertKeepsPlaced(chain: seq<Entry>, b: nat, container: int32, id: int64,
                          hint: Bytes, data: Bytes, len: nat, hintSize: nat)
    requires len <= |data| && Placed(chain, b, hintSize)
    requires HashKey(GenerateKey(container, id)) == b && |hint| == hintSize
    ensures Placed(ChainInsert(chain, container, id, hint, data, len, hintSize), b, hintSize)
  {
    var key := GenerateKey(container, id);
    var r := ChainInsert(chain, container, id, hint, data, len, hintSize);
    if ChainFind(chain, key).Some? {
      UpdateAt(chain, key, hint, data, len, hintSize);
    } else {
      var e := NewEntry(container, id, hint, data, len, hintSize);
      assert r == chain + [e];
      KeysAfterAppend(chain, e);
      forall j | 0 <= j < |r|
        ensures HashKey(Keys(r)[j]) == b && EntryOk(r[j]) && |r[j].meta.hint| == hintSize
      {
        if j < |chain| {
          assert r[j] == chain[j] && Keys(r)[j] == Keys(chain)[j];
        } else {
          assert r[j] == e && Keys(r)[j] == key;
        }
      }
    }
  }

  /** Update keeps the keys distinct and the entries placed. */
  lemma {:induction false} UpdateKeepsInvariant(chain: seq<Entry>, b: nat, key: int64, hint: Bytes,
                             data: Bytes, len: nat, hintSize: nat)
    requires len <= |data| && |hint| == hintSize
    requires KeysDistinct(chain) && Placed(chain, b, hintSize)
    ensures var r := ChainUpdate(chain, key, hint, data, len, hintSize);
            KeysDistinct(r) && Placed(r, b, hintSize)
  {
    if ChainFind(chain, key).Some? {
      UpdateAt(chain, key, hint, data, len, hintSize);
    }
  }

  /** Removing from a chain with distinct keys leaves no entry for the key. */
  lemma {:induction false} FindAfterRemove(chain: seq<Entry>, key: int64)
    requires KeysDistinct(chain)
    ensures ChainFind(ChainRemove(chain, key), key).None?
  {
    var i := MatchIndex(chain, key);
    if i < |chain| {
      KeysAfterCut(chain, i);
      AbsentAfterCut(Keys(chain), key);
    }
  }

  /** Removal keeps the order of the remaining entries and what other keys find. */
  lemma {:induction false} FindOtherAfterRemove(chain: seq<Entry>, key: int64, other: int64)
    requires other != key
    ensures ChainFind(ChainRemove(chain, key), other) == ChainFind(chain, other)
  {
    var i := MatchIndex(chain, key);
    if i < |chain| {
      assert Keys(chain)[i] == key;
      assert ChainRemove(chain, key) == chain[..i] + chain[i + 1..];
      FindOtherAfterCut(chain, i, other);
    }
  }

  /** Cutting out an entry whose key is not other keeps what other finds. */
  lemma {:induction false} FindOtherAfterCut(chain: seq<Entry>, i: nat, other: int64)
    requires i < |chain| && Keys(chain)[i] != other
    ensures ChainFind(chain[..i] + chain[i + 1..], other) == ChainFind(chain, other)
  {
    var keys := Keys(chain);
    var cut := keys[..i] + keys[i + 1..];
    var m := FirstIndex(keys, other);
    var mr := FirstIndex(cut, other);
    FirstIndexAfterCut(keys, i, other);
    var r := chain[..i] + chain[i + 1..];
    KeysAfterCut(chain, i);
    FindIs(chain, other, keys, m);
    FindIs(r, other, cut, mr);
    assert |r| == |cut| == |chain| - 1;
    if m < i {
      assert mr == m;
      CutIndexBefore(chain, i, m);
    } else if m < |chain| {
      assert i < m && mr == m - 1;
      CutIndexAfter(chain, i, mr);
    } else {
      assert mr == |r|;
    }
  }

  /** Positions before a cut are kept. */
  lemma CutIndexBefore<T>(s: seq<T>, i: nat, j: nat)
    requires j < i < |s|
    ensures (s[..i] + s[i + 1..])[j] == s[j]
  {
  }

  /** Positions after a cut move back by one. */
  lemma CutIndexAfter<T>(s: seq<T>, i: nat, j: nat)
    requires i <= j < |s| - 1
    ensures (s[..i] + s[i + 1..])[j] == s[j + 1]
  {
  }

  /** ChainFind in terms of where the walk over the keys stops. */
  lemma FindIs(chain: seq<Entry>, key: int64, keys: seq<int64>, m: nat)
    requires keys == Keys(chain) && m == FirstIndex(keys, key)
    ensures ChainFind(chain, key) == if m < |chain| then Some(chain[m]) else None
  {
  }
  /** Removal keeps the keys distinct and the entries placed. */
  lemma {:induction false} RemoveKeepsInvariant(chain: seq<Entry>, b: nat, key: int64, hintSize: nat)
    requires KeysDistinct(chain) && Placed(chain, b, hintSize)
    ensures var r := ChainRemove(chain, key);
            KeysDistinct(r) && Placed(r, b, hintSize)
  {
    var keys := Keys(chain);
    var i := MatchIndex(chain, key);
    if i < |chain| {
      var r := chain[..i] + chain[i + 1..];
      assert ChainRemove(chain, key) == r;
      KeysAfterCut(chain, i);
      CutKeepsDistinct(keys, i);
      assert KeysDistinct(r);
      CutKeepsPlaced(chain, i, b, hintSize);
    } else {
      assert ChainRemove(chain, key) == chain;
    }
  }

  /** Cutting out one entry keeps every other entry in its bucket. */
  lemma CutKeepsPlaced(chain: seq<Entry>, i: nat, b: nat, hintSize: nat)
    requires i < |chain| && Placed(chain, b, hintSize)
    ensures Placed(chain[..i] + chain[i + 1..], b, hintSize)
  {
    var keys := Keys(chain);
    var r := chain[..i] + chain[i + 1..];
    KeysAfterCut(chain, i);
    forall j | 0 <= j < |r|
      ensures HashKey(Keys(r)[j]) == b && EntryOk(r[j]) && |r[j].meta.hint| == hintSize
    {
      if j < i {
        CutIndexBefore(chain, i, j);
        CutIndexBefore(keys, i, j);
      } else {
        CutIndexAfter(chain, i, j);
        CutIndexAfter(keys, i, j);
      }
    }
  }
}
