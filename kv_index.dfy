/**
 * OntapKVIndex of ontapkv_index.cpp: an in-memory ordered collection of
 * (key, record id) pairs. The index keys are compared by their order alone,
 * so they are modelled as integers; the collection is kept sorted by key, and
 * an insert places the new pair after every pair of the same key, as an
 * ordered multimap does.
 */
module KvIndex {
  import opened KvTypes

  /** DEFAULT_KEY_SIZE, and sizeof(int64_t) for the record id. */
  const DEFAULT_KEY_SIZE: int := 64
  const RECORD_ID_SIZE: int := 8

  datatype IndexEntry = IndexEntry(key: int, id: int64)

  predicate SortedByKey(s: seq<IndexEntry>)
  {
    forall i, j :: 0 <= i < j < |s| ==> s[i].key <= s[j].key
  }

  predicate HasKey(s: seq<IndexEntry>, key: int)
  {
    exists i :: 0 <= i < |s| && s[i].key == key
  }

  /** insert of an ordered multimap: e goes after every entry whose key is not above its own. */
  function InsertSorted(s: seq<IndexEntry>, e: IndexEntry): (r: seq<IndexEntry>)
    decreases |s|
  {
    if |s| == 0 || e.key < s[0].key then [e] + s
    else [s[0]] + InsertSorted(s[1..], e)
  }

  /** On a sorted index an insert puts e at the upper bound of its key. */
  lemma {:induction false} InsertSortedAt(s: seq<IndexEntry>, e: IndexEntry) returns (pos: nat)
    requires SortedByKey(s)
    ensures pos <= |s| && InsertSorted(s, e) == s[..pos] + [e] + s[pos..]
    ensures forall j :: 0 <= j < pos ==> s[j].key <= e.key
    ensures forall j :: pos <= j < |s| ==> e.key < s[j].key
    decreases |s|
  {
    if |s| == 0 || e.key < s[0].key {
      pos := 0;
      assert s[..0] + [e] + s[0..] == [e] + s;
    } else {
      var t := s[1..];
      var p := InsertSortedAt(t, e);
      pos := p + 1;
      assert s[..pos] == [s[0]] + t[..p];
      assert s[pos..] == t[p..];
    }
  }

  /**
   * On a sorted index an insert keeps it sorted, adds exactly the one pair,
   * and puts it at the upper bound of its key: the entries before it have
   * keys not above e's, those after it keys above.
   */
  lemma InsertSortedSpec(s: seq<IndexEntry>, e: IndexEntry) returns (pos: nat)
    requires SortedByKey(s)
    ensures pos <= |s| && InsertSorted(s, e) == s[..pos] + [e] + s[pos..]
    ensures forall j :: 0 <= j < pos ==> s[j].key <= e.key
    ensures forall j :: pos <= j < |s| ==> e.key < s[j].key
    ensures SortedByKey(InsertSorted(s, e))
    ensures multiset(InsertSorted(s, e)) == multiset(s) + multiset{e}
  {
    pos := InsertSortedAt(s, e);
    SpliceSorted(s, pos, e);
    SpliceMultiset(s, pos, e);
  }

  /** Splicing e in at its upper bound keeps a sorted index sorted. */
  lemma SpliceSorted(s: seq<IndexEntry>, pos: nat, e: IndexEntry)
    requires SortedByKey(s) && pos <= |s|
    requires forall k :: 0 <= k < pos ==> s[k].key <= e.key
    requires forall k :: pos <= k < |s| ==> e.key < s[k].key
    ensures SortedByKey(s[..pos] + [e] + s[pos..])
  {
    var r := s[..pos] + [e] + s[pos..];
    forall i, j | 0 <= i < j < |r|
      ensures r[i].key <= r[j].key
    {
      SortedSplit(s, pos, e, i, j);
    }
  }

  /** Splicing e in adds exactly e to the multiset of pairs. */
  lemma SpliceMultiset(s: seq<IndexEntry>, pos: nat, e: IndexEntry)
    requires pos <= |s|
    ensures multiset(s[..pos] + [e] + s[pos..]) == multiset(s) + multiset{e}
  {
    assert s == s[..pos] + s[pos..];
  }

  /** The order of two entries of s[..pos] + [e] + s[pos..] when e sits at its upper bound. */
  lemma SortedSplit(s: seq<IndexEntry>, pos: nat, e: IndexEntry, i: int, j: int)
    requires SortedByKey(s) && pos <= |s|
    requires forall k :: 0 <= k < pos ==> s[k].key <= e.key
    requires forall k :: pos <= k < |s| ==> e.key < s[k].key
    requires 0 <= i < j < |s| + 1
    ensures (s[..pos] + [e] + s[pos..])[i].key <= (s[..pos] + [e] + s[pos..])[j].key
  {
    var r := s[..pos] + [e] + s[pos..];
    assert forall k :: 0 <= k < pos ==> r[k] == s[k];
    assert r[pos] == e;
    assert forall k :: pos < k < |r| ==> r[k] == s[k - 1];
  }

  class Index {
    /** _kvindex. */
    var entries: seq<IndexEntry>

    ghost predicate Valid()
      reads this
    {
      SortedByKey(entries)
    }

    /** A new index, and initAsEmpty: no entries. */
    constructor ()
      ensures Valid() && entries == []
    {
      entries := [];
    }

    /**
     * insert: when duplicates are not allowed and the key is present, the
     * answer is DuplicateKey and the index is unchanged; otherwise the pair is
     * added at the upper bound of its key and the answer is OK.
     */
    method Insert(key: int, id: int64, dupsAllowed: bool) returns (s: Status)
      requires Valid()
      modifies this
      ensures Valid()
      ensures !dupsAllowed && HasKey(old(entries), key) ==> s == StatusErr(DuplicateKey) && entries == old(entries)
      ensures dupsAllowed || !HasKey(old(entries), key) ==>
                s == StatusOK && entries == InsertSorted(old(entries), IndexEntry(key, id))
                && multiset(entries) == multiset(old(entries)) + multiset{IndexEntry(key, id)}
                && |entries| == |old(entries)| + 1
    {
      if !dupsAllowed && HasKey(entries, key) {
        return StatusErr(DuplicateKey);
      }
      var pos := InsertSortedSpec(entries, IndexEntry(key, id));
      entries := InsertSorted(entries, IndexEntry(key, id));
      s := StatusOK;
    }

    /** isEmpty: true exactly when no key is present. */
    function IsEmpty(): (empty: bool)
      reads this
      ensures empty <==> forall k :: !HasKey(entries, k)
    {
      if |entries| == 0 then true
      else
        assert HasKey(entries, entries[0].key);
        false
    }

    /** fullValidate: the number of (key, id) pairs. */
    function FullValidate(): (numKeys: int)
      reads this
      ensures numKeys == |multiset(entries)|
    {
      |entries|
    }

    /** getSpaceUsedBytes: each pair charged a record id and a default-sized key. */
    function SpaceUsedBytes(): (bytes: int)
      reads this
      ensures bytes == FullValidate() * 72
    {
      |entries| * (RECORD_ID_SIZE + DEFAULT_KEY_SIZE)
    }

    /** dupKeyCheck: always OK, whether or not the key is present. */
    function DupKeyCheck(key: int, id: int64): (s: Status)
      ensures s == StatusOK
    {
      StatusOK
    }
  }

  /**
   * A unique index takes a key once and refuses it the second time, though
   * dupKeyCheck passes it; the count and the space used follow the one entry.
   */
  method InsertTwiceUnique(key: int, a: int64, b: int64)
    returns (first: Status, second: Status, check: Status, numKeys: int, bytes: int)
    ensures first == StatusOK && second == StatusErr(DuplicateKey) && check == StatusOK
    ensures numKeys == 1 && bytes == 72
  {
    var ix := new Index();
    first := ix.Insert(key, a, false);
    check := ix.DupKeyCheck(key, b);
    assert ix.entries[0].key == key;
    second := ix.Insert(key, b, false);
    numKeys := ix.FullValidate();
    bytes := ix.SpaceUsedBytes();
  }

  /** A non-unique index keeps both pairs of one key, in insertion order. */
  method InsertTwiceDuplicatesAllowed(key: int, a: int64, b: int64) returns (entries: seq<IndexEntry>)
    ensures entries == [IndexEntry(key, a), IndexEntry(key, b)]
  {
    var ix := new Index();
    var s := ix.Insert(key, a, true);
    s := ix.Insert(key, b, true);
    entries := ix.entries;
  }
}
