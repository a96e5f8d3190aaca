/**
 * The std::map<int64_t, RecordData> both map-backed stores keep, and the
 * forward cursor their iterators share: lower_bound finds the least key at
 * or above the search key, and the cursor remembers the key after the one
 * it returned, with LLONG_MAX meaning "past the end".
 */
module OrderedKeys {
  import opened KvTypes

  /** firstRecordId: where a fresh cursor (_curr == 0) starts searching. */
  const FIRST_RECORD_ID: int64 := 1

  /** x is the least element of s that is at least k. */
  predicate IsLeastAtLeast(s: set<int64>, k: int, x: int64)
  {
    x in s && x >= k && forall y :: y in s && y >= k ==> x <= y
  }

  /** An s-element of at least k is present, so a least one exists. */
  lemma LeastExists(s: set<int64>, k: int)
    requires exists y :: y in s && y >= k
    ensures exists x :: IsLeastAtLeast(s, k, x)
  {
    var y :| y in s && y >= k;
    var x := LeastAtMost(s, k, y);
    assert IsLeastAtLeast(s, k, x);
  }

  /** The least s-element of at least k, found below a given one, y. */
  lemma {:induction false} LeastAtMost(s: set<int64>, k: int, y: int64) returns (x: int64)
    requires y in s && y >= k
    ensures x in s && k <= x <= y
    ensures forall z :: z in s && z >= k ==> x <= z
    decreases |s|
  {
    if z :| z in s && z >= k && z < y {
      x := LeastAtMost(s - {y}, k, z);
      forall w | w in s && w >= k
        ensures x <= w
      {
        if w != y {
          assert w in s - {y};
        }
      }
    } else {
      x := y;
    }
  }

  /** lower_bound(k): the least key of m that is at least k, or none (end()). */
  function LowerBound<V>(m: map<int64, V>, k: int): (r: Option<int64>)
    ensures r.Some? ==> r.value in m && r.value >= k
    ensures r.Some? ==> forall y :: y in m && y >= k ==> r.value <= y
    ensures r.None? <==> forall y :: y in m ==> y < k
  {
    if exists y :: y in m && y >= k then
      LeastExists(m.Keys, k);
      var x :| IsLeastAtLeast(m.Keys, k, x);
      Some(x)
    else
      None
  }

  /**
   * One forward next(): at the LLONG_MAX sentinel, nothing; otherwise the
   * record at lower_bound of the cursor (of firstRecordId for a fresh
   * cursor), and the cursor moves to the following key, or to LLONG_MAX when
   * there is none. When lower_bound finds nothing the cursor also moves to
   * LLONG_MAX.
   */
  function ForwardNext(m: map<int64, Bytes>, curr: int64): (r: (Option<Record>, int64))
  {
    if curr == INT64_MAX then (None, curr)
    else
      var searchKey := if curr == 0 then FIRST_RECORD_ID else curr;
      match LowerBound(m, searchKey)
      case None => (None, INT64_MAX)
      case Some(k) => (Some(Record(k, m[k])), After(m, k))
  }

  /** Where the cursor moves after returning key x: the next key, or LLONG_MAX after the last. */
  function After<V>(m: map<int64, V>, x: int64): (c: int64)
    ensures c == INT64_MAX || (c in m && x < c)
    ensures c != INT64_MAX ==> forall y :: y in m && x < y ==> c <= y
  {
    var a := LowerBound(m, x as int + 1);
    if a.None? then INT64_MAX else a.value
  }

  /** The keys of m from k upwards, in ascending order. */
  function KeysFrom(m: map<int64, Bytes>, k: int): (s: seq<int64>)
    requires k <= INT64_MAX + 1
    ensures forall i :: 0 <= i < |s| ==> s[i] in m && s[i] >= k
    decreases INT64_MAX + 1 - k
  {
    match LowerBound(m, k)
    case None => []
    case Some(x) => [x] + KeysFrom(m, x + 1)
  }

  predicate StrictlyAscending(s: seq<int64>)
  {
    forall i, j :: 0 <= i < j < |s| ==> s[i] < s[j]
  }

  /** Putting a key below every key of an ascending list in front keeps it ascending. */
  lemma AscendingCons(x: int64, t: seq<int64>)
    requires StrictlyAscending(t) && forall i :: 0 <= i < |t| ==> x < t[i]
    ensures StrictlyAscending([x] + t)
  {
    var s := [x] + t;
    forall i, j | 0 <= i < j < |s|
      ensures s[i] < s[j]
    {
      assert s[j] == t[j - 1];
      if i > 0 {
        assert s[i] == t[i - 1];
      }
    }
  }

  /** KeysFrom lists every key of at least k, strictly ascending. */
  lemma KeysFromSpec(m: map<int64, Bytes>, k: int)
    requires k <= INT64_MAX + 1
    ensures StrictlyAscending(KeysFrom(m, k))
    ensures forall y :: y in m && y >= k ==> y in KeysFrom(m, k)
  {
    KeysFromAscending(m, k);
    KeysFromComplete(m, k);
  }

  lemma {:induction false} KeysFromAscending(m: map<int64, Bytes>, k: int)
    requires k <= INT64_MAX + 1
    ensures StrictlyAscending(KeysFrom(m, k))
    decreases INT64_MAX + 1 - k
  {
    var lb := LowerBound(m, k);
    if lb.Some? {
      var x := lb.value;
      var t := KeysFrom(m, x as int + 1);
      KeysFromAscending(m, x as int + 1);
      assert KeysFrom(m, k) == [x] + t;
      AscendingCons(x, t);
    }
  }

  lemma {:induction false} KeysFromComplete(m: map<int64, Bytes>, k: int)
    requires k <= INT64_MAX + 1
    ensures forall y :: y in m && y >= k ==> y in KeysFrom(m, k)
    decreases INT64_MAX + 1 - k
  {
    var lb := LowerBound(m, k);
    if lb.Some? {
      var x := lb.value;
      var t := KeysFrom(m, x as int + 1);
      KeysFromComplete(m, x as int + 1);
      assert KeysFrom(m, k) == [x] + t;
      forall y | y in m && y >= k
        ensures y in [x] + t
      {
        if y != x {
          assert y in t;
        }
      }
    }
  }

  /** The records a cursor yields for a list of keys. */
  function RecordsAt(m: map<int64, Bytes>, keys: seq<int64>): (rs: seq<Record>)
    requires forall i :: 0 <= i < |keys| ==> keys[i] in m
    ensures |rs| == |keys|
    ensures forall i :: 0 <= i < |keys| ==> rs[i] == Record(keys[i], m[keys[i]])
  {
    if |keys| == 0 then [] else [Record(keys[0], m[keys[0]])] + RecordsAt(m, keys[1..])
  }

  /** n calls of next on an unchanged map: the records yielded and the final cursor. */
  function Walk(m: map<int64, Bytes>, curr: int64, n: nat): (r: (seq<Record>, int64))
    decreases n
  {
    if n == 0 then ([], curr)
    else
      var step := ForwardNext(m, curr);
      var rest := Walk(m, step.1, n - 1);
      (if step.0.Some? then [step.0.value] + rest.0 else rest.0, rest.1)
  }

  /** Past the end, every further call yields nothing and the cursor stays at LLONG_MAX. */
  lemma {:induction false} WalkPastEnd(m: map<int64, Bytes>, n: nat)
    ensures Walk(m, INT64_MAX, n) == ([], INT64_MAX)
    decreases n
  {
    if n > 0 {
      WalkPastEnd(m, n - 1);
    }
  }

  /** A call that yields r and moves the cursor to c' puts r in front of what the rest yields. */
  lemma WalkAfterYield(m: map<int64, Bytes>, c: int64, n: nat, r: Record, c': int64)
    requires n > 0 && ForwardNext(m, c) == (Some(r), c')
    ensures Walk(m, c, n) == ([r] + Walk(m, c', n - 1).0, Walk(m, c', n - 1).1)
  {
  }

  /** Search keys with the same lower_bound list the same keys. */
  lemma SameLowerBoundSameKeys(m: map<int64, Bytes>, a: int, b: int)
    requires a <= INT64_MAX + 1 && b <= INT64_MAX + 1
    requires LowerBound(m, a) == LowerBound(m, b)
    ensures KeysFrom(m, a) == KeysFrom(m, b)
  {
  }

  /**
   * From a cursor at key k (k below LLONG_MAX, and LLONG_MAX not a key),
   * calls of next yield the records of the keys from k upwards, each once,
   * in ascending order, and then the cursor is past the end.
   */
  lemma {:induction false} WalkYieldsKeysFrom(m: map<int64, Bytes>, k: int64, n: nat)
    requires 1 <= k < INT64_MAX && INT64_MAX !in m
    requires n > |KeysFrom(m, k)|
    ensures Walk(m, k, n) == (RecordsAt(m, KeysFrom(m, k)), INT64_MAX)
    decreases n
  {
    var lb := LowerBound(m, k);
    if lb.None? {
      WalkNoKeys(m, k, n);
    } else {
      var x := lb.value;
      var c' := StepFrom(m, k, x);
      if c' != INT64_MAX {
        assert |KeysFrom(m, k)| == 1 + |KeysFrom(m, c')|;
        WalkYieldsKeysFrom(m, c', n - 1);
      }
      WalkOneKey(m, k, n, x, c');
    }
  }

  /** With no key from k on, the first call ends the walk. */
  lemma WalkNoKeys(m: map<int64, Bytes>, k: int64, n: nat)
    requires 1 <= k < INT64_MAX && n > 0 && LowerBound(m, k).None?
    ensures KeysFrom(m, k) == []
    ensures Walk(m, k, n) == (RecordsAt(m, KeysFrom(m, k)), INT64_MAX)
  {
    assert ForwardNext(m, k) == (None, INT64_MAX);
    WalkPastEnd(m, n - 1);
  }

  /** The first call yields x and moves to c'; the rest of the walk is the walk from c'. */
  lemma WalkOneKey(m: map<int64, Bytes>, k: int64, n: nat, x: int64, c': int64)
    requires 1 <= k < INT64_MAX && n > 0 && x in m
    requires ForwardNext(m, k) == (Some(Record(x, m[x])), c')
    requires c' == INT64_MAX ==> KeysFrom(m, k) == [x]
    requires c' != INT64_MAX ==> 1 <= c' && KeysFrom(m, k) == [x] + KeysFrom(m, c')
                                 && Walk(m, c', n - 1) == (RecordsAt(m, KeysFrom(m, c')), INT64_MAX)
    ensures Walk(m, k, n) == (RecordsAt(m, KeysFrom(m, k)), INT64_MAX)
  {
    WalkAfterYield(m, k, n, Record(x, m[x]), c');
    if c' == INT64_MAX {
      WalkPastEnd(m, n - 1);
    } else {
      RecordsAtCons(m, x, KeysFrom(m, c'));
    }
  }

  /**
   * One call from cursor k whose lower_bound is x: it yields x's record and
   * moves to c', which is LLONG_MAX exactly when x is the last key, and the
   * keys from k are x followed by the keys from c'.
   */
  lemma StepFrom(m: map<int64, Bytes>, k: int64, x: int64) returns (c': int64)
    requires 1 <= k < INT64_MAX && INT64_MAX !in m && LowerBound(m, k) == Some(x)
    ensures ForwardNext(m, k) == (Some(Record(x, m[x])), c')
    ensures c' == INT64_MAX ==> KeysFrom(m, k) == [x]
    ensures c' != INT64_MAX ==> 1 <= c' && KeysFrom(m, k) == [x] + KeysFrom(m, c')
  {
    c' := After(m, x);
    assert KeysFrom(m, k) == [x] + KeysFrom(m, x as int + 1);
    if c' != INT64_MAX {
      SameLowerBoundSameKeys(m, x as int + 1, c');
    } else {
      assert LowerBound(m, x as int + 1).None?;
    }
  }

  lemma RecordsAtCons(m: map<int64, Bytes>, x: int64, t: seq<int64>)
    requires x in m && forall i :: 0 <= i < |t| ==> t[i] in m
    ensures RecordsAt(m, [x] + t) == [Record(x, m[x])] + RecordsAt(m, t)
  {
    assert ([x] + t)[1..] == t;
  }

  /**
   * A fresh cursor (_curr == 0) on a map without the LLONG_MAX key yields the
   * records of the keys of at least firstRecordId, each once, ascending, and
   * then nothing on every further call.
   */
  lemma FreshCursorWalk(m: map<int64, Bytes>, n: nat)
    requires INT64_MAX !in m && n > |KeysFrom(m, FIRST_RECORD_ID)|
    ensures Walk(m, 0, n) == (RecordsAt(m, KeysFrom(m, FIRST_RECORD_ID)), INT64_MAX)
  {
    KeysFromSpec(m, FIRST_RECORD_ID);
    assert ForwardNext(m, 0) == ForwardNext(m, FIRST_RECORD_ID);
    WalkYieldsKeysFrom(m, FIRST_RECORD_ID, n);
  }

  /**
   * A record stored under LLONG_MAX itself is skipped by a cursor coming from
   * the key below it: the cursor moves onto LLONG_MAX, which reads as the end.
   */
  lemma SentinelKeySkipped(m: map<int64, Bytes>, x: int64)
    requires 1 <= x < INT64_MAX && x in m && INT64_MAX in m
    requires forall y :: y in m && x < y ==> y == INT64_MAX
    ensures ForwardNext(m, x) == (Some(Record(x, m[x])), INT64_MAX)
    ensures ForwardNext(m, INT64_MAX) == (None, INT64_MAX)
  {
  }
}
