/**
 * The keys of one cache chain, head first, and where a chain walk looking for
 * a key stops. Kept apart from the entries so that reasoning about a walk
 * only involves key comparisons.
 */
module KeyList {
  import opened KvTypes

  /** The first position holding k, or |keys| when there is none. */
  function FirstIndex(keys: seq<int64>, k: int64): (i: nat)
    ensures i <= |keys|
    ensures i < |keys| ==> keys[i] == k
    ensures forall j :: 0 <= j < i ==> keys[j] != k
  {
    if |keys| == 0 then 0
    else if keys[0] == k then 0
    else 1 + FirstIndex(keys[1..], k)
  }

  /** The walk runs off the end exactly when k does not occur. */
  lemma {:induction false} FirstIndexAbsent(keys: seq<int64>, k: int64)
    ensures FirstIndex(keys, k) == |keys| <==> k !in keys
  {
    var i := FirstIndex(keys, k);
    if i < |keys| {
      assert keys[i] == k;
    } else {
      assert forall j :: 0 <= j < |keys| ==> keys[j] != k;
    }
  }

  /** No key occurs twice. */
  predicate Distinct(keys: seq<int64>)
  {
    forall i, j :: 0 <= i < j < |keys| ==> keys[i] != keys[j]
  }

  /** The walk stops at the first occurrence, whatever comes after it. */
  lemma FirstIndexAt(keys: seq<int64>, k: int64, i: nat)
    requires i < |keys| && keys[i] == k
    requires forall j :: 0 <= j < i ==> keys[j] != k
    ensures FirstIndex(keys, k) == i
  {
  }

  /** The keys left after the one at i is cut out, position by position. */
  lemma CutPositions(keys: seq<int64>, i: nat)
    requires i < |keys|
    ensures var r := keys[..i] + keys[i + 1..];
            |r| == |keys| - 1
            && (forall j :: 0 <= j < i ==> r[j] == keys[j])
            && (forall j :: i <= j < |r| ==> r[j] == keys[j + 1])
  {
  }

  /** Cutting out a different key moves the stop of the walk back by at most one. */
  lemma {:induction false} FirstIndexAfterCut(keys: seq<int64>, i: nat, k: int64)
    requires i < |keys| && keys[i] != k
    ensures var m := FirstIndex(keys, k);
            FirstIndex(keys[..i] + keys[i + 1..], k) == if m <= i then m else m - 1
  {
    var r := keys[..i] + keys[i + 1..];
    CutPositions(keys, i);
    var m := FirstIndex(keys, k);
    if m < i {
      FirstIndexAt(r, k, m);
    } else if m < |keys| {
      FirstIndexAt(r, k, m - 1);
    } else {
      assert forall j :: 0 <= j < |r| ==> r[j] != k;
    }
  }

  /** Cutting out the only occurrence of k leaves no occurrence. */
  lemma {:induction false} AbsentAfterCut(keys: seq<int64>, k: int64)
    requires Distinct(keys) && k in keys
    ensures var i := FirstIndex(keys, k);
            k !in keys[..i] + keys[i + 1..]
  {
    var i := FirstIndex(keys, k);
    CutPositions(keys, i);
    var r := keys[..i] + keys[i + 1..];
    assert forall j :: 0 <= j < |r| ==> r[j] != k;
  }

  /** Cutting out one key keeps the rest distinct. */
  lemma {:induction false} CutKeepsDistinct(keys: seq<int64>, i: nat)
    requires i < |keys| && Distinct(keys)
    ensures Distinct(keys[..i] + keys[i + 1..])
  {
    CutPositions(keys, i);
  }

  /** Appending a key that is not there keeps the keys distinct. */
  lemma AppendKeepsDistinct(keys: seq<int64>, k: int64)
    requires Distinct(keys) && k !in keys
    ensures Distinct(keys + [k])
  {
  }

  /** Where the walk stops once one key is linked at the tail. */
  lemma {:induction false} FirstIndexAfterAppend(keys: seq<int64>, x: int64, k: int64)
    ensures FirstIndex(keys + [x], k)
         == if k in keys then FirstIndex(keys, k) else if x == k then |keys| else |keys| + 1
  {
    var r := keys + [x];
    assert forall j :: 0 <= j < |keys| ==> r[j] == keys[j];
    if k in keys {
      FirstIndexAt(r, k, FirstIndex(keys, k));
    } else if x == k {
      FirstIndexAt(r, k, |keys|);
    } else {
      assert k !in r;
    }
  }
}
