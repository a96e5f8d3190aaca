/**
 * IPCConnectionCache of ontapkv_iomgr_ipc.h: MAX_CONN = 20 connections with
 * an in-use flag each. getConnection takes the lowest free slot,
 * dropConnection frees one. The sockets themselves and the lock around both
 * operations are not modelled.
 */
module ConnectionSlots {

  const MAX_CONN: nat := 20

  /** The lowest index whose flag is clear, or |s| when every slot is in use. */
  function LowestFree(s: seq<bool>): (i: nat)
    ensures i <= |s|
    ensures i < |s| ==> !s[i]
    ensures forall j :: 0 <= j < i ==> s[j]
  {
    if |s| == 0 then 0 else if !s[0] then 0 else 1 + LowestFree(s[1..])
  }

  /** The scan runs off the end exactly when every slot is in use. */
  lemma {:induction false} LowestFreeFull(s: seq<bool>)
    ensures LowestFree(s) == |s| <==> forall j :: 0 <= j < |s| ==> s[j]
  {
    var i := LowestFree(s);
    if i < |s| {
      assert !s[i];
    }
  }

  /** The flags after getConnection: the lowest free slot is taken. */
  function Acquire(s: seq<bool>): (t: seq<bool>)
    requires LowestFree(s) < |s|
  {
    s[LowestFree(s) := true]
  }

  /** The flags of a cache whose slots 0 .. k-1 are taken and the rest free. */
  function Taken(k: nat): (s: seq<bool>)
    ensures |s| == MAX_CONN
  {
    seq(MAX_CONN, i requires 0 <= i < MAX_CONN => i < k)
  }

  /** k acquisitions from s with no release: the slots they report and the final flags. */
  function AcquireMany(s: seq<bool>, k: nat): (r: (seq<nat>, seq<bool>))
    ensures |r.0| <= k && |r.1| == |s|
    decreases k
  {
    if k == 0 || LowestFree(s) == |s| then ([], s)
    else
      var rest := AcquireMany(Acquire(s), k - 1);
      ([LowestFree(s)] + rest.0, rest.1)
  }

  function Range(lo: nat, hi: nat): (r: seq<nat>)
    requires lo <= hi
    ensures |r| == hi - lo && forall i :: 0 <= i < |r| ==> r[i] == lo + i
    decreases hi - lo
  {
    if lo == hi then [] else [lo] + Range(lo + 1, hi)
  }

  /** With slots 0 .. k-1 taken, the next acquire reports k and takes it. */
  lemma TakenStep(k: nat)
    requires k < MAX_CONN
    ensures LowestFree(Taken(k)) == k && Acquire(Taken(k)) == Taken(k + 1)
  {
    var s := Taken(k);
    assert !s[k];
    assert forall j :: 0 <= j < k ==> s[j];
    LowestFreeIs(s, k);
  }

  lemma {:induction false} LowestFreeIs(s: seq<bool>, k: nat)
    requires k < |s| && !s[k] && forall j :: 0 <= j < k ==> s[j]
    ensures LowestFree(s) == k
  {
    if k > 0 {
      assert s[0];
      LowestFreeIs(s[1..], k - 1);
    }
  }

  /**
   * Starting from slots 0 .. k-1 taken, n more acquisitions (k + n <= 20)
   * report k, k+1, .., k+n-1 and leave slots 0 .. k+n-1 taken.
   */
  lemma {:induction false} AcquireFrom(k: nat, n: nat)
    requires k + n <= MAX_CONN
    ensures AcquireMany(Taken(k), n) == (Range(k, k + n), Taken(k + n))
    decreases n
  {
    if n > 0 {
      TakenStep(k);
      AcquireFrom(k + 1, n - 1);
    }
  }

  /**
   * After construction, k <= 20 acquisitions with no release report the slots
   * 0 .. k-1, so no two callers ever share a connection.
   */
  lemma AcquiresFromFresh(k: nat)
    requires k <= MAX_CONN
    ensures AcquireMany(Taken(0), k).0 == Range(0, k)
    ensures forall i, j :: 0 <= i < j < k ==> AcquireMany(Taken(0), k).0[i] != AcquireMany(Taken(0), k).0[j]
  {
    AcquireFrom(0, k);
  }

  /** A 21st acquire finds no free slot: the invariant i < MAX_CONN fails. */
  lemma TwentyFirstAcquireFails()
    ensures LowestFree(Taken(MAX_CONN)) == MAX_CONN
  {
    LowestFreeFull(Taken(MAX_CONN));
  }

  class ConnectionCache {
    /** in_use: one flag per connection. */
    const inUse: array<bool>

    ghost predicate Valid()
      reads this
    {
      inUse.Length == MAX_CONN
    }

    /** The constructor opens MAX_CONN connections and marks every slot free. */
    constructor ()
      ensures Valid() && fresh(inUse)
      ensures inUse[..] == Taken(0)
    {
      var flags := new bool[MAX_CONN];
      var i := 0;
      while i < MAX_CONN
        invariant 0 <= i <= MAX_CONN
        invariant forall j :: 0 <= j < i ==> !flags[j]
      {
        flags[i] := false;
        i := i + 1;
      }
      inUse := flags;
    }

    /**
     * getConnection: scans for the lowest free slot, marks it in use and
     * reports its index. The source checks invariant(i < MAX_CONN), so a
     * caller must leave a slot free.
     */
    method GetConnection() returns (connNo: nat)
      requires Valid() && LowestFree(inUse[..]) < MAX_CONN
      modifies inUse
      ensures connNo == LowestFree(old(inUse[..])) && connNo < MAX_CONN
      ensures inUse[..] == Acquire(old(inUse[..]))
    {
      var i := 0;
      while i < MAX_CONN && inUse[i]
        invariant 0 <= i <= MAX_CONN
        invariant forall j :: 0 <= j < i ==> inUse[j]
      {
        i := i + 1;
      }
      LowestFreeIs(inUse[..], i);
      inUse[i] := true;
      connNo := i;
    }

    /** dropConnection: clears the flag of slot i and no other. */
    method DropConnection(i: nat)
      requires Valid() && i < MAX_CONN
      modifies inUse
      ensures inUse[..] == old(inUse[..])[i := false]
    {
      inUse[i] := false;
    }
  }
}
