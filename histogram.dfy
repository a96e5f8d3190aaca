/**
 * Histogram of ontapkv_histogram.h/.cpp: a histogram over 32-bit unsigned
 * values with linear or exponential bucket boundaries. Every boundary is
 * computed in uint32_t arithmetic, so it is reduced modulo 2^32; the last
 * boundary is UINT32_MAX. Values are placed by a binary search over the
 * boundaries and counted per bucket in 64-bit unsigned counters.
 */
module LatencyHistogram {
  import opened KvTypes

  /** Histogram::Options. */
  datatype Options = Options(numBuckets: uint32, bucketSize: uint32, initialValue: uint32,
                             exponential: bool)

  /** The Options() constructor: every field zero, linear buckets. */
  function DefaultOptions(): (o: Options)
    ensures o.numBuckets == 0 && o.bucketSize == 0 && o.initialValue == 0 && !o.exponential
  {
    Options(0, 0, 0, false)
  }

  // ---------------------------------------------------------------------------
  // uint32_t arithmetic

  /** Adding a multiple of 2^32 does not change a uint32_t result. */
  lemma Wrap32Multiple(k: int, v: int)
    ensures Wrap32(k * TWO_32 + v) == Wrap32(v)
  {
    var d := v / TWO_32;
    var r := v % TWO_32;
    assert v == d * TWO_32 + r;
    assert k * TWO_32 + v == (k + d) * TWO_32 + r;
  }

  lemma Wrap32Add(a: int, b: int)
    ensures Wrap32(a + Wrap32(b)) == Wrap32(a + b)
  {
    var q := b / TWO_32;
    assert b == q * TWO_32 + Wrap32(b);
    Wrap32Multiple(q, a + Wrap32(b));
  }

  lemma Wrap32Mul(a: int, b: int)
    ensures Wrap32(a * Wrap32(b)) == Wrap32(a * b)
  {
    var q := b / TWO_32;
    var r := Wrap32(b);
    assert b == q * TWO_32 + r;
    assert a * b == (a * q) * TWO_32 + a * r;
    Wrap32Multiple(a * q, a * r);
  }

  // ---------------------------------------------------------------------------
  // The boundaries the constructor computes

  /** Linear boundary i (i < numBuckets - 1): initialValue + bucketSize * (i + 1), mod 2^32. */
  function LinearBoundary(initial: uint32, size: uint32, i: nat): uint32
  {
    Wrap32(initial + size * (i + 1))
  }

  /** Exponential boundary i (i < numBuckets - 1): initialValue + bucketSize * 2^i, mod 2^32. */
  function ExpBoundary(initial: uint32, size: uint32, i: nat): uint32
  {
    Wrap32(initial + size * Pow2(i))
  }

  /** The maximum element of bucket i for the given options. */
  function Boundary(o: Options, i: nat): uint32
    requires i < o.numBuckets
  {
    if i == o.numBuckets - 1 then UINT32_MAX
    else if o.exponential then ExpBoundary(o.initialValue, o.bucketSize, i)
    else LinearBoundary(o.initialValue, o.bucketSize, i)
  }

  /** All boundaries, bucket 0 first. */
  function Boundaries(o: Options): (b: seq<uint32>)
    ensures |b| == o.numBuckets
  {
    seq(o.numBuckets, i requires 0 <= i < o.numBuckets => Boundary(o, i))
  }

  /** The documented linear example: 3 buckets of size 10 cover [0..10], [11..20], [21..max]. */
  lemma LinearExample()
    ensures Boundaries(Options(3, 10, 0, false)) == [10, 20, UINT32_MAX]
  {
    var b := Boundaries(Options(3, 10, 0, false));
    assert b[0] == 10 && b[1] == 20 && b[2] == UINT32_MAX;
  }

  /** The documented exponential example: 4 buckets of size 125. */
  lemma ExponentialExample()
    ensures Boundaries(Options(4, 125, 0, true)) == [125, 250, 500, UINT32_MAX]
  {
    var b := Boundaries(Options(4, 125, 0, true));
    assert Pow2(0) == 1 && Pow2(1) == 2 && Pow2(2) == 4;
    assert b[0] == 125 && b[1] == 250 && b[2] == 500 && b[3] == UINT32_MAX;
  }

  predicate Ascending(b: seq<uint32>)
  {
    forall i, j :: 0 <= i < j < |b| ==> b[i] <= b[j]
  }

  lemma MulMonotone(a: nat, x: nat, y: nat)
    requires x <= y
    ensures a * x <= a * y
  {
    assert a * y == a * x + a * (y - x);
  }


  /** Without wrap-around, a linear boundary is the plain sum. */
  lemma LinearValue(o: Options, i: nat)
    requires !o.exponential && i < o.numBuckets - 1
    requires o.initialValue + o.bucketSize * (o.numBuckets - 1) < TWO_32
    ensures Boundaries(o)[i] == o.initialValue + o.bucketSize * (i + 1)
  {
    var p := o.bucketSize * (i + 1);
    MulMonotone(o.bucketSize, i + 1, o.numBuckets - 1);
    assert 0 <= o.initialValue + p < TWO_32;
    assert Boundaries(o)[i] == Boundary(o, i);
  }

  /** Without wrap-around, linear boundaries ascend. */
  lemma LinearAscending(o: Options)
    requires !o.exponential && o.numBuckets >= 1
    requires o.initialValue + o.bucketSize * (o.numBuckets - 1) < TWO_32
    ensures Ascending(Boundaries(o))
  {
    var b := Boundaries(o);
    forall i, j | 0 <= i < j < |b|
      ensures b[i] <= b[j]
    {
      if j < o.numBuckets - 1 {
        LinearValue(o, i);
        LinearValue(o, j);
        MulMonotone(o.bucketSize, i + 1, j + 1);
      }
    }
  }

  lemma {:induction false} Pow2Monotone(i: nat, j: nat)
    requires i <= j
    ensures Pow2(i) <= Pow2(j)
  {
    if i < j {
      Pow2Monotone(i, j - 1);
    }
  }

  /** An exponential boundary below a bound that does not wrap is the plain sum. */
  lemma ExpBoundaryValue(initial: uint32, size: uint32, i: nat, q: nat)
    requires Pow2(i) <= q && initial + size * q < TWO_32
    ensures ExpBoundary(initial, size, i) == initial + size * Pow2(i)
  {
    MulMonotone(size, Pow2(i), q);
  }

  /** Without wrap-around, an exponential boundary is the plain sum. */
  lemma ExpValue(o: Options, i: nat)
    requires o.exponential && o.numBuckets >= 2 && i < o.numBuckets - 1
    requires o.initialValue + o.bucketSize * Pow2(o.numBuckets - 2) < TWO_32
    ensures Boundaries(o)[i] == o.initialValue + o.bucketSize * Pow2(i)
  {
    Pow2Monotone(i, o.numBuckets - 2);
    ExpBoundaryValue(o.initialValue, o.bucketSize, i, Pow2(o.numBuckets - 2));
    assert Boundaries(o)[i] == Boundary(o, i);
  }

  /** Without wrap-around, exponential boundaries ascend. */
  lemma ExponentialAscending(o: Options)
    requires o.exponential && o.numBuckets >= 2
    requires o.initialValue + o.bucketSize * Pow2(o.numBuckets - 2) < TWO_32
    ensures Ascending(Boundaries(o))
  {
    var b := Boundaries(o);
    forall i, j | 0 <= i < j < |b|
      ensures b[i] <= b[j]
    {
      if j < o.numBuckets - 1 {
        ExpValue(o, i);
        ExpValue(o, j);
        Pow2Monotone(i, j);
        MulMonotone(o.bucketSize, Pow2(i), Pow2(j));
      }
    }
  }

  // ---------------------------------------------------------------------------
  // The bucket an element falls into

  /** The least index whose boundary is at least e, or |b| when there is none. */
  function FirstAtLeast(b: seq<uint32>, e: uint32): (i: nat)
    ensures i <= |b|
  {
    if |b| == 0 then 0 else if e <= b[0] then 0 else 1 + FirstAtLeast(b[1..], e)
  }

  lemma {:induction false} FirstAtLeastIs(b: seq<uint32>, e: uint32, i: nat)
    requires i < |b| && e <= b[i] && forall j :: 0 <= j < i ==> b[j] < e
    ensures FirstAtLeast(b, e) == i
  {
    if i > 0 {
      assert b[0] < e;
      FirstAtLeastIs(b[1..], e, i - 1);
    }
  }

  /**
   * The binary search of _findBucket with the midpoint low + (high - low) / 2,
   * one step per call: the range [low, high] shrinks until it is one bucket.
   */
  /** The midpoint low + (high - low) / 2, which never wraps. */
  function Midpoint(low: nat, high: nat): (mid: nat)
    requires low < high
    ensures low <= mid < high
  {
    low + (high - low) / 2
  }

  function Search(b: seq<uint32>, e: uint32, low: nat, high: nat): (r: nat)
    requires low <= high < |b|
    ensures low <= r <= high
    decreases high - low
  {
    if low < high then
      var mid := Midpoint(low, high);
      if e > b[mid] then Search(b, e, mid + 1, high) else Search(b, e, low, mid)
    else low
  }

  /**
   * What the search keeps: the boundary at high is at least e, and the one
   * just below low is less than e. It ends in a bucket with both properties.
   */
  lemma {:induction false} SearchBrackets(b: seq<uint32>, e: uint32, low: nat, high: nat)
    requires low <= high < |b|
    requires e <= b[high] && (low == 0 || b[low - 1] < e)
    ensures var r := Search(b, e, low, high);
            e <= b[r] && (r == 0 || b[r - 1] < e)
    decreases high - low
  {
    if low < high {
      var mid := Midpoint(low, high);
      if e > b[mid] {
        SearchBrackets(b, e, mid + 1, high);
        assert Search(b, e, low, high) == Search(b, e, mid + 1, high);
      } else {
        SearchBrackets(b, e, low, mid);
        assert Search(b, e, low, high) == Search(b, e, low, mid);
      }
    }
  }

  /** The bucket _findBucket reports for e over boundaries b. */
  function FindBucketSpec(b: seq<uint32>, e: uint32): (r: nat)
    requires |b| >= 1 && b[|b| - 1] == UINT32_MAX
    ensures r < |b| && e <= b[r] && (r == 0 || b[r - 1] < e)
  {
    SearchBrackets(b, e, 0, |b| - 1);
    Search(b, e, 0, |b| - 1)
  }

  /**
   * With ascending boundaries, e falls in bucket i exactly when i is the least
   * bucket whose maximum element is at least e.
   */
  lemma FindBucketIsLeast(b: seq<uint32>, e: uint32, i: nat)
    requires |b| >= 1 && b[|b| - 1] == UINT32_MAX && Ascending(b)
    ensures FindBucketSpec(b, e) == i <==> (i < |b| && e <= b[i] && forall j :: 0 <= j < i ==> b[j] < e)
    ensures FindBucketSpec(b, e) == FirstAtLeast(b, e)
  {
    var r := FindBucketSpec(b, e);
    assert forall j :: 0 <= j < r ==> b[j] < e by {
      forall j | 0 <= j < r
        ensures b[j] < e
      {
        assert b[j] <= b[r - 1];
      }
    }
    FirstAtLeastIs(b, e, r);
  }

  /** The documented ranges: 15 is in [11..20], 21 in [21..max]. */
  lemma LinearExamplePlacement()
    ensures FindBucketSpec(Boundaries(Options(3, 10, 0, false)), 10) == 0
    ensures FindBucketSpec(Boundaries(Options(3, 10, 0, false)), 15) == 1
    ensures FindBucketSpec(Boundaries(Options(3, 10, 0, false)), 21) == 2
  {
    LinearExample();
    var b := Boundaries(Options(3, 10, 0, false));
    FindBucketIsLeast(b, 10, 0);
    FindBucketIsLeast(b, 15, 1);
    FindBucketIsLeast(b, 21, 2);
  }

  // ---------------------------------------------------------------------------
  // Counts

  /** The largest count, 0 for none. */
  function MaxCount(s: seq<uint64>): (m: uint64)
    ensures forall i :: 0 <= i < |s| ==> s[i] <= m
    ensures m == 0 || exists i :: 0 <= i < |s| && s[i] == m
  {
    if |s| == 0 then 0
    else
      var rest := MaxCount(s[..|s| - 1]);
      if s[|s| - 1] > rest then s[|s| - 1] else rest
  }

  /** The text toHTML returns for a histogram without counts. */
  const EMPTY_TEXT: string := "histogram is empty\n"

  /** One pass of the exponential loop: boundary i from twoPow = 2^i, then twoPow doubles. */
  lemma ExpStep(o: Options, i: nat, twoPow: uint32)
    requires o.exponential && i < o.numBuckets - 1 && twoPow == Pow2(i) % TWO_32
    ensures Wrap32(o.initialValue + Wrap32(o.bucketSize * twoPow)) == Boundary(o, i)
    ensures Wrap32(twoPow * 2) == Pow2(i + 1) % TWO_32
  {
    Wrap32Mul(o.bucketSize, Pow2(i));
    Wrap32Add(o.initialValue, o.bucketSize * Pow2(i));
    Wrap32Mul(2, Pow2(i));
  }

  /** One pass of the linear loop: boundary i is boundary i - 1 plus bucketSize. */
  lemma LinearStep(o: Options, i: nat, prev: uint32)
    requires !o.exponential && 1 <= i < o.numBuckets - 1 && prev == Boundary(o, i - 1)
    ensures Wrap32(prev + o.bucketSize) == Boundary(o, i)
  {
    Wrap32Add(o.bucketSize, o.initialValue + o.bucketSize * i);
    assert o.bucketSize * (i + 1) == o.bucketSize * i + o.bucketSize;
  }

  class Histogram {
    ghost const options: Options
    /** No value lower than it is recorded. */
    const initialValue: uint32
    const numBuckets: uint32
    /** The maximum element of each bucket. */
    const boundaries: array<uint32>
    /** The current count of each bucket. */
    const buckets: array<uint64>

    ghost predicate Valid()
      reads this, boundaries, buckets
    {
      numBuckets >= 1 && options.numBuckets == numBuckets && options.initialValue == initialValue
      && boundaries.Length == numBuckets && buckets.Length == numBuckets
      && boundaries[..] == Boundaries(options)
    }

    /**
     * The constructor: boundaries from the options and every count 0. The
     * source computes _numBuckets - 1 in uint32_t and writes
     * _boundaries[_numBuckets - 1], so it needs at least one bucket.
     */
    constructor (opts: Options)
      requires opts.numBuckets >= 1
      ensures Valid() && options == opts && fresh(boundaries) && fresh(buckets)
      ensures boundaries[..] == Boundaries(opts)
      ensures forall i :: 0 <= i < buckets.Length ==> buckets[i] == 0
    {
      options := opts;
      initialValue := opts.initialValue;
      numBuckets := opts.numBuckets;
      var n := opts.numBuckets;
      var bounds := new uint32[n];
      if opts.exponential {
        var twoPow: uint32 := 1;
        var i := 0;
        while i < n - 1
          invariant 0 <= i <= n - 1
          invariant twoPow == Pow2(i) % TWO_32
          invariant forall j :: 0 <= j < i ==> bounds[j] == Boundary(opts, j)
        {
          ExpStep(opts, i, twoPow);
          bounds[i] := Wrap32(opts.initialValue + Wrap32(opts.bucketSize * twoPow));
          twoPow := Wrap32(twoPow * 2);
          i := i + 1;
        }
      } else {
        bounds[0] := Wrap32(opts.initialValue + opts.bucketSize);
        var i := 1;
        while i < n - 1
          invariant 1 <= i && (i <= n - 1 || n == 1)
          invariant forall j :: 0 <= j < i && j < n - 1 ==> bounds[j] == Boundary(opts, j)
        {
          LinearStep(opts, i, bounds[i - 1]);
          bounds[i] := Wrap32(bounds[i - 1] + opts.bucketSize);
          i := i + 1;
        }
      }
      bounds[n - 1] := UINT32_MAX;
      assert bounds[..] == Boundaries(opts);
      var counts := new uint64[n];
      var k := 0;
      while k < n
        modifies counts
        invariant 0 <= k <= n
        invariant forall j :: 0 <= j < k ==> counts[j] == 0
      {
        counts[k] := 0;
        k := k + 1;
      }
      boundaries := bounds;
      buckets := counts;
    }

    /**
     * _findBucket: binary search for the first boundary that is at least
     * element, with the midpoint low + (high - low) / 2.
     */
    method FindBucket(element: uint32) returns (r: uint32)
      requires Valid()
      ensures r as int == FindBucketSpec(boundaries[..], element)
      ensures r < numBuckets && element <= boundaries[r]
      ensures r == 0 || boundaries[r - 1] < element
    {
      ghost var b := boundaries[..];
      ghost var spec := FindBucketSpec(b, element);
      var low: uint32 := 0;
      var high: uint32 := numBuckets - 1;
      while low < high
        invariant low <= high < |b|
        invariant Search(b, element, low, high) == spec
        decreases high - low
      {
        var mid: uint32 := low + (high - low) / 2;
        assert mid as int == Midpoint(low as int, high as int) && boundaries[mid] == b[mid];
        if element > boundaries[mid] {
          low := mid + 1;
        } else {
          high := mid;
        }
      }
      r := low;
    }

    /**
     * insert: an element below initialValue (or above the last boundary,
     * which is UINT32_MAX) is ignored; otherwise the count of its bucket grows
     * by one (modulo 2^64) and no other count changes.
     */
    method Insert(element: uint32)
      requires Valid()
      modifies buckets
      ensures Valid()
      ensures element < initialValue ==> buckets[..] == old(buckets[..])
      ensures element >= initialValue ==>
                var k := FindBucketSpec(boundaries[..], element);
                buckets[..] == old(buckets[..])[k := (old(buckets[k]) + 1) % TWO_64]
    {
      if element < initialValue {
        return;
      }
      if element > boundaries[numBuckets - 1] {
        return;
      }
      var k := FindBucket(element);
      buckets[k] := (buckets[k] + 1) % TWO_64;
    }

    /**
     * The empty case of toHTML: the text "histogram is empty\n" exactly when
     * every count is 0. The bar chart drawn otherwise is not modelled (None).
     */
    method ToHTML() returns (r: Option<string>)
      requires Valid()
      ensures r.Some? <==> forall i :: 0 <= i < numBuckets ==> buckets[i] == 0
      ensures r.Some? ==> r.value == EMPTY_TEXT
    {
      var max: uint64 := 0;
      var i := 0;
      while i < numBuckets
        invariant 0 <= i <= numBuckets
        invariant max == MaxCount(buckets[..i])
      {
        assert buckets[..i + 1][..i] == buckets[..i];
        if buckets[i] > max {
          max := buckets[i];
        }
        i := i + 1;
      }
      assert buckets[..numBuckets] == buckets[..];
      if max == 0 {
        return Some(EMPTY_TEXT);
      }
      return None;
    }

    /** getCount: the stored count, 0 for a bucket past the end. */
    function GetCount(bucket: uint32): (c: uint64)
      reads this, boundaries, buckets
      requires Valid()
      ensures bucket >= numBuckets ==> c == 0
      ensures bucket < numBuckets ==> c == buckets[bucket]
    {
      if bucket >= numBuckets then 0 else buckets[bucket]
    }

    /** getBoundary: the maximum element of the bucket, 0 for a bucket past the end. */
    function GetBoundary(bucket: uint32): (m: uint32)
      reads this, boundaries, buckets
      requires Valid()
      ensures bucket >= numBuckets ==> m == 0
      ensures bucket < numBuckets ==> m == Boundary(options, bucket)
    {
      if bucket >= numBuckets then 0 else boundaries[bucket]
    }

    function GetBucketsNum(): (n: uint32)
      reads this
      ensures n == numBuckets
    {
      numBuckets
    }
  }

  // ---------------------------------------------------------------------------
  // The midpoint as written

  /** The midpoint as written: (low + high) >> 1 with the sum in uint32_t. */
  function MidAsWritten(low: uint32, high: uint32): (mid: uint32)
    ensures low < high ==> mid < high
  {
    Wrap32(low + high) / 2
  }

  /** Below 2^31 buckets the sum cannot wrap and both midpoints agree. */
  lemma MidpointsAgree(low: uint32, high: uint32)
    requires low <= high < TWO_31
    ensures MidAsWritten(low, high) == low + (high - low) / 2
  {
  }

  /** One iteration of the search loop as written. */
  function StepAsWritten(b: seq<uint32>, e: uint32, low: uint32, high: uint32): (s: (uint32, uint32))
    requires low < high < |b|
    ensures s.1 <= high
  {
    var mid := MidAsWritten(low, high);
    if e > b[mid] then (mid + 1, high) else (low, mid)
  }

  /** n iterations of the loop as written, stopping early once low >= high. */
  function RunAsWritten(b: seq<uint32>, e: uint32, low: uint32, high: uint32, n: nat): (s: (uint32, uint32))
    requires high < |b|
    ensures s.1 < |b|
    decreases n
  {
    if n == 0 || low >= high then (low, high)
    else
      var next := StepAsWritten(b, e, low, high);
      RunAsWritten(b, e, next.0, next.1, n - 1)
  }

  /** The biggest histogram: 2^32 - 1 buckets of size 0 starting at 0. */
  const HUGE: Options := Options(0xFFFF_FFFF, 0, 0, false)
  const HUGE_HIGH: uint32 := 0xFFFF_FFFE

  lemma HugeBoundaries()
    ensures var b := Boundaries(HUGE);
            |b| == 0xFFFF_FFFF && forall i :: 0 <= i < HUGE_HIGH ==> b[i] == 0
  {
  }

  /** x is a power of two. */
  predicate IsPow2(x: nat)
  {
    x == 1 || (x >= 2 && x % 2 == 0 && IsPow2(x / 2))
  }

  lemma {:induction false} Pow2IsPow2(k: nat)
    ensures IsPow2(Pow2(k))
  {
    if k > 0 {
      Pow2IsPow2(k - 1);
      assert Pow2(k) / 2 == Pow2(k - 1);
    }
  }

  lemma TwoPow31IsPow2()
    ensures IsPow2(TWO_31)
  {
    Pow2IsPow2(31);
    assert Pow2(2) == 4;
    Pow2Add(2, 2);
    assert Pow2(4) == 16;
    Pow2Add(4, 4);
    assert Pow2(8) == 256;
    Pow2Add(8, 8);
    assert Pow2(16) == 65536;
    Pow2Add(16, 8);
    assert Pow2(24) == 16777216;
    Pow2Add(24, 4);
    assert Pow2(28) == 268435456;
    Pow2Add(28, 2);
    assert Pow2(30) == 1073741824;
    Pow2Add(30, 1);
    assert Pow2(31) == TWO_31;
  }

  /** The boundaries of that histogram: 2^32 - 1 of them, all 0 below the last. */
  predicate ZeroBelowLast(b: seq<uint32>)
  {
    |b| == 0xFFFF_FFFF && forall i :: 0 <= i < HUGE_HIGH ==> b[i] == 0
  }

  /**
   * The states the loop as written visits when 1 is inserted into that
   * histogram: high stays the last bucket and low is 0 or a power of two.
   */
  predicate OnCycle(s: (uint32, uint32))
  {
    s.1 == HUGE_HIGH && s.0 <= TWO_31 && (s.0 == 0 || IsPow2(s.0))
  }

  /** Below the last bucket every boundary is 0, less than 1, so low moves past the midpoint. */
  lemma StepMovesLow(b: seq<uint32>, s: (uint32, uint32))
    requires ZeroBelowLast(b) && s.0 < s.1 == HUGE_HIGH
    ensures StepAsWritten(b, 1, s.0, s.1) == (MidAsWritten(s.0, s.1) + 1, HUGE_HIGH)
  {
    var mid := MidAsWritten(s.0, s.1);
    assert mid < HUGE_HIGH;
    assert b[mid] == 0;
  }

  /**
   * One iteration from a state on the cycle: low moves to the midpoint plus
   * one. From low = 0 or 1 the sum does not wrap and low becomes 2^31; from
   * low = 2x (x >= 1) the sum wraps and low becomes x.
   */
  lemma CycleStep(b: seq<uint32>, s: (uint32, uint32))
    requires ZeroBelowLast(b) && OnCycle(s)
    ensures s.0 < s.1
    ensures var next := StepAsWritten(b, 1, s.0, s.1);
            next.0 == (if s.0 <= 1 then TWO_31 else s.0 / 2) && OnCycle(next)
  {
    StepMovesLow(b, s);
    var mid := MidAsWritten(s.0, s.1);
    if s.0 <= 1 {
      assert mid == 0x7FFF_FFFF;
      TwoPow31IsPow2();
    } else {
      assert mid == s.0 / 2 - 1;
    }
  }

  /**
   * _findBucket as written never returns for insert(1) on the biggest
   * histogram: after any number of iterations low is still below high, so
   * the loop condition holds forever.
   */
  lemma AsWrittenSearchNeverEnds(n: nat)
    ensures var s := RunAsWritten(Boundaries(HUGE), 1, 0, HUGE_HIGH, n);
            OnCycle(s) && s.0 < s.1
  {
    HugeBoundaries();
    CycleRun(Boundaries(HUGE), n, (0, HUGE_HIGH));
  }

  lemma {:induction false} CycleRun(b: seq<uint32>, n: nat, s: (uint32, uint32))
    requires ZeroBelowLast(b) && OnCycle(s)
    ensures var t := RunAsWritten(b, 1, s.0, s.1, n);
            OnCycle(t) && t.0 < t.1
  {
    CycleStep(b, s);
    if n > 0 {
      var next := StepAsWritten(b, 1, s.0, s.1);
      CycleRun(b, n - 1, next);
    }
  }
}
