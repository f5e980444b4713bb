/** The size histogram of a share: every file size falls into exactly one of
    four buckets whose upper bounds (100 KiB, 1 MiB, 1 GiB) are inclusive. */
module SizeBuckets {

  const Threshold1: nat := 100 * 1024
  const Threshold2: nat := 1024 * 1024
  const Threshold3: nat := 1024 * 1024 * 1024

  /** The four counters of the result dictionary ('threshold_1' .. 'threshold_4'). */
  datatype SizeBreakdown = SizeBreakdown(upTo100K: nat, upTo1M: nat, upTo1G: nat, over1G: nat)

  /** The bucket (1 to 4) that a file of `size` bytes is counted in. */
  function BucketOf(size: nat): (b: nat)
    ensures 1 <= b <= 4
    ensures b == 1 <==> size <= Threshold1
    ensures b == 2 <==> Threshold1 < size <= Threshold2
    ensures b == 3 <==> Threshold2 < size <= Threshold3
    ensures b == 4 <==> Threshold3 < size
  {
    if size <= Threshold1 then 1
    else if size <= Threshold2 then 2
    else if size <= Threshold3 then 3
    else 4
  }

  /** How many of `sizes` fall into bucket `b`. */
  function CountBucket(sizes: seq<nat>, b: nat): nat
  {
    if sizes == [] then 0
    else (if BucketOf(sizes[0]) == b then 1 else 0) + CountBucket(sizes[1..], b)
  }

  /** The histogram a list of sizes should produce. */
  function SizeSummary(sizes: seq<nat>): SizeBreakdown
  {
    SizeBreakdown(CountBucket(sizes, 1), CountBucket(sizes, 2), CountBucket(sizes, 3), CountBucket(sizes, 4))
  }

  function Total(r: SizeBreakdown): nat
  {
    r.upTo100K + r.upTo1M + r.upTo1G + r.over1G
  }

  lemma {:induction false} CountBucketAppend(sizes: seq<nat>, x: nat, b: nat)
    ensures CountBucket(sizes + [x], b) == CountBucket(sizes, b) + (if BucketOf(x) == b then 1 else 0)
  {
    if sizes != [] {
      assert (sizes + [x])[1..] == sizes[1..] + [x];
      CountBucketAppend(sizes[1..], x, b);
    }
  }

  /** Every size is counted exactly once: the four buckets add up to the length. */
  lemma {:induction false} BucketsPartition(sizes: seq<nat>)
    ensures Total(SizeSummary(sizes)) == |sizes|
  {
    if sizes != [] {
      BucketsPartition(sizes[1..]);
    }
  }

  /** No bucket holds more sizes than there are sizes of that range. */
  lemma {:induction false} CountBucketBound(sizes: seq<nat>, b: nat)
    ensures CountBucket(sizes, b) <= |sizes|
    ensures b < 1 || b > 4 ==> CountBucket(sizes, b) == 0
    ensures CountBucket(sizes, b) == |sizes| <==> forall i :: 0 <= i < |sizes| ==> BucketOf(sizes[i]) == b
  {
    if sizes != [] {
      CountBucketBound(sizes[1..], b);
      if CountBucket(sizes, b) == |sizes| {
        forall i | 0 <= i < |sizes| ensures BucketOf(sizes[i]) == b {
          if i > 0 { assert sizes[i] == sizes[1..][i - 1]; }
        }
      }
      if forall i :: 0 <= i < |sizes| ==> BucketOf(sizes[i]) == b {
        assert forall i :: 0 <= i < |sizes[1..]| ==> BucketOf(sizes[1..][i]) == b by {
          forall i | 0 <= i < |sizes[1..]| ensures BucketOf(sizes[1..][i]) == b {
            assert sizes[1..][i] == sizes[i + 1];
          }
        }
      }
    }
  }

  /** breakdown_sizes: one pass over the sizes, bumping one counter per size. */
  method BreakdownSizes(sizes: seq<nat>) returns (r: SizeBreakdown)
    ensures r == SizeSummary(sizes)
    ensures Total(r) == |sizes|
  {
    r := SizeBreakdown(0, 0, 0, 0);
    var i := 0;
    while i < |sizes|
      invariant 0 <= i <= |sizes|
      invariant r == SizeSummary(sizes[..i])
    {
      var item := sizes[i];
      assert sizes[..i + 1] == sizes[..i] + [item];
      CountBucketAppend(sizes[..i], item, 1);
      CountBucketAppend(sizes[..i], item, 2);
      CountBucketAppend(sizes[..i], item, 3);
      CountBucketAppend(sizes[..i], item, 4);
      if item <= Threshold1 {
        r := r.(upTo100K := r.upTo100K + 1);
      } else if Threshold1 < item <= Threshold2 {
        r := r.(upTo1M := r.upTo1M + 1);
      } else if Threshold2 < item <= Threshold3 {
        r := r.(upTo1G := r.upTo1G + 1);
      } else {
        r := r.(over1G := r.over1G + 1);
      }
      i := i + 1;
    }
    assert sizes[..i] == sizes;
    BucketsPartition(sizes);
  }
}
