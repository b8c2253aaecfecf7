/**
 The divide-and-conquer catalog processor: a task over the index range
 `[start, end)` of the catalog that copies a short range directly and
 otherwise splits it at its midpoint, processes both halves and concatenates
 the two partial results. The two halves run as fork-join tasks in the
 source; the result of a task does not depend on the scheduling, so the model
 is the plain recursion.
 */
module CatalogProcessor {
  import opened CatalogEntry

  /** Ranges of at most this many entries are copied without splitting. */
  const THRESHOLD: nat := 5

  /** A half-open index range `[start, end)` handled by one task. */
  datatype Range = Range(start: nat, end: nat)

  // ---------------------------------------------------------------------------
  // Splitting
  // ---------------------------------------------------------------------------

  /** The split point of `[start, end)`, computed as `start + (end - start) / 2`
      so that no intermediate value exceeds `end`. Over unbounded integers it
      is the `(start + end) / 2` the source writes; see `MidpointAsWritten`
      for the 32-bit reading. */
  function Midpoint(start: nat, end: nat): (middle: nat)
    requires start <= end
    ensures middle == (start + end) / 2
    ensures start <= middle <= end
    ensures end - start >= 2 ==> start < middle < end
  {
    start + (end - start) / 2
  }

  /** The split point exactly as the source computes it: `(start + end) / 2`
      in Java `int` arithmetic, so the sum wraps around past `INT32_MAX`. */
  function MidpointAsWritten(start: Int32, end: Int32): (middle: int)
    requires 0 <= start <= end
    ensures start + end <= INT32_MAX ==> middle == Midpoint(start, end)
    ensures start + end > INT32_MAX ==> middle < 0
  {
    JavaDiv(WrapInt32(start + end), 2)
  }

  /** For every catalog of at most 2^30 entries, the 32-bit midpoint of every
      range that is split (one with at least one entry) is the exact one. */
  lemma MidpointAsWrittenExact(size: nat, start: nat, end: nat)
    requires start < end <= size <= 0x4000_0000
    ensures MidpointAsWritten(start, end) == Midpoint(start, end)
  {
  }

  /** A catalog of 0x6000_0000 entries, split in 32-bit arithmetic throughout:
      the root task splits normally, but its right half
      `[0x3000_0000, 0x6000_0000)` is still above the threshold and its 32-bit
      midpoint is negative. The task for `[middle, end)` then finds its
      (wrapped) length within the threshold and starts copying at the negative
      index `middle`, which the list rejects. */
  lemma MidpointOverflowCounterexample()
    ensures var size := 0x6000_0000;
            var root := MidpointAsWritten(0, size);
            && size <= INT32_MAX
            && size - 0 > THRESHOLD
            && root == 0x3000_0000
            && size - root > THRESHOLD
            && var middle := MidpointAsWritten(root, size);
               && middle < 0
               && WrapInt32(size - middle) <= THRESHOLD
  {
  }

  /** With a threshold of 0 a range of one entry is still split, and its right
      half is the range itself: the recursion makes no progress. This is why
      every operation below requires a threshold of at least 1. */
  lemma ZeroThresholdMakesNoProgress(start: nat)
    ensures var end := start + 1;
            && end - start > 0
            && Midpoint(start, end) == start
            && Range(Midpoint(start, end), end) == Range(start, end)
  {
  }

  // ---------------------------------------------------------------------------
  // The task
  // ---------------------------------------------------------------------------

  /** The leaf step: appends `catalog[i]` to an initially empty list for
      `i = start, ..., end - 1`. */
  function CopyRange(catalog: seq<Entry>, start: nat, end: nat): (result: seq<Entry>)
    requires start <= end <= |catalog|
    ensures |result| == end - start
    ensures result == catalog[start..end]
    decreases end - start
  {
    if start == end then []
    else CopyRange(catalog, start, end - 1) + [catalog[end - 1]]
  }

  /** Combines two partial results: everything of `left`, then everything of
      `right`, each in its own order. */
  function Merge(left: seq<Entry>, right: seq<Entry>): (result: seq<Entry>)
    ensures |result| == |left| + |right|
    ensures result[..|left|] == left
    ensures result[|left|..] == right
  {
    left + right
  }

  /** The task for `[start, end)` with leaf size `threshold`. Whatever the
      threshold, the result is the slice of the catalog the range names. */
  function Compute(catalog: seq<Entry>, threshold: nat, start: nat, end: nat): (result: seq<Entry>)
    requires threshold >= 1
    requires start <= end <= |catalog|
    ensures result == catalog[start..end]
    decreases end - start
  {
    if end - start <= threshold then CopyRange(catalog, start, end)
    else
      var middle := Midpoint(start, end);
      var left := Compute(catalog, threshold, start, middle);
      var right := Compute(catalog, threshold, middle, end);
      assert catalog[start..end] == catalog[start..middle] + catalog[middle..end];
      Merge(left, right)
  }

  /** The entry point: the task over the whole catalog with the fixed leaf size. */
  function ProcessCatalogInParallel(catalog: seq<Entry>): (result: seq<Entry>)
    ensures result == catalog
    ensures |catalog| == 0 ==> result == []
  {
    assert catalog[0..|catalog|] == catalog;
    Compute(catalog, THRESHOLD, 0, |catalog|)
  }

  /** The leaf size changes how deep the task tree is, never its result. */
  lemma ThresholdIndependence(catalog: seq<Entry>, t1: nat, t2: nat, start: nat, end: nat)
    requires t1 >= 1 && t2 >= 1
    requires start <= end <= |catalog|
    ensures Compute(catalog, t1, start, end) == Compute(catalog, t2, start, end)
  {
  }

  // ---------------------------------------------------------------------------
  // The leaves of the task tree
  // ---------------------------------------------------------------------------

  /** `leaves` are ranges that follow each other without gaps or overlaps and
      together cover exactly `[start, end)`. */
  ghost predicate Tiles(leaves: seq<Range>, start: nat, end: nat) {
    && |leaves| > 0
    && leaves[0].start == start
    && leaves[|leaves| - 1].end == end
    && (forall i :: 0 <= i < |leaves| - 1 ==> leaves[i].end == leaves[i + 1].start)
  }

  /** Every range of `leaves` is well-formed and lies within `[lo, hi)`. */
  ghost predicate Within(leaves: seq<Range>, lo: nat, hi: nat) {
    forall i :: 0 <= i < |leaves| ==> lo <= leaves[i].start <= leaves[i].end <= hi
  }

  /** Every range of `leaves` holds at least one and at most `size` entries. */
  ghost predicate Sized(leaves: seq<Range>, size: nat) {
    forall i :: 0 <= i < |leaves| ==> 0 < leaves[i].end - leaves[i].start <= size
  }

  lemma TilesAppend(a: seq<Range>, b: seq<Range>, start: nat, middle: nat, end: nat)
    requires Tiles(a, start, middle) && Within(a, start, middle)
    requires Tiles(b, middle, end) && Within(b, middle, end)
    ensures Tiles(a + b, start, end) && Within(a + b, start, end)
  {
    var ab := a + b;
    forall i | 0 <= i < |ab| - 1
      ensures ab[i].end == ab[i + 1].start
    {
      if i < |a| - 1 {
        assert ab[i] == a[i] && ab[i + 1] == a[i + 1];
      } else if i == |a| - 1 {
        assert ab[i] == a[|a| - 1] && ab[i + 1] == b[0];
      } else {
        assert ab[i] == b[i - |a|] && ab[i + 1] == b[i - |a| + 1];
      }
    }
  }

  /** The ranges the task for `[start, end)` copies directly, left to right. */
  function LeafRanges(threshold: nat, start: nat, end: nat): (leaves: seq<Range>)
    requires threshold >= 1
    requires start <= end
    ensures Tiles(leaves, start, end)
    ensures Within(leaves, start, end)
    ensures start < end ==> Sized(leaves, threshold)
    ensures start == end ==> leaves == [Range(start, end)]
    decreases end - start
  {
    if end - start <= threshold then [Range(start, end)]
    else
      var middle := Midpoint(start, end);
      var left := LeafRanges(threshold, start, middle);
      var right := LeafRanges(threshold, middle, end);
      TilesAppend(left, right, start, middle, end);
      left + right
  }

  /** The leaf results in leaf order, concatenated. */
  function CopyLeaves(catalog: seq<Entry>, leaves: seq<Range>): seq<Entry>
    requires Within(leaves, 0, |catalog|)
  {
    if |leaves| == 0 then []
    else CopyRange(catalog, leaves[0].start, leaves[0].end) + CopyLeaves(catalog, leaves[1..])
  }

  lemma {:induction false} CopyLeavesAppend(catalog: seq<Entry>, a: seq<Range>, b: seq<Range>)
    requires Within(a, 0, |catalog|) && Within(b, 0, |catalog|)
    ensures Within(a + b, 0, |catalog|)
    ensures CopyLeaves(catalog, a + b) == CopyLeaves(catalog, a) + CopyLeaves(catalog, b)
    decreases |a|
  {
    if |a| > 0 {
      assert (a + b)[1..] == a[1..] + b;
      CopyLeavesAppend(catalog, a[1..], b);
    } else {
      assert a + b == b;
    }
  }

  /** The fork-join reduction: the task's result is each leaf's copy, in leaf
      order, with nothing dropped, repeated or reordered between leaves. */
  lemma {:induction false} ComputeIsLeafCopies(catalog: seq<Entry>, threshold: nat, start: nat, end: nat)
    requires threshold >= 1
    requires start <= end <= |catalog|
    ensures Compute(catalog, threshold, start, end)
         == CopyLeaves(catalog, LeafRanges(threshold, start, end))
    decreases end - start
  {
    if end - start <= threshold {
      assert LeafRanges(threshold, start, end) == [Range(start, end)];
      assert CopyLeaves(catalog, [Range(start, end)]) == CopyRange(catalog, start, end) + CopyLeaves(catalog, []);
    } else {
      var middle := Midpoint(start, end);
      var left, right := LeafRanges(threshold, start, middle), LeafRanges(threshold, middle, end);
      assert LeafRanges(threshold, start, end) == left + right;
      ComputeIsLeafCopies(catalog, threshold, start, middle);
      ComputeIsLeafCopies(catalog, threshold, middle, end);
      CopyLeavesAppend(catalog, left, right);
      assert Compute(catalog, threshold, start, end)
          == Merge(Compute(catalog, threshold, start, middle), Compute(catalog, threshold, middle, end));
    }
  }

  /** Twelve entries with leaf size 5 are copied as four leaves of three. */
  lemma TwelveEntriesMakeFourLeaves()
    ensures LeafRanges(THRESHOLD, 0, 12) == [Range(0, 3), Range(3, 6), Range(6, 9), Range(9, 12)]
  {
  }
}
