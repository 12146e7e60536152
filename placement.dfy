/** The three placement strategies of the allocator: which free block a
    request of `actual` bytes goes into. Each scan walks the block list in
    address order. */
module Placement {
  import opened MemoryBlocks

  datatype Strategy = FirstFit | BestFit | WorstFit

  /** The blocks a scan can select. BestFit replaces its running minimum
      difference, which starts at SIZE_MAX, only on a strict improvement;
      WorstFit replaces its running maximum size, which starts at 0, only on
      a strict increase. */
  predicate Candidate(s: Strategy, b: MemoryBlock, actual: nat)
  {
    && Fits(b, actual)
    && match s
       case FirstFit => true
       case BestFit => b.size - actual < SIZE_MAX
       case WorstFit => b.size > 0
  }

  /** The lowest-address block that fits. */
  predicate IsFirstFit(m: seq<MemoryBlock>, actual: nat, i: nat)
  {
    i < |m| && Fits(m[i], actual) && forall j :: 0 <= j < i ==> !Fits(m[j], actual)
  }

  /** A fitting block with the least leftover, the earliest of those. */
  predicate IsBestFit(m: seq<MemoryBlock>, actual: nat, i: nat)
  {
    && i < |m| && Candidate(BestFit, m[i], actual)
    && (forall j :: 0 <= j < |m| && Fits(m[j], actual) ==> m[i].size <= m[j].size)
    && (forall j :: 0 <= j < i && Fits(m[j], actual) ==> m[i].size < m[j].size)
  }

  /** A fitting block of the greatest size, the earliest of those. */
  predicate IsWorstFit(m: seq<MemoryBlock>, actual: nat, i: nat)
  {
    && i < |m| && Candidate(WorstFit, m[i], actual)
    && (forall j :: 0 <= j < |m| && Fits(m[j], actual) ==> m[j].size <= m[i].size)
    && (forall j :: 0 <= j < i && Fits(m[j], actual) ==> m[j].size < m[i].size)
  }

  predicate Placed(s: Strategy, m: seq<MemoryBlock>, actual: nat, i: nat)
  {
    match s
    case FirstFit => IsFirstFit(m, actual, i)
    case BestFit => IsBestFit(m, actual, i)
    case WorstFit => IsWorstFit(m, actual, i)
  }

  lemma PlacedFits(s: Strategy, m: seq<MemoryBlock>, actual: nat, i: nat)
    requires Placed(s, m, actual, i)
    ensures i < |m| && Fits(m[i], actual)
  {
  }

  predicate NoPlacement(s: Strategy, m: seq<MemoryBlock>, actual: nat)
  {
    forall j :: 0 <= j < |m| ==> !Candidate(s, m[j], actual)
  }

  method ScanFirstFit(m: seq<MemoryBlock>, actual: nat) returns (r: Option<nat>)
    ensures r.Some? ==> IsFirstFit(m, actual, r.value)
    ensures r.None? ==> NoPlacement(FirstFit, m, actual)
  {
    r := None;
    for k := 0 to |m|
      invariant forall j :: 0 <= j < k ==> !Fits(m[j], actual)
    {
      if m[k].isFree && m[k].size >= actual {
        r := Some(k);
        return;
      }
    }
  }

  method ScanBestFit(m: seq<MemoryBlock>, actual: nat) returns (r: Option<nat>)
    ensures r.Some? ==> IsBestFit(m, actual, r.value)
    ensures r.None? ==> NoPlacement(BestFit, m, actual)
  {
    r := None;
    var minDiff: nat := SIZE_MAX;
    for k := 0 to |m|
      invariant r.None? ==> minDiff == SIZE_MAX && forall j :: 0 <= j < k ==> !Candidate(BestFit, m[j], actual)
      invariant r.Some? ==> r.value < k && Candidate(BestFit, m[r.value], actual)
      invariant r.Some? ==> minDiff == m[r.value].size - actual
      invariant r.Some? ==> forall j :: 0 <= j < k && Fits(m[j], actual) ==> m[r.value].size <= m[j].size
      invariant r.Some? ==> forall j :: 0 <= j < r.value && Fits(m[j], actual) ==> m[r.value].size < m[j].size
    {
      if m[k].isFree && m[k].size >= actual {
        var diff := m[k].size - actual;
        if diff < minDiff {
          minDiff := diff;
          r := Some(k);
        }
      }
    }
  }

  method ScanWorstFit(m: seq<MemoryBlock>, actual: nat) returns (r: Option<nat>)
    ensures r.Some? ==> IsWorstFit(m, actual, r.value)
    ensures r.None? ==> NoPlacement(WorstFit, m, actual)
  {
    r := None;
    var maxSize: nat := 0;
    for k := 0 to |m|
      invariant r.None? ==> maxSize == 0 && forall j :: 0 <= j < k ==> !Candidate(WorstFit, m[j], actual)
      invariant r.Some? ==> r.value < k && Candidate(WorstFit, m[r.value], actual)
      invariant r.Some? ==> maxSize == m[r.value].size
      invariant r.Some? ==> forall j :: 0 <= j < k && Fits(m[j], actual) ==> m[j].size <= m[r.value].size
      invariant r.Some? ==> forall j :: 0 <= j < r.value && Fits(m[j], actual) ==> m[j].size < m[r.value].size
    {
      if m[k].isFree && m[k].size >= actual {
        if m[k].size > maxSize {
          maxSize := m[k].size;
          r := Some(k);
        }
      }
    }
  }

  /** The scan that the current strategy selects. */
  method Choose(s: Strategy, m: seq<MemoryBlock>, actual: nat) returns (r: Option<nat>)
    ensures r.Some? ==> Placed(s, m, actual, r.value)
    ensures r.None? <==> NoPlacement(s, m, actual)
  {
    match s
    case FirstFit => r := ScanFirstFit(m, actual);
    case BestFit => r := ScanBestFit(m, actual);
    case WorstFit => r := ScanWorstFit(m, actual);
  }

  /** Each strategy selects at most one block. */
  lemma PlacementIsUnique(s: Strategy, m: seq<MemoryBlock>, actual: nat, i: nat, j: nat)
    requires Placed(s, m, actual, i) && Placed(s, m, actual, j)
    ensures i == j
  {
  }

  /** The strategies differ only in which block they take: a request of at
      least one byte fails under one strategy exactly when it fails under
      the others (block sizes are size_t values, at most SIZE_MAX). */
  lemma StrategiesFailAlike(m: seq<MemoryBlock>, actual: nat)
    requires actual > 0
    requires forall b | b in m :: b.size <= SIZE_MAX
    ensures NoPlacement(FirstFit, m, actual) <==> NoPlacement(WorstFit, m, actual)
    ensures NoPlacement(FirstFit, m, actual) <==> NoPlacement(BestFit, m, actual)
  {
  }

  /** Free blocks of 100, 50 and 200 bytes, in that address order with used
      blocks between them, and a request of 60 bytes. */
  function ExampleMap(): seq<MemoryBlock>
  {
    [FreeBlock(0, 100), MemoryBlock(100, 12, 2, false, 1), FreeBlock(112, 50),
     MemoryBlock(162, 8, 0, false, 2), FreeBlock(170, 200)]
  }

  lemma StrategyExample()
    ensures WellFormed(ExampleMap(), 370, 4, 3)
    ensures Placed(FirstFit, ExampleMap(), 60, 0)
    ensures Placed(BestFit, ExampleMap(), 60, 0)
    ensures Placed(WorstFit, ExampleMap(), 60, 4)
  {
  }
}
