/** The physical-memory allocator: an ordered block list over a region of
    `totalSize` bytes, changed in place by malloc and free. */
module Allocator {
  import opened MemoryBlocks
  import opened Placement
  import opened Alignment

  /** The integer figures of the allocator's statistics; the external
      fragmentation percentage is a numerator over a denominator. */
  datatype MemoryStats = MemoryStats(
    usedBytes: nat,
    freeBytes: nat,
    internalFragmentation: nat,
    largestFreeBlock: nat,
    externalFragmentation: (int, nat))

  class PhysicalMemory {
    const totalSize: nat
    const wordAlignment: nat
    var memoryMap: seq<MemoryBlock>
    var totalRequests: nat
    var currentStrategy: Strategy
    var nextId: int

    /** The block list partitions [0, totalSize) and every id handed out so
        far is below nextId. */
    ghost predicate Valid()
      reads this
    {
      && wordAlignment > 0
      && totalSize <= SIZE_MAX
      && nextId >= 1
      && WellFormed(memoryMap, totalSize, wordAlignment, nextId)
    }

    constructor (sizeInBytes: nat := 1024, alignment: nat := 4)
      requires alignment > 0 && sizeInBytes <= SIZE_MAX
      ensures Valid()
      ensures totalSize == sizeInBytes && wordAlignment == alignment
      ensures memoryMap == [MemoryBlock(0, sizeInBytes, 0, true, NO_ID)]
      ensures totalRequests == 0 && nextId == 1 && currentStrategy == FirstFit
    {
      totalSize := sizeInBytes;
      wordAlignment := alignment;
      totalRequests := 0;
      currentStrategy := FirstFit;
      nextId := 1;
      memoryMap := [FreeBlock(0, sizeInBytes)];
    }

    method SetStrategy(strategy: Strategy)
      requires Valid()
      modifies this`currentStrategy
      ensures Valid()
      ensures currentStrategy == strategy
    {
      currentStrategy := strategy;
    }

    /** Every call counts as a request and consumes an id, whether or not a
        block is found. On success the chosen block becomes used with the
        id, and a strictly larger block leaves its remainder free right
        after it; on failure the result is -1 and the list is unchanged. */
    method Malloc(requestSize: nat) returns (address: int)
      requires Valid()
      modifies this`memoryMap, this`totalRequests, this`nextId
      ensures Valid()
      ensures totalRequests == old(totalRequests) + 1 && nextId == old(nextId) + 1
      ensures address == -1 <==> NoPlacement(currentStrategy, old(memoryMap), ActualSize(requestSize, wordAlignment))
      ensures address == -1 ==> memoryMap == old(memoryMap)
      ensures address != -1 ==> exists i: nat ::
        && Placed(currentStrategy, old(memoryMap), ActualSize(requestSize, wordAlignment), i)
        && address == old(memoryMap)[i].start
        && memoryMap == Allocate(old(memoryMap), i, ActualSize(requestSize, wordAlignment),
                                 Padding(requestSize, wordAlignment), old(nextId))
    {
      totalRequests := totalRequests + 1;
      var pid := nextId;
      nextId := nextId + 1;
      var padding := Padding(requestSize, wordAlignment);
      var actualSize := requestSize + padding;

      var best := Choose(currentStrategy, memoryMap, actualSize);
      match best
      case None =>
        address := -1;
        WellFormedNextId(memoryMap, totalSize, wordAlignment, pid, pid + 1);
      case Some(i) =>
        address := memoryMap[i].start;
        ActualSizeIsLeastMultiple(requestSize, wordAlignment, 0);
        AllocatePreserves(memoryMap, totalSize, wordAlignment, pid, i, actualSize, padding);
        ghost var m0 := memoryMap;
        memoryMap := SplitBlock(memoryMap, i, actualSize, padding, pid);
        assert actualSize == ActualSize(requestSize, wordAlignment);
        assert Placed(currentStrategy, m0, actualSize, i)
            && address == m0[i].start
            && memoryMap == Allocate(m0, i, actualSize, padding, pid);
    }

    /** Releases the used block carrying `id`, merging it with a free
        successor and then with a free predecessor; no used block with that
        id leaves the list unchanged. */
    method Free(id: int) returns (found: bool)
      requires Valid()
      modifies this`memoryMap
      ensures Valid()
      ensures found <==> FindUsed(old(memoryMap), id).Some?
      ensures memoryMap == Freed(old(memoryMap), id)
    {
      found := false;
      var i := 0;
      while i < |memoryMap|
        invariant 0 <= i <= |memoryMap|
        invariant memoryMap == old(memoryMap)
        invariant forall j :: 0 <= j < i ==> !(!memoryMap[j].isFree && memoryMap[j].id == id)
      {
        if !memoryMap[i].isFree && memoryMap[i].id == id {
          found := true;
          FindUsedIsFirst(memoryMap, id, i);
          ReleasePreserves(memoryMap, totalSize, wordAlignment, nextId, i);
          memoryMap := Coalesce(memoryMap, i);
          return;
        }
        i := i + 1;
      }
      FindUsedNone(memoryMap, id);
    }

    /** The statistics, derived from the block list without changing it. */
    method Stats() returns (s: MemoryStats)
      requires Valid()
      ensures s.usedBytes == UsedBytes(memoryMap) && s.freeBytes == FreeBytes(memoryMap)
      ensures s.internalFragmentation == InternalFragmentation(memoryMap)
      ensures s.largestFreeBlock == LargestFree(memoryMap)
      ensures s.usedBytes + s.freeBytes == totalSize
      ensures s.largestFreeBlock <= s.freeBytes
      ensures s.internalFragmentation <= s.usedBytes
      ensures s.externalFragmentation == ExternalFragmentation(s.freeBytes, s.largestFreeBlock)
    {
      var totalAllocated, totalFree, totalInternalFrag, largestFreeBlock := 0, 0, 0, 0;
      for k := 0 to |memoryMap|
        invariant totalAllocated == UsedBytes(memoryMap[..k])
        invariant totalFree == FreeBytes(memoryMap[..k])
        invariant totalInternalFrag == InternalFragmentation(memoryMap[..k])
        invariant largestFreeBlock == LargestFree(memoryMap[..k])
      {
        var block := memoryMap[k];
        assert memoryMap[..k + 1][..k] == memoryMap[..k];
        if block.isFree {
          totalFree := totalFree + block.size;
          if block.size > largestFreeBlock {
            largestFreeBlock := block.size;
          }
        } else {
          totalAllocated := totalAllocated + block.size;
          totalInternalFrag := totalInternalFrag + block.padding;
        }
      }
      assert memoryMap[..|memoryMap|] == memoryMap;
      WellFormedTotal(memoryMap, totalSize, wordAlignment, nextId);
      UsedPlusFree(memoryMap);
      LargestFreeBelowFreeBytes(memoryMap);
      InternalFragmentationBelowUsed(memoryMap);
      s := MemoryStats(totalAllocated, totalFree, totalInternalFrag, largestFreeBlock,
                       ExternalFragmentation(totalFree, largestFreeBlock));
    }
  }

  /** The split of malloc: block i becomes the used block of `actual`
      bytes and, when it was larger, the free remainder is inserted right
      after it. */
  method SplitBlock(m: seq<MemoryBlock>, i: nat, actual: nat, padding: nat, id: int)
    returns (r: seq<MemoryBlock>)
    requires i < |m| && Fits(m[i], actual)
    ensures r == Allocate(m, i, actual, padding, id)
  {
    var b := m[i];
    r := m;
    if b.size > actual {
      var freeChunk := FreeBlock(b.start + actual, b.size - actual);
      r := r[i := MemoryBlock(b.start, actual, padding, false, id)];
      assert r[..i + 1] == m[..i] + [MemoryBlock(b.start, actual, padding, false, id)];
      assert r[i + 1..] == m[i + 1..];
      r := r[..i + 1] + [freeChunk] + r[i + 1..];
    } else {
      r := r[i := b.(isFree := false, padding := padding, id := id)];
      assert r == m[..i] + [b.(isFree := false, padding := padding, id := id)] + m[i + 1..];
    }
  }

  /** The coalescing of free, written as the field updates and erasures it
      performs: block i is marked free; a free successor's size is added to
      it and the successor erased; then, when the predecessor is free, the
      block's size is added to the predecessor and the block erased. */
  method Coalesce(m: seq<MemoryBlock>, i: nat) returns (r: seq<MemoryBlock>)
    requires i < |m|
    ensures r == Release(m, i)
  {
    r := m;
    r := r[i := r[i].(isFree := true)];
    r := r[i := r[i].(id := NO_ID)];
    r := r[i := r[i].(padding := 0)];
    assert r == m[i := MarkFree(m[i])];
    if i + 1 < |r| && r[i + 1].isFree {
      ghost var marked := r;
      r := r[i := r[i].(size := r[i].size + r[i + 1].size)];
      r := r[..i + 1] + r[i + 2..];
      assert r == marked[..i] + [marked[i].(size := marked[i].size + marked[i + 1].size)] + marked[i + 2..];
    }
    assert r == MergeNext(m[i := MarkFree(m[i])], i);
    if i > 0 && r[i - 1].isFree {
      ghost var merged := r;
      r := r[i - 1 := r[i - 1].(size := r[i - 1].size + r[i].size)];
      r := r[..i] + r[i + 1..];
      assert r == merged[..i - 1] + [merged[i - 1].(size := merged[i - 1].size + merged[i].size)] + merged[i + 1..];
    }
  }

  lemma FindUsedNone(m: seq<MemoryBlock>, id: int)
    requires forall j :: 0 <= j < |m| ==> !(!m[j].isFree && m[j].id == id)
    ensures FindUsed(m, id) == None
  {
  }

  /** malloc followed by free of the id that malloc consumed leaves the
      block list as it was, whether the allocation succeeded or failed. */
  method MallocThenFree(pm: PhysicalMemory, requestSize: nat)
    requires pm.Valid()
    modifies pm
    ensures pm.Valid()
    ensures pm.memoryMap == old(pm.memoryMap)
    ensures pm.nextId == old(pm.nextId) + 1
  {
    ghost var m0 := pm.memoryMap;
    var id := pm.nextId;
    var address := pm.Malloc(requestSize);
    ghost var m1 := pm.memoryMap;
    var found := pm.Free(id);
    MallocFreeRestores(pm.currentStrategy, m0, pm.totalSize, pm.wordAlignment, id, requestSize, m1, address == -1);
  }

  /** The block-list half of MallocThenFree. */
  lemma MallocFreeRestores(s: Strategy, m0: seq<MemoryBlock>, total: nat, alignment: nat, id: int,
                           requestSize: nat, m1: seq<MemoryBlock>, failed: bool)
    requires alignment > 0 && WellFormed(m0, total, alignment, id)
    requires failed ==> m1 == m0
    requires !failed ==> exists i: nat ::
      && Placed(s, m0, ActualSize(requestSize, alignment), i)
      && m1 == Allocate(m0, i, ActualSize(requestSize, alignment), Padding(requestSize, alignment), id)
    ensures Freed(m1, id) == m0
  {
    var actual := ActualSize(requestSize, alignment);
    if failed {
      FreedUnknownId(m0, total, alignment, id, id);
    } else {
      var i: nat :| Placed(s, m0, actual, i) && m1 == Allocate(m0, i, actual, Padding(requestSize, alignment), id);
      PlacedFits(s, m0, actual, i);
      AllocateThenFree(m0, total, alignment, id, i, actual, Padding(requestSize, alignment));
    }
  }

  /** Ten bytes with the default alignment of 4 on a fresh 4096-byte region:
      the block at address 0 is 12 bytes with 2 bytes of padding. */
  method FragmentationExample() returns (address: int, s: MemoryStats)
    ensures address == 0
    ensures s.internalFragmentation == 2 && s.usedBytes == 12 && s.freeBytes == 4084
  {
    var pm := new PhysicalMemory(4096);
    PaddingExample();
    assert Fits(pm.memoryMap[0], ActualSize(10, 4));
    address := pm.Malloc(10);
    ghost var m := [MemoryBlock(0, 12, 2, false, 1), FreeBlock(12, 4084)];
    assert pm.memoryMap == m by {
      ghost var i: nat :| Placed(FirstFit, [FreeBlock(0, 4096)], 12, i)
                          && pm.memoryMap == Allocate([FreeBlock(0, 4096)], i, 12, 2, 1);
    }
    assert m[..1] == [m[0]] && m[..1][..0] == [];
    s := pm.Stats();
  }
}
