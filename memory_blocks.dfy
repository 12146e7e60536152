/** The allocator's block list as a value: the MemoryBlock record, the
    partition invariant the list keeps, the list surgery that allocation and
    release perform, and the totals that the statistics report. The class
    PhysicalMemory (module Allocator) keeps a list of this type and is
    proved against these functions. */
module MemoryBlocks {

  /** Largest value of the source's size_t. */
  const SIZE_MAX: nat := 0xFFFF_FFFF_FFFF_FFFF

  /** The id every free block carries. */
  const NO_ID: int := -1

  datatype Option<T> = None | Some(value: T)

  datatype MemoryBlock = MemoryBlock(start: nat, size: nat, padding: nat, isFree: bool, id: int)
  {
    function End(): nat { start + size }
  }

  function FreeBlock(start: nat, size: nat): MemoryBlock
  {
    MemoryBlock(start, size, 0, true, NO_ID)
  }

  /** A block can take a request of `actual` bytes. */
  predicate Fits(b: MemoryBlock, actual: nat)
  {
    b.isFree && b.size >= actual
  }

  // ---------------------------------------------------------------------
  // The partition invariant

  /** Every block ends where the next one starts. */
  predicate Contiguous(m: seq<MemoryBlock>)
  {
    forall k :: 0 <= k < |m| - 1 ==> m[k].End() == m[k + 1].start
  }

  /** The blocks cover [0, total) without gap or overlap. */
  predicate Tiles(m: seq<MemoryBlock>, total: nat)
  {
    |m| > 0 && m[0].start == 0 && Contiguous(m) && m[|m| - 1].End() == total
  }

  /** No two neighbouring blocks are both free. */
  predicate Coalesced(m: seq<MemoryBlock>)
  {
    forall k :: 0 <= k < |m| - 1 ==> !(m[k].isFree && m[k + 1].isFree)
  }

  predicate FreeBlocksClean(m: seq<MemoryBlock>)
  {
    forall b | b in m && b.isFree :: b.padding == 0 && b.id == NO_ID
  }

  /** Used blocks carry an id already handed out and a padding below the
      alignment that is part of the block. */
  predicate UsedBlocksSound(m: seq<MemoryBlock>, alignment: nat, nextId: int)
  {
    forall b | b in m && !b.isFree :: 1 <= b.id < nextId && b.padding < alignment && b.padding <= b.size
  }

  predicate UsedIdsDistinct(m: seq<MemoryBlock>)
  {
    forall k, l :: 0 <= k < l < |m| && !m[k].isFree && !m[l].isFree ==> m[k].id != m[l].id
  }

  predicate WellFormed(m: seq<MemoryBlock>, total: nat, alignment: nat, nextId: int)
  {
    && Tiles(m, total)
    && Coalesced(m)
    && FreeBlocksClean(m)
    && UsedBlocksSound(m, alignment, nextId)
    && UsedIdsDistinct(m)
  }

  function SumSizes(m: seq<MemoryBlock>): nat
  {
    if m == [] then 0 else SumSizes(m[..|m| - 1]) + m[|m| - 1].size
  }

  lemma {:induction false} ContiguousEnd(m: seq<MemoryBlock>)
    requires |m| > 0 && Contiguous(m)
    ensures m[|m| - 1].End() == m[0].start + SumSizes(m)
  {
    if |m| > 1 {
      var p := m[..|m| - 1];
      assert Contiguous(p);
      ContiguousEnd(p);
      assert p[|p| - 1] == m[|m| - 2];
    }
  }

  /** The sizes of a well-formed list add up to the total size. */
  lemma WellFormedTotal(m: seq<MemoryBlock>, total: nat, alignment: nat, nextId: int)
    requires WellFormed(m, total, alignment, nextId)
    ensures SumSizes(m) == total
  {
    ContiguousEnd(m);
  }

  // ---------------------------------------------------------------------
  // Replacing a run of blocks by other blocks keeps the invariant when the
  // replacement covers the same bytes and respects its neighbours.

  lemma SpliceTiles(m: seq<MemoryBlock>, lo: nat, hi: nat, r: seq<MemoryBlock>, total: nat)
    requires Tiles(m, total) && lo < hi <= |m|
    requires |r| > 0 && Contiguous(r)
    requires r[0].start == m[lo].start && r[|r| - 1].End() == m[hi - 1].End()
    ensures Tiles(m[..lo] + r + m[hi..], total)
  {
    var s := m[..lo] + r + m[hi..];
    forall k | 0 <= k < |s| - 1
      ensures s[k].End() == s[k + 1].start
    {
      if k + 1 < lo {
        assert s[k] == m[k] && s[k + 1] == m[k + 1];
      } else if k + 1 == lo {
        assert s[k] == m[k] && s[k + 1] == r[0];
      } else if k + 1 < lo + |r| {
        assert s[k] == r[k - lo] && s[k + 1] == r[k + 1 - lo];
      } else if k + 1 == lo + |r| {
        assert s[k] == r[|r| - 1] && s[k + 1] == m[hi];
      } else {
        assert s[k] == m[k - lo - |r| + hi] && s[k + 1] == m[k + 1 - lo - |r| + hi];
      }
    }
    if lo == 0 {
      assert s[0] == r[0];
    } else {
      assert s[0] == m[0];
    }
    if hi == |m| {
      assert s[|s| - 1] == r[|r| - 1];
    } else {
      assert s[|s| - 1] == m[|m| - 1];
    }
  }

  lemma SpliceCoalesced(m: seq<MemoryBlock>, lo: nat, hi: nat, r: seq<MemoryBlock>)
    requires Coalesced(m) && lo < hi <= |m|
    requires |r| > 0 && Coalesced(r)
    requires lo > 0 && m[lo - 1].isFree ==> !r[0].isFree
    requires hi < |m| && m[hi].isFree ==> !r[|r| - 1].isFree
    ensures Coalesced(m[..lo] + r + m[hi..])
  {
    var s := m[..lo] + r + m[hi..];
    forall k | 0 <= k < |s| - 1
      ensures !(s[k].isFree && s[k + 1].isFree)
    {
      if k + 1 < lo {
        assert s[k] == m[k] && s[k + 1] == m[k + 1];
      } else if k + 1 == lo {
        assert s[k] == m[k] && s[k + 1] == r[0];
      } else if k + 1 < lo + |r| {
        assert s[k] == r[k - lo] && s[k + 1] == r[k + 1 - lo];
      } else if k + 1 == lo + |r| {
        assert s[k] == r[|r| - 1] && s[k + 1] == m[hi];
      } else {
        assert s[k] == m[k - lo - |r| + hi] && s[k + 1] == m[k + 1 - lo - |r| + hi];
      }
    }
  }

  lemma SpliceIdsDistinct(m: seq<MemoryBlock>, lo: nat, hi: nat, r: seq<MemoryBlock>)
    requires UsedIdsDistinct(m) && lo < hi <= |m|
    requires UsedIdsDistinct(r)
    requires forall k, l :: 0 <= k < |r| && 0 <= l < |m| && !r[k].isFree && !m[l].isFree ==> r[k].id != m[l].id
    ensures UsedIdsDistinct(m[..lo] + r + m[hi..])
  {
    var s := m[..lo] + r + m[hi..];
    forall k, l | 0 <= k < l < |s| && !s[k].isFree && !s[l].isFree
      ensures s[k].id != s[l].id
    {
      // position of an element of s in m (outside r), or in r
      if k < lo {
        assert s[k] == m[k];
        if l < lo {
          assert s[l] == m[l];
        } else if l < lo + |r| {
          assert s[l] == r[l - lo];
        } else {
          assert s[l] == m[l - lo - |r| + hi];
        }
      } else if k < lo + |r| {
        assert s[k] == r[k - lo];
        if l < lo + |r| {
          assert s[l] == r[l - lo];
        } else {
          assert s[l] == m[l - lo - |r| + hi];
        }
      } else {
        assert s[k] == m[k - lo - |r| + hi];
        assert s[l] == m[l - lo - |r| + hi];
      }
    }
  }

  // ---------------------------------------------------------------------
  // Allocation: the chosen free block becomes used; a strictly larger block
  // is split and its free remainder is inserted right after it.

  function Allocate(m: seq<MemoryBlock>, i: nat, actual: nat, padding: nat, id: int): (r: seq<MemoryBlock>)
    requires i < |m| && Fits(m[i], actual)
    ensures |r| == if m[i].size > actual then |m| + 1 else |m|
    ensures r[..i] == m[..i]
    ensures r[i] == MemoryBlock(m[i].start, actual, padding, false, id)
    ensures m[i].size > actual ==>
      r[i + 1] == FreeBlock(m[i].start + actual, m[i].size - actual) && r[i + 2..] == m[i + 1..]
    ensures m[i].size == actual ==> r[i + 1..] == m[i + 1..]
  {
    var b := m[i];
    if b.size > actual then
      m[..i] + [MemoryBlock(b.start, actual, padding, false, id), FreeBlock(b.start + actual, b.size - actual)] + m[i + 1..]
    else
      m[..i] + [b.(isFree := false, padding := padding, id := id)] + m[i + 1..]
  }

  /** The blocks that replace the chosen one. */
  function AllocatedRun(b: MemoryBlock, actual: nat, padding: nat, id: int): seq<MemoryBlock>
  {
    var used := MemoryBlock(b.start, actual, padding, false, id);
    if b.size > actual then [used, FreeBlock(b.start + actual, b.size - actual)] else [used]
  }

  lemma AllocateIsSplice(m: seq<MemoryBlock>, i: nat, actual: nat, padding: nat, id: int)
    requires i < |m| && Fits(m[i], actual)
    ensures Allocate(m, i, actual, padding, id) == m[..i] + AllocatedRun(m[i], actual, padding, id) + m[i + 1..]
  {
  }

  lemma AllocateTiles(m: seq<MemoryBlock>, total: nat, i: nat, actual: nat, padding: nat, id: int)
    requires Tiles(m, total) && i < |m| && Fits(m[i], actual)
    ensures Tiles(Allocate(m, i, actual, padding, id), total)
  {
    AllocateIsSplice(m, i, actual, padding, id);
    SpliceTiles(m, i, i + 1, AllocatedRun(m[i], actual, padding, id), total);
  }

  lemma AllocateCoalesced(m: seq<MemoryBlock>, i: nat, actual: nat, padding: nat, id: int)
    requires Coalesced(m) && i < |m| && Fits(m[i], actual)
    ensures Coalesced(Allocate(m, i, actual, padding, id))
  {
    AllocateIsSplice(m, i, actual, padding, id);
    SpliceCoalesced(m, i, i + 1, AllocatedRun(m[i], actual, padding, id));
  }

  lemma AllocateIds(m: seq<MemoryBlock>, alignment: nat, nextId: int, i: nat, actual: nat, padding: nat)
    requires UsedIdsDistinct(m) && UsedBlocksSound(m, alignment, nextId)
    requires i < |m| && Fits(m[i], actual)
    ensures UsedIdsDistinct(Allocate(m, i, actual, padding, nextId))
  {
    var r := AllocatedRun(m[i], actual, padding, nextId);
    AllocateIsSplice(m, i, actual, padding, nextId);
    forall k, l | 0 <= k < |r| && 0 <= l < |m| && !r[k].isFree && !m[l].isFree
      ensures r[k].id != m[l].id
    {
      assert m[l] in m;
    }
    SpliceIdsDistinct(m, i, i + 1, r);
  }

  lemma SpliceMembers(m: seq<MemoryBlock>, lo: nat, hi: nat, r: seq<MemoryBlock>)
    requires lo <= hi <= |m|
    ensures forall x | x in m[..lo] + r + m[hi..] :: x in m || x in r
  {
    forall x | x in m[..lo] + r + m[hi..]
      ensures x in m || x in r
    {
      if x in m[..lo] {
        var k :| 0 <= k < lo && m[..lo][k] == x;
        assert m[k] == x;
      } else if x in m[hi..] {
        var k :| 0 <= k < |m| - hi && m[hi..][k] == x;
        assert m[hi + k] == x;
      }
    }
  }

  lemma AllocateBlocksSound(m: seq<MemoryBlock>, alignment: nat, nextId: int, i: nat, actual: nat, padding: nat)
    requires FreeBlocksClean(m) && UsedBlocksSound(m, alignment, nextId) && nextId >= 1
    requires i < |m| && Fits(m[i], actual)
    requires padding < alignment && padding <= actual
    ensures FreeBlocksClean(Allocate(m, i, actual, padding, nextId))
    ensures UsedBlocksSound(Allocate(m, i, actual, padding, nextId), alignment, nextId + 1)
  {
    AllocateIsSplice(m, i, actual, padding, nextId);
    SpliceMembers(m, i, i + 1, AllocatedRun(m[i], actual, padding, nextId));
  }

  /** Handing out an id without using it keeps the invariant. */
  lemma WellFormedNextId(m: seq<MemoryBlock>, total: nat, alignment: nat, nextId: int, nextId': int)
    requires WellFormed(m, total, alignment, nextId) && nextId <= nextId'
    ensures WellFormed(m, total, alignment, nextId')
  {
  }

  /** Allocating with the next id keeps the partition invariant and moves
      the id counter on by one. */
  lemma AllocatePreserves(m: seq<MemoryBlock>, total: nat, alignment: nat, nextId: int,
                          i: nat, actual: nat, padding: nat)
    requires WellFormed(m, total, alignment, nextId) && nextId >= 1
    requires i < |m| && Fits(m[i], actual)
    requires padding < alignment && padding <= actual
    ensures WellFormed(Allocate(m, i, actual, padding, nextId), total, alignment, nextId + 1)
  {
    AllocateTiles(m, total, i, actual, padding, nextId);
    AllocateCoalesced(m, i, actual, padding, nextId);
    AllocateIds(m, alignment, nextId, i, actual, padding);
    AllocateBlocksSound(m, alignment, nextId, i, actual, padding);
  }

  // ---------------------------------------------------------------------
  // Release: mark the block free, merge a free successor into it, then
  // merge it into a free predecessor.

  /** The released block: same place and size, free, padding 0, no id. */
  function MarkFree(b: MemoryBlock): (r: MemoryBlock)
    ensures r.start == b.start && r.size == b.size && r.End() == b.End()
    ensures r.isFree && r.padding == 0 && r.id == NO_ID
  {
    b.(isFree := true, id := NO_ID, padding := 0)
  }

  /** A free successor is absorbed into block i; the other blocks stay. */
  function MergeNext(m: seq<MemoryBlock>, i: nat): (r: seq<MemoryBlock>)
    requires i < |m|
    ensures i < |r| && r[..i] == m[..i] && r[i].start == m[i].start
    ensures i + 1 < |m| && m[i + 1].isFree ==>
      |r| == |m| - 1 && r[i].size == m[i].size + m[i + 1].size && r[i + 1..] == m[i + 2..]
    ensures !(i + 1 < |m| && m[i + 1].isFree) ==> r == m
  {
    if i + 1 < |m| && m[i + 1].isFree then
      m[..i] + [m[i].(size := m[i].size + m[i + 1].size)] + m[i + 2..]
    else
      m
  }

  /** Block i is absorbed into a free predecessor; the other blocks stay. */
  function MergePrev(m: seq<MemoryBlock>, i: nat): (r: seq<MemoryBlock>)
    requires i < |m|
    ensures i > 0 && m[i - 1].isFree ==>
      |r| == |m| - 1 && r[..i - 1] == m[..i - 1] && r[i - 1].start == m[i - 1].start
      && r[i - 1].size == m[i - 1].size + m[i].size && r[i..] == m[i + 1..]
    ensures !(i > 0 && m[i - 1].isFree) ==> r == m
  {
    if i > 0 && m[i - 1].isFree then
      m[..i - 1] + [m[i - 1].(size := m[i - 1].size + m[i].size)] + m[i + 1..]
    else
      m
  }

  /** Release of block i: at most its two neighbours are merged away, and
      the blocks before its predecessor are kept. */
  function Release(m: seq<MemoryBlock>, i: nat): (r: seq<MemoryBlock>)
    requires i < |m|
    ensures |m| - 2 <= |r| <= |m|
    ensures i > 0 ==> r[..i - 1] == m[..i - 1]
  {
    MergePrev(MergeNext(m[i := MarkFree(m[i])], i), i)
  }

  /** The first used block carrying `id`, if any. */
  function FindUsed(m: seq<MemoryBlock>, id: int): (r: Option<nat>)
    ensures r.Some? ==> r.value < |m| && !m[r.value].isFree && m[r.value].id == id
    ensures r.Some? ==> forall k :: 0 <= k < r.value ==> !(!m[k].isFree && m[k].id == id)
    ensures r.None? ==> forall k :: 0 <= k < |m| ==> !(!m[k].isFree && m[k].id == id)
  {
    if m == [] then None
    else if !m[0].isFree && m[0].id == id then Some(0)
    else match FindUsed(m[1..], id)
      case None => None
      case Some(k) => Some(k + 1)
  }

  /** What free(id) leaves: unchanged when no used block carries the id. */
  function Freed(m: seq<MemoryBlock>, id: int): (r: seq<MemoryBlock>)
    ensures FindUsed(m, id).None? ==> r == m
    ensures |m| - 2 <= |r| <= |m|
  {
    match FindUsed(m, id)
    case None => m
    case Some(i) => Release(m, i)
  }

  /** After marking block i free, the forward merge leaves one free block
      covering block i and, when it was free, block i + 1. */
  lemma MergeNextShape(m: seq<MemoryBlock>, i: nat, hi: nat)
    requires Contiguous(m) && i < |m|
    requires hi == (if i + 1 < |m| && m[i + 1].isFree then i + 2 else i + 1)
    ensures MergeNext(m[i := MarkFree(m[i])], i)
         == m[..i] + [FreeBlock(m[i].start, m[hi - 1].End() - m[i].start)] + m[hi..]
  {
    var m1 := m[i := MarkFree(m[i])];
    if hi == i + 2 {
      assert m[i].End() == m[i + 1].start;
      assert m1[..i] == m[..i] && m1[i + 2..] == m[i + 2..];
    } else {
      assert m1 == m[..i] + [m1[i]] + m[i + 1..];
    }
  }

  /** The backward merge folds the free block at i into a free block i - 1. */
  lemma MergePrevShape(m: seq<MemoryBlock>, i: nat, hi: nat, lo: nat)
    requires Contiguous(m) && FreeBlocksClean(m) && i < hi <= |m|
    requires lo == (if i > 0 && m[i - 1].isFree then i - 1 else i)
    requires m[i].start <= m[hi - 1].End()
    ensures MergePrev(m[..i] + [FreeBlock(m[i].start, m[hi - 1].End() - m[i].start)] + m[hi..], i)
         == m[..lo] + [FreeBlock(m[lo].start, m[hi - 1].End() - m[lo].start)] + m[hi..]
  {
    var c := FreeBlock(m[i].start, m[hi - 1].End() - m[i].start);
    var m2 := m[..i] + [c] + m[hi..];
    if lo + 1 == i {
      assert m[i - 1] in m;
      assert m[i - 1].End() == m[i].start;
      assert m2[i - 1] == m[i - 1] && m2[i] == c;
      assert m2[..i - 1] == m[..i - 1];
      assert m2[i + 1..] == m[hi..];
    } else {
      assert i > 0 ==> m2[i - 1] == m[i - 1];
    }
  }

  /** Releasing a used block of a well-formed list replaces the block and
      its free neighbours by one free block spanning all of them. */
  lemma ReleaseShape(m: seq<MemoryBlock>, total: nat, alignment: nat, nextId: int, i: nat)
    returns (lo: nat, hi: nat)
    requires WellFormed(m, total, alignment, nextId)
    requires i < |m| && !m[i].isFree
    ensures lo <= i < hi <= |m|
    ensures lo == (if i > 0 && m[i - 1].isFree then i - 1 else i)
    ensures hi == (if i + 1 < |m| && m[i + 1].isFree then i + 2 else i + 1)
    ensures m[lo].start <= m[hi - 1].End()
    ensures Release(m, i) == MergedRun(m, lo, hi)
  {
    lo := if i > 0 && m[i - 1].isFree then i - 1 else i;
    hi := if i + 1 < |m| && m[i + 1].isFree then i + 2 else i + 1;
    assert m[i].start <= m[hi - 1].End() by {
      if hi == i + 2 {
        assert m[i].End() == m[i + 1].start;
      }
    }
    assert lo < i ==> m[lo].End() == m[i].start;
    MergeNextShape(m, i, hi);
    MergePrevShape(m, i, hi, lo);
  }

  /** The run [lo, hi) merged into one free block. */
  function MergedRun(m: seq<MemoryBlock>, lo: nat, hi: nat): seq<MemoryBlock>
    requires lo < hi <= |m| && m[lo].start <= m[hi - 1].End()
  {
    m[..lo] + [FreeBlock(m[lo].start, m[hi - 1].End() - m[lo].start)] + m[hi..]
  }

  lemma MergedRunTiles(m: seq<MemoryBlock>, lo: nat, hi: nat, total: nat)
    requires Tiles(m, total) && lo < hi <= |m| && m[lo].start <= m[hi - 1].End()
    ensures Tiles(MergedRun(m, lo, hi), total)
  {
    SpliceTiles(m, lo, hi, [FreeBlock(m[lo].start, m[hi - 1].End() - m[lo].start)], total);
  }

  lemma MergedRunCoalesced(m: seq<MemoryBlock>, lo: nat, hi: nat)
    requires Coalesced(m) && lo < hi <= |m| && m[lo].start <= m[hi - 1].End()
    requires lo > 0 ==> !m[lo - 1].isFree
    requires hi < |m| ==> !m[hi].isFree
    ensures Coalesced(MergedRun(m, lo, hi))
  {
    SpliceCoalesced(m, lo, hi, [FreeBlock(m[lo].start, m[hi - 1].End() - m[lo].start)]);
  }

  lemma MergedRunBlocks(m: seq<MemoryBlock>, lo: nat, hi: nat, alignment: nat, nextId: int)
    requires FreeBlocksClean(m) && UsedBlocksSound(m, alignment, nextId) && UsedIdsDistinct(m)
    requires lo < hi <= |m| && m[lo].start <= m[hi - 1].End()
    ensures FreeBlocksClean(MergedRun(m, lo, hi))
    ensures UsedBlocksSound(MergedRun(m, lo, hi), alignment, nextId)
    ensures UsedIdsDistinct(MergedRun(m, lo, hi))
  {
    var r := [FreeBlock(m[lo].start, m[hi - 1].End() - m[lo].start)];
    SpliceMembers(m, lo, hi, r);
    SpliceIdsDistinct(m, lo, hi, r);
  }

  /** The blocks around a merged run are used: the list was coalesced. */
  lemma ReleaseNeighbours(m: seq<MemoryBlock>, i: nat, lo: nat, hi: nat)
    requires Coalesced(m) && i < |m| && !m[i].isFree
    requires lo == (if i > 0 && m[i - 1].isFree then i - 1 else i)
    requires hi == (if i + 1 < |m| && m[i + 1].isFree then i + 2 else i + 1)
    ensures lo > 0 ==> !m[lo - 1].isFree
    ensures hi < |m| ==> !m[hi].isFree
  {
    if lo > 0 && lo < i {
      assert m[lo].isFree && lo - 1 < |m| - 1;
    }
    if hi < |m| && hi > i + 1 {
      assert m[hi - 1].isFree && hi - 1 < |m| - 1;
    }
  }

  /** Releasing a used block keeps the partition invariant. */
  lemma ReleasePreserves(m: seq<MemoryBlock>, total: nat, alignment: nat, nextId: int, i: nat)
    requires WellFormed(m, total, alignment, nextId)
    requires i < |m| && !m[i].isFree
    ensures WellFormed(Release(m, i), total, alignment, nextId)
  {
    var lo, hi := ReleaseShape(m, total, alignment, nextId, i);
    ReleaseNeighbours(m, i, lo, hi);
    MergedRunWellFormed(m, total, alignment, nextId, lo, hi);
  }

  /** A run between used neighbours merged into one free block keeps the
      partition invariant. */
  lemma MergedRunWellFormed(m: seq<MemoryBlock>, total: nat, alignment: nat, nextId: int, lo: nat, hi: nat)
    requires WellFormed(m, total, alignment, nextId)
    requires lo < hi <= |m| && m[lo].start <= m[hi - 1].End()
    requires lo > 0 ==> !m[lo - 1].isFree
    requires hi < |m| ==> !m[hi].isFree
    ensures WellFormed(MergedRun(m, lo, hi), total, alignment, nextId)
  {
    MergedRunTiles(m, lo, hi, total);
    MergedRunCoalesced(m, lo, hi);
    MergedRunBlocks(m, lo, hi, alignment, nextId);
  }

  /** free(id) keeps the partition invariant whatever the id. */
  lemma FreedPreserves(m: seq<MemoryBlock>, total: nat, alignment: nat, nextId: int, id: int)
    requires WellFormed(m, total, alignment, nextId)
    ensures WellFormed(Freed(m, id), total, alignment, nextId)
  {
    match FindUsed(m, id)
    case None =>
    case Some(i) => ReleasePreserves(m, total, alignment, nextId, i);
  }

  /** free of an id that was never handed out, such as -1, changes nothing. */
  lemma FreedUnknownId(m: seq<MemoryBlock>, total: nat, alignment: nat, nextId: int, id: int)
    requires WellFormed(m, total, alignment, nextId)
    requires id < 1 || id >= nextId
    ensures Freed(m, id) == m
  {
    match FindUsed(m, id)
    case None =>
    case Some(i) =>
      assert false;
  }

  /** FindUsed finds the first used block carrying the id. */
  lemma FindUsedIsFirst(m: seq<MemoryBlock>, id: int, i: nat)
    requires i < |m| && !m[i].isFree && m[i].id == id
    requires forall j :: 0 <= j < i ==> !(!m[j].isFree && m[j].id == id)
    ensures FindUsed(m, id) == Some(i)
  {
  }

  /** The id just handed out is found at the block that received it: every
      block before it carries an older id or is free. */
  lemma AllocatedIsFound(m: seq<MemoryBlock>, alignment: nat, nextId: int,
                         i: nat, actual: nat, padding: nat)
    requires UsedBlocksSound(m, alignment, nextId)
    requires i < |m| && Fits(m[i], actual)
    ensures FindUsed(Allocate(m, i, actual, padding, nextId), nextId) == Some(i)
  {
    var a := Allocate(m, i, actual, padding, nextId);
    forall j | 0 <= j < i
      ensures !(!a[j].isFree && a[j].id == nextId)
    {
      assert a[j] == m[j] && m[j] in m;
    }
    FindUsedIsFirst(a, nextId, i);
  }

  /** Releasing the block just allocated restores the free block it came
      from: its neighbours were used, so no merge reaches past it. */
  lemma ReleaseAllocated(m: seq<MemoryBlock>, i: nat, actual: nat, padding: nat, id: int)
    requires Coalesced(m) && FreeBlocksClean(m)
    requires i < |m| && Fits(m[i], actual)
    ensures Release(Allocate(m, i, actual, padding, id), i) == m
  {
    var a := Allocate(m, i, actual, padding, id);
    var b := m[i];
    assert m[i] in m;
    assert i > 0 ==> a[i - 1] == m[i - 1] && !m[i - 1].isFree;
    var a1 := a[i := MarkFree(a[i])];
    if b.size > actual {
      assert a[i + 1] == FreeBlock(b.start + actual, b.size - actual);
      var a2 := MergeNext(a1, i);
      assert a2 == m[..i] + [FreeBlock(b.start, b.size)] + m[i + 1..] by {
        assert a1[..i] == m[..i];
        assert a1[i + 2..] == m[i + 1..];
      }
      assert MergePrev(a2, i) == a2;
    } else {
      assert i + 1 < |m| ==> a[i + 1] == m[i + 1] && !m[i + 1].isFree;
      assert MergeNext(a1, i) == a1;
      assert MergePrev(a1, i) == a1;
    }
    assert m == m[..i] + [FreeBlock(b.start, b.size)] + m[i + 1..];
  }

  /** Round trip: allocating a free block with the next id and then freeing
      that id gives back exactly the list from before. */
  lemma AllocateThenFree(m: seq<MemoryBlock>, total: nat, alignment: nat, nextId: int,
                         i: nat, actual: nat, padding: nat)
    requires WellFormed(m, total, alignment, nextId)
    requires i < |m| && Fits(m[i], actual)
    ensures Freed(Allocate(m, i, actual, padding, nextId), nextId) == m
  {
    AllocatedIsFound(m, alignment, nextId, i, actual, padding);
    ReleaseAllocated(m, i, actual, padding, nextId);
  }

  // ---------------------------------------------------------------------
  // The totals behind the statistics, accumulated front to back.

  /** The sizes of the used blocks, added up. */
  function UsedBytes(m: seq<MemoryBlock>): (r: nat)
    ensures forall k :: 0 <= k < |m| && !m[k].isFree ==> m[k].size <= r
    ensures (forall k :: 0 <= k < |m| ==> m[k].isFree) ==> r == 0
  {
    if m == [] then 0
    else UsedBytes(m[..|m| - 1]) + (if m[|m| - 1].isFree then 0 else m[|m| - 1].size)
  }

  /** The sizes of the free blocks, added up. */
  function FreeBytes(m: seq<MemoryBlock>): (r: nat)
    ensures forall k :: 0 <= k < |m| && m[k].isFree ==> m[k].size <= r
    ensures (forall k :: 0 <= k < |m| ==> !m[k].isFree) ==> r == 0
  {
    if m == [] then 0
    else FreeBytes(m[..|m| - 1]) + (if m[|m| - 1].isFree then m[|m| - 1].size else 0)
  }

  /** The paddings of the used blocks, added up. */
  function InternalFragmentation(m: seq<MemoryBlock>): (r: nat)
    ensures forall k :: 0 <= k < |m| && !m[k].isFree ==> m[k].padding <= r
    ensures (forall k :: 0 <= k < |m| ==> m[k].isFree) ==> r == 0
  {
    if m == [] then 0
    else InternalFragmentation(m[..|m| - 1]) + (if m[|m| - 1].isFree then 0 else m[|m| - 1].padding)
  }

  /** The size of the largest free block, 0 when there is none. */
  function LargestFree(m: seq<MemoryBlock>): (r: nat)
    ensures forall b | b in m && b.isFree :: b.size <= r
    ensures r == 0 || exists b | b in m && b.isFree :: b.size == r
  {
    if m == [] then 0
    else
      var p := m[..|m| - 1];
      var last := m[|m| - 1];
      assert m == p + [last];
      if last.isFree && last.size > LargestFree(p) then last.size else LargestFree(p)
  }

  lemma {:induction false} UsedPlusFree(m: seq<MemoryBlock>)
    ensures UsedBytes(m) + FreeBytes(m) == SumSizes(m)
  {
    if m != [] {
      UsedPlusFree(m[..|m| - 1]);
    }
  }

  lemma {:induction false} LargestFreeBelowFreeBytes(m: seq<MemoryBlock>)
    ensures LargestFree(m) <= FreeBytes(m)
  {
    if m != [] {
      LargestFreeBelowFreeBytes(m[..|m| - 1]);
    }
  }

  /** Padding is part of the used blocks, so it never exceeds the used bytes. */
  lemma {:induction false} InternalFragmentationBelowUsed(m: seq<MemoryBlock>)
    requires forall b | b in m && !b.isFree :: b.padding <= b.size
    ensures InternalFragmentation(m) <= UsedBytes(m)
  {
    if m != [] {
      var p := m[..|m| - 1];
      assert forall b | b in p :: b in m;
      InternalFragmentationBelowUsed(p);
      assert m[|m| - 1] in m;
    }
  }

  /** External fragmentation as a percentage numerator over a denominator:
      100 * (1 - largest / free), and 0 when nothing is free. */
  function ExternalFragmentation(freeBytes: nat, largest: nat): (r: (int, nat))
    ensures r.1 > 0
    ensures freeBytes == 0 ==> r.0 == 0
    ensures largest <= freeBytes ==> 0 <= r.0 <= 100 * r.1
    ensures freeBytes > 0 ==> (r.0 == 0 <==> largest == freeBytes)
    ensures freeBytes > 0 ==>
      (r.0 as real) / (r.1 as real) == 100.0 * (1.0 - (largest as real) / (freeBytes as real))
  {
    if freeBytes > 0 then
      PercentOfRest(freeBytes as real, largest as real);
      (100 * (freeBytes - largest), freeBytes)
    else
      (0, 1)
  }

  /** 100 (f - l) / f is 100 (1 - l / f). */
  lemma PercentOfRest(f: real, l: real)
    requires f > 0.0
    ensures (100.0 * (f - l)) / f == 100.0 * (1.0 - l / f)
  {
    assert (100.0 * (f - l)) / f == 100.0 * (f / f - l / f);
    assert f / f == 1.0;
  }
}
