/** Rounding an allocation request up to the word alignment. */
module Alignment {
  import opened Bits
  import opened MemoryBlocks

  /** Bytes added so that the request becomes a multiple of the alignment;
      none when it already is one. */
  function Padding(request: nat, alignment: nat): (r: nat)
    requires alignment > 0
    ensures r < alignment
    ensures (request + r) % alignment == 0
    ensures request % alignment == 0 ==> r == 0
  {
    RoundUp(request, alignment);
    if request % alignment != 0 then alignment - request % alignment else 0
  }

  /** Adding the complement of the remainder reaches the next multiple. */
  lemma RoundUp(request: nat, alignment: nat)
    requires alignment > 0
    ensures request % alignment != 0 ==> (request + (alignment - request % alignment)) % alignment == 0
  {
    var q, r := request / alignment, request % alignment;
    if r != 0 {
      assert request + (alignment - r) == (q + 1) * alignment;
      DivIsUnique(request + (alignment - r), alignment, q + 1, 0);
    }
  }

  /** The size actually reserved for a request, in unbounded arithmetic: a
      multiple of the alignment, at least the request, and less than one
      alignment above it. */
  function ActualSize(request: nat, alignment: nat): (r: nat)
    requires alignment > 0
    ensures r % alignment == 0
    ensures request <= r < request + alignment
  {
    request + Padding(request, alignment)
  }

  /** The reserved size is the least multiple of the alignment that holds the
      request, and the padding stays below the alignment. */
  lemma ActualSizeIsLeastMultiple(request: nat, alignment: nat, k: nat)
    requires alignment > 0
    ensures ActualSize(request, alignment) % alignment == 0
    ensures request <= ActualSize(request, alignment) < request + alignment
    ensures Padding(request, alignment) < alignment
    ensures request % alignment == 0 ==> Padding(request, alignment) == 0
    ensures k % alignment == 0 && k >= request ==> ActualSize(request, alignment) <= k
  {
    var q, r := request / alignment, request % alignment;
    assert request == q * alignment + r;
    if r != 0 {
      assert ActualSize(request, alignment) == (q + 1) * alignment;
      DivIsUnique(ActualSize(request, alignment), alignment, q + 1, 0);
      if k % alignment == 0 && k >= request {
        var j := k / alignment;
        assert k == j * alignment;
        if j <= q {
          MulLe(j, q, alignment);
        }
      }
    }
  }

  lemma PaddingExample()
    ensures Padding(10, 4) == 2 && ActualSize(10, 4) == 12
    ensures Padding(12, 4) == 0
  {
  }

  /** actual_size as the source computes it, in 64-bit size_t arithmetic:
      request_size + padding wraps modulo 2^64. */
  function WrappedActualSize(request: nat, alignment: nat): (r: nat)
    requires 0 < alignment && request <= SIZE_MAX
    ensures r <= SIZE_MAX
  {
    (request + Padding(request, alignment)) % (SIZE_MAX + 1)
  }

  /** Without overflow the source's computation is the unbounded one. */
  lemma WrappedAgreesWhenNoOverflow(request: nat, alignment: nat)
    requires 0 < alignment && request + alignment <= SIZE_MAX + 1
    ensures WrappedActualSize(request, alignment) == ActualSize(request, alignment)
  {
    ActualSizeIsLeastMultiple(request, alignment, 0);
  }

  /** A request of SIZE_MAX bytes (what `malloc -1` parses to) with the
      default alignment of 4 wraps to an actual size of 0: every free block
      fits it, and the allocation hands out an empty used block. */
  lemma WrappedSizeLosesRequest()
    ensures WrappedActualSize(SIZE_MAX, 4) == 0
    ensures Fits(FreeBlock(0, 4096), WrappedActualSize(SIZE_MAX, 4))
    ensures Allocate([FreeBlock(0, 4096)], 0, WrappedActualSize(SIZE_MAX, 4), Padding(SIZE_MAX, 4), 1)
         == [MemoryBlock(0, 0, 1, false, 1), FreeBlock(0, 4096)]
    ensures ActualSize(SIZE_MAX, 4) == SIZE_MAX + 1
  {
    assert SIZE_MAX % 4 == 3;
  }
}
