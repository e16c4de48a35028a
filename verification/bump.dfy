/**
 * `BumpAllocator`: hands out blocks from the range [beg, end) by moving a
 * cursor forward; it never frees. The three pointers become addresses, and
 * every operation that mutates the allocator returns its new state.
 */
module Bump {
  import opened Memory
  import Errors
  import Results

  datatype BumpAllocator = BumpAllocator(beg: U64, cur: U64, end: U64)

  /** `BumpAllocator(begin, end)`: the cursor starts at `begin`. */
  function New(begin: U64, end: U64): (b: BumpAllocator)
    ensures b.beg == begin && b.cur == begin && b.end == end
    ensures begin != Null && begin <= end ==> IsValid(b) && Remaining(b) == end - begin
  {
    BumpAllocator(begin, begin, end)
  }

  /** `is_valid()` and `operator bool`: all three pointers non-null, and
      beg <= cur <= end. */
  function IsValid(b: BumpAllocator): (ok: bool)
    ensures ok ==> Remaining(b) == b.end - b.cur <= b.end - b.beg
    ensures ok ==> (Remaining(b) == 0 <==> b.cur == b.end)
  {
    && b.beg != Null && b.cur != Null && b.end != Null
    && b.end >= b.beg
    && b.beg <= b.cur <= b.end
  }

  /** `is_within_range(p)`: beg <= p < end, the end being exclusive. Null is
      outside the range of every valid allocator, and the range holds
      exactly `end - beg` addresses. */
  function IsWithinRange(b: BumpAllocator, p: U64): (within: bool)
    ensures within <==> b.beg <= p && p - b.beg < b.end - b.beg
    ensures within ==> b.beg < b.end
    ensures IsValid(b) && within ==> p != Null
  {
    b.beg <= p < b.end
  }

  /** `remaining_()`: the bytes between the cursor and the end, 0 when the
      cursor is at or past the end. */
  function Remaining(b: BumpAllocator): (n: U64)
    ensures b.cur < b.end ==> b.cur + n == b.end
    ensures b.cur >= b.end ==> n == 0
  {
    if b.cur < b.end then Difference(b.cur, b.end) else 0
  }

  /** The padded block still lies below 2^64: the properties of
      `checked_align_up` that the allocator relies on hold in this range. */
  predicate BlockNoWrap(b: BumpAllocator, align: U64) {
    b.end + align <= TWO_64
  }

  /** The request can be served: a live allocator with room after the cursor,
      a non-zero size, a power-of-two alignment, and the aligned block
      ending at or before `end`. */
  predicate Fits(b: BumpAllocator, align: U64, size: U64) {
    && IsValid(b) && b.cur < b.end && size > 0 && IsPowerOfTwo(align)
    && AlignUp(align, b.cur) + size <= b.end
  }

  /** `allocate_block(align, size)`. Returns the block's address (`Null` on
      failure) and the allocator's new state. The alignment routine is the
      corrected `CheckedAlignUp`, which refuses `align == 0`. */
  function AllocateBlock(b: BumpAllocator, align: U64, size: U64): (r: (U64, BumpAllocator))
    ensures r.1.beg == b.beg && r.1.end == b.end
    ensures size == 0 || !IsValid(b) || b.cur >= b.end ==> r == (Null, b)
    ensures BlockNoWrap(b, align) ==> (r.0 != Null <==> Fits(b, align, size))
    ensures BlockNoWrap(b, align) && r.0 == Null ==> r.1 == b
    ensures BlockNoWrap(b, align) && r.0 != Null ==>
              && r.0 == AlignUp(align, b.cur)
              && b.beg <= b.cur <= r.0 && r.0 % align == 0
              && r.1 == b.(cur := r.0 + size) && r.1.cur <= b.end
              && IsValid(r.1)
  {
    var space := Remaining(b);
    if size == 0 || !IsValid(b) || space == 0 then (Null, b)
    else
      var c := CheckedAlignUp(align, size, b.cur, space);
      assert BlockNoWrap(b, align) ==> NoWrap(b.cur, align, space);
      var b' := b.(cur := c.ptr);
      (if IsWithinRange(b', c.ret) then c.ret else Null, b')
  }

  /** `allocate_block` exactly as written, on top of the as-written
      `checked_align_up`. */
  function AllocateBlockAsWritten(b: BumpAllocator, align: U64, size: U64): (r: (U64, BumpAllocator))
    ensures r.1.beg == b.beg && r.1.end == b.end
    ensures size == 0 || !IsValid(b) || b.cur >= b.end ==> r == (Null, b)
    ensures align != 0 ==> r == AllocateBlock(b, align, size)
  {
    var space := Remaining(b);
    if size == 0 || !IsValid(b) || space == 0 then (Null, b)
    else
      var c := CheckedAlignUpAsWritten(align, size, b.cur, space);
      var b' := b.(cur := c.ptr);
      (if IsWithinRange(b', c.ret) then c.ret else Null, b')
  }

  /** As written, an allocation with alignment 0 fails yet moves the cursor:
      the cursor moves from 8 to 16, and those 8 bytes of a 56-byte range are lost without a block to show for them. */
  lemma AlignZeroLeaksSpace()
    ensures var b := New(8, 64);
            var (p, b') := AllocateBlockAsWritten(b, 0, 16);
            p == Null && b'.cur == 16 && Remaining(b) == 56 && Remaining(b') == 48
    ensures AllocateBlock(New(8, 64), 0, 16) == (Null, New(8, 64))
  {
    assert CheckedAlignUpAsWritten(0, 16, 8, 56) == Claim(Null, 16, 48) by {
      AlignZeroFailsButMoves();
    }
  }

  /** Two successive successful allocations return disjoint blocks, in
      increasing address order, inside [beg, end). */
  lemma AllocationsDisjoint(b: BumpAllocator, a1: U64, s1: U64, a2: U64, s2: U64)
    requires BlockNoWrap(b, a1) && BlockNoWrap(b, a2)
    ensures var (p1, b1) := AllocateBlock(b, a1, s1);
            var (p2, b2) := AllocateBlock(b1, a2, s2);
            p1 != Null && p2 != Null ==> b.beg <= p1 && p1 + s1 <= p2 && p2 + s2 <= b.end
  {
    var (p1, b1) := AllocateBlock(b, a1, s1);
    assert BlockNoWrap(b1, a2);
  }

  /** What is left always accounts for what was used: `remaining_()` is the
      size of the range minus the distance the cursor has travelled. */
  lemma RemainingAccounts(b: BumpAllocator, align: U64, size: U64)
    requires IsValid(b) && BlockNoWrap(b, align)
    ensures var b' := AllocateBlock(b, align, size).1;
            Remaining(b') == (b.end - b.beg) - (b'.cur - b.beg)
  {
  }

  /** A `BumpAllocator(nullptr, nullptr)` or moved-from allocator serves nothing. */
  lemma NullAllocatorServesNothing(align: U64, size: U64)
    ensures AllocateBlock(New(Null, Null), align, size) == (Null, New(Null, Null))
    ensures Remaining(New(Null, Null)) == 0
  {
  }

  /** `deallocate_(ptr)`: always the error `NotImplemented`. */
  function Deallocate<T>(b: BumpAllocator, p: U64): (r: Results.Result<T, Errors.Error>)
    ensures !Results.HasValue(r) && r.err.Some? && r.err.value.code == Errors.NotImplemented
  {
    Results.FromError(Errors.FromCode(Errors.NotImplemented))
  }

  /** The move constructor: the new allocator takes the three pointers and
      the source is left with null pointers, which `is_valid()` rejects. */
  function MoveConstruct(src: BumpAllocator): (r: (BumpAllocator, BumpAllocator))
    ensures r.0 == src
    ensures r.1 == BumpAllocator(Null, Null, Null) && !IsValid(r.1)
  {
    (src, BumpAllocator(Null, Null, Null))
  }

  /** Move assignment; `aliased` is `this == &other`, in which case nothing
      changes. Returns the new states of the target and of the source. */
  function MoveAssign(dst: BumpAllocator, src: BumpAllocator, aliased: bool): (r: (BumpAllocator, BumpAllocator))
    requires aliased ==> dst == src
    ensures r.0 == src
    ensures aliased ==> r.1 == src
    ensures !aliased ==> r.1 == BumpAllocator(Null, Null, Null) && !IsValid(r.1)
  {
    if aliased then (dst, src) else (src, BumpAllocator(Null, Null, Null))
  }

  /** Filling a fresh allocator with one-byte blocks: the i-th request returns
      `begin + i`, every byte of the range is handed out once, and the request
      after the last byte fails with nothing remaining. */
  method FillWithBytes(begin: U64, end: U64) returns (blocks: seq<U64>, last: U64, b: BumpAllocator)
    requires Null < begin < end && end + 1 <= TWO_64
    ensures |blocks| == end - begin
    ensures forall i :: 0 <= i < |blocks| ==> blocks[i] == begin + i
    ensures last == Null && Remaining(b) == 0 && b.cur == end
  {
    b := New(begin, end);
    blocks := [];
    while b.cur < end
      invariant b.beg == begin && b.end == end && begin <= b.cur <= end
      invariant |blocks| == b.cur - begin
      invariant forall i :: 0 <= i < |blocks| ==> blocks[i] == begin + i
      decreases end - b.cur
    {
      var r := AllocateBlock(b, 1, 1);
      blocks, b := blocks + [r.0], r.1;
    }
    var r := AllocateBlock(b, 1, 1);
    last := r.0;
  }
}
