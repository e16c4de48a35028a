/**
 * Address arithmetic on 64-bit addresses: `align_up`, `align_down`,
 * `checked_align_up`, `difference`, and the C-string helpers `strlen_` and
 * `streq_`.
 *
 * Addresses and `usize` values are integers below 2^64; `Null` is 0. Where a
 * `usize` expression of the source can wrap, the model wraps it explicitly
 * with `Wrap`. The bit tricks are modelled arithmetically:
 * `(a & (a - 1)) == 0` holds exactly when `a` is zero or a power of two, and
 * for such `a`, `x & ~(a - 1)` clears the low bits of `x`, which is
 * `x - x % a` (and 0 when `a` is zero, whose mask is all ones).
 */
module Memory {

  const TWO_64: int := 0x1_0000_0000_0000_0000

  /** A `usize` / `uintptr` value. */
  type U64 = x: int | 0 <= x < TWO_64

  /** The null pointer. */
  const Null: U64 := 0

  /** Reduction modulo 2^64, the wrap-around of unsigned 64-bit arithmetic. */
  function Wrap(x: int): (r: U64)
    ensures 0 <= x < TWO_64 ==> r == x
    ensures TWO_64 <= x < 2 * TWO_64 ==> r == x - TWO_64
    ensures -TWO_64 <= x < 0 ==> r == x + TWO_64
  {
    x % TWO_64
  }

  predicate IsPowerOfTwo(n: nat)
    decreases n
  {
    n == 1 || (n >= 2 && n % 2 == 0 && IsPowerOfTwo(n / 2))
  }

  /** The source's test `(align & (align - 1)) == 0`. */
  predicate PassesPowerOfTwoTest(align: U64) {
    align == 0 || IsPowerOfTwo(align)
  }

  /** `x & ~(align - 1)` for an `align` that passes the power-of-two test. */
  function MaskDown(x: U64, align: U64): (r: U64)
    requires PassesPowerOfTwoTest(align)
    ensures align == 0 ==> r == 0
    ensures align > 0 ==> r % align == 0 && r <= x < r + align
  {
    if align == 0 then 0
    else
      MultipleBelow(x, align);
      x - x % align
  }

  /** Quotient and remainder are unique. */
  lemma DivModUnique(x: int, a: int, q: int, r: int)
    requires a > 0 && x == q * a + r && 0 <= r < a
    ensures x % a == r && x / a == q
  {
    var d := q - x / a;
    assert d * a == x % a - r;
  }

  lemma MultipleBelow(x: nat, a: nat)
    requires a > 0
    ensures (x - x % a) % a == 0
    ensures x - x % a <= x < x - x % a + a
  {
    DivModUnique(x - x % a, a, x / a, 0);
  }

  /** Clearing the low bits of `ptr + (a - 1)` rounds `ptr` up. */
  lemma RoundUp(ptr: nat, a: nat)
    requires a > 0
    ensures var x := ptr + a - 1;
            ptr <= x - x % a < ptr + a
    ensures ptr % a == 0 ==> var x := ptr + a - 1; x - x % a == ptr
  {
    var x := ptr + a - 1;
    MultipleBelow(x, a);
    if ptr % a == 0 {
      DivModUnique(ptr, a, ptr / a, 0);
      DivModUnique(x, a, ptr / a, a - 1);
    }
  }

  /** The alignment computations below stay below 2^64: the range that starts
      at `ptr`, extended by `space` bytes and one alignment's worth of
      padding, ends inside the address space. */
  predicate NoWrap(ptr: U64, align: U64, space: U64) {
    ptr + align + space <= TWO_64
  }

  /** `align_up(align, ptr)`: null unless `align` is a power of two; otherwise
      the first multiple of `align` at or above `ptr`. */
  function AlignUp(align: U64, ptr: U64): (r: U64)
    ensures !IsPowerOfTwo(align) ==> r == Null
    ensures IsPowerOfTwo(align) ==> r % align == 0
    ensures IsPowerOfTwo(align) && ptr + align <= TWO_64 ==> ptr <= r < ptr + align
    ensures IsPowerOfTwo(align) && ptr + align <= TWO_64 && ptr % align == 0 ==> r == ptr
  {
    if align == 0 || !PassesPowerOfTwoTest(align) then Null
    else
      var mask := Wrap(align - 1);
      RoundUp(ptr, align);
      MaskDown(Wrap(ptr + mask), align)
  }

  /** `align_down(align, ptr)`: null unless `align` is a power of two; otherwise
      the last multiple of `align` at or below `ptr`. */
  function AlignDown(align: U64, ptr: U64): (r: U64)
    ensures !IsPowerOfTwo(align) ==> r == Null
    ensures IsPowerOfTwo(align) ==> r % align == 0 && r <= ptr < r + align
  {
    if align == 0 || !PassesPowerOfTwoTest(align) then Null
    else MaskDown(ptr, align)
  }

  /** Rounding up and rounding down land at most one alignment apart, and
      coincide on an aligned address. */
  lemma AlignUpDownConsistent(align: U64, ptr: U64)
    requires IsPowerOfTwo(align) && ptr + align <= TWO_64
    ensures AlignDown(align, ptr) <= ptr <= AlignUp(align, ptr)
    ensures AlignUp(align, ptr) - AlignDown(align, ptr) <= align
    ensures ptr % align == 0 <==> AlignUp(align, ptr) == AlignDown(align, ptr)
  {
    var up, down := AlignUp(align, ptr), AlignDown(align, ptr);
    if ptr % align == 0 {
      assert down == MaskDown(ptr, align) == ptr;
    } else {
      RoundUpUnaligned(ptr, align);
      assert up == MaskDown(ptr + align - 1, align);
    }
  }

  /** Rounding up an unaligned address lands one alignment above rounding down. */
  lemma RoundUpUnaligned(ptr: nat, a: nat)
    requires a > 0 && ptr % a != 0
    ensures var x := ptr + a - 1; x - x % a == ptr - ptr % a + a
  {
    var x, q := ptr + a - 1, ptr / a;
    assert ptr == q * a + ptr % a;
    assert (q + 1) * a == q * a + a;
    assert x == (q + 1) * a + (ptr % a - 1);
    DivModUnique(x, a, q + 1, ptr % a - 1);
  }

  /** The outcome of `checked_align_up`: the returned address (`Null` on
      failure) and the new values of its in/out parameters `ptr` and `space`. */
  datatype Claim = Claim(ret: U64, ptr: U64, space: U64)

  /** `checked_align_up` exactly as written: the guard lets `align == 0`
      through, and the all-ones mask then rounds every address down to 0. */
  function CheckedAlignUpAsWritten(align: U64, size: U64, ptr: U64, space: U64): (c: Claim)
    ensures space < size ==> c == Claim(Null, ptr, space)
    ensures c.space <= space
  {
    if space < size || !PassesPowerOfTwoTest(align) then Claim(Null, ptr, space)
    else
      var aligned := MaskDown(Wrap(ptr + Wrap(align - 1)), align);
      var diff := Wrap(aligned - ptr);
      if Wrap(diff + size) > space then Claim(Null, ptr, space)
      else Claim(aligned, Wrap(aligned + size), space - Wrap(diff + size))
  }

  /** With `align == 0` the as-written routine returns null, the failure
      value, and still moves `ptr` and shrinks `space`. */
  lemma AlignZeroFailsButMoves()
    ensures CheckedAlignUpAsWritten(0, 16, 8, 56) == Claim(Null, 16, 48)
  {
  }

  /** `checked_align_up` with the guard rejecting `align == 0` as well, which
      is what its "alignment must be a power of 2" comment asks for. */
  function CheckedAlignUp(align: U64, size: U64, ptr: U64, space: U64): (c: Claim)
    ensures space < size || !IsPowerOfTwo(align) ==> c == Claim(Null, ptr, space)
    ensures IsPowerOfTwo(align) ==> c.ret % align == 0
    ensures IsPowerOfTwo(align) && NoWrap(ptr, align, space) && size <= space ==>
              var a := AlignUp(align, ptr);
              && (a - ptr + size <= space ==> c == Claim(a, a + size, space - (a - ptr) - size))
              && (a - ptr + size > space ==> c == Claim(Null, ptr, space))
  {
    if align == 0 then Claim(Null, ptr, space)
    else if !IsPowerOfTwo(align) then CheckedAlignUpAsWritten(align, size, ptr, space)
    else
      AsWrittenWithPowerOfTwo(align, size, ptr, space);
      CheckedAlignUpAsWritten(align, size, ptr, space)
  }

  /** For a power-of-two alignment the as-written routine rounds `ptr` up
      exactly as `AlignUp` does and claims the padding plus the block. */
  lemma AsWrittenWithPowerOfTwo(align: U64, size: U64, ptr: U64, space: U64)
    requires IsPowerOfTwo(align)
    ensures CheckedAlignUpAsWritten(align, size, ptr, space).ret % align == 0
    ensures NoWrap(ptr, align, space) && size <= space ==>
              var a := AlignUp(align, ptr);
              var c := CheckedAlignUpAsWritten(align, size, ptr, space);
              && (a - ptr + size <= space ==> c == Claim(a, a + size, space - (a - ptr) - size))
              && (a - ptr + size > space ==> c == Claim(Null, ptr, space))
  {
    AsWrittenAligned(align, size, ptr, space);
    if size <= space && NoWrap(ptr, align, space) {
      AsWrittenClaim(align, size, ptr, space);
    }
  }

  /** The address the as-written routine returns is aligned, or null. */
  lemma AsWrittenAligned(align: U64, size: U64, ptr: U64, space: U64)
    requires IsPowerOfTwo(align)
    ensures CheckedAlignUpAsWritten(align, size, ptr, space).ret % align == 0
  {
  }

  /** Away from the top of the address space, the as-written routine claims
      the padding up to `AlignUp` plus the block, or fails without moving. */
  lemma AsWrittenClaim(align: U64, size: U64, ptr: U64, space: U64)
    requires IsPowerOfTwo(align) && NoWrap(ptr, align, space) && size <= space
    ensures var a := AlignUp(align, ptr);
            var c := CheckedAlignUpAsWritten(align, size, ptr, space);
            && (a - ptr + size <= space ==> c == Claim(a, a + size, space - (a - ptr) - size))
            && (a - ptr + size > space ==> c == Claim(Null, ptr, space))
  {
    var a := AlignUp(align, ptr);
    assert Wrap(align - 1) == align - 1;
    assert Wrap(ptr + (align - 1)) == ptr + align - 1;
    assert MaskDown(ptr + align - 1, align) == a;
    assert Wrap(a - ptr) == a - ptr;
    assert Wrap(a - ptr + size) == a - ptr + size;
  }

  /** With the guard corrected, every null return on a non-null `ptr` leaves
      `ptr` and `space` untouched, and a success keeps the end of the range
      `ptr + space` where it was. */
  lemma CheckedAlignUpFailureChangesNothing(align: U64, size: U64, ptr: U64, space: U64)
    requires NoWrap(ptr, align, space) && ptr != Null
    ensures var c := CheckedAlignUp(align, size, ptr, space);
            && (c.ret == Null ==> c.ptr == ptr && c.space == space)
            && (c.ret != Null ==> ptr <= c.ret && c.ret + size == c.ptr && c.ptr + c.space == ptr + space)
  {
  }

  /** Two successful calls on the same `ptr`/`space` pair return increasing,
      non-overlapping blocks. */
  lemma CheckedAlignUpSuccessive(a1: U64, s1: U64, a2: U64, s2: U64, ptr: U64, space: U64)
    requires NoWrap(ptr, a1, space) && ptr + space + a2 <= TWO_64 && ptr != Null
    requires CheckedAlignUp(a1, s1, ptr, space).ret != Null
    requires var c1 := CheckedAlignUp(a1, s1, ptr, space);
             CheckedAlignUp(a2, s2, c1.ptr, c1.space).ret != Null
    ensures var c1 := CheckedAlignUp(a1, s1, ptr, space);
            var c2 := CheckedAlignUp(a2, s2, c1.ptr, c1.space);
            ptr <= c1.ret && c1.ret + s1 <= c2.ret && c2.ret + s2 <= ptr + space
  {
    var c1 := CheckedAlignUp(a1, s1, ptr, space);
    CheckedAlignUpFailureChangesNothing(a1, s1, ptr, space);
    assert NoWrap(c1.ptr, a2, c1.space);
    CheckedAlignUpFailureChangesNothing(a2, s2, c1.ptr, c1.space);
  }

  /** `difference(start, end)`: `end - start` in wrapping `usize` arithmetic. */
  function Difference(start: U64, end: U64): (d: U64)
    ensures (start + d) % TWO_64 == end
    ensures start <= end ==> d == end - start
  {
    Wrap(end - start)
  }

  /** Memory holds a NUL at or after `p`. */
  ghost predicate Terminated(mem: seq<char>, p: nat) {
    exists k :: p <= k < |mem| && mem[k] == '\0'
  }

  /** `strlen_`: the distance from `p` to the first NUL. */
  function StrLen(mem: seq<char>, p: nat): (n: nat)
    requires Terminated(mem, p)
    ensures p + n < |mem| && mem[p + n] == '\0'
    ensures forall i :: p <= i < p + n ==> mem[i] != '\0'
    decreases |mem| - p
  {
    var k :| p <= k < |mem| && mem[k] == '\0';
    if mem[p] == '\0' then 0
    else
      assert Terminated(mem, p + 1) by { assert p + 1 <= k; }
      1 + StrLen(mem, p + 1)
  }

  /** The characters of the C string at `p`, without its terminator. */
  function CString(mem: seq<char>, p: nat): (s: seq<char>)
    requires Terminated(mem, p)
  {
    mem[p .. p + StrLen(mem, p)]
  }

  /** `streq_`: equal lengths and equal characters. */
  method StrEq(mem: seq<char>, s1: nat, s2: nat) returns (eq: bool)
    requires Terminated(mem, s1) && Terminated(mem, s2)
    ensures eq <==> CString(mem, s1) == CString(mem, s2)
  {
    var len1 := StrLen(mem, s1);
    var len2 := StrLen(mem, s2);
    if len1 != len2 {
      assert |CString(mem, s1)| != |CString(mem, s2)|;
      return false;
    }
    var i := 0;
    while i < len1
      invariant i <= len1
      invariant mem[s1 .. s1 + i] == mem[s2 .. s2 + i]
    {
      if mem[s1 + i] != mem[s2 + i] {
        assert CString(mem, s1)[i] != CString(mem, s2)[i];
        return false;
      }
      assert mem[s1 .. s1 + i + 1] == mem[s1 .. s1 + i] + [mem[s1 + i]];
      assert mem[s2 .. s2 + i + 1] == mem[s2 .. s2 + i] + [mem[s2 + i]];
      i := i + 1;
    }
    return true;
  }
}
