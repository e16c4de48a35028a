/**
 * `Span<T>`: a non-owning view of contiguous elements, held as a pair of
 * pointers [beg, end). Memory is a sequence `mem` indexed by element
 * address; a view reads and writes that sequence and never copies it, so
 * every view over the same addresses sees the same elements.
 */
module Spans {
  import opened Memory

  datatype Span = Span(beg: U64, end: U64)

  /** A span whose end does not precede its beginning: what every constructor
      produces and every operation below keeps. */
  predicate WellFormed(s: Span) {
    s.beg <= s.end
  }

  /** The span's addresses lie inside `mem`. */
  predicate InMemory<T>(mem: seq<T>, s: Span) {
    WellFormed(s) && s.end <= |mem|
  }

  /** `Span()`: both pointers null. */
  function Default(): (s: Span)
    ensures WellFormed(s) && Size(s) == 0 && IsEmpty(s)
    ensures s.beg == Null && s.end == Null
  {
    Span(Null, Null)
  }

  /** `Span(ptr, len)` and `Span(T (&arr)[n])` (with `ptr` the array's first
      element and `len` its extent). Forming `ptr + len` past the address
      space is undefined, so it is excluded. */
  function FromPtrLen(ptr: U64, len: U64): (s: Span)
    requires ptr + len < TWO_64
    ensures WellFormed(s) && s.beg == ptr && Size(s) == len
  {
    Span(ptr, ptr + len)
  }

  /** `size()`: `end - beg` as a pointer difference cast to `usize`. */
  function Size(s: Span): (n: U64)
    ensures WellFormed(s) ==> s.beg + n == s.end
  {
    Wrap(s.end - s.beg)
  }

  /** `size_bytes()`: the size times the element size, in `usize` arithmetic. */
  function SizeBytes(s: Span, elemSize: U64): (n: U64)
    ensures Size(s) * elemSize < TWO_64 ==> n == Size(s) * elemSize
  {
    Wrap(Size(s) * elemSize)
  }

  /** `empty()`: `size()` is the wrapped pointer difference, so a span is
      empty exactly when its two ends coincide, well formed or not. */
  function IsEmpty(s: Span): (e: bool)
    ensures e <==> s.beg == s.end
  {
    Size(s) == 0
  }

  /** The elements the span views. */
  function Contents<T>(mem: seq<T>, s: Span): (xs: seq<T>)
    requires InMemory(mem, s)
    ensures |xs| == Size(s)
  {
    mem[s.beg .. s.end]
  }

  /** `at(i)` and `operator[](i)`, which delegates to it: asserts `i < size()`. */
  function At<T>(mem: seq<T>, s: Span, i: U64): (x: T)
    requires InMemory(mem, s) && i < Size(s)
    ensures x == Contents(mem, s)[i]
  {
    mem[s.beg + i]
  }

  /** Assigning through `at(i)`: the new memory. */
  function Store<T>(mem: seq<T>, s: Span, i: U64, x: T): (mem': seq<T>)
    requires InMemory(mem, s) && i < Size(s)
    ensures |mem'| == |mem| && InMemory(mem', s)
    ensures At(mem', s, i) == x
    ensures forall a :: 0 <= a < |mem| && a != s.beg + i ==> mem'[a] == mem[a]
  {
    mem[s.beg + i := x]
  }

  /** `front()`: asserts both pointers non-null and the span non-empty. */
  function Front<T>(mem: seq<T>, s: Span): (x: T)
    requires InMemory(mem, s)
    requires s.beg != Null && s.end != Null && s.beg < s.end
    ensures x == Contents(mem, s)[0]
  {
    mem[s.beg]
  }

  /** `back()`: the element before `end`, under the same assertion. */
  function Back<T>(mem: seq<T>, s: Span): (x: T)
    requires InMemory(mem, s)
    requires s.beg != Null && s.end != Null && s.beg < s.end
    ensures x == Contents(mem, s)[Size(s) - 1]
  {
    mem[s.end - 1]
  }

  /** `r` views a stretch of the addresses `s` views. */
  predicate Within(r: Span, s: Span) {
    WellFormed(r) && s.beg <= r.beg && r.end <= s.end
  }

  /** `subspan(offset, count)`: asserts the window lies inside the span. */
  function Subspan(s: Span, offset: U64, count: U64): (r: Span)
    requires WellFormed(s)
    requires offset <= Size(s) && offset + count <= Size(s)
    ensures Within(r, s) && Size(r) == count && r.beg == s.beg + offset
  {
    Span(s.beg + offset, s.beg + offset + count)
  }

  /** `subspan(offset)`: from `offset` to the end. */
  function SubspanFrom(s: Span, offset: U64): (r: Span)
    requires WellFormed(s) && offset <= Size(s)
    ensures Within(r, s) && r.end == s.end && Size(r) == Size(s) - offset
  {
    Span(s.beg + offset, s.beg + offset + (Size(s) - offset))
  }

  /** `first(n)`: the first `n` elements. */
  function First(s: Span, n: U64): (r: Span)
    requires WellFormed(s) && n <= Size(s)
    ensures Within(r, s) && r.beg == s.beg && Size(r) == n
  {
    Span(s.beg, s.beg + n)
  }

  /** `last(n)`: the last `n` elements, starting at `end - n`. */
  function Last(s: Span, n: U64): (r: Span)
    requires WellFormed(s) && n <= Size(s)
    ensures Within(r, s) && r.end == s.end && Size(r) == n
  {
    Span(s.end - n, s.end - n + n)
  }

  /** `drop_front(n)`: all but the first `n` elements; the same span as
      `subspan(n)`. */
  function DropFront(s: Span, n: U64): (r: Span)
    requires WellFormed(s) && n <= Size(s)
    ensures Within(r, s) && r.end == s.end && Size(r) == Size(s) - n
    ensures r == SubspanFrom(s, n)
  {
    Span(s.beg + n, s.beg + n + (Size(s) - n))
  }

  /** `drop_back(n)`: all but the last `n` elements. */
  function DropBack(s: Span, n: U64): (r: Span)
    requires WellFormed(s) && n <= Size(s)
    ensures Within(r, s) && r.beg == s.beg && Size(r) == Size(s) - n
  {
    Span(s.beg, s.beg + (Size(s) - n))
  }

  /** A view inside another views a slice of its elements. */
  lemma WithinContents<T>(mem: seq<T>, r: Span, s: Span)
    requires InMemory(mem, s) && Within(r, s)
    ensures InMemory(mem, r)
    ensures Contents(mem, r) == Contents(mem, s)[r.beg - s.beg .. r.end - s.beg]
  {
    var inner := Contents(mem, s)[r.beg - s.beg .. r.end - s.beg];
    forall k | 0 <= k < Size(r) ensures Contents(mem, r)[k] == inner[k] {
      assert inner[k] == mem[r.beg + k];
    }
  }

  /** What each slicing operation views, in terms of the parent's elements. */
  lemma SliceContents<T>(mem: seq<T>, s: Span, o: U64, c: U64, n: U64)
    requires InMemory(mem, s) && o + c <= Size(s) && n <= Size(s)
    ensures Contents(mem, Subspan(s, o, c)) == Contents(mem, s)[o .. o + c]
    ensures Contents(mem, SubspanFrom(s, o)) == Contents(mem, s)[o..]
    ensures Contents(mem, First(s, n)) == Contents(mem, s)[..n]
    ensures Contents(mem, Last(s, n)) == Contents(mem, s)[Size(s) - n ..]
    ensures Contents(mem, DropFront(s, n)) == Contents(mem, s)[n..]
    ensures Contents(mem, DropBack(s, n)) == Contents(mem, s)[.. Size(s) - n]
  {
    WithinContents(mem, Subspan(s, o, c), s);
    WithinContents(mem, SubspanFrom(s, o), s);
    WithinContents(mem, First(s, n), s);
    WithinContents(mem, Last(s, n), s);
    WithinContents(mem, DropFront(s, n), s);
    WithinContents(mem, DropBack(s, n), s);
  }

  /** The slicing operations agree with one another: `first(n)` followed by
      `drop_front(n)` covers the span, `last` and `drop_back` are `drop_front`
      and `first` seen from the other end, and `subspan(o, c)` is `first(c)`
      of `drop_front(o)`. */
  lemma SliceAlgebra<T>(mem: seq<T>, s: Span, o: U64, c: U64, n: U64)
    requires InMemory(mem, s) && o + c <= Size(s) && n <= Size(s)
    ensures Contents(mem, First(s, n)) + Contents(mem, DropFront(s, n)) == Contents(mem, s)
    ensures Last(s, n) == DropFront(s, Size(s) - n)
    ensures DropBack(s, n) == First(s, Size(s) - n)
    ensures Subspan(s, o, c) == First(DropFront(s, o), c)
    ensures SubspanFrom(s, o) == DropFront(s, o)
  {
    SliceContents(mem, s, o, c, n);
  }

  /** A store through a sub-view is seen by the parent view at the matching
      index, and the parent's other elements are untouched: views share
      storage. */
  lemma StoreThroughSubview<T>(mem: seq<T>, s: Span, o: U64, c: U64, i: U64, x: T)
    requires InMemory(mem, s) && o + c <= Size(s) && i < c
    ensures var mem' := Store(mem, Subspan(s, o, c), i, x);
            InMemory(mem', s) && Contents(mem', s) == Contents(mem, s)[o + i := x]
  {
    var r := Subspan(s, o, c);
    var mem' := Store(mem, r, i, x);
    forall k | 0 <= k < Size(s)
      ensures Contents(mem', s)[k] == Contents(mem, s)[o + i := x][k]
    {
      assert Contents(mem', s)[k] == mem'[s.beg + k];
    }
  }
}
