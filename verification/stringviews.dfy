/**
 * `StringView_<Char>`: a read-only view of characters, held as a pair of
 * pointers [beg, end) into memory `mem`. The view's length is fixed at
 * construction; NUL characters inside it are ordinary characters.
 */
module StringViews {
  import opened Memory

  datatype StringView = StringView(beg: U64, end: U64)

  predicate WellFormed(v: StringView) {
    v.beg <= v.end
  }

  /** The view's characters lie inside `mem`. */
  predicate InMemory(mem: seq<char>, v: StringView) {
    WellFormed(v) && v.end <= |mem|
  }

  /** `size()`: `end - beg` as a pointer difference cast to `usize`. */
  function Size(v: StringView): (n: U64)
    ensures WellFormed(v) ==> v.beg + n == v.end
  {
    Wrap(v.end - v.beg)
  }

  /** `size_bytes()`: the size times the character width, in `usize` arithmetic. */
  function SizeBytes(v: StringView, charSize: U64): (n: U64)
    ensures Size(v) * charSize < TWO_64 ==> n == Size(v) * charSize
  {
    Wrap(Size(v) * charSize)
  }

  /** `empty()`: `size()` is the wrapped pointer difference, so a view is
      empty exactly when its two ends coincide, well formed or not. */
  function IsEmpty(v: StringView): (e: bool)
    ensures e <==> v.beg == v.end
  {
    Size(v) == 0
  }

  /** The characters the view shows. */
  function Contents(mem: seq<char>, v: StringView): (s: seq<char>)
    requires InMemory(mem, v)
    ensures |s| == Size(v)
  {
    mem[v.beg .. v.end]
  }

  /** `StringView_()`: both pointers null. */
  function Default(): (v: StringView)
    ensures WellFormed(v) && IsEmpty(v)
    ensures v.beg == Null && v.end == Null
  {
    StringView(Null, Null)
  }

  /** `StringView_(ptr)`: the C string at `ptr`, up to its first NUL. */
  function FromCStr(mem: seq<char>, ptr: U64): (v: StringView)
    requires |mem| <= TWO_64 && Terminated(mem, ptr)
    ensures InMemory(mem, v) && v.beg == ptr
    ensures Contents(mem, v) == CString(mem, ptr)
    ensures v.end < |mem| && mem[v.end] == '\0'
  {
    var len := StrLen(mem, ptr);
    StringView(ptr, ptr + len)
  }

  /** `StringView_(ptr, len)`: exactly `len` characters, NULs included. */
  function FromPtrLen(ptr: U64, len: U64): (v: StringView)
    requires ptr + len < TWO_64
    ensures WellFormed(v) && v.beg == ptr && Size(v) == len
  {
    StringView(ptr, ptr + len)
  }

  /** `StringView_(const Char (&arr)[n])`: the array minus its last element,
      taken to be the terminator. A C array has at least one element. */
  function FromArray(ptr: U64, n: U64): (v: StringView)
    requires 1 <= n && ptr + n < TWO_64
    ensures WellFormed(v) && v.beg == ptr && Size(v) == n - 1
  {
    StringView(ptr, ptr + n - 1)
  }

  /** An array whose only NUL is its last element gives the same view through
      the array constructor as through the C-string constructor; an array
      with an earlier NUL gives a longer view through the array constructor. */
  lemma ArrayAgreesWithCStr(mem: seq<char>, ptr: U64, n: U64)
    requires |mem| < TWO_64 && 1 <= n && ptr + n <= |mem|
    requires mem[ptr + n - 1] == '\0'
    ensures Terminated(mem, ptr)
    ensures (forall i :: ptr <= i < ptr + n - 1 ==> mem[i] != '\0') <==>
            FromArray(ptr, n) == FromCStr(mem, ptr)
    ensures Size(FromCStr(mem, ptr)) <= Size(FromArray(ptr, n))
  {
    assert Terminated(mem, ptr) by { assert ptr <= ptr + n - 1 < |mem|; }
  }

  /** `at(i)`: asserts `beg + i < end`. */
  function At(mem: seq<char>, v: StringView, i: U64): (c: char)
    requires InMemory(mem, v) && v.beg + i < v.end
    ensures i < Size(v) && c == Contents(mem, v)[i]
  {
    mem[v.beg + i]
  }

  /** `operator[](i)`: no bounds check; it reads whatever is at `beg + i`.
      Inside the view it agrees with `at`. */
  function Index(mem: seq<char>, v: StringView, i: U64): (c: char)
    requires v.beg + i < |mem|
    ensures InMemory(mem, v) && i < Size(v) ==> c == At(mem, v, i)
  {
    mem[v.beg + i]
  }

  /** `subview(offset, count)`: asserts the window lies inside the view. */
  function Subview(v: StringView, offset: U64, count: U64): (r: StringView)
    requires WellFormed(v) && offset <= Size(v) && offset + count <= Size(v)
    ensures WellFormed(r) && v.beg <= r.beg && r.end <= v.end
    ensures r.beg == v.beg + offset && Size(r) == count
  {
    StringView(v.beg + offset, v.beg + offset + count)
  }

  /** `subview(offset)`: from `offset` to the end. */
  function SubviewFrom(v: StringView, offset: U64): (r: StringView)
    requires WellFormed(v) && offset <= Size(v)
    ensures WellFormed(r) && r.beg == v.beg + offset && r.end == v.end
  {
    StringView(v.beg + offset, v.beg + offset + (Size(v) - offset))
  }

  /** A subview shows the matching slice of its parent's characters. */
  lemma SubviewContents(mem: seq<char>, v: StringView, o: U64, c: U64)
    requires InMemory(mem, v) && o + c <= v.end - v.beg
    ensures Contents(mem, Subview(v, o, c)) == Contents(mem, v)[o .. o + c]
    ensures Contents(mem, SubviewFrom(v, o)) == Contents(mem, v)[o..]
  {
    var r := Subview(v, o, c);
    forall k | 0 <= k < c ensures Contents(mem, r)[k] == Contents(mem, v)[o + k] {
    }
    var t := SubviewFrom(v, o);
    forall k | 0 <= k < Size(t) ensures Contents(mem, t)[k] == Contents(mem, v)[o + k] {
    }
  }

  /** Taking a subview of a subview is one subview at the summed offset. */
  lemma SubviewOfSubview(v: StringView, o1: U64, c1: U64, o2: U64, c2: U64)
    requires WellFormed(v) && o1 + c1 <= Size(v) && o2 + c2 <= c1
    ensures Subview(Subview(v, o1, c1), o2, c2) == Subview(v, o1 + o2, c2)
  {
  }

  /** `operator==`: equal sizes, then character by character. */
  method Equals(mem: seq<char>, a: StringView, b: StringView) returns (eq: bool)
    requires InMemory(mem, a) && InMemory(mem, b)
    ensures eq <==> Contents(mem, a) == Contents(mem, b)
  {
    if Size(b) != Size(a) {
      return false;
    }
    var i: U64 := 0;
    while i < Size(a)
      invariant i <= Size(a)
      invariant Contents(mem, a)[..i] == Contents(mem, b)[..i]
    {
      if Index(mem, b, i) != Index(mem, a, i) {
        assert Contents(mem, a)[i] != Contents(mem, b)[i];
        return false;
      }
      assert Contents(mem, a)[..i + 1] == Contents(mem, a)[..i] + [Contents(mem, a)[i]];
      assert Contents(mem, b)[..i + 1] == Contents(mem, b)[..i] + [Contents(mem, b)[i]];
      i := i + 1;
    }
    assert Contents(mem, a) == Contents(mem, a)[..i];
    assert Contents(mem, b) == Contents(mem, b)[..i];
    return true;
  }

  /** `operator!=`: the same walk with the answers swapped, so it is always
      the negation of `operator==`. */
  method NotEquals(mem: seq<char>, a: StringView, b: StringView) returns (ne: bool)
    requires InMemory(mem, a) && InMemory(mem, b)
    ensures ne <==> Contents(mem, a) != Contents(mem, b)
  {
    if Size(b) != Size(a) {
      return true;
    }
    var i: U64 := 0;
    while i < Size(a)
      invariant i <= Size(a)
      invariant Contents(mem, a)[..i] == Contents(mem, b)[..i]
    {
      if Index(mem, b, i) != Index(mem, a, i) {
        assert Contents(mem, a)[i] != Contents(mem, b)[i];
        return true;
      }
      assert Contents(mem, a)[..i + 1] == Contents(mem, a)[..i] + [Contents(mem, a)[i]];
      assert Contents(mem, b)[..i + 1] == Contents(mem, b)[..i] + [Contents(mem, b)[i]];
      i := i + 1;
    }
    assert Contents(mem, a) == Contents(mem, a)[..i];
    assert Contents(mem, b) == Contents(mem, b)[..i];
    return false;
  }
}
