/**
 * `Array<T, sz_>`: a fixed-size array held by value. The extent `sz_` is
 * part of the type in the source; here it is the length of `buf`, which no
 * operation changes.
 */
module Arrays {

  datatype Array<T> = Array(buf: seq<T>)

  /** `size()`: the number of elements held, repeats included; every
      element held sits at an index below it. */
  function Size<T>(a: Array<T>): (n: nat)
    ensures n == |multiset(a.buf)|
    ensures forall x :: x in a.buf ==> exists i :: 0 <= i < n && a.buf[i] == x
  {
    |a.buf|
  }

  /** `empty()`: the array holds no element at all. */
  function IsEmpty<T>(a: Array<T>): (e: bool)
    ensures e <==> a.buf == []
    ensures e <==> forall x :: x !in a.buf
  {
    assert a.buf != [] ==> a.buf[0] in a.buf;
    Size(a) == 0
  }

  /** `Array()`: the storage is value-initialised (`buff_{}`), every element
      being `T{}`, given here as `zero`. */
  function Default<T>(n: nat, zero: T): (a: Array<T>)
    ensures Size(a) == n
    ensures forall i :: 0 <= i < n ==> a.buf[i] == zero
  {
    Array(seq(n, _ => zero))
  }

  /** `Array(args...)`: aggregate initialisation of the first elements, the
      rest value-initialised. More arguments than elements does not compile. */
  function FromArgs<T>(n: nat, args: seq<T>, zero: T): (a: Array<T>)
    requires |args| <= n
    ensures Size(a) == n
    ensures a.buf[..|args|] == args
    ensures forall i :: |args| <= i < n ==> a.buf[i] == zero
  {
    Array(args + seq(n - |args|, _ => zero))
  }

  /** `Array(T (&arr)[sz_])` and `Array(T (&&arr)[sz_])`: copies (or moves)
      every element of a C array of the same extent, one index at a time. */
  method FromCArray<T>(arr: seq<T>, zero: T) returns (a: Array<T>)
    ensures a.buf == arr
  {
    a := Default(|arr|, zero);
    var i := 0;
    while i < |arr|
      invariant i <= |arr| && Size(a) == |arr|
      invariant a.buf[..i] == arr[..i]
    {
      a := Array(a.buf[i := arr[i]]);
      i := i + 1;
    }
    assert a.buf == a.buf[..i];
    assert arr == arr[..i];
  }

  /** `fill(v)`: assigns `v` to every element. */
  method Fill<T>(a: Array<T>, v: T) returns (r: Array<T>)
    ensures Size(r) == Size(a)
    ensures forall i :: 0 <= i < Size(r) ==> r.buf[i] == v
  {
    r := a;
    var i := 0;
    while i < Size(a)
      invariant i <= Size(a) && Size(r) == Size(a)
      invariant forall j :: 0 <= j < i ==> r.buf[j] == v
    {
      r := Array(r.buf[i := v]);
      i := i + 1;
    }
  }

  /** `at(i)`: asserts `i < size()`. `operator[]` reads the same element
      without the assertion; an index past the end is undefined behaviour
      there, so it has no separate model. */
  function At<T>(a: Array<T>, i: nat): (x: T)
    requires i < Size(a)
    ensures x == a.buf[i] && x in a.buf
  {
    a.buf[i]
  }

  /** Assigning through `at(i)`: the new array, which differs only at `i`. */
  function Store<T>(a: Array<T>, i: nat, x: T): (r: Array<T>)
    requires i < Size(a)
    ensures Size(r) == Size(a) && At(r, i) == x
    ensures forall j :: 0 <= j < Size(a) && j != i ==> r.buf[j] == a.buf[j]
  {
    Array(a.buf[i := x])
  }

  /** `front()`: asserts the array is not empty. */
  function Front<T>(a: Array<T>): (x: T)
    requires !IsEmpty(a)
    ensures x == At(a, 0)
  {
    a.buf[0]
  }

  /** `back()`: the element at `sz_ - 1`, under the same assertion. */
  function Back<T>(a: Array<T>): (x: T)
    requires !IsEmpty(a)
    ensures x == At(a, Size(a) - 1)
  {
    a.buf[Size(a) - 1]
  }
}
