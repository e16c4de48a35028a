/**
 * The `TRY` and `MUST` macros. Both evaluate their expression once into a
 * temporary Result. `TRY` returns the released error from the enclosing
 * function when the temporary has no value, and otherwise evaluates to the
 * released value; `MUST` asserts instead of returning.
 */
module Try {
  import Optional
  import opened Results

  /** What a `TRY` does to the enclosing function's control flow: either the
      expression yields a value and execution continues, or the function
      returns a Result built from the given error. */
  datatype Flow<T, E> = Continue(value: T) | Return(err: E)

  /** `TRY(e)`: the released value, or the released error that the
      enclosing function returns. `release_error` asserts when the error
      side was already released. */
  function TryOrReturn<T, E>(r: Result<T, E>): (f: Flow<T, E>)
    requires HasValue(r) || r.err.Some?
    ensures f.Continue? <==> HasValue(r)
    ensures f.Continue? ==> r.val == Optional.Some(f.value)
    ensures f.Return? ==> r.err == Optional.Some(f.err)
  {
    var temp := r;
    if !HasValue(temp) then Return(ReleaseError(temp).0)
    else Continue(ReleaseValue(temp).0)
  }

  /** `MUST(e)` on a Result: asserts `has_value()`, then the released value. */
  function Must<T, E>(r: Result<T, E>): (v: T)
    requires HasValue(r)
    ensures r.val == Optional.Some(v)
  {
    var temp := r;
    ReleaseValue(temp).0
  }

  /** `MUST(e)` on an Option: asserts `has_value()`, then the released value. */
  function MustOption<T>(o: Optional.Option<T>): (v: T)
    requires Optional.HasValue(o)
    ensures o == Optional.Some(v)
  {
    var temp := o;
    Optional.ReleaseValue(temp).0
  }

  /** A function body written with `:-`: continue with `k` applied to the value,
      or return the propagated error. */
  function Bind<T, U, E>(r: Result<T, E>, k: T -> U): Result<U, E>
    requires HasValue(r) || r.err.Some?
  {
    var x :- r;
    FromValue(k(x))
  }

  /** Dafny's `:-` behaves exactly as `TRY`: on an error the function
      returns a Result holding the released error, on a value it continues
      with what `TRY` yields. */
  lemma BindAgreesWithTry<T, U, E>(r: Result<T, E>, k: T -> U)
    requires HasValue(r) || r.err.Some?
    ensures match TryOrReturn(r)
            case Return(e) => Bind(r, k) == FromError(e)
            case Continue(v) => Bind(r, k) == FromValue(k(v))
  {
  }
}
