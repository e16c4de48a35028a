/**
 * `Result_<T, E>`: two `Option_` fields, a value side and an error side.
 * Construction populates exactly one side; `release_value`/`release_error`
 * empty a side without filling the other, so "exactly one side" holds of
 * freshly constructed Results, not of every reachable state.
 *
 * The datatype is failure-compatible, so Dafny's `:-` is the model of the
 * library's `TRY`: a Result without a value propagates its error side.
 */
module Results {
  import opened Optional

  datatype Result<T, E> = Result(val: Option<T>, err: Option<E>) {

    /** `TRY` takes the early-return branch when `has_value()` is false. */
    predicate IsFailure() {
      !val.Some?
    }

    /** The early return of `TRY`: the released error, converted into the
        enclosing function's Result type. `release_error` asserts that the
        error side is populated. */
    function PropagateFailure<U>(): Result<U, E>
      requires IsFailure() && err.Some?
    {
      Result(None, Some(err.value))
    }

    /** The value `TRY` evaluates to: the released value. */
    function Extract(): T
      requires val.Some?
    {
      val.value
    }
  }

  /** Exactly one side populated: what every constructor establishes. */
  predicate ExactlyOneSide<T, E>(r: Result<T, E>) {
    r.val.Some? != r.err.Some?
  }

  /** `Result_(const T&)` / `Result_(T&&)`: only the value side. */
  function FromValue<T, E>(x: T): (r: Result<T, E>)
    ensures ExactlyOneSide(r) && HasValue(r) && Value(r) == x
  {
    Result(Make(x), Empty())
  }

  /** `Result_(const E&)` / `Result_(E&&)`: only the error side. */
  function FromError<T, E>(e: E): (r: Result<T, E>)
    ensures ExactlyOneSide(r) && !HasValue(r) && Error(r) == e
  {
    Result(Empty(), Make(e))
  }

  /** `Result_()`: the error side holds a default-constructed `E`, given here
      as `defaultE` because `E{}` depends on the error type. */
  function Default<T, E>(defaultE: E): (r: Result<T, E>)
    ensures ExactlyOneSide(r) && !HasValue(r) && Error(r) == defaultE
  {
    Result(Empty(), Make(defaultE))
  }

  /** `create(args...)`: a success built from `T{args...}`, here the built `x`. */
  function Create<T, E>(x: T): (r: Result<T, E>)
    ensures HasValue(r) && ExactlyOneSide(r) && Value(r) == x
  {
    FromValue(x)
  }

  /** `has_value()` and `operator bool` look at the value side only: the
      error side, populated or not, does not enter. */
  function HasValue<T, E>(r: Result<T, E>): (b: bool)
    ensures b <==> r.val != None
    ensures b ==> r.val == Some(r.val.value)
  {
    Optional.HasValue(r.val)
  }

  /** `value()`: dereferences the value side; Option's assertion requires it. */
  function Value<T, E>(r: Result<T, E>): (v: T)
    requires HasValue(r)
    ensures r.val == Some(v)
  {
    Optional.Value(r.val)
  }

  /** `error()`: dereferences the error side; Option's assertion requires it. */
  function Error<T, E>(r: Result<T, E>): (e: E)
    requires r.err.Some?
    ensures r.err == Some(e)
  {
    Optional.Value(r.err)
  }

  /** `value_or(args...)`: the value when present, else `T{args...}` (`fallback`).
      Never asserts. */
  function ValueOr<T, E>(r: Result<T, E>, fallback: T): (v: T)
    ensures HasValue(r) ==> v == Value(r)
    ensures !HasValue(r) ==> v == fallback
  {
    if HasValue(r) then Value(r) else fallback
  }

  /** `error_or(args...)`: when the value side is empty it calls `error()`,
      whose assertion needs the error side; so it asserts on a Result whose
      both sides were released. */
  function ErrorOr<T, E>(r: Result<T, E>, fallback: E): (e: E)
    requires HasValue(r) || r.err.Some?
    ensures !HasValue(r) ==> r.err == Some(e)
    ensures HasValue(r) ==> e == fallback
  {
    if !HasValue(r) then Error(r) else fallback
  }

  /** `release_value()`: the value side's `release_value`. Returns the value
      and the Result's new state. */
  function ReleaseValue<T, E>(r: Result<T, E>): (p: (T, Result<T, E>))
    requires HasValue(r)
    ensures r.val == Some(p.0)
    ensures !HasValue(p.1) && p.1.err == r.err
  {
    var (v, val') := Optional.ReleaseValue(r.val);
    (v, Result(val', r.err))
  }

  /** `release_error()`: the error side's `release_value`. */
  function ReleaseError<T, E>(r: Result<T, E>): (p: (E, Result<T, E>))
    requires r.err.Some?
    ensures r.err == Some(p.0)
    ensures p.1.err.None? && p.1.val == r.val
  {
    var (e, err') := Optional.ReleaseValue(r.err);
    (e, Result(r.val, err'))
  }

  /** `call_if_error(cb)`: whether the callback runs, and the Result returned
      (the same object). The callback receives the Result itself and may
      change it or move out of it; `cb` maps the Result it receives to the
      state the callback leaves it in. */
  function CallIfError<T, E>(r: Result<T, E>, cb: Result<T, E> -> Result<T, E>): (p: (bool, Result<T, E>))
    ensures p.0 <==> !HasValue(r)
    ensures p.0 ==> p.1 == cb(r)
    ensures !p.0 ==> p.1 == r
  {
    if !HasValue(r) then (true, cb(r)) else (false, r)
  }

  /** `call_if_value(cb)`: whether the callback runs, and the Result returned. */
  function CallIfValue<T, E>(r: Result<T, E>, cb: Result<T, E> -> Result<T, E>): (p: (bool, Result<T, E>))
    ensures p.0 <==> HasValue(r)
    ensures p.0 ==> p.1 == cb(r)
    ensures !p.0 ==> p.1 == r
  {
    if HasValue(r) then (true, cb(r)) else (false, r)
  }

  /** Exactly one of the two hands the Result to its callback; the other
      returns it untouched, and when the callback leaves the Result alone
      both return it as it was. */
  lemma ExactlyOneCallbackRuns<T, E>(r: Result<T, E>, cb: Result<T, E> -> Result<T, E>)
    ensures CallIfError(r, cb).0 != CallIfValue(r, cb).0
    ensures CallIfError(r, cb).1 == r || CallIfValue(r, cb).1 == r
    ensures cb(r) == r ==> CallIfError(r, cb).1 == r && CallIfValue(r, cb).1 == r
  {
  }

  /** The defaulted move constructor moves both Options: the new Result takes
      the source's sides and the source is left with neither. */
  function MoveConstruct<T, E>(src: Result<T, E>): (p: (Result<T, E>, Result<T, E>))
    ensures p.0 == src
    ensures p.1.val.None? && p.1.err.None?
  {
    var (v, srcVal) := Optional.MoveConstruct(src.val);
    var (e, srcErr) := Optional.MoveConstruct(src.err);
    (Result(v, e), Result(srcVal, srcErr))
  }

  /** A constructed Result has exactly one side, but releasing its value leaves
      neither: the exclusivity is not an invariant of every state. */
  lemma ReleaseLeavesNeitherSide<T, E>(x: T)
    ensures var r := FromValue<T, E>(x);
            ExactlyOneSide(r) && !ExactlyOneSide(ReleaseValue(r).1)
  {
  }
}
