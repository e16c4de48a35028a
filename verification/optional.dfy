/**
 * `Option_<T>`: a nullable container owning at most one value in place.
 * The in-place storage and the explicit destructor calls become a datatype:
 * `Some(v)` is "has_value_ is true and the slot holds a live v".
 * Every operation that mutates the C++ object returns its new state.
 */
module Optional {

  datatype Option<T> = None | Some(value: T)

  /** `has_value()` / `operator bool`: some value is held, and it is the one
      `value()` would return. */
  function HasValue<T>(o: Option<T>): (b: bool)
    ensures b <==> o != None
    ensures b ==> o == Some(o.value)
  {
    o.Some?
  }

  /** `Option_()` and `Option_(None_)`: an empty Option. */
  function Empty<T>(): (o: Option<T>)
    ensures !HasValue(o)
  {
    None
  }

  /** `Option_(args...)`: constructs the value in place and sets has_value. */
  function Make<T>(x: T): (o: Option<T>)
    ensures HasValue(o) && Value(o) == x
  {
    Some(x)
  }

  /** `value()`, `operator*`, `operator->`: the held value; asserts has_value. */
  function Value<T>(o: Option<T>): (v: T)
    requires HasValue(o)
    ensures o == Some(v)
  {
    o.value
  }

  /** `release_value()`: moves the value out, destroys the slot, clears has_value.
      Returns the released value and the new state of the Option. */
  function ReleaseValue<T>(o: Option<T>): (r: (T, Option<T>))
    requires HasValue(o)
    ensures o == Some(r.0)
    ensures !HasValue(r.1)
  {
    var released := Value(o);
    (released, None)
  }

  /** `clear()`: destroys the held value if present; always ends empty. */
  function Clear<T>(o: Option<T>): (r: Option<T>)
    ensures !HasValue(r)
  {
    if HasValue(o) then None else o
  }

  /** `value_or(other)`: the held value, or the fallback when empty. */
  function ValueOr<T>(o: Option<T>, other: T): (v: T)
    ensures HasValue(o) ==> v == Value(o)
    ensures !HasValue(o) ==> v == other
  {
    if o.Some? then o.value else other
  }

  /** `emplace(args...)`: clears, then constructs the new value. */
  function Emplace<T>(o: Option<T>, x: T): (r: Option<T>)
    ensures HasValue(r) && Value(r) == x
  {
    var cleared := Clear(o);
    Some(x)
  }

  /** `Option_(const Option_&)`: copies the value when the source holds one. */
  function CopyConstruct<T>(src: Option<T>): (r: Option<T>)
    ensures r == src
  {
    if !HasValue(src) then None else Some(Value(src))
  }

  /** `Option_(Option_&&)`: releases the source's value into the new Option.
      Returns the new Option and the source's new state. */
  function MoveConstruct<T>(src: Option<T>): (r: (Option<T>, Option<T>))
    ensures r.0 == src
    ensures !HasValue(r.1)
  {
    if !HasValue(src) then (None, src)
    else
      var (v, src') := ReleaseValue(src);
      (Some(v), src')
  }

  /** `operator=(Option_&&)`. `aliased` stands for `&other == this`, in which
      case both names denote one object and nothing happens. Returns the new
      states of the target and of the source. */
  function MoveAssign<T>(dst: Option<T>, src: Option<T>, aliased: bool): (r: (Option<T>, Option<T>))
    requires aliased ==> dst == src
    ensures aliased ==> r == (dst, src)
    ensures !aliased ==> r.0 == src && !HasValue(r.1)
  {
    if aliased then (dst, src)
    else
      var cleared := Clear(dst);
      if HasValue(src) then
        var (v, src') := ReleaseValue(src);
        (Some(v), src')
      else (cleared, src)
  }

  /** `operator=(const Option_&)`: copies the source's state; the source is
      left unchanged. Returns the target's new state. */
  function CopyAssign<T>(dst: Option<T>, src: Option<T>, aliased: bool): (r: Option<T>)
    requires aliased ==> dst == src
    ensures r == src
  {
    if aliased then dst
    else
      var cleared := Clear(dst);
      if HasValue(src) then Some(Value(src)) else cleared
  }

  /** Clearing twice is the same as clearing once. */
  lemma ClearIdempotent<T>(o: Option<T>)
    ensures Clear(Clear(o)) == Clear(o)
  {
  }
}
