/**
 * `min`, `max` and `clamp` over a totally ordered type. They return one of
 * their arguments by reference, so which argument comes back on a tie is
 * observable. The order is given by `key`: `x < y` is `key(x) < key(y)`,
 * and two values with the same key are tied but may still be different
 * objects.
 */
module Algorithm {

  /** `min(a, b)`: `b` only when `b < a`, so `a` on a tie. */
  function Min<T>(a: T, b: T, key: T -> int): (r: T)
    ensures r == a || r == b
    ensures key(r) <= key(a) && key(r) <= key(b)
    ensures key(a) <= key(b) ==> r == a
  {
    if key(b) < key(a) then b else a
  }

  /** `max(a, b)`: `b` only when `a < b`, so `a` on a tie. */
  function Max<T>(a: T, b: T, key: T -> int): (r: T)
    ensures r == a || r == b
    ensures key(r) >= key(a) && key(r) >= key(b)
    ensures key(a) >= key(b) ==> r == a
  {
    if key(a) < key(b) then b else a
  }

  /** `clamp(v, lo, hi)`: `lo` below the range, `hi` above it, else `v`. */
  function Clamp<T>(v: T, lo: T, hi: T, key: T -> int): (r: T)
    ensures r == v || r == lo || r == hi
    ensures key(lo) <= key(hi) ==> key(lo) <= key(r) <= key(hi)
    ensures key(lo) <= key(v) <= key(hi) ==> r == v
    ensures key(v) < key(lo) ==> r == lo
    ensures !(key(v) < key(lo)) && key(hi) < key(v) ==> r == hi
  {
    if key(v) < key(lo) then lo else if key(hi) < key(v) then hi else v
  }

  /** On a well-formed range, clamping is raising to `lo` and then lowering
      to `hi`, down to which object is returned. */
  lemma ClampIsMinOfMax<T>(v: T, lo: T, hi: T, key: T -> int)
    requires key(lo) <= key(hi)
    ensures Clamp(v, lo, hi, key) == Min(Max(v, lo, key), hi, key)
  {
  }

  /** Together, min and max hand back both arguments: their keys add up to
      the keys of `a` and `b`, and with distinct keys they are `a` and `b` in
      some order. (On a tie both return `a`.) */
  lemma MinMaxSplit<T>(a: T, b: T, key: T -> int)
    ensures key(Min(a, b, key)) + key(Max(a, b, key)) == key(a) + key(b)
    ensures key(a) != key(b) ==> {Min(a, b, key), Max(a, b, key)} == {a, b}
  {
  }
}
