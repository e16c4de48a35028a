/**
 * The fixed-width integer types the numeric code is instantiated with
 * (`int8` … `uint64`), their limits as `NumericLimits<T>` gives them, and
 * the two's-complement conversions between a signed type and its unsigned
 * counterpart (`static_cast` in both directions).
 */
module IntKinds {

  /** An integer type: its width in bits and whether it is signed. */
  datatype IntKind = IntKind(bits: nat, signed: bool)

  /** The widths the library provides. */
  predicate Supported(k: IntKind) {
    k.bits == 8 || k.bits == 16 || k.bits == 32 || k.bits == 64
  }

  /** 2^bits: the number of distinct values of the type. */
  function Modulus(k: IntKind): (m: nat)
    requires Supported(k)
    ensures m >= 0x100 && m % 2 == 0
  {
    if k.bits == 8 then 0x100
    else if k.bits == 16 then 0x1_0000
    else if k.bits == 32 then 0x1_0000_0000
    else 0x1_0000_0000_0000_0000
  }

  /** `NumericLimits<T>::min()`: `-MAX - 1` for a signed type, 0 otherwise. */
  function Min(k: IntKind): (m: int)
    requires Supported(k)
    ensures k.signed ==> m < 0 && 2 * m + Modulus(k) == 0
    ensures !k.signed ==> m == 0
  {
    if k.signed then -(Modulus(k) / 2) else 0
  }

  /** `NumericLimits<T>::max()`. */
  function Max(k: IntKind): (m: int)
    requires Supported(k)
    ensures 0 < m < Modulus(k)
  {
    if k.signed then Modulus(k) / 2 - 1 else Modulus(k) - 1
  }

  /** The limits enclose exactly 2^bits values, and a signed minimum is the
      negated maximum minus one. */
  lemma LimitsSpanTheType(k: IntKind)
    requires Supported(k)
    ensures Max(k) - Min(k) + 1 == Modulus(k)
    ensures k.signed ==> Min(k) == -Max(k) - 1
  {
  }

  predicate InRange(k: IntKind, v: int)
    requires Supported(k)
  {
    Min(k) <= v <= Max(k)
  }

  /** The unsigned type of the same width. */
  function Unsigned(k: IntKind): (u: IntKind)
    requires Supported(k)
    ensures Supported(u) && !u.signed && Modulus(u) == Modulus(k)
  {
    IntKind(k.bits, false)
  }

  /** `static_cast<UnsignedT<T>>(v)`: the two's-complement bit pattern. */
  function ToUnsigned(k: IntKind, v: int): (u: nat)
    requires Supported(k) && InRange(k, v)
    ensures u < Modulus(k) && (u - v) % Modulus(k) == 0
    ensures v >= 0 ==> u == v
  {
    if v < 0 then v + Modulus(k) else v
  }

  /** `static_cast<T>(u)` from the unsigned type: patterns at or above
      2^(bits-1) read as negative in a signed type. */
  function FromUnsigned(k: IntKind, u: nat): (v: int)
    requires Supported(k) && u < Modulus(k)
    ensures InRange(k, v) && (u - v) % Modulus(k) == 0
  {
    if k.signed && u > Max(k) then u - Modulus(k) else u
  }

  /** The two casts are inverse bijections between the type's values and the
      bit patterns of its width. */
  lemma CastsRoundTrip(k: IntKind, v: int, u: nat)
    requires Supported(k)
    ensures InRange(k, v) ==> FromUnsigned(k, ToUnsigned(k, v)) == v
    ensures u < Modulus(k) ==> ToUnsigned(k, FromUnsigned(k, u)) == u
  {
  }
}
