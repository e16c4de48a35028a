/**
 * Byte order: the byte-swap routines and the host/big/little conversions.
 *
 * Every integer is held as its bit pattern in a `bv64` whose unused high
 * bits are zero (`U16`, `U32`). The narrow swaps compute on the wider
 * pattern and truncate explicitly, as the source's `uint16`/`uint32`
 * arithmetic truncates. A value of a signed type is represented by its
 * two's-complement pattern: `to_unsigned` and `from_unsigned` are
 * same-width casts that keep the pattern, so they are the identity here.
 *
 * The swaps are the portable shift-and-mask versions; the compiler builtins
 * that the source uses outside its test configuration compute the same byte
 * reversal, which is what the contracts below state.
 */
module Endian {

  type U16 = b: bv64 | b < 0x1_0000
  type U32 = b: bv64 | b < 0x1_0000_0000

  /** Byte `i` of a pattern, counting from the least significant. */
  function Byte(v: bv64, i: nat): bv64
    requires i < 8
  {
    match i
    case 0 => v & 0xFF
    case 1 => (v >> 8) & 0xFF
    case 2 => (v >> 16) & 0xFF
    case 3 => (v >> 24) & 0xFF
    case 4 => (v >> 32) & 0xFF
    case 5 => (v >> 40) & 0xFF
    case 6 => (v >> 48) & 0xFF
    case 7 => (v >> 56) & 0xFF
  }

  /** `byteswap16`: `(v << 8) | (v >> 8)`, truncated to 16 bits. */
  function ByteSwap16(v: U16): (r: U16)
    ensures Byte(r, 0) == Byte(v, 1) && Byte(r, 1) == Byte(v, 0)
  {
    ((v << 8) | (v >> 8)) & 0xFFFF
  }

  /** `byteswap32`: swap adjacent bytes, then the two 16-bit halves. */
  function ByteSwap32(v: U32): (r: U32)
    ensures Byte(r, 0) == Byte(v, 3) && Byte(r, 1) == Byte(v, 2)
    ensures Byte(r, 2) == Byte(v, 1) && Byte(r, 3) == Byte(v, 0)
  {
    var w := ((v << 8) & 0xFF00FF00) | ((v >> 8) & 0x00FF00FF);
    ((w << 16) | (w >> 16)) & 0xFFFF_FFFF
  }

  /** `byteswap64`: swap adjacent bytes, then adjacent 16-bit words, then the
      two 32-bit halves. */
  function ByteSwap64(v: bv64): (r: bv64)
    ensures Byte(r, 0) == Byte(v, 7) && Byte(r, 1) == Byte(v, 6)
    ensures Byte(r, 2) == Byte(v, 5) && Byte(r, 3) == Byte(v, 4)
    ensures Byte(r, 4) == Byte(v, 3) && Byte(r, 5) == Byte(v, 2)
    ensures Byte(r, 6) == Byte(v, 1) && Byte(r, 7) == Byte(v, 0)
  {
    var w := ((v << 8) & 0xFF00FF00FF00FF00) | ((v >> 8) & 0x00FF00FF00FF00FF);
    var x := ((w << 16) & 0xFFFF0000FFFF0000) | ((w >> 16) & 0x0000FFFF0000FFFF);
    (x << 32) | (x >> 32)
  }

  lemma ByteSwap16Involutive(v: U16)
    ensures ByteSwap16(ByteSwap16(v)) == v
  {
  }

  lemma ByteSwap32Involutive(v: U32)
    ensures ByteSwap32(ByteSwap32(v)) == v
  {
  }

  lemma ByteSwap64Involutive(v: bv64)
    ensures ByteSwap64(ByteSwap64(v)) == v
  {
  }

  /** A pattern of an integer type `bits` wide. */
  predicate FitsWidth(bits: nat, p: bv64) {
    || (bits == 8 && p < 0x100)
    || (bits == 16 && p < 0x1_0000)
    || (bits == 32 && p < 0x1_0000_0000)
    || bits == 64
  }

  /** `byteswap(value)` for an integer type of `bits` bits: the identity on a
      one-byte type, else the swap of the matching width applied to the
      value's unsigned pattern. */
  function ByteSwap(bits: nat, p: bv64): (r: bv64)
    requires FitsWidth(bits, p)
    ensures FitsWidth(bits, r)
    ensures bits == 8 ==> r == p
    ensures bits == 16 ==> Byte(r, 0) == Byte(p, 1) && Byte(r, 1) == Byte(p, 0)
    ensures bits == 32 ==> Byte(r, 0) == Byte(p, 3) && Byte(r, 3) == Byte(p, 0)
    ensures bits == 64 ==> Byte(r, 0) == Byte(p, 7) && Byte(r, 7) == Byte(p, 0)
  {
    if bits == 8 then p
    else if bits == 16 then ByteSwap16(p)
    else if bits == 32 then ByteSwap32(p)
    else ByteSwap64(p)
  }

  /** Swapping twice restores the value, for every integer type. */
  lemma ByteSwapRoundTrip(bits: nat, p: bv64)
    requires FitsWidth(bits, p)
    ensures ByteSwap(bits, ByteSwap(bits, p)) == p
  {
    if bits == 16 {
      ByteSwap16Involutive(p);
    } else if bits == 32 {
      ByteSwap32Involutive(p);
    } else if bits == 64 {
      ByteSwap64Involutive(p);
    }
  }

  /** The test vectors: each width reversed, and signed values swapped by
      their patterns (-2 as an `int16` is 0xFFFE, which swaps to 0xFEFF). */
  lemma ByteSwapExamples()
    ensures ByteSwap16(0x1234) == 0x3412 && ByteSwap16(0xFF00) == 0x00FF
    ensures ByteSwap32(0x12345678) == 0x78563412 && ByteSwap32(0xFF000000) == 0x000000FF
    ensures ByteSwap64(0x123456789ABCDEF0) == 0xF0DEBC9A78563412
    ensures ByteSwap(16, 0xFFFE) == 0xFEFF
    ensures ByteSwap(8, 0xAB) == 0xAB
  {
  }

  /** `Endian`: the enumerators `Little = 0` and `Big = 1`. `Native` is one of
      them, fixed by the platform; it is a parameter here. */
  datatype Order = Little | Big

  function OrderValue(e: Order): (n: nat)
    ensures n < 2
    ensures e == Little <==> n == 0
  {
    if e == Little then 0 else 1
  }

  /** `is_little_endian()`: the native order's value is `Little`'s, 0. */
  function IsLittleEndian(native: Order): (b: bool)
    ensures b <==> OrderValue(native) == 0
  {
    native == Little
  }

  /** `is_big_endian()`: the native order's value is `Big`'s, 1. */
  function IsBigEndian(native: Order): (b: bool)
    ensures b <==> OrderValue(native) == 1
  {
    native == Big
  }

  /** `host_to_big(value)`: swapped exactly on a little-endian host. */
  function HostToBig(native: Order, bits: nat, p: bv64): (r: bv64)
    requires FitsWidth(bits, p)
    ensures FitsWidth(bits, r)
    ensures IsBigEndian(native) ==> r == p
  {
    if IsLittleEndian(native) then ByteSwap(bits, p) else p
  }

  /** `host_to_little(value)`: swapped exactly on a big-endian host. */
  function HostToLittle(native: Order, bits: nat, p: bv64): (r: bv64)
    requires FitsWidth(bits, p)
    ensures FitsWidth(bits, r)
    ensures IsLittleEndian(native) ==> r == p
  {
    if IsBigEndian(native) then ByteSwap(bits, p) else p
  }

  /** `big_to_host(value)`: undoes `host_to_big`. */
  function BigToHost(native: Order, bits: nat, p: bv64): (r: bv64)
    requires FitsWidth(bits, p)
    ensures FitsWidth(bits, r)
    ensures IsBigEndian(native) ==> r == p
    ensures HostToBig(native, bits, r) == p
  {
    ByteSwapRoundTrip(bits, p);
    if IsLittleEndian(native) then ByteSwap(bits, p) else p
  }

  /** `little_to_host(value)`: undoes `host_to_little`. */
  function LittleToHost(native: Order, bits: nat, p: bv64): (r: bv64)
    requires FitsWidth(bits, p)
    ensures FitsWidth(bits, r)
    ensures IsLittleEndian(native) ==> r == p
    ensures HostToLittle(native, bits, r) == p
  {
    ByteSwapRoundTrip(bits, p);
    if IsBigEndian(native) then ByteSwap(bits, p) else p
  }

  /** Every host is exactly one of the two orders; converting to an order
      and back restores the value; and on any host exactly one of the two
      outward conversions swaps, so they differ by one byte swap. */
  lemma HostConversionsRoundTrip(native: Order, bits: nat, p: bv64)
    requires FitsWidth(bits, p)
    ensures IsLittleEndian(native) != IsBigEndian(native)
    ensures BigToHost(native, bits, HostToBig(native, bits, p)) == p
    ensures LittleToHost(native, bits, HostToLittle(native, bits, p)) == p
    ensures HostToBig(native, bits, p) == p || HostToLittle(native, bits, p) == p
    ensures HostToBig(native, bits, p) == ByteSwap(bits, HostToLittle(native, bits, p))
  {
    ByteSwapRoundTrip(bits, p);
  }
}
