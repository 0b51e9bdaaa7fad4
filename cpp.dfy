/**
 * The fixed-width integers of the C++ source and the exceptions its library
 * calls raise. Dafny integers are unbounded, so every width, wrap-around and
 * conversion of the source is written out here.
 */
module Cpp {

  const TwoTo32: int := 0x1_0000_0000
  const TwoTo64: int := 0x1_0000_0000_0000_0000
  const Int32Min: int := -0x8000_0000
  const Int32Max: int := 0x7FFF_FFFF

  /** `uint64_t` */
  type UInt64 = x: int | 0 <= x < 0x1_0000_0000_0000_0000

  /** `int` (32 bits on every platform the source targets) */
  type Int32 = x: int | -0x8000_0000 <= x <= 0x7FFF_FFFF

  /** The two exceptions the core can raise: `std::invalid_argument` and
      `std::out_of_range` (from `std::stoi`, and from `std::map::at`). */
  datatype CppException = InvalidArgument | OutOfRange

  /**
   * The value a 32-bit two's-complement `int` holds after a computation whose
   * exact result is `x`: a conversion from `uint64_t` to `int` keeps the low
   * 32 bits, and signed overflow in `+` and `*` wraps on the targets the
   * source is built for.
   */
  function Wrap32(x: int): (r: Int32)
    ensures (r - x) % TwoTo32 == 0
    ensures Int32Min <= x <= Int32Max ==> r == x
  {
    var low := x % TwoTo32;
    if low <= Int32Max then low else low - TwoTo32
  }

  /** `static_cast<uint64_t>` of a signed value: reduction modulo 2^64. */
  function ToUInt64(x: int): (r: UInt64)
    ensures (r - x) % TwoTo64 == 0
    ensures 0 <= x ==> x < TwoTo64 ==> r == x
  {
    x % TwoTo64
  }

  /** Two values congruent modulo 2^32 wrap to the same `int`. */
  lemma Wrap32Congruent(x: int, y: int)
    requires (x - y) % TwoTo32 == 0
    ensures Wrap32(x) == Wrap32(y)
  {
    var k := (x - y) / TwoTo32;
    assert x == y + k * TwoTo32;
    assert x % TwoTo32 == y % TwoTo32;
  }

  /** Wrapping after each `+` gives the wrap of the exact sum. */
  lemma Wrap32Add(x: int, y: int)
    ensures Wrap32(Wrap32(x) + Wrap32(y)) == Wrap32(x + y)
  {
    var a, b := Wrap32(x), Wrap32(y);
    var qa, qb := (a - x) / TwoTo32, (b - y) / TwoTo32;
    assert a - x == qa * TwoTo32;
    assert b - y == qb * TwoTo32;
    assert (a + b) - (x + y) == (qa + qb) * TwoTo32;
    Wrap32Congruent(a + b, x + y);
  }

  /** A negative value converted to `uint64_t` is that value plus 2^64. */
  lemma ToUInt64OfNegative(x: int)
    requires -TwoTo64 <= x < 0
    ensures ToUInt64(x) == x + TwoTo64
  {
    assert (x + TwoTo64) - x == 1 * TwoTo64;
  }

  /** An `int` stored as `uint64_t` and read back into an `int` is the same `int`. */
  lemma Wrap32OfToUInt64(x: Int32)
    ensures Wrap32(ToUInt64(x)) == x
  {
    var u := ToUInt64(x);
    var k := (u - x) / TwoTo64;
    assert u - x == k * TwoTo64;
    assert u - x == (k * 0x1_0000_0000) * TwoTo32;
    Wrap32Congruent(u, x);
  }
}
