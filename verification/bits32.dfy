/**
 Fixed-width integers of the C# source: the signed 32-bit `int` the converter
 receives and the unsigned 32-bit `uint` it reinterprets it as on the octal and
 hexadecimal paths. Dafny integers are unbounded, so both widths are subset
 types and the cast between them is written out.
 */
module Bits32 {

  const TwoTo31: int := 0x8000_0000
  const TwoTo32: int := 0x1_0000_0000

  /** A C# `int`. */
  type Int32 = x: int | -TwoTo31 <= x < TwoTo31

  /** A C# `uint`. */
  type UInt32 = x: int | 0 <= x < TwoTo32

  /** The unchecked cast `(uint)number`: the same 32-bit pattern read without a sign. */
  function ToUnsigned(n: Int32): (u: UInt32)
    ensures (u - n) % TwoTo32 == 0
    ensures n >= 0 ==> u == n
    ensures n < 0 ==> u >= TwoTo31
  {
    if n < 0 then n + TwoTo32 else n
  }

  /** The unchecked cast `(int)u`, the inverse reinterpretation. */
  function ToSigned(u: UInt32): (n: Int32)
    ensures (u - n) % TwoTo32 == 0
    ensures n < 0 <==> u >= TwoTo31
  {
    if u < TwoTo31 then u else u - TwoTo32
  }

  /** The two casts are mutually inverse, so the reinterpretation loses nothing. */
  lemma CastsAreInverse(n: Int32, u: UInt32)
    ensures ToSigned(ToUnsigned(n)) == n
    ensures ToUnsigned(ToSigned(u)) == u
  {
  }

  /** The unsigned value is the only value in [0, 2^32) with the same 32-bit
      pattern as n; it differs from the absolute value for every negative n
      except -2^31. */
  lemma ToUnsignedUnique(n: Int32, v: UInt32)
    requires (v - n) % TwoTo32 == 0
    ensures v == ToUnsigned(n)
  {
    var u := ToUnsigned(n);
    assert (v - u) % TwoTo32 == 0;
    assert -TwoTo32 < v - u < TwoTo32;
  }
}
