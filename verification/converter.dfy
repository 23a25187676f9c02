/**
 The static class `Converter` of NumeralSystems/Converter.cs: a signed 32-bit
 integer written as text in base 8, 10 or 16. `GetRadix` is the routine that
 does the work; `GetPositiveOctal`, `GetPositiveDecimal`, `GetPositiveHex` and
 `GetPositiveRadix` refuse negative numbers and then call it. C# exceptions
 become `Failure` results.
 */
module Converter {
  import opened Bits32
  import opened Numerals

  /** Why a conversion is refused; the source throws an ArgumentException for both. */
  datatype Error = NegativeNumber | InvalidRadix

  datatype Result = Success(text: string) | Failure(error: Error)

  predicate IsSupportedRadix(radix: int)
  {
    radix == 8 || radix == 10 || radix == 16
  }

  /** The octal digits of u read as a decimal number: the final value of the
      `long` accumulator of the octal loop. */
  function OctalAsDecimal(u: nat): (v: nat)
  {
    Value(Digits(u, 8), 10)
  }

  /** The octal accumulator after k rounds: octal digit i of u, counted from the
      least significant, weighted by 10^i, summed over i < k. */
  function OctalPartialSum(u: nat, k: nat): (v: nat)
  {
    if k == 0 then 0
    else OctalPartialSum(u, k - 1) + (u / Pow(8, k - 1)) % 8 * Pow(10, k - 1)
  }

  /** The text of the hexadecimal path: upper-case digits, none at all for zero. */
  function HexText(u: nat): (s: string)
  {
    Text(Digits(u, 16))
  }

  /** What a conversion is meant to produce, written with the numeral functions
      rather than the source's loops. */
  function Convert(number: Int32, radix: int): (r: Result)
  {
    if !IsSupportedRadix(radix) then Failure(InvalidRadix)
    else if radix == 8 then Success(Numeral(ToUnsigned(number), 8))
    else if radix == 10 then Success(SignedDecimal(number))
    else Success(HexText(ToUnsigned(number)))
  }

  /** One round of the octal loop peels off the last octal digit. */
  lemma OctalAsDecimalStep(x: nat)
    requires x != 0
    ensures OctalAsDecimal(x) == OctalAsDecimal(x / 8) * 10 + x % 8
  {
    DigitsSnoc(x, 8);
    ValueSnoc(Digits(x / 8, 8), x % 8, 10);
  }

  /** Multiplying out one round of the accumulator update. */
  lemma ShiftPlace(count: int, a: int, d: int)
    ensures count * (a * 10 + d) == (count * 10) * a + d * count
  {
  }

  /** The octal loop runs at most eleven rounds on a 32-bit value, so `count`
      stays at or below 10^11. */
  lemma OctalRounds(u: UInt32, k: nat)
    requires u / Pow(8, k) != 0
    ensures k < 11 && Pow(10, k + 1) <= Pow(10, 11)
  {
    if k >= 11 {
      assert Pow(8, 11) == 0x2_0000_0000;
      PowMonotone(8, 11, k);
      DivModUnique(u, Pow(8, k), 0, u);
    }
    PowMonotone(10, k + 1, 11);
  }

  /** One round of the octal loop keeps its invariants: the remaining number
      moves to the next octal place, `count` to the next decimal place, and the
      rest weighted by `count` splits into this round's digit and the weighted
      remainder. */
  lemma OctalRound(u: UInt32, k: nat, x: nat, count: nat)
    requires x != 0 && x == u / Pow(8, k) && count == Pow(10, k)
    ensures x / 8 == u / Pow(8, k + 1)
    ensures count * 10 == Pow(10, k + 1) <= Pow(10, 11)
    ensures count * OctalAsDecimal(x) == x % 8 * count + count * 10 * OctalAsDecimal(x / 8)
  {
    OctalRounds(u, k);
    OctalAsDecimalStep(x);
    DivDiv(u, Pow(8, k), 8);
    ShiftPlace(count, OctalAsDecimal(x / 8), x % 8);
  }

  /** The octal loop: each remainder by 8 is added at the next decimal place. */
  method OctalAccumulator(u: UInt32) returns (result: nat)
    ensures result == OctalAsDecimal(u)
  {
    var x: nat := u;
    var count: nat := 1;
    result := 0;
    ghost var k: nat := 0;
    while x != 0
      invariant count == Pow(10, k) <= Pow(10, 11)
      invariant x == u / Pow(8, k)
      invariant result == OctalPartialSum(u, k)
      invariant result + count * OctalAsDecimal(x) == OctalAsDecimal(u)
      decreases x
    {
      OctalRound(u, k, x, count);
      MulMonotone(0, x % 8, count);
      result := result + (x % 8) * count;
      x := x / 8;
      count := count * 10;
      k := k + 1;
    }
  }

  /** The hexadecimal loop: each remainder by 16 is prepended as a digit character. */
  method HexLoop(u: UInt32) returns (res: string)
    ensures res == HexText(u)
  {
    var x: nat := u;
    res := "";
    while x != 0
      invariant HexText(x) + res == HexText(u)
      decreases x
    {
      var c := DigitChar(x % 16);
      DigitsSnoc(x, 16);
      assert HexText(x) == HexText(x / 16) + [c];
      res := [c] + res;
      x := x / 16;
    }
  }

  /** Writing the octal accumulator in decimal gives exactly the octal numeral
      of u, "0" included. */
  lemma OctalAccumulatorText(u: nat)
    ensures Numeral(OctalAsDecimal(u), 10) == Numeral(u, 8)
  {
    var ds := Digits(u, 8);
    if u != 0 {
      DigitsOfValue(ds, 10);
    }
  }

  /** The accumulator stays below 10^11, so the source's `long` cannot overflow. */
  lemma OctalAccumulatorFitsInLong(u: UInt32)
    ensures OctalAsDecimal(u) < Pow(10, 11) < 0x8000_0000_0000_0000
  {
    var ds := Digits(u, 8);
    assert Pow(8, 11) == 0x2_0000_0000;
    DigitsLength(u, 8, 11);
    ValueBound(ds, 10);
    PowMonotone(10, |ds|, 11);
    assert Pow(10, 11) == 100_000_000_000;
  }

  /** The general routine. */
  method GetRadix(number: Int32, radix: int) returns (r: Result)
    ensures r == Convert(number, radix)
    ensures r.Failure? <==> !IsSupportedRadix(radix)
    ensures r.Failure? ==> r.error == InvalidRadix
  {
    if !IsSupportedRadix(radix) {
      return Failure(InvalidRadix);
    }
    if radix == 8 {
      var u := ToUnsigned(number);
      var result := OctalAccumulator(u);
      OctalAccumulatorText(u);
      r := Success(Numeral(result, 10));
    } else if radix == 10 {
      r := Success(SignedDecimal(number));
    } else if radix == 16 {
      var res := HexLoop(ToUnsigned(number));
      r := Success(res);
    } else {
      assert false;
      r := Success("");
    }
  }

  method GetPositiveOctal(number: Int32) returns (r: Result)
    ensures r == Failure(NegativeNumber) <==> number < 0
    ensures number >= 0 ==> r == Success(Numeral(number, 8))
  {
    if number < 0 {
      return Failure(NegativeNumber);
    }
    r := GetRadix(number, 8);
  }

  method GetPositiveDecimal(number: Int32) returns (r: Result)
    ensures r == Failure(NegativeNumber) <==> number < 0
    ensures number >= 0 ==> r == Success(Numeral(number, 10))
  {
    if number < 0 {
      return Failure(NegativeNumber);
    }
    r := GetRadix(number, 10);
  }

  method GetPositiveHex(number: Int32) returns (r: Result)
    ensures r == Failure(NegativeNumber) <==> number < 0
    ensures number >= 0 ==> r == Success(HexText(number))
  {
    if number < 0 {
      return Failure(NegativeNumber);
    }
    r := GetRadix(number, 16);
  }

  /** The sign is checked before the radix. */
  method GetPositiveRadix(number: Int32, radix: int) returns (r: Result)
    ensures r == Failure(NegativeNumber) <==> number < 0
    ensures number >= 0 ==> r == Convert(number, radix)
  {
    if number < 0 {
      return Failure(NegativeNumber);
    }
    r := GetRadix(number, radix);
  }

  /** A digit character that stands for a digit below 8 is one of '0'..'7'. */
  lemma OctalChar(c: char)
    requires IsDigitChar(c) && CharValue(c) < 8
    ensures '0' <= c <= '7'
  {
  }

  /** The octal text: one to eleven characters '0'..'7', "0" exactly for zero,
      no other leading '0', and read in base 8 it gives the unsigned value. */
  lemma OctalOutputShape(number: Int32)
    ensures Convert(number, 8).Success?
    ensures var s := Convert(number, 8).text;
      && 1 <= |s| <= 11
      && (forall i :: 0 <= i < |s| ==> '0' <= s[i] <= '7')
      && (s[0] == '0' <==> number == 0)
      && (number == 0 ==> s == "0")
      && Parse(s, 8) == ToUnsigned(number)
  {
    var u := ToUnsigned(number);
    var s := Numeral(u, 8);
    assert Convert(number, 8) == Success(s);
    assert |s| <= 11 by {
      assert Pow(8, 11) == 0x2_0000_0000;
      NumeralLength(u, 8, 11);
    }
    assert Parse(s, 8) == u && forall i :: 0 <= i < |s| ==> '0' <= s[i] <= '7' by {
      NumeralRoundTrip(u, 8);
      forall i | 0 <= i < |s|
        ensures '0' <= s[i] <= '7'
      {
        OctalChar(s[i]);
      }
    }
  }

  /** The hexadecimal text: at most eight characters from '0'..'9' and 'A'..'F',
      no leading '0', empty exactly for zero, and read in base 16 it gives the
      unsigned value. */
  lemma HexOutputShape(number: Int32)
    ensures Convert(number, 16).Success?
    ensures var s := Convert(number, 16).text;
      && |s| <= 8
      && (forall i :: 0 <= i < |s| ==> '0' <= s[i] <= '9' || 'A' <= s[i] <= 'F')
      && (s != "" ==> s[0] != '0')
      && (s == "" <==> number == 0)
      && Parse(s, 16) == ToUnsigned(number)
  {
    var u := ToUnsigned(number);
    var ds := Digits(u, 16);
    ParseText(ds, 16);
    ValueOfDigits(u, 16);
    assert Pow(16, 8) == TwoTo32;
    DigitsLength(u, 16, 8);
    if ds != [] {
      CharValueOfDigitChar(ds[0]);
    }
  }

  /** The decimal text: the signed decimal numeral of number, '-' first exactly
      when it is negative, "0" for zero, no leading '0' after the sign otherwise,
      at most eleven characters, and it reads
      back as number itself (no unsigned reinterpretation on this path). */
  lemma DecimalOutputShape(number: Int32)
    ensures Convert(number, 10).Success?
    ensures var s := Convert(number, 10).text;
      && IsSignedDecimalText(s)
      && (s[0] == '-' <==> number < 0)
      && (s == "0" <==> number == 0)
      && (number != 0 ==> s[if number < 0 then 1 else 0] != '0')
      && |s| <= 11
      && ParseSigned(s) == number
  {
    SignedDecimalRoundTrip(number);
    var m: nat := if number < 0 then -(number as int) else number;
    assert Pow(10, 10) == 10_000_000_000;
    NumeralLength(m, 10, 10);
  }

  /** The sign bit shows in the hexadecimal text: a number is negative exactly
      when its text has all eight digits and the first is '8'..'F'
      (`MinusOneHexExample` works out -1). */
  lemma HexSignBit(number: Int32)
    ensures var s := Convert(number, 16).text;
      number < 0 <==> |s| == 8 && (s[0] == '8' || s[0] == '9' || 'A' <= s[0] <= 'F')
  {
    var u := ToUnsigned(number);
    var ds := Digits(u, 16);
    assert Pow(16, 7) == 0x1000_0000;
    assert Pow(16, 8) == TwoTo32;
    DigitsLength(u, 16, 8);
    if |ds| == 8 {
      if u < Pow(16, 7) {
        DigitsLength(u, 16, 7);
      }
      LeadingDigit(u, 16, 7);
      CharValueOfDigitChar(ds[0]);
    }
    if number < 0 {
      DigitsLengthLower(u, 16, 7);
    }
  }

  /** The sign bit shows in the octal text too: a number is negative exactly
      when its text has eleven digits and starts with '2' or '3'. */
  lemma OctalSignBit(number: Int32)
    ensures var s := Convert(number, 8).text;
      number < 0 <==> |s| == 11 && (s[0] == '2' || s[0] == '3')
  {
    var u := ToUnsigned(number);
    var ds := Digits(u, 8);
    assert Pow(8, 10) == 0x4000_0000;
    assert Pow(8, 11) == 0x2_0000_0000;
    DigitsLength(u, 8, 11);
    if u != 0 && |ds| == 11 {
      if u < Pow(8, 10) {
        DigitsLength(u, 8, 10);
      }
      LeadingDigit(u, 8, 10);
      CharValueOfDigitChar(ds[0]);
    }
    if number < 0 {
      DigitsLengthLower(u, 8, 10);
    }
  }

  /** Eight is "10" in octal, written as a decimal number. */
  lemma OctalExample()
    ensures Convert(8, 8) == Success("10")
  {
    DigitsSnoc(8, 8);
    assert Digits(8, 8) == [1, 0];
  }

  /** Zero is "0" on the octal path but "" on the hexadecimal path. */
  lemma ZeroExamples()
    ensures Convert(0, 8) == Success("0")
    ensures Convert(0, 16) == Success("")
  {
  }

  lemma HexExample()
    ensures Convert(255, 16) == Success("FF")
  {
    DigitsSnoc(255, 16);
    assert Digits(255, 16) == [15, 15];
  }

  /** -1 is written as its 32-bit pattern: eight 'F's, not "1". */
  lemma MinusOneHexExample()
    ensures Convert(-1, 16) == Success("FFFFFFFF")
  {
    var ds := seq(8, _ => 16 - 1);
    ValueOfTopDigits(8, 16);
    assert Pow(16, 8) == TwoTo32;
    DigitsOfValue(ds, 16);
    assert HexText(ToUnsigned(-1)) == Text(ds);
  }

  /** -1 on the octal path: the eleven octal digits of 2^32 - 1. */
  lemma MinusOneOctalExample()
    ensures Convert(-1, 8) == Success("37777777777")
  {
    var tail := seq(10, _ => 8 - 1);
    var ds := [3] + tail;
    ValueOfTopDigits(10, 8);
    ValuePrepend(3, tail, 8);
    assert Pow(8, 10) == 0x4000_0000;
    assert IsCanonical(ds, 8);
    DigitsOfValue(ds, 8);
    assert Numeral(ToUnsigned(-1), 8) == Text(ds);
  }

  lemma InvalidRadixExample()
    ensures Convert(5, 2) == Failure(InvalidRadix)
  {
  }
}
