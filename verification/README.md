# NumeralSystems converter, modelled in Dafny

The repository is one static C# class, `Converter` (NumeralSystems/Converter.cs).
It writes a signed 32-bit `int` as text in base 8, 10 or 16:

- `GetRadix(number, radix)` refuses any radix other than 8, 10 and 16.
  - On radix 8 and 16 it first reinterprets `number` as the `uint` with the same 32-bit pattern.
  - On radix 8 it accumulates the octal digits as decimal places of a `long`, then prints that `long`.
  - On radix 10 it prints `number` itself, sign included.
  - On radix 16 it prepends one upper-case digit character per division by 16.
- `GetPositiveOctal`, `GetPositiveDecimal`, `GetPositiveHex` and `GetPositiveRadix`
  refuse a negative `number`, then call `GetRadix` with radix 8, 10, 16 or the given radix.

The project has three modules:

- `Bits32` (bits32.dfy): the `int`/`uint` widths as subset types of `int`, and the
  unchecked cast `(uint)number` as `ToUnsigned`.
- `Numerals` (numerals.dfy): digits of a number in a base (`Digits`), the value of a
  digit sequence (`Value`), digit characters (`DigitChar`, `CharValue`, `Text`),
  reading text back (`Parse`, `ParseSigned`), and the conventional numerals
  (`Numeral`, `SignedDecimal`). The last two stand in for .NET's integer-to-text conversion.
- `Converter` (converter.dfy):
  - the two loops as methods with loop invariants (`OctalAccumulator`, `HexLoop`);
  - `GetRadix` and the four entry points, as methods returning
    `Result = Success(text) | Failure(error)` with `Error = NegativeNumber | InvalidRadix`;
  - a reference function `Convert` that says what each radix should produce in terms of
    numerals, not loops; `GetRadix` is proved to agree with it;
  - lemmas on the shape of each radix's output, and worked examples: 8 gives "10" in
    octal, 0 gives "0" in octal but "" in hex, 255 gives "FF", -1 gives "FFFFFFFF" and
    "37777777777", and radix 2 is refused.

Results worth knowing:

- The octal path builds a decimal number whose digits are the octal digits. For every
  32-bit input, printing that number gives exactly the octal numeral of the unsigned value
  (`OctalAccumulatorText`). The accumulator stays below 10^11, so the `long` cannot
  overflow (`OctalAccumulatorFitsInLong`). This looks odd but is not a defect.
- Zero gives `"0"` on the octal path but `""` on the hexadecimal path, because the hex
  path has no zero case. The model keeps this as written; `ZeroExamples` pins both answers.
- Negative numbers on the octal and hex paths give the digits of `number + 2^32`, not of
  the absolute value (the two coincide only at -2^31). For example, -1 gives `FFFFFFFF` (`MinusOneHexExample`). A negative
  number is exactly one whose hex text has eight digits and starts with '8'..'F' (`HexSignBit`).
- The `default` branch of the `switch` cannot be reached: the guard before it has already
  refused every other radix. `GetRadix` proves this with `assert false` in that branch.

## Model

| member | source | states |
|---|---|---|
| Bits32.ToUnsigned | NumeralSystems/Converter.cs:92 | The `(uint)` reinterpretation: the result is in [0, 2^32), congruent to `number` modulo 2^32, equal to `number` when it is non-negative and at least 2^31 when it is negative |
| Bits32.CastsAreInverse | NumeralSystems/Converter.cs:110 | Reinterpreting as unsigned and back as signed is the identity in both directions, so no information is lost |
| Bits32.ToUnsignedUnique | NumeralSystems/Converter.cs:110 | The reinterpreted value is the only value in [0, 2^32) with the same 32-bit pattern as `number`. For every negative `number` except -2^31 this differs from the absolute value |
| Numerals.Digits | NumeralSystems/Converter.cs:95-100 | Repeated division by the base yields digits that are all below the base, with no leading zero, and none at all exactly when the number is zero |
| Numerals.ValueOfDigits | NumeralSystems/Converter.cs:95-100 | Reading the extracted digits back in the same base gives the original number |
| Numerals.DigitsOfValue | NumeralSystems/Converter.cs:102 | Every canonical digit sequence (digits below the base, no leading zero) is the digit sequence of its own value, which makes `Digits` and `Value` inverse |
| Numerals.DigitsLength | NumeralSystems/Converter.cs:95-100 | A number below b^k has at most k digits, which bounds how often the loops run |
| Numerals.DigitsLengthLower | NumeralSystems/Converter.cs:95-100 | A number of at least b^k has more than k digits, so the loops run at least k + 1 times on it |
| Numerals.LeadingDigit | NumeralSystems/Converter.cs:112-167 | A number in [b^k, b^(k+1)) has exactly k + 1 digits, and the first (the last one the loops produce) is its quotient by b^k |
| Numerals.ValueOfTopDigits | NumeralSystems/Converter.cs:95-100 | n copies of the top digit b - 1 denote b^n - 1, the largest value with n digits; this is what the hex loop sees for -1, and what the octal loop sees in its first ten rounds |
| Numerals.ValuePrepend | NumeralSystems/Converter.cs:95-100 | A leading digit d in front of k further digits adds d times b^k to their value |
| Numerals.ValueBound | NumeralSystems/Converter.cs:93-99 | k digits below b denote a number below b^k, which bounds the octal accumulator |
| Numerals.DigitChar | NumeralSystems/Converter.cs:114-164 | The character the switch inserts for digit d is a digit character; it lies in '0'..'9' exactly when d < 10, and it is '0' exactly for d = 0 |
| Numerals.CharValue | NumeralSystems/Converter.cs:114-164 | Each digit character stands for a digit below 16 that `DigitChar` maps back to that same character; it is below 10 exactly for '0'..'9' |
| Numerals.CharValueOfDigitChar | NumeralSystems/Converter.cs:114-164 | The 16 cases of the switch map digit d to a digit character that stands for d again |
| Numerals.Text | NumeralSystems/Converter.cs:114-164 | The text of a digit sequence has one character per digit: position i holds the character of digit i |
| Numerals.ParseText | NumeralSystems/Converter.cs:112-169 | Text made of digits is all digit characters, and reading it back gives the value of the digits |
| Numerals.Numeral | NumeralSystems/Converter.cs:102 | `string.Empty + result` for a non-negative value: nonempty, all digit characters, "0" exactly for zero, and no leading '0' otherwise |
| Numerals.NumeralRoundTrip | NumeralSystems/Converter.cs:102 | The printed natural number is nonempty and uses only digits below the base. It starts with '0' exactly when the number is zero, and reading it back gives the number |
| Numerals.NumeralLength | NumeralSystems/Converter.cs:102 | The printed number has at most k characters when it is below b^k |
| Numerals.SignedDecimal | NumeralSystems/Converter.cs:106 | `string.Empty + number`: nonempty, starting with '-' exactly when the value is negative, and "0" exactly for zero |
| Numerals.SignedDecimalRoundTrip | NumeralSystems/Converter.cs:106 | The printed `int` is an optional '-' followed by decimal digits. The '-' appears exactly for negative values, zero prints as "0", no '0' follows the optional '-' for any other value, and parsing the text back gives the value |
| Converter.OctalAsDecimalStep | NumeralSystems/Converter.cs:97-99 | One loop round: the accumulator target of x is that of x / 8, shifted one decimal place, plus x % 8 |
| Converter.OctalRounds | NumeralSystems/Converter.cs:95-99 | While the remaining number u / 8^k is nonzero, fewer than 11 rounds have run, so `count` never exceeds 10^11 |
| Converter.OctalRound | NumeralSystems/Converter.cs:95-99 | One round moves the remaining number to u / 8^(k+1) and `count` to 10^(k+1), at most 10^11. The rest weighted by `count` splits into this round's digit times `count` plus the remainder weighted by 10 `count` |
| Converter.OctalAccumulator | NumeralSystems/Converter.cs:92-100 | After k rounds: `count` is 10^k and at most 10^11, the remaining number is u / 8^k, and the accumulator is the sum of octal digit i times 10^i over i < k. At exit the accumulator is the octal digits of u read as a decimal number |
| Converter.HexLoop | NumeralSystems/Converter.cs:109-169 | Prepending the character of each remainder by 16 builds the hex digits of u, most significant first, with no leading zero and nothing for zero |
| Converter.OctalAccumulatorText | NumeralSystems/Converter.cs:102 | Printing the octal accumulator in decimal gives exactly the octal numeral of u, "0" included |
| Converter.OctalAccumulatorFitsInLong | NumeralSystems/Converter.cs:93-99 | The accumulator is below 10^11, itself below 2^63, so the `long` never overflows |
| Converter.GetRadix | NumeralSystems/Converter.cs:81-175 | Fails with InvalidRadix exactly when the radix is not 8, 10 or 16. Otherwise it returns the octal numeral of the unsigned value, the signed decimal text, or the hex digits of the unsigned value, as `Convert` defines them |
| Converter.GetPositiveOctal | NumeralSystems/Converter.cs:14-22 | Fails with NegativeNumber exactly when `number < 0`; otherwise returns the octal numeral of `number` |
| Converter.GetPositiveDecimal | NumeralSystems/Converter.cs:30-38 | Fails with NegativeNumber exactly when `number < 0`; otherwise returns the decimal numeral of `number` |
| Converter.GetPositiveHex | NumeralSystems/Converter.cs:46-54 | Fails with NegativeNumber exactly when `number < 0`; otherwise returns the hex digits of `number` |
| Converter.GetPositiveRadix | NumeralSystems/Converter.cs:64-72 | Fails with NegativeNumber exactly when `number < 0`, whatever the radix (the sign is checked first); otherwise returns what `GetRadix` returns |
| Converter.OctalOutputShape | NumeralSystems/Converter.cs:90-103 | The octal text has 1 to 11 characters, all in '0'..'7'. It starts with '0' only for zero, which gives "0", and read in base 8 it gives the unsigned value |
| Converter.HexOutputShape | NumeralSystems/Converter.cs:107-170 | The hex text has at most 8 characters from '0'..'9' and 'A'..'F', with no leading '0'. It is empty exactly for zero, and read in base 16 it gives the unsigned value |
| Converter.DecimalOutputShape | NumeralSystems/Converter.cs:105-106 | The decimal text starts with '-' exactly for negative numbers and is "0" exactly for zero; for any other value no '0' follows the optional '-'. It has at most 11 characters and parses back to `number` itself |
| Converter.HexSignBit | NumeralSystems/Converter.cs:110-169 | A number is negative exactly when its hex text has all eight digits and starts with '8'..'F': the reinterpretation keeps the sign bit |
| Converter.OctalSignBit | NumeralSystems/Converter.cs:92-102 | A number is negative exactly when its octal text has eleven digits and starts with '2' or '3' |
| Converter.OctalExample | NumeralSystems/Converter.cs:90-103 | 8 converts to "10" on the octal path |
| Converter.ZeroExamples | NumeralSystems/Converter.cs:90-170 | 0 converts to "0" on the octal path and to "" on the hexadecimal path |
| Converter.HexExample | NumeralSystems/Converter.cs:107-170 | 255 converts to "FF" |
| Converter.MinusOneHexExample | NumeralSystems/Converter.cs:107-170 | -1 converts to "FFFFFFFF" on the hexadecimal path, not to "1" |
| Converter.MinusOneOctalExample | NumeralSystems/Converter.cs:90-103 | -1 converts to "37777777777" on the octal path |
| Converter.InvalidRadixExample | NumeralSystems/Converter.cs:83-86 | Radix 2 is refused with InvalidRadix |

## Left out

- .NET formatting of `string.Empty + result` and `string.Empty + number` (lines 102 and 106)
  is modelled by `Numeral` and `SignedDecimal`. This assumes an invariant culture: ASCII
  digits, '-' as the negative sign, no grouping.
- `StringBuilder` is not modelled. `res.Insert(0, c)` is sequence prepend `[c] + res`.
- Exception types and messages are not modelled. Both `ArgumentException`s become
  `Failure(NegativeNumber)` or `Failure(InvalidRadix)`.
- C# extension-method syntax (`this int number`) has no counterpart; the entry points
  take `number` as an ordinary parameter.
- `long` and `uint` wrap-around is not modelled, because it cannot happen. The values
  stay below 2^32 by their type, and the accumulator stays below 10^11
  (`OctalAccumulatorFitsInLong`). `count` stays at or below 10^11 because the loop runs at
  most 11 times (`OctalRounds`, and an invariant of `OctalAccumulator`).
