/**
 Positional numerals: the digits of a natural number in a base, the value a
 digit sequence denotes, the characters '0'..'9' and 'A'..'F' that write the
 digits, and the inverse reading of such text. Both the converter's digit loops
 and the .NET integer-to-text conversion it relies on are specified here.
 */
module Numerals {

  /** b raised to the power k. */
  function Pow(b: nat, k: nat): (r: nat)
    ensures b > 0 ==> r > 0
  {
    if k == 0 then 1 else b * Pow(b, k - 1)
  }

  /** The digits of n in base b, most significant first: no leading zero, and
      none at all for zero. */
  function Digits(n: nat, b: nat): (ds: seq<nat>)
    requires 2 <= b
    ensures forall i :: 0 <= i < |ds| ==> ds[i] < b
    ensures n == 0 <==> ds == []
    ensures ds != [] ==> ds[0] != 0
    decreases n
  {
    if n == 0 then [] else Digits(n / b, b) + [n % b]
  }

  /** The number that ds denotes in base b, most significant digit first. */
  function Value(ds: seq<nat>, b: nat): (v: nat)
  {
    if ds == [] then 0 else Value(ds[..|ds| - 1], b) * b + ds[|ds| - 1]
  }

  /** Appending a digit shifts the value one place left. */
  lemma ValueSnoc(ds: seq<nat>, d: nat, b: nat)
    ensures Value(ds + [d], b) == Value(ds, b) * b + d
  {
    assert (ds + [d])[..|ds|] == ds;
  }

  /** The digits of n are the digits of n / b followed by n % b. */
  lemma DigitsSnoc(n: nat, b: nat)
    requires 2 <= b && n != 0
    ensures Digits(n, b) == Digits(n / b, b) + [n % b]
    ensures Digits(n, b)[..|Digits(n, b)| - 1] == Digits(n / b, b)
  {
  }

  /** ds is what Digits produces: every digit below b, no leading zero. */
  predicate IsCanonical(ds: seq<nat>, b: nat)
  {
    && (forall i :: 0 <= i < |ds| ==> ds[i] < b)
    && (ds != [] ==> ds[0] != 0)
  }

  /** Euclidean division as Dafny defines it on a positive divisor. */
  lemma DivMod(a: int, d: int)
    requires d > 0
    ensures a == d * (a / d) + a % d && 0 <= a % d < d
  {
  }

  lemma MulMonotone(a: int, b: int, c: int)
    requires a <= b && c >= 0
    ensures a * c <= b * c
  {
  }

  lemma DivDecreases(n: nat, b: nat)
    requires n > 0 && b >= 2
    ensures n / b < n
  {
    DivMod(n, b);
    MulMonotone(2, b, n / b);
  }

  /** Division with remainder has one answer. */
  lemma DivModUnique(a: int, d: int, q: int, r: int)
    requires d > 0 && 0 <= r < d && a == d * q + r
    ensures a / d == q && a % d == r
  {
    DivMod(a, d);
    var q' := a / d;
    if q > q' {
      MulMonotone(1, q - q', d);
    } else if q < q' {
      MulMonotone(1, q' - q, d);
    }
  }

  /** Bounds on n, as multiples of b, bound n / b. */
  lemma QuotientBounds(n: nat, b: nat, lo: nat, hi: nat)
    requires b > 0 && b * lo <= n < b * hi
    ensures lo <= n / b < hi
  {
    DivMod(n, b);
    var q := n / b;
    if q < lo {
      MulMonotone(q + 1, lo, b);
    }
    if q >= hi {
      MulMonotone(hi, q, b);
    }
  }

  /** One more digit below b multiplies the bound by b. */
  lemma NextPlaceBound(v: nat, d: nat, p: nat, b: nat)
    requires v < p && d < b
    ensures v * b + d < b * p
  {
    MulMonotone(v, p - 1, b);
  }

  /** Dividing by b and then by c is dividing by b * c. */
  lemma DivDiv(a: nat, b: nat, c: nat)
    requires b > 0 && c > 0
    ensures a / (b * c) == (a / b) / c
  {
    var q, r := a / b, a % b;
    var q2, r2 := q / c, q % c;
    DivMod(a, b);
    DivMod(q, c);
    assert a == b * (c * q2 + r2) + r;
    assert a == (b * c) * q2 + (b * r2 + r);
    MulMonotone(r2, c - 1, b);
    DivModUnique(a, b * c, q2, b * r2 + r);
  }

  /** Digits and Value are inverse: reading the digits of n back gives n. */
  lemma {:induction false} ValueOfDigits(n: nat, b: nat)
    requires 2 <= b
    ensures Value(Digits(n, b), b) == n
    decreases n
  {
    if n != 0 {
      var ds, q := Digits(n, b), n / b;
      assert ds == Digits(q, b) + [n % b];
      assert ds[..|ds| - 1] == Digits(q, b);
      DivDecreases(n, b);
      ValueOfDigits(q, b);
      DivMod(n, b);
      assert Value(ds, b) == q * b + n % b;
    }
  }

  /** ... and the other way round on canonical digit sequences. */
  lemma {:induction false} DigitsOfValue(ds: seq<nat>, b: nat)
    requires 2 <= b && IsCanonical(ds, b)
    ensures Digits(Value(ds, b), b) == ds
    decreases |ds|
  {
    if ds != [] {
      var init, d := ds[..|ds| - 1], ds[|ds| - 1];
      assert IsCanonical(init, b);
      DigitsOfValue(init, b);
      var v := Value(init, b);
      assert Value(ds, b) == v * b + d;
      if init == [] {
        assert d == ds[0];
      } else {
        assert v != 0;
      }
      DivModUnique(v * b + d, b, v, d);
      assert Digits(v * b + d, b) == Digits(v, b) + [d];
      assert init + [d] == ds;
    }
  }

  /** A number below b^k has at most k digits in base b. */
  lemma {:induction false} DigitsLength(n: nat, b: nat, k: nat)
    requires 2 <= b && n < Pow(b, k)
    ensures |Digits(n, b)| <= k
    decreases k
  {
    if n != 0 {
      assert k > 0;
      var p := Pow(b, k - 1);
      assert n < b * p;
      DivMod(n, b);
      if n / b >= p {
        MulMonotone(p, n / b, b);
      }
      DigitsLength(n / b, b, k - 1);
    }
  }

  /** A number of at least b^k has more than k digits in base b. */
  lemma {:induction false} DigitsLengthLower(n: nat, b: nat, k: nat)
    requires 2 <= b && Pow(b, k) <= n
    ensures |Digits(n, b)| > k
    decreases k
  {
    if k > 0 {
      var p := Pow(b, k - 1);
      DivMod(n, b);
      if n / b < p {
        MulMonotone(n / b, p - 1, b);
      }
      DigitsLengthLower(n / b, b, k - 1);
      DigitsSnoc(n, b);
    }
  }

  /** The leading digit of a number in [b^k, b^(k+1)) is its quotient by b^k. */
  lemma {:induction false} LeadingDigit(n: nat, b: nat, k: nat)
    requires 2 <= b && Pow(b, k) <= n < Pow(b, k + 1)
    ensures |Digits(n, b)| == k + 1
    ensures Digits(n, b)[0] == n / Pow(b, k)
    decreases k
  {
    DigitsLength(n, b, k + 1);
    DigitsLengthLower(n, b, k);
    DigitsSnoc(n, b);
    if k == 0 {
      DivModUnique(n, b, 0, n);
    } else {
      var p, q := Pow(b, k - 1), n / b;
      QuotientBounds(n, b, p, b * p);
      LeadingDigit(q, b, k - 1);
      DivDiv(n, b, p);
    }
  }

  /** k digits below b denote a number below b^k. */
  lemma {:induction false} ValueBound(ds: seq<nat>, b: nat)
    requires 2 <= b
    requires forall i :: 0 <= i < |ds| ==> ds[i] < b
    ensures Value(ds, b) < Pow(b, |ds|)
    decreases |ds|
  {
    if ds != [] {
      var init := ds[..|ds| - 1];
      ValueBound(init, b);
      var v, p := Value(init, b), Pow(b, |init|);
      NextPlaceBound(v, ds[|ds| - 1], p, b);
    }
  }

  /** Pow is monotone in its exponent. */
  lemma {:induction false} PowMonotone(b: nat, j: nat, k: nat)
    requires 1 <= b && j <= k
    ensures Pow(b, j) <= Pow(b, k)
    decreases k
  {
    if j < k {
      PowMonotone(b, j, k - 1);
      assert Pow(b, k - 1) <= b * Pow(b, k - 1);
    }
  }

  /** n copies of the top digit b - 1 denote b^n - 1, the largest n-digit value. */
  lemma {:induction false} ValueOfTopDigits(n: nat, b: nat)
    requires 2 <= b
    ensures Value(seq(n, _ => b - 1), b) == Pow(b, n) - 1
    decreases n
  {
    if n > 0 {
      var ds := seq(n, _ => b - 1);
      assert ds[..n - 1] == seq(n - 1, _ => b - 1);
      ValueOfTopDigits(n - 1, b);
      var p := Pow(b, n - 1);
      assert (p - 1) * b + (b - 1) == p * b - 1;
    }
  }

  /** A leading digit d adds d times the place value of its position. */
  lemma {:induction false} ValuePrepend(d: nat, ds: seq<nat>, b: nat)
    ensures Value([d] + ds, b) == d * Pow(b, |ds|) + Value(ds, b)
    decreases |ds|
  {
    if ds == [] {
      assert [d] + ds == [d];
      assert Value([d], b) == Value([], b) * b + d;
    } else {
      var init, e := ds[..|ds| - 1], ds[|ds| - 1];
      assert ([d] + ds)[..|ds|] == [d] + init;
      ValuePrepend(d, init, b);
      var p, v := Pow(b, |init|), Value(init, b);
      assert (d * p + v) * b + e == d * (b * p) + (v * b + e);
    }
  }

  /** The character for a digit below 16: '0'..'9', then 'A'..'F' (upper case). */
  function DigitChar(d: nat): (c: char)
    requires d < 16
    ensures IsDigitChar(c)
    ensures d < 10 <==> '0' <= c <= '9'
    ensures c == '0' <==> d == 0
  {
    if d < 10 then ('0' as int + d) as char else ('A' as int + d - 10) as char
  }

  predicate IsDigitChar(c: char)
  {
    '0' <= c <= '9' || 'A' <= c <= 'F'
  }

  /** The digit a character stands for; the inverse of DigitChar. */
  function CharValue(c: char): (d: nat)
    requires IsDigitChar(c)
    ensures d < 16 && DigitChar(d) == c
    ensures d < 10 <==> '0' <= c <= '9'
  {
    if c <= '9' then c as int - '0' as int else c as int - 'A' as int + 10
  }

  lemma CharValueOfDigitChar(d: nat)
    requires d < 16
    ensures IsDigitChar(DigitChar(d)) && CharValue(DigitChar(d)) == d
  {
  }

  /** The characters that write the digit sequence ds, in the same order. */
  function Text(ds: seq<nat>): (s: string)
    requires forall i :: 0 <= i < |ds| ==> ds[i] < 16
    ensures |s| == |ds|
    ensures forall i :: 0 <= i < |ds| ==> s[i] == DigitChar(ds[i])
  {
    if ds == [] then "" else Text(ds[..|ds| - 1]) + [DigitChar(ds[|ds| - 1])]
  }

  /** Reads digit characters most significant first in base b. */
  function Parse(s: string, b: nat): (v: nat)
    requires forall i :: 0 <= i < |s| ==> IsDigitChar(s[i])
  {
    if s == [] then 0 else Parse(s[..|s| - 1], b) * b + CharValue(s[|s| - 1])
  }

  /** Parse undoes Text. */
  lemma {:induction false} ParseText(ds: seq<nat>, b: nat)
    requires forall i :: 0 <= i < |ds| ==> ds[i] < 16
    ensures forall i :: 0 <= i < |ds| ==> IsDigitChar(Text(ds)[i])
    ensures Parse(Text(ds), b) == Value(ds, b)
    decreases |ds|
  {
    var s := Text(ds);
    forall i | 0 <= i < |ds|
      ensures IsDigitChar(s[i])
    {
      CharValueOfDigitChar(ds[i]);
    }
    if ds != [] {
      var init := ds[..|ds| - 1];
      ParseText(init, b);
      assert s[..|s| - 1] == Text(init);
      CharValueOfDigitChar(ds[|ds| - 1]);
    }
  }

  /** The conventional numeral of n in base b: its digits, or "0" for zero. */
  function Numeral(n: nat, b: nat): (s: string)
    requires 2 <= b <= 16
    ensures |s| > 0 && forall i :: 0 <= i < |s| ==> IsDigitChar(s[i])
    ensures s[0] == '0' <==> n == 0
    ensures n == 0 <==> s == "0"
  {
    if n == 0 then "0" else Text(Digits(n, b))
  }

  /** Numeral is nonempty, uses only the characters of digits below b, has no
      leading '0' except for zero itself, and reads back as n. */
  lemma NumeralRoundTrip(n: nat, b: nat)
    requires 2 <= b <= 16
    ensures var s := Numeral(n, b);
      && |s| > 0
      && (forall i :: 0 <= i < |s| ==> IsDigitChar(s[i]) && CharValue(s[i]) < b)
      && (s[0] == '0' <==> n == 0)
      && Parse(s, b) == n
  {
    var s := Numeral(n, b);
    if n == 0 {
      assert s == "0";
      assert s[..0] == "";
    } else {
      var ds := Digits(n, b);
      ParseText(ds, b);
      ValueOfDigits(n, b);
      forall i | 0 <= i < |s|
        ensures CharValue(s[i]) < b
      {
        CharValueOfDigitChar(ds[i]);
      }
      CharValueOfDigitChar(ds[0]);
    }
  }

  /** The numeral of n in base b has at most k characters when n < b^k and k >= 1. */
  lemma NumeralLength(n: nat, b: nat, k: nat)
    requires 2 <= b <= 16 && 1 <= k && n < Pow(b, k)
    ensures |Numeral(n, b)| <= k
  {
    DigitsLength(n, b, k);
  }

  /** The decimal text of a signed integer: '-' before the digits of a negative one. */
  function SignedDecimal(x: int): (s: string)
    ensures |s| > 0 && (s[0] == '-' <==> x < 0)
    ensures x == 0 <==> s == "0"
  {
    if x < 0 then "-" + Numeral(-x, 10) else Numeral(x, 10)
  }

  predicate IsSignedDecimalText(s: string)
  {
    && |s| > 0
    && (s[0] == '-' ==> |s| > 1)
    && forall i :: (if s[0] == '-' then 1 else 0) <= i < |s| ==> '0' <= s[i] <= '9'
  }

  /** Reads an optionally '-'-signed decimal text. */
  function ParseSigned(s: string): (x: int)
    requires IsSignedDecimalText(s)
  {
    if s[0] == '-' then 0 - Parse(s[1..], 10) else Parse(s, 10)
  }

  /** SignedDecimal: a leading '-' exactly for negative x, "0" for zero, no
      '0' right after the sign otherwise, and reading the text back gives x. */
  lemma SignedDecimalRoundTrip(x: int)
    ensures var s := SignedDecimal(x);
      && IsSignedDecimalText(s)
      && (s[0] == '-' <==> x < 0)
      && (x == 0 <==> s == "0")
      && (x != 0 ==> s[if x < 0 then 1 else 0] != '0')
      && ParseSigned(s) == x
  {
    var m := if x < 0 then -x else x;
    var t := Numeral(m, 10);
    NumeralRoundTrip(m, 10);
    var s := SignedDecimal(x);
    var start := if x < 0 then 1 else 0;
    assert s[start..] == t;
    forall i | start <= i < |s|
      ensures '0' <= s[i] <= '9'
    {
      assert s[i] == t[i - start];
      assert CharValue(t[i - start]) < 10;
    }
    assert s[start] == t[0];
    if s == "0" {
      assert t[0] == '0';
    }
  }
}
