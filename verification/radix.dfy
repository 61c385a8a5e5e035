/**
 The radix decoder: `convertToDecimal` folds a string of radix digits into an
 arbitrary-precision integer, left to right, by Horner's rule. Characters that
 are neither ASCII digits nor ASCII letters are skipped, letters are read
 case-insensitively as 10..35, and a digit whose value is not below the base is
 accepted as it is.
 */
module Radix {

  /** `isdigit` in the C locale. */
  predicate IsDigit(c: char) {
    '0' <= c <= '9'
  }

  /** `isalpha` in the C locale: ASCII letters only. */
  predicate IsAlpha(c: char) {
    ('a' <= c <= 'z') || ('A' <= c <= 'Z')
  }

  predicate IsAlnum(c: char) {
    IsDigit(c) || IsAlpha(c)
  }

  /** `tolower` in the C locale. */
  function ToLower(c: char): (r: char)
    ensures IsAlpha(c) ==> 'a' <= r <= 'z'
    ensures 'A' <= c <= 'Z' ==> r as int - 'a' as int == c as int - 'A' as int
    ensures !('A' <= c <= 'Z') ==> r == c
  {
    if 'A' <= c <= 'Z' then (c as int - 'A' as int + 'a' as int) as char else c
  }

  /** The value the decoder gives an alphanumeric character. */
  function DigitVal(c: char): (d: nat)
    requires IsAlnum(c)
    ensures d < 36
    ensures IsDigit(c) <==> d < 10
  {
    if IsDigit(c) then c as int - '0' as int
    else 10 + (ToLower(c) as int - 'a' as int)
  }

  /** One iteration of the decoding loop: skip, or shift in one digit. A
      digit below the base can be read back off the result, together with
      the value before it. */
  function Step(acc: int, c: char, base: int): (r: int)
    ensures !IsAlnum(c) ==> r == acc
    ensures IsAlnum(c) && DigitVal(c) < base ==> r % base == DigitVal(c) && r / base == acc
  {
    if IsAlnum(c) then
      ShiftDigit(acc, base, DigitVal(c));
      acc * base + DigitVal(c)
    else acc
  }

  lemma ShiftDigit(acc: int, base: int, d: int)
    ensures 0 <= d < base ==> (acc * base + d) % base == d && (acc * base + d) / base == acc
  {
    if 0 <= d < base {
      var n := acc * base + d;
      var q, r := n / base, n % base;
      assert n == q * base + r && 0 <= r < base;
      // Two quotients with remainders below the base cannot be a whole
      // base apart.
      if acc > q {
        assert (acc - q) * base == r - d;
        MulMonotone(1, acc - q, base);
        assert false;
      } else if acc < q {
        assert (q - acc) * base == d - r;
        MulMonotone(1, q - acc, base);
        assert false;
      }
    }
  }

  /** The decoding loop run from accumulator `acc` over `s`. */
  function DecodeFrom(acc: int, s: string, base: int): (r: int)
    ensures acc >= 0 && base >= 0 ==> r >= 0
    decreases |s|
  {
    if |s| == 0 then acc
    else
      StepNonNegative(acc, s[0], base);
      DecodeFrom(Step(acc, s[0], base), s[1..], base)
  }

  lemma StepNonNegative(acc: int, c: char, base: int)
    ensures acc >= 0 && base >= 0 ==> Step(acc, c, base) >= 0
  {
    if acc >= 0 && base >= 0 {
      assert acc * base >= 0;
    }
  }

  /** `convertToDecimal(s, base)`. */
  function Decode(s: string, base: int): (r: int)
    ensures base >= 0 ==> r >= 0
  {
    DecodeFrom(0, s, base)
  }

  /** The decoding loop as written: one pass over `s`, skipping what is not
      alphanumeric. */
  method ConvertToDecimal(s: string, base: int) returns (result: int)
    ensures result == Decode(s, base)
  {
    result := 0;
    var i := 0;
    while i < |s|
      invariant 0 <= i <= |s|
      invariant result == Decode(s[..i], base)
    {
      var c := s[i];
      assert s[..i + 1] == s[..i] + [c];
      DecodeHorner(s[..i], c, base);
      if IsDigit(c) {
        result := result * base + (c as int - '0' as int);
      } else if IsAlpha(c) {
        result := result * base + (10 + (ToLower(c) as int - 'a' as int));
      }
      i := i + 1;
    }
    assert s[..i] == s;
  }

  /** The characters of `s` that the decoder does not skip, in order. */
  function FilterAlnum(s: string): (r: string)
    ensures forall i :: 0 <= i < |r| ==> IsAlnum(r[i])
    ensures |r| <= |s|
    ensures (forall i :: 0 <= i < |s| ==> IsAlnum(s[i])) ==> r == s
  {
    if |s| == 0 then []
    else if IsAlnum(s[0]) then [s[0]] + FilterAlnum(s[1..])
    else FilterAlnum(s[1..])
  }

  lemma {:induction false} DecodeFromSnoc(acc: int, s: string, c: char, base: int)
    ensures DecodeFrom(acc, s + [c], base) == Step(DecodeFrom(acc, s, base), c, base)
    decreases |s|
  {
    if |s| == 0 {
      assert s + [c] == [c];
      assert [c][1..] == [];
    } else {
      assert (s + [c])[0] == s[0];
      assert (s + [c])[1..] == s[1..] + [c];
      DecodeFromSnoc(Step(acc, s[0], base), s[1..], c, base);
    }
  }

  /** Horner's rule: the empty string decodes to 0, and appending a character
      either shifts in its digit value (whatever the base) or leaves the
      value alone. */
  lemma DecodeHorner(s: string, c: char, base: int)
    ensures Decode([], base) == 0
    ensures IsAlnum(c) ==> Decode(s + [c], base) == Decode(s, base) * base + DigitVal(c)
    ensures !IsAlnum(c) ==> Decode(s + [c], base) == Decode(s, base)
  {
    DecodeFromSnoc(0, s, c, base);
  }

  lemma {:induction false} DecodeFromFilter(acc: int, s: string, base: int)
    ensures DecodeFrom(acc, s, base) == DecodeFrom(acc, FilterAlnum(s), base)
    decreases |s|
  {
    if |s| > 0 {
      DecodeFromFilter(Step(acc, s[0], base), s[1..], base);
      if IsAlnum(s[0]) {
        var f := [s[0]] + FilterAlnum(s[1..]);
        assert f[0] == s[0] && f[1..] == FilterAlnum(s[1..]);
      }
    }
  }

  /** Skipped characters do not matter: decoding sees only the alphanumerics. */
  lemma DecodeIgnoresNonAlnum(s: string, base: int)
    ensures Decode(s, base) == Decode(FilterAlnum(s), base)
  {
    DecodeFromFilter(0, s, base);
  }

  /** Letters are read case-insensitively: the i-th letter of the alphabet is
      worth 10 + i in either case. */
  lemma LetterValues(i: int)
    requires 0 <= i < 26
    ensures DigitVal(('a' as int + i) as char) == 10 + i
    ensures DigitVal(('A' as int + i) as char) == 10 + i
  {
  }

  lemma DigitValues(i: int)
    requires 0 <= i < 10
    ensures DigitVal(('0' as int + i) as char) == i
  {
  }

  /** The canonical (lower-case) character of a digit value. */
  function DigitChar(d: nat): (c: char)
    requires d < 36
    ensures IsAlnum(c) && DigitVal(c) == d
  {
    if d < 10 then ('0' as int + d) as char else ('a' as int + d - 10) as char
  }

  /** The base-`base` representation of `n`, most significant digit first. */
  function Encode(n: nat, base: int): (s: string)
    requires 2 <= base <= 36
    ensures |s| >= 1
    ensures forall i :: 0 <= i < |s| ==> IsAlnum(s[i]) && DigitVal(s[i]) < base
    ensures n > 0 ==> s[0] != '0'
    decreases n
  {
    if n < base then [DigitChar(n)]
    else
      DivModFacts(n, base);
      Encode(n / base, base) + [DigitChar(n % base)]
  }

  lemma DivModFacts(n: nat, base: int)
    requires 2 <= base <= n
    ensures n == (n / base) * base + n % base
    ensures 0 <= n % base < base
    ensures 1 <= n / base < n
  {
  }

  /** Decoding the base-`base` representation of `n` gives back `n`. */
  lemma {:induction false} DecodeEncode(n: nat, base: int)
    requires 2 <= base <= 36
    ensures Decode(Encode(n, base), base) == n
    decreases n
  {
    if n < base {
      DecodeHorner([], DigitChar(n), base);
      assert [] + [DigitChar(n)] == [DigitChar(n)];
    } else {
      DivModFacts(n, base);
      DecodeEncode(n / base, base);
      DecodeHorner(Encode(n / base, base), DigitChar(n % base), base);
    }
  }

  /** `base` raised to `e`. */
  function Pow(base: int, e: nat): int {
    if e == 0 then 1 else base * Pow(base, e - 1)
  }

  lemma MulMonotone(a: int, b: int, c: int)
    requires a <= b && c >= 0
    ensures a * c <= b * c
  {
  }

  /** A string of in-range digits of length n decodes below base^n. */
  lemma {:induction false} DecodeBound(s: string, base: int)
    requires base >= 2
    requires forall i :: 0 <= i < |s| ==> IsAlnum(s[i]) && DigitVal(s[i]) < base
    ensures 0 <= Decode(s, base) < Pow(base, |s|)
    decreases |s|
  {
    if |s| > 0 {
      var init := s[..|s| - 1];
      var c := s[|s| - 1];
      assert init + [c] == s;
      DecodeBound(init, base);
      DecodeHorner(init, c, base);
      var v := Decode(init, base);
      var P := Pow(base, |init|);
      assert Pow(base, |s|) == base * P;
      MulMonotone(v, P - 1, base);
      assert v * base + DigitVal(c) <= (P - 1) * base + base - 1;
    }
  }

  /** A digit at or above the base is not rejected: in base 10, "1z" decodes
      like "45", because 'z' is worth 35. */
  lemma OutOfRangeDigitAccepted()
    ensures Decode("1z", 10) == 45 == Decode("45", 10)
    ensures Decode("2", 2) == 2 == Decode("10", 2)
  {
  }

  /** Worked values: hexadecimal and binary, and separators are skipped. */
  lemma DecodeExamples()
    ensures Decode("ff", 16) == 255
    ensures Decode("FF", 16) == 255
    ensures Decode("111", 2) == 7
    ensures Decode("1_000", 10) == 1000
  {
  }
}
