/** Natural numbers as text in a radix from 2 to 16, the way BigInt prints and reads them. */
module NumberText {
  type Radix = b: nat | 2 <= b <= 16 witness 10

  function DigitChar(digit: nat): char
    requires digit < 16
  {
    if digit < 10 then '0' + digit as char else 'a' + (digit - 10) as char
  }

  function DigitValue(c: char): int {
    if '0' <= c <= '9' then (c - '0') as int
    else if 'a' <= c <= 'f' then (c - 'a') as int + 10
    else if 'A' <= c <= 'F' then (c - 'A') as int + 10
    else -1
  }

  predicate IsDigit(c: char, base: Radix) {
    0 <= DigitValue(c) < base
  }

  /** The digits are those of the radix, in either case from ten on, and each has its position as value. */
  lemma DigitsAre(c: char, base: Radix)
    ensures var digits := "0123456789abcdef"[..base];
            && (IsDigit(c, base) <==> c in digits || c in "ABCDEF"[..if base < 10 then 0 else base - 10])
            && (forall d :: 0 <= d < base && c == "0123456789abcdef"[d] ==> DigitValue(c) == d)
            && (forall k :: 0 <= k < base - 10 && c == "ABCDEF"[k] ==> DigitValue(c) == 10 + k)
  {
    var lower, upper := "0123456789abcdef", "ABCDEF";
    assert forall d :: 0 <= d < 16 ==> lower[d] == DigitChar(d);
    assert forall k :: 0 <= k < 6 ==> upper[k] == 'A' + k as char;
    if IsDigit(c, base) {
      assert lower[DigitValue(c)] == c || upper[DigitValue(c) - 10] == c;
    }
  }

  predicate IsNumeral(s: string, base: Radix) {
    forall i :: 0 <= i < |s| ==> IsDigit(s[i], base)
  }

  // Lower-case digits without a leading zero, except for zero itself.
  predicate IsCanonical(s: string, base: Radix) {
    && s != ""
    && (forall i :: 0 <= i < |s| ==> IsDigit(s[i], base) && !('A' <= s[i] <= 'F'))
    && (s[0] == '0' ==> |s| == 1)
  }

  function Shift(n: nat, base: Radix, digit: nat): nat { n * base + digit }

  // BigInt reads the empty numeral as zero.
  function Value(s: string, base: Radix): nat
    requires IsNumeral(s, base)
  {
    if s == "" then 0 else Shift(Value(s[..|s| - 1], base), base, DigitValue(s[|s| - 1]))
  }

  function Quotient(n: nat, base: Radix): nat { n / base }

  function Remainder(n: nat, base: Radix): (r: nat)
    ensures r < base
  {
    n % base
  }

  function Print(n: nat, base: Radix): string {
    if n < base then [DigitChar(n)]
    else
      QuotientShrinks(n, base);
      Print(Quotient(n, base), base) + [DigitChar(Remainder(n, base))]
  }

  lemma QuotientShrinks(n: nat, base: Radix)
    ensures base <= n ==> 0 < Quotient(n, base) < n
    ensures Shift(Quotient(n, base), base, Remainder(n, base)) == n
  {
    var q := n / base;
    assert n == q * base + n % base;
    if base <= n {
      assert q == 0 ==> q * base == 0;
      assert 2 * q <= base * q;
    }
  }

  function Pow(base: nat, exponent: nat): nat {
    if exponent == 0 then 1 else base * Pow(base, exponent - 1)
  }

  function Zeros(n: nat): string {
    if n == 0 then "" else Zeros(n - 1) + "0"
  }

  // padStart(width, "0") and padEnd(width, "0")
  function PadStart(s: string, width: nat): string { if |s| < width then Zeros(width - |s|) + s else s }

  function PadEnd(s: string, width: nat): string { if |s| < width then s + Zeros(width - |s|) else s }

  lemma NoZeros()
    ensures Zeros(0) == ""
  {
  }

  lemma OneZero()
    ensures Zeros(1) == "0"
  {
    assert Zeros(0) == "";
  }

  lemma PowPositive(base: nat, exponent: nat)
    requires 0 < base
    ensures 0 < Pow(base, exponent)
  {
  }

  lemma {:induction false} PowAdds(base: nat, a: nat, b: nat)
    ensures Pow(base, a + b) == Pow(base, a) * Pow(base, b)
  {
    if a != 0 {
      PowAdds(base, a - 1, b);
      assert base * (Pow(base, a - 1) * Pow(base, b)) == (base * Pow(base, a - 1)) * Pow(base, b);
    }
  }

  lemma {:induction false} PowGrows(base: nat, a: nat, b: nat)
    requires 0 < base && a <= b
    ensures Pow(base, a) <= Pow(base, b)
    decreases b
  {
    if a < b {
      PowGrows(base, a, b - 1);
      assert 1 * Pow(base, b - 1) <= base * Pow(base, b - 1);
    }
  }

  lemma {:induction false} ZerosShape(n: nat)
    ensures |Zeros(n)| == n && forall i :: 0 <= i < n ==> Zeros(n)[i] == '0'
  {
    if n != 0 {
      ZerosShape(n - 1);
    }
  }

  lemma {:induction false} ZerosValue(n: nat, base: Radix)
    ensures IsNumeral(Zeros(n), base) && Value(Zeros(n), base) == 0
  {
    if n != 0 {
      ZerosValue(n - 1, base);
      AppendedZero(Zeros(n - 1), base);
    }
  }

  lemma AppendedZero(s: string, base: Radix)
    requires IsNumeral(s, base) && Value(s, base) == 0
    ensures IsNumeral(s + "0", base) && Value(s + "0", base) == 0
  {
    assert (s + "0")[..|s|] == s && (s + "0")[|s|] == '0';
  }

  lemma MulStrict(a: nat, b: nat, c: nat)
    requires a < b
    ensures a * c + c <= b * c
  {
    Distribute(a, b - a, c);
    Distribute(b - a - 1, 1, c);
  }

  lemma Distribute(a: int, b: int, c: int)
    ensures (a + b) * c == a * c + b * c
  {
  }

  lemma ShiftSplits(n: nat, base: Radix, digit: nat)
    requires digit < base
    ensures Quotient(Shift(n, base, digit), base) == n && Remainder(Shift(n, base, digit), base) == digit
    ensures 0 < n ==> base <= Shift(n, base, digit)
  {
    var x := Shift(n, base, digit);
    var q := Quotient(x, base);
    QuotientShrinks(x, base);
    hide Quotient, Remainder;
    if q < n {
      MulStrict(q, n, base);
    } else if n < q {
      MulStrict(n, q, base);
    }
    if 0 < n {
      MulStrict(0, n, base);
    }
  }

  lemma {:induction false} PrintShape(n: nat, base: Radix)
    ensures IsCanonical(Print(n, base), base) && IsNumeral(Print(n, base), base)
    ensures 0 < n ==> Print(n, base)[0] != '0'
  {
    if n < base {
      DigitReadsBack(n);
    } else {
      QuotientShrinks(n, base);
      hide Quotient, Remainder, DigitChar;
      DigitReadsBack(Remainder(n, base));
      PrintShape(Quotient(n, base), base);
    }
  }

  /** Printing gives a canonical numeral that reads back as the number. */
  lemma {:induction false} PrintReadsBack(n: nat, base: Radix)
    ensures IsCanonical(Print(n, base), base) && IsNumeral(Print(n, base), base)
    ensures Value(Print(n, base), base) == n
  {
    hide Shift, Quotient, Remainder, IsCanonical, DigitChar;
    PrintShape(n, base);
    if n < base {
      DigitReadsBack(n);
      ValueOfDigit(Print(n, base), base);
    } else {
      DigitReadsBack(Remainder(n, base));
      QuotientShrinks(n, base);
      PrintReadsBack(Quotient(n, base), base);
      var head := Print(Quotient(n, base), base);
      assert Print(n, base)[..|head|] == head;
    }
  }

  lemma DigitPrints(c: char)
    requires IsDigit(c, 16) && !('A' <= c <= 'F')
    ensures DigitChar(DigitValue(c)) == c
  {
  }

  lemma DigitReadsBack(digit: nat)
    requires digit < 16
    ensures DigitValue(DigitChar(digit)) == digit && !('A' <= DigitChar(digit) <= 'F')
    ensures DigitChar(digit) == '0' <==> digit == 0
  {
  }

  lemma ValueOfDigit(s: string, base: Radix)
    requires |s| == 1 && IsNumeral(s, base)
    ensures Value(s, base) == DigitValue(s[0])
  {
    assert s[..0] == "" && Value(s[..0], base) == 0;
  }

  lemma PrintIsInjective(m: nat, n: nat, base: Radix)
    requires Print(m, base) == Print(n, base)
    ensures m == n
  {
    PrintReadsBack(m, base);
    PrintReadsBack(n, base);
  }

  /** A canonical numeral is what its value prints as. */
  lemma {:induction false} CanonicalPrints(s: string, base: Radix)
    requires IsCanonical(s, base)
    ensures IsNumeral(s, base) && Print(Value(s, base), base) == s
  {
    hide Shift, Quotient, Remainder, DigitChar;
    var last := |s| - 1;
    if last == 0 {
      ValueOfDigit(s, base);
      DigitPrints(s[0]);
    } else {
      CanonicalPrints(s[..last], base);
      CanonicalIsPositive(s[..last], base);
      ShiftSplits(Value(s[..last], base), base, DigitValue(s[last]));
      DigitPrints(s[last]);
      assert s == s[..last] + [s[last]];
    }
  }

  lemma {:induction false} CanonicalIsPositive(s: string, base: Radix)
    requires s != "" && IsNumeral(s, base) && s[0] != '0'
    ensures 0 < Value(s, base)
  {
    hide Shift;
    var last := |s| - 1;
    if last == 0 {
      ValueOfDigit(s, base);
    } else {
      CanonicalIsPositive(s[..last], base);
      ShiftSplits(Value(s[..last], base), base, DigitValue(s[last]));
    }
  }

  lemma ShiftDistributes(a: nat, power: nat, b: nat, base: Radix, digit: nat)
    ensures Shift(a * power + b, base, digit) == a * (base * power) + Shift(b, base, digit)
  {
    assert (a * power) * base == a * (base * power);
  }

  /** Reading a concatenation shifts the left part by the length of the right part. */
  lemma {:induction false} ValueOfConcat(a: string, b: string, base: Radix)
    requires IsNumeral(a, base) && IsNumeral(b, base)
    ensures IsNumeral(a + b, base)
    ensures Value(a + b, base) == Value(a, base) * Pow(base, |b|) + Value(b, base)
  {
    if b == "" {
      assert a + b == a;
    } else {
      hide Shift;
      var last := |b| - 1;
      ValueOfConcat(a, b[..last], base);
      assert (a + b)[..|a + b| - 1] == a + b[..last];
      ShiftDistributes(Value(a, base), Pow(base, last), Value(b[..last], base), base, DigitValue(b[last]));
    }
  }

  lemma ShiftBound(n: nat, power: nat, base: Radix, digit: nat)
    requires digit < base
    ensures n < power ==> Shift(n, base, digit) < base * power
    ensures power <= n ==> base * power <= Shift(n, base, digit)
  {
    if n < power {
      assert (n + 1) * base <= power * base;
    } else {
      assert power * base <= n * base;
    }
  }

  lemma {:induction false} ValueBound(s: string, base: Radix)
    requires IsNumeral(s, base)
    ensures Value(s, base) < Pow(base, |s|)
  {
    if s != "" {
      hide Shift;
      var last := |s| - 1;
      ValueBound(s[..last], base);
      ShiftBound(Value(s[..last], base), Pow(base, last), base, DigitValue(s[last]));
    }
  }

  /** The length of a printed positive number brackets it between two powers of the radix. */
  lemma {:induction false} PrintLength(n: nat, base: Radix)
    requires 0 < n
    ensures 0 < |Print(n, base)|
    ensures Pow(base, |Print(n, base)| - 1) <= n < Pow(base, |Print(n, base)|)
  {
    if base <= n {
      QuotientShrinks(n, base);
      hide Shift, Quotient, Remainder;
      PrintLength(Quotient(n, base), base);
      var length := |Print(Quotient(n, base), base)|;
      ShiftBound(Quotient(n, base), Pow(base, length), base, Remainder(n, base));
      ShiftBound(Quotient(n, base), Pow(base, length - 1), base, Remainder(n, base));
    } else {
      assert Pow(base, 1) == base * Pow(base, 0);
    }
  }

  lemma LeadingZeros(n: nat, s: string, base: Radix)
    requires IsNumeral(s, base)
    ensures IsNumeral(Zeros(n) + s, base) && Value(Zeros(n) + s, base) == Value(s, base)
  {
    ZerosValue(n, base);
    ValueOfConcat(Zeros(n), s, base);
  }

  lemma TrailingZeros(s: string, n: nat, base: Radix)
    requires IsNumeral(s, base)
    ensures IsNumeral(s + Zeros(n), base) && Value(s + Zeros(n), base) == Value(s, base) * Pow(base, n)
  {
    ZerosValue(n, base);
    ZerosShape(n);
    ValueOfConcat(s, Zeros(n), base);
  }
}
