/** Printing and reading numbers as iostreams and lexical_cast do. */
module Numerals {
  import opened Arithmetic

  type Base = b: int | 2 <= b <= 16 witness 10

  const DIGITS: string := "0123456789abcdef"

  function Numeral(base: Base, n: nat): (s: string)
    ensures |s| > 0
  {
    if n < base then [DIGITS[n]] else Numeral(base, n / base) + [DIGITS[n % base]]
  }

  /** The value of a digit; hexadecimal input may be in either case. */
  function DigitValue(c: char): int {
    if '0' <= c <= '9' then c as int - '0' as int
    else if 'a' <= c <= 'f' then c as int - 'a' as int + 10
    else if 'A' <= c <= 'F' then c as int - 'A' as int + 10
    else -1
  }

  predicate IsDigit(base: Base, c: char) { 0 <= DigitValue(c) < base }

  predicate AllDigits(base: Base, s: string) { forall i :: 0 <= i < |s| ==> IsDigit(base, s[i]) }

  function Value(base: Base, s: string): nat
    requires AllDigits(base, s)
  {
    if s == [] then 0 else Value(base, s[..|s| - 1]) * base + DigitValue(s[|s| - 1])
  }

  function Power(base: Base, e: nat): nat {
    if e == 0 then 1 else base * Power(base, e - 1)
  }

  lemma DigitRoundTrip(d: nat)
    requires d < 16
    ensures DigitValue(DIGITS[d]) == d
  {
  }

  lemma ValueExtends(base: Base, s: string, d: nat)
    requires AllDigits(base, s) && d < base
    ensures AllDigits(base, s + [DIGITS[d]])
    ensures Value(base, s + [DIGITS[d]]) == Value(base, s) * base + d
  {
    DigitRoundTrip(d);
    assert (s + [DIGITS[d]])[..|s|] == s;
  }

  /** Reading back what was printed. */
  lemma {:induction false} NumeralRoundTrip(base: Base, n: nat)
    ensures AllDigits(base, Numeral(base, n)) && Value(base, Numeral(base, n)) == n
  {
    hide Value;
    DivMod(base, n);
    if n < base {
      ValueExtends(base, [], n);
      EmptyValue(base);
      assert [] + [DIGITS[n]] == Numeral(base, n);
    } else {
      DivShrinks(base, n);
      NumeralRoundTrip(base, n / base);
      ValueExtends(base, Numeral(base, n / base), n % base);
    }
  }

  /** Printing is in lower case. */
  lemma {:induction false} NumeralChars(base: Base, n: nat)
    ensures forall i :: 0 <= i < |Numeral(base, n)| ==> '0' <= Numeral(base, n)[i] <= '9' || 'a' <= Numeral(base, n)[i] <= 'f'
  {
    DivMod(base, n);
    if n >= base {
      DivShrinks(base, n);
      NumeralChars(base, n / base);
    }
  }

  lemma EmptyValue(base: Base)
    ensures AllDigits(base, []) && Value(base, []) == 0
  {
  }

  /** Printing needs at most e digits exactly for numbers below base^e. */
  lemma {:induction false} NumeralLength(base: Base, n: nat, e: nat)
    requires e > 0
    ensures |Numeral(base, n)| <= e <==> n < Power(base, e)
    decreases e
  {
    assert Power(base, e) == base * Power(base, e - 1);
    if e == 1 {
      assert Power(base, 1) == base * Power(base, 0);
    } else {
      PowerGrows(base, e);
      if n >= base {
        NumeralLength(base, n / base, e - 1);
        DivBelow(base, n, Power(base, e - 1));
      }
    }
  }

  lemma {:induction false} PowerGrows(base: Base, e: nat)
    requires e > 0
    ensures Power(base, e) >= base
  {
    if e > 1 {
      PowerGrows(base, e - 1);
      assert base * Power(base, e - 1) >= base * 1;
    } else {
      assert Power(base, 1) == base * Power(base, 0);
    }
  }

  lemma DivBelow(base: Base, n: nat, p: nat)
    ensures n / base < p <==> n < base * p
  {
    assert n == base * (n / base) + n % base;
    if n / base < p {
      assert base * (n / base + 1) <= base * p;
    } else {
      assert base * (n / base) >= base * p;
    }
  }

  /** `lexical_cast<std::string>` of a chunk number. */
  function Decimal(n: nat): string { Numeral(10, n) }

  lemma DecimalIsInjective(a: nat, b: nat)
    ensures Decimal(a) == Decimal(b) ==> a == b
  {
    NumeralRoundTrip(10, a);
    NumeralRoundTrip(10, b);
  }
}
