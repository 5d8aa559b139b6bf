/** Decimal text of integers, as `String(n)` prints safe integers and `Number(s)` reads digits. */
module Decimal {
  predicate IsDigit(c: char) {
    '0' <= c <= '9'
  }

  predicate AllDigits(s: string) {
    forall i :: 0 <= i < |s| ==> IsDigit(s[i])
  }

  function DigitChar(d: nat): char
    requires d < 10
  {
    '0' + d as char
  }

  function Digits(n: nat): (s: string)
    ensures s != "" && AllDigits(s)
    ensures n > 0 ==> s[0] != '0'
  {
    if n < 10 then [DigitChar(n)] else Digits(n / 10) + [DigitChar(n % 10)]
  }

  function Value(s: string): nat
    requires AllDigits(s)
  {
    if s == "" then 0 else 10 * Value(s[..|s| - 1]) + (s[|s| - 1] - '0') as nat
  }

  lemma {:induction false} ValueOfDigits(n: nat)
    ensures Value(Digits(n)) == n
  {
    if n < 10 {
      assert Digits(n)[..0] == "";
    } else {
      ValueOfDigits(n / 10);
      assert Digits(n)[..|Digits(n)| - 1] == Digits(n / 10);
    }
  }

  predicate Canonical(s: string) {
    s != "" && AllDigits(s) && (s[0] == '0' ==> |s| == 1)
  }

  lemma {:induction false} DigitsOfValue(s: string)
    requires Canonical(s)
    ensures Digits(Value(s)) == s
    ensures s[0] != '0' ==> Value(s) > 0
  {
    var init, last := s[..|s| - 1], s[|s| - 1];
    assert s == init + [last];
    assert DigitChar((last - '0') as nat) == last;
    if init != "" {
      assert init[0] == s[0] != '0';
      DigitsOfValue(init);
    } else {
      assert Value(init) == 0;
    }
  }

  lemma DigitsInjective(a: nat, b: nat)
    requires Digits(a) == Digits(b)
    ensures a == b
  {
    ValueOfDigits(a);
    ValueOfDigits(b);
  }

  lemma {:induction false} DigitsAreCanonical(n: nat)
    ensures Canonical(Digits(n))
  {
    if n >= 10 {
      DigitsAreCanonical(n / 10);
    }
  }

  /** `String(n)` of an integer. */
  function Text(n: int): (s: string) {
    if n < 0 then "-" + Digits(-n) else Digits(n)
  }

  /** A number is printed as its digits, after a minus sign exactly when it is negative. */
  lemma TextReadsBack(n: int)
    ensures n >= 0 ==> AllDigits(Text(n)) && Value(Text(n)) == n
    ensures n < 0 ==> Text(n)[0] == '-' && AllDigits(Text(n)[1..]) && Value(Text(n)[1..]) == -n
  {
    ValueOfDigits(if n < 0 then -n else n);
  }

  lemma TextInjective(a: int, b: int)
    requires Text(a) == Text(b)
    ensures a == b
  {
    assert a < 0 ==> Text(a)[1..] == Digits(-a) && Text(a)[0] == '-';
    assert b < 0 ==> Text(b)[1..] == Digits(-b) && Text(b)[0] == '-';
    if a < 0 && b < 0 {
      DigitsInjective(-a, -b);
    } else if a >= 0 && b >= 0 {
      DigitsInjective(a, b);
    }
  }
}
