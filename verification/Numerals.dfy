/** Digit strings and the numbers they stand for. */
module Numerals {

  const U64: int := 0x1_0000_0000_0000_0000
  const NO_DIGIT: int := -1

  predicate IsDigit(c: char) {
    '0' <= c <= '9'
  }

  predicate IsUpper(c: char) {
    'A' <= c <= 'Z'
  }

  predicate IsLower(c: char) {
    'a' <= c <= 'z'
  }

  /** The value of a digit or letter, NO_DIGIT for all other characters. */
  function DigitOf(c: char): int {
    if IsDigit(c) then c as int - '0' as int
    else if IsUpper(c) then c as int - 'A' as int + 10
    else if IsLower(c) then c as int - 'a' as int + 10
    else NO_DIGIT
  }

  predicate DigitIn(c: char, base: nat) {
    0 <= DigitOf(c) < base
  }

  predicate AllDigits(s: string, base: nat) {
    forall i :: 0 <= i < |s| ==> DigitIn(s[i], base)
  }

  /** The number a digit string stands for, first digit most significant. */
  function ValueOf(s: string, base: nat): nat
    requires AllDigits(s, base)
  {
    if s == "" then 0 else ValueOf(s[..|s| - 1], base) * base + DigitOf(s[|s| - 1])
  }

  function Pow(base: nat, n: nat): nat {
    if n == 0 then 1 else base * Pow(base, n - 1)
  }

  lemma {:induction false} PowPositive(base: nat, n: nat)
    requires base > 0
    ensures Pow(base, n) > 0
  {
    if n > 0 {
      PowPositive(base, n - 1);
    }
  }

  lemma {:induction false} PowMonotone(a: nat, b: nat, n: nat)
    requires a <= b
    ensures Pow(a, n) <= Pow(b, n)
  {
    if n > 0 {
      PowMonotone(a, b, n - 1);
      Products(a, b, Pow(a, n - 1), Pow(b, n - 1));
    }
  }

  lemma Products(a: nat, b: nat, x: nat, y: nat)
    requires a <= b && x <= y
    ensures a * x <= b * y
  {
    assert a * x <= a * y;
    assert a * y <= b * y;
  }

  /** Longer prefixes stand for at least as large numbers. */
  lemma ValueGrows(s: string, base: nat, i: nat)
    requires AllDigits(s, base) && i < |s| && base > 0
    ensures ValueOf(s[..i + 1], base) == ValueOf(s[..i], base) * base + DigitOf(s[i])
    ensures ValueOf(s[..i], base) <= ValueOf(s[..i + 1], base)
  {
    assert s[..i + 1][..i] == s[..i];
    hide DigitOf;
    Products(1, base, ValueOf(s[..i], base), ValueOf(s[..i], base));
  }

  lemma {:induction false} ValueMonotone(s: string, base: nat, i: nat, j: nat)
    requires AllDigits(s, base) && i <= j <= |s| && base > 0
    ensures ValueOf(s[..i], base) <= ValueOf(s[..j], base)
    decreases j
  {
    if i < j {
      ValueMonotone(s, base, i, j - 1);
      ValueGrows(s, base, j - 1);
    }
  }

  /** A leading digit counts with the power of the base behind it. */
  lemma {:induction false} LeadingDigit(c: char, s: string, base: nat)
    requires DigitIn(c, base) && AllDigits(s, base)
    ensures AllDigits([c] + s, base)
    ensures ValueOf([c] + s, base) == DigitOf(c) * Pow(base, |s|) + ValueOf(s, base)
    decreases |s|
  {
    if s == "" {
      assert [c] + s == [c] && [c][..0] == "";
      assert ValueOf([c], base) == ValueOf("", base) * base + DigitOf(c);
    } else {
      var n := |s| - 1;
      LeadingDigit(c, s[..n], base);
      assert ([c] + s)[..n + 1] == [c] + s[..n];
      LeadingStep(DigitOf(c), base, Pow(base, n), ValueOf(s[..n], base), DigitOf(s[n]));
    }
  }

  lemma LeadingStep(d: nat, base: nat, p: nat, v: nat, last: nat)
    ensures (d * p + v) * base + last == d * (base * p) + (v * base + last)
  {
  }

  /** The front of a digit string counts with the power of the base behind it. */
  lemma {:induction false} ValueCat(a: string, b: string, base: nat)
    requires AllDigits(a, base) && AllDigits(b, base)
    ensures AllDigits(a + b, base)
    ensures ValueOf(a + b, base) == ValueOf(a, base) * Pow(base, |b|) + ValueOf(b, base)
    decreases |b|
  {
    if b == "" {
      assert a + b == a;
    } else {
      var n := |b| - 1;
      ValueCat(a, b[..n], base);
      assert (a + b)[..|a + b| - 1] == a + b[..n];
      LeadingStep(ValueOf(a, base), base, Pow(base, n), ValueOf(b[..n], base), DigitOf(b[n]));
    }
  }

  lemma {:induction false} PowAdd(base: nat, m: nat, n: nat)
    ensures Pow(base, m + n) == Pow(base, m) * Pow(base, n)
  {
    if m > 0 {
      PowAdd(base, m - 1, n);
      Associate(base, Pow(base, m - 1), Pow(base, n));
    }
  }

  lemma Associate(a: nat, b: nat, c: nat)
    ensures a * (b * c) == (a * b) * c
  {
  }

  lemma {:induction false} ValueBound(s: string, base: nat)
    requires AllDigits(s, base) && base > 0
    ensures ValueOf(s, base) < Pow(base, |s|)
  {
    if s != "" {
      var n := |s| - 1;
      ValueBound(s[..n], base);
      Products(base, base, ValueOf(s[..n], base) + 1, Pow(base, n));
    }
  }
}
