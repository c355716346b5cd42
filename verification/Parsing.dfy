/** strtoull and atou64 on NUL-terminated text. */
module Parsing {
  import opened Division
  import opened Numerals

  predicate IsSpace(c: char) {
    c == ' ' || c == '\t'
  }

  /** The character at `i`; the terminating NUL behind the text. */
  function CharAt(text: string, i: nat): char {
    if i < |text| then text[i] else '\0'
  }

  /** First position from `i` on that holds no space. */
  function SkipSpaces(text: string, i: nat): (j: nat)
    requires i <= |text|
    ensures i <= j <= |text| && !IsSpace(CharAt(text, j))
    decreases |text| - i
  {
    if i < |text| && IsSpace(text[i]) then SkipSpaces(text, i + 1) else i
  }

  /** First position from `i` on that holds no digit of the base. */
  function RunEnd(text: string, i: nat, base: nat): (j: nat)
    requires i <= |text|
    ensures i <= j <= |text| && AllDigits(text[i..j], base) && !DigitIn(CharAt(text, j), base)
    decreases |text| - i
  {
    if i < |text| && DigitIn(text[i], base) then
      var j := RunEnd(text, i + 1, base);
      assert text[i..j] == [text[i]] + text[i + 1..j];
      j
    else i
  }

  /** What strtoull finds before the digits: sign, base, and where the digits start. */
  datatype Head = Head(negative: bool, base: nat, start: nat)

  function HeadOf(text: string, base: nat): (h: Head)
    ensures h.start <= |text|
  {
    var i := SkipSpaces(text, 0);
    var signed := CharAt(text, i) == '-' || CharAt(text, i) == '+';
    var j := if signed then i + 1 else i;
    var prefixed := (base == 0 || base == 16) && CharAt(text, j) == '0'
      && (CharAt(text, j + 1) == 'x' || CharAt(text, j + 1) == 'X');
    Head(CharAt(text, i) == '-',
         if prefixed then 16 else if base != 0 then base else if CharAt(text, j) == '0' then 8 else 10,
         if prefixed then j + 2 else j)
  }

  /** The digits strtoull reads. */
  function DigitsRead(text: string, base: nat): (d: string)
    ensures AllDigits(d, HeadOf(text, base).base)
  {
    var h := HeadOf(text, base);
    text[h.start..RunEnd(text, h.start, h.base)]
  }

  /** The result: saturated, or negated modulo 2^64. */
  function Parsed(text: string, base: nat): (r: nat)
    ensures r < U64
  {
    var h := HeadOf(text, base);
    var v := ValueOf(DigitsRead(text, base), h.base);
    if v >= U64 then U64 - 1 else if h.negative then (U64 - v) % U64 else v
  }

  /** The largest value that can take another digit, and the largest digit it can take. */
  function Cutoff(base: nat): nat
    requires base > 0
  {
    (U64 - 1) / base
  }

  function Cutlim(base: nat): nat
    requires base > 0
  {
    (U64 - 1) % base
  }

  /** The overflow test of strtoull is exact. */
  lemma OverflowTest(acc: nat, digit: nat, base: nat)
    requires base > 0 && digit < base
    ensures acc > Cutoff(base) || (acc == Cutoff(base) && digit > Cutlim(base)) <==> acc * base + digit > U64 - 1
  {
    var q, r := (U64 - 1) / base, (U64 - 1) % base;
    assert U64 - 1 == q * base + r;
    if acc > q {
      Scaled(q + 1, acc, base);
    } else if acc < q {
      Scaled(acc + 1, q, base);
    }
  }

  /** strtoull: value and end of the text read (0 when there were no digits). */
  method StrToULL(text: string, base: nat) returns (acc: nat, end: nat)
    requires base == 0 || 2 <= base <= 36
    ensures acc == Parsed(text, base)
    ensures end == if DigitsRead(text, base) == "" then 0
      else HeadOf(text, base).start + |DigitsRead(text, base)|
  {
    var s, neg, b := ScanHead(text, base);
    hide RunEnd, ValueOf, HeadOf;
    acc, end := Accumulate(text, s, b, neg);
    RunLength(text, s, b);
  }

  lemma RunLength(text: string, i: nat, base: nat)
    requires i <= |text|
    ensures |text[i..RunEnd(text, i, base)]| == RunEnd(text, i, base) - i
  {
  }

  /** The part of strtoull before the digits. */
  method ScanHead(text: string, base: nat) returns (s: nat, neg: bool, b: nat)
    requires base == 0 || 2 <= base <= 36
    ensures HeadOf(text, base) == Head(neg, b, s) && s <= |text| && 2 <= b <= 36
  {
    s := 0;
    while IsSpace(CharAt(text, s))
      invariant 0 <= s <= |text| && SkipSpaces(text, s) == SkipSpaces(text, 0)
      decreases |text| - s
    {
      s := s + 1;
    }
    neg := false;
    if CharAt(text, s) == '-' {
      neg := true;
      s := s + 1;
    } else if CharAt(text, s) == '+' {
      s := s + 1;
    }
    b := base;
    if (b == 0 || b == 16) && CharAt(text, s) == '0' && (CharAt(text, s + 1) == 'x' || CharAt(text, s + 1) == 'X') {
      s := s + 2;
      b := 16;
    }
    if b == 0 {
      b := if CharAt(text, s) == '0' then 8 else 10;
    }
  }

  /** The digit loop of strtoull: `any` is 0 without a digit, and negative once the value has passed 2^64 - 1. */
  method SumDigits(text: string, start: nat, base: nat) returns (acc: nat, any: int, s: nat)
    requires 2 <= base <= 36 && start <= |text|
    ensures s == RunEnd(text, start, base) && (any == 0 <==> s == start)
    ensures var v := ValueOf(text[start..RunEnd(text, start, base)], base);
      if any < 0 then v >= U64 else acc == v < U64
  {
    hide RunEnd, ValueOf, DigitOf, Cutoff, Cutlim, Summed, AllDigits, CharAt, DigitIn;
    var cutoff := Cutoff(base);
    var cutlim := Cutlim(base);
    any := 0;
    s := start;
    acc := 0;
    ghost var run := text[start..RunEnd(text, start, base)];
    SummedStart(run, base);
    while true
      invariant start <= s <= RunEnd(text, start, base)
      invariant any == 0 <==> s == start
      invariant Summed(run, base, s - start, acc, any < 0)
      decreases |text| - s
    {
      var digit := CharValue(CharAt(text, s));
      RunGoesOn(text, start, base, s, digit);
      if digit == NO_DIGIT || digit >= base {
        break;
      }
      SumOneMore(run, base, s - start, acc, any < 0, digit);
      if any < 0 || acc > cutoff || (acc == cutoff && digit > cutlim) {
        any := -1;
      } else {
        any := 1;
        acc := acc * base;
        acc := acc + digit;
      }
      s := s + 1;
    }
    SummedAll(run, base, acc, any < 0);
  }

  /** The loop and the ending of strtoull. */
  method Accumulate(text: string, start: nat, base: nat, neg: bool) returns (acc: nat, end: nat)
    requires 2 <= base <= 36 && start <= |text|
    ensures var v := ValueOf(text[start..RunEnd(text, start, base)], base);
      acc == if v >= U64 then U64 - 1 else if neg then (U64 - v) % U64 else v
    ensures end == if RunEnd(text, start, base) == start then 0 else RunEnd(text, start, base)
  {
    hide RunEnd, ValueOf, DigitOf;
    var any, s;
    acc, any, s := SumDigits(text, start, base);
    if any < 0 {
      acc := U64 - 1;
    } else if neg {
      acc := (U64 - acc) % U64;
    }
    end := if any != 0 then s else 0;
  }

  /** The value of the first `k` digits. */
  ghost function SoFar(run: string, base: nat, k: nat): nat
    requires AllDigits(run, base) && k <= |run|
  {
    ValueOf(run[..k], base)
  }

  /** The state of the loop after `k` digits: their value, or the knowledge that it passed 2^64. */
  ghost predicate Summed(run: string, base: nat, k: nat, acc: nat, over: bool)
    requires AllDigits(run, base)
  {
    k <= |run| && if over then SoFar(run, base, k) >= U64 else acc == SoFar(run, base, k) < U64
  }

  lemma SummedStart(run: string, base: nat)
    requires AllDigits(run, base)
    ensures Summed(run, base, 0, 0, false)
  {
    assert run[..0] == "";
  }

  lemma SummedAll(run: string, base: nat, acc: nat, over: bool)
    requires AllDigits(run, base) && Summed(run, base, |run|, acc, over)
    ensures if over then ValueOf(run, base) >= U64 else acc == ValueOf(run, base) < U64
  {
    assert run[..|run|] == run;
  }

  lemma SumOneMore(run: string, base: nat, k: nat, acc: nat, over: bool, digit: nat)
    requires AllDigits(run, base) && 2 <= base && k < |run| && Summed(run, base, k, acc, over) && DigitOf(run[k]) == digit
    ensures
      var over' := over || acc > Cutoff(base) || (acc == Cutoff(base) && digit > Cutlim(base));
        Summed(run, base, k + 1, if over' then acc else acc * base + digit, over')
  {
    hide ValueOf, DigitOf, Cutoff, Cutlim;
    assert DigitIn(run[k], base);
    ValueGrows(run, base, k);
    OverflowTest(acc, DigitOf(run[k]), base);
  }

  /** Inside the run there are digits, and behind it there is none. */
  lemma RunGoesOn(text: string, start: nat, base: nat, s: nat, digit: int)
    requires start <= |text| && start <= s <= RunEnd(text, start, base) && digit == DigitOf(CharAt(text, s))
    requires digit == NO_DIGIT || digit >= 0
    ensures s < RunEnd(text, start, base) <==> digit != NO_DIGIT && digit < base
    ensures s < RunEnd(text, start, base) ==> DigitOf(text[start..RunEnd(text, start, base)][s - start]) == digit
  {
    hide RunEnd, DigitOf;
    var run := text[start..RunEnd(text, start, base)];
    if s < RunEnd(text, start, base) {
      assert run[s - start] == text[s];
    }
  }

  /** The digit a character stands for, as the loop of strtoull computes it. */
  method CharValue(c: char) returns (digit: int)
    ensures digit == DigitOf(c) && (digit == NO_DIGIT || digit >= 0)
  {
    if IsDigit(c) {
      digit := c as int - '0' as int;
    } else if IsUpper(c) || IsLower(c) {
      digit := c as int - if IsUpper(c) then 'A' as int - 10 else 'a' as int - 10;
    } else {
      digit := NO_DIGIT;
    }
  }

  /** An unsigned digit string of any length gives its value, or 2^64 - 1 when that is too large. */
  lemma UnsignedDigits(text: string, base: nat)
    requires 2 <= base <= 36 && AllDigits(text, base)
    ensures DigitsRead(text, base) == text
    ensures Parsed(text, base) == if ValueOf(text, base) < U64 then ValueOf(text, base) else U64 - 1
  {
    NoPrefix(text, base);
    WholeRun(text, 0, base);
    assert text[0..|text|] == text;
  }

  lemma NoPrefix(text: string, base: nat)
    requires 2 <= base <= 36 && AllDigits(text, base)
    ensures HeadOf(text, base) == Head(false, base, 0)
  {
    if |text| > 0 {
      assert DigitIn(text[0], base);
    }
    if |text| > 1 {
      assert DigitIn(text[1], base);
    }
  }

  lemma {:induction false} WholeRun(text: string, i: nat, base: nat)
    requires i <= |text| && AllDigits(text, base)
    ensures RunEnd(text, i, base) == |text|
    decreases |text| - i
  {
    if i < |text| {
      assert DigitIn(text[i], base);
      WholeRun(text, i + 1, base);
    }
  }

  // ----- atou64

  /** atou64 counts every character that is no digit as 0. */
  function LooseDigit(c: char): nat {
    if IsDigit(c) then c as int - '0' as int
    else if 'a' <= c <= 'f' then c as int - 'a' as int + 10
    else if 'A' <= c <= 'F' then c as int - 'A' as int + 10
    else 0
  }

  /** Left to right: each step multiplies by the base and adds a digit. */
  function LeftToRight(s: string, base: nat): nat {
    if s == "" then 0 else LeftToRight(s[..|s| - 1], base) * base + LooseDigit(s[|s| - 1])
  }

  lemma {:induction false} FirstCounts(c: char, s: string, base: nat)
    ensures LeftToRight([c] + s, base) == LooseDigit(c) * Pow(base, |s|) + LeftToRight(s, base)
    decreases |s|
  {
    if s == "" {
      assert [c] + s == [c] && [c][..0] == "";
      assert LeftToRight([c], base) == LeftToRight("", base) * base + LooseDigit(c);
    } else {
      var n := |s| - 1;
      FirstCounts(c, s[..n], base);
      assert ([c] + s)[..n + 1] == [c] + s[..n];
      LeadingStep(LooseDigit(c), base, Pow(base, n), LeftToRight(s[..n], base), LooseDigit(s[n]));
    }
  }

  /** On decimal strings both readings of a digit agree. */
  lemma {:induction false} DecimalStrings(s: string)
    requires AllDigits(s, 10)
    ensures LeftToRight(s, 10) == ValueOf(s, 10)
  {
    if s != "" {
      DecimalStrings(s[..|s| - 1]);
      assert DigitIn(s[|s| - 1], 10);
    }
  }

  /** First decimal digit from `i` on, |text| when there is none. */
  function FirstDigit(text: string, i: nat): (j: nat)
    requires i <= |text|
    ensures i <= j <= |text| && (j < |text| ==> IsDigit(text[j]))
    decreases |text| - i
  {
    if i < |text| && !IsDigit(text[i]) then FirstDigit(text, i + 1) else i
  }

  datatype AtouHead = AtouHead(base: nat, start: nat)

  function AtouHeadOf(text: string): (h: AtouHead)
    ensures h.start <= |text| && h.base > 0
  {
    var i := SkipSpaces(text, 0);
    if CharAt(text, i) == '0' && CharAt(text, i + 1) == 'x' then AtouHead(16, FirstDigit(text, i + 2))
    else if CharAt(text, i) == '0' && CharAt(text, i + 1) == 'b' then AtouHead(2, FirstDigit(text, i + 2))
    else AtouHead(10, FirstDigit(text, i))
  }

  /** atou64. Text without a decimal digit behind the prefix is read past its end, so callers must not pass it. */
  method Atou64(text: string) returns (result: nat)
    requires AtouHeadOf(text).start < |text|
    ensures result == LeftToRight(text[AtouHeadOf(text).start..], AtouHeadOf(text).base) % U64
  {
    var p := 0;
    while IsSpace(CharAt(text, p))
      invariant 0 <= p <= |text| && SkipSpaces(text, p) == SkipSpaces(text, 0)
      decreases |text| - p
    {
      p := p + 1;
    }
    var base := 10;
    if CharAt(text, p) == '0' && CharAt(text, p + 1) == 'x' {
      base := 16;
      p := p + 2;
    } else if CharAt(text, p) == '0' && CharAt(text, p + 1) == 'b' {
      base := 2;
      p := p + 2;
    }
    ghost var h := AtouHeadOf(text);
    while !IsDigit(CharAt(text, p))
      invariant 0 <= p <= |text| && FirstDigit(text, p) == h.start && base == h.base
      decreases |text| - p
    {
      p := p + 1;
    }
    result := SumFromRight(text[p..], base);
  }

  /** The summing loop of atou64, in 64-bit arithmetic. */
  method SumFromRight(s: string, base: nat) returns (result: nat)
    ensures result == LeftToRight(s, base) % U64
  {
    hide LeftToRight, Pow;
    result := 0;
    var multiplier := 1;
    var len := |s|;
    NoDigitsYet(base);
    var i := 0;
    assert s[len..] == "";
    while i < len
      invariant 0 <= i <= len
      invariant result == LeftToRight(s[len - i..], base) % U64 && multiplier == Pow(base, i) % U64
    {
      var c := s[len - i - 1];
      var digit := 0;
      if IsDigit(c) {
        digit := c as int - '0' as int;
      } else if 'a' <= c <= 'f' {
        digit := c as int - 'a' as int + 10;
      } else if 'A' <= c <= 'F' {
        digit := c as int - 'A' as int + 10;
      }
      ghost var rest := s[len - i..];
      assert s[len - i - 1..] == [c] + rest;
      SumStep(c, rest, base);
      result := (result + digit * multiplier) % U64;
      multiplier := (multiplier * base) % U64;
      i := i + 1;
    }
    assert s[0..] == s;
  }

  lemma NoDigitsYet(base: nat)
    ensures LeftToRight("", base) == 0 && Pow(base, 0) == 1
  {
  }

  lemma SumStep(c: char, rest: string, base: nat)
    ensures var i := |rest|;
      && (LeftToRight(rest, base) % U64 + LooseDigit(c) * (Pow(base, i) % U64)) % U64 == LeftToRight([c] + rest, base) % U64
      && (Pow(base, i) % U64) * base % U64 == Pow(base, i + 1) % U64
  {
    hide LeftToRight, LooseDigit, Pow;
    FirstCounts(c, rest, base);
    Modulo(LeftToRight(rest, base), LooseDigit(c), Pow(base, |rest|));
    Modulo(0, base, Pow(base, |rest|));
    PowStep(base, |rest| + 1);
  }

  lemma Modulo(a: nat, d: nat, p: nat)
    ensures (a % U64 + d * (p % U64)) % U64 == (a + d * p) % U64
  {
    var qa, ra, qp, rp := a / U64, a % U64, p / U64, p % U64;
    assert a == qa * U64 + ra && p == qp * U64 + rp;
    var x := ra + d * rp;
    assert d * p == (d * qp) * U64 + d * rp;
    var k := qa + d * qp;
    assert a + d * p == k * U64 + x;
    QuotientIs(a + d * p, U64, k + x / U64, x % U64);
  }

  // ----- atou64 on hexadecimal text

  /** On hexadecimal digits both readings of a digit agree. */
  lemma {:induction false} HexDigits(s: string)
    requires AllDigits(s, 16)
    ensures LeftToRight(s, 16) == ValueOf(s, 16)
  {
    if s != "" {
      HexDigits(s[..|s| - 1]);
      assert DigitIn(s[|s| - 1], 16);
    }
  }

  lemma {:induction false} LettersBefore(d: string, i: nat, k: nat)
    requires i <= |d| && i <= k < FirstDigit(d, i)
    ensures !IsDigit(d[k])
    decreases k - i
  {
    if i < k {
      LettersBefore(d, i + 1, k);
    }
  }

  lemma {:induction false} FirstDigitBehind(a: string, d: string, i: nat)
    requires i <= |d|
    ensures FirstDigit(a + d, |a| + i) == |a| + FirstDigit(d, i)
    decreases |d| - i
  {
    if i < |d| {
      assert (a + d)[|a| + i] == d[i];
      FirstDigitBehind(a, d, i + 1);
    }
  }

  /** What atou64 sums for "0x" and the digits `d`. */
  ghost function HexSum(d: string): nat {
    var text := "0x" + d;
    LeftToRight(text[AtouHeadOf(text).start..], AtouHeadOf(text).base)
  }

  lemma HexSumIs(d: string)
    ensures HexSum(d) == LeftToRight(d[FirstDigit(d, 0)..], 16)
  {
    var text := "0x" + d;
    assert text[0] == '0' && text[1] == 'x';
    assert SkipSpaces(text, 0) == 0;
    FirstDigitBehind("0x", d, 0);
    assert text[2 + FirstDigit(d, 0)..] == d[FirstDigit(d, 0)..];
  }

  /** The letters before the first decimal digit are what is missing. */
  lemma HexSplit(d: string)
    requires AllDigits(d, 16)
    ensures var j := FirstDigit(d, 0);
      ValueOf(d, 16) == ValueOf(d[..j], 16) * Pow(16, |d| - j) + HexSum(d)
  {
    hide ValueOf, LeftToRight, HexSum, Pow, FirstDigit, DigitOf;
    var j := FirstDigit(d, 0);
    HexSumIs(d);
    HexDigits(d[j..]);
    ValueCat(d[..j], d[j..], 16);
    assert d == d[..j] + d[j..];
  }

  lemma SixteenDigits()
    ensures Pow(16, 16) == U64
  {
    assert Pow(16, 4) == 0x1_0000;
    PowAdd(16, 4, 4);
    PowAdd(16, 8, 8);
  }

  lemma PowStep(base: nat, n: nat)
    requires n > 0
    ensures Pow(base, n) == base * Pow(base, n - 1)
  {
  }

  /** A number whose last digit is not 0, times a lower power of 16, is no multiple of 2^64. */
  lemma NoFullMultiple(v: nat, k: nat, q: nat)
    requires k < 16 && v % 16 != 0
    ensures v * Pow(16, k) != q * U64
  {
    hide Pow;
    var p, rest := Pow(16, k), Pow(16, 15 - k);
    SixteenDigits();
    PowAdd(16, 16 - k, k);
    PowStep(16, 16 - k);
    PowPositive(16, k);
    if v * p == q * U64 {
      Factored(v, q, rest, p);
    }
  }

  lemma Factored(v: nat, q: nat, rest: nat, p: nat)
    requires p > 0 && v * p == q * ((16 * rest) * p)
    ensures v % 16 == 0
  {
    Associate(q, 16 * rest, p);
    Cancel(v, q * (16 * rest), p);
    Sixteenfold(v, q, rest);
  }

  lemma Cancel(a: int, b: int, p: int)
    requires p > 0 && a * p == b * p
    ensures a == b
  {
    Multiples(a - b, p);
    assert (a - b) * p == 0;
  }

  lemma Sixteenfold(v: nat, q: nat, rest: nat)
    requires v == q * (16 * rest)
    ensures v % 16 == 0
  {
    assert v == 16 * (q * rest);
  }

  lemma {:induction false} LastDigit(s: string)
    requires AllDigits(s, 16) && s != ""
    ensures ValueOf(s, 16) % 16 == DigitOf(s[|s| - 1])
  {
    assert DigitIn(s[|s| - 1], 16);
  }

  /** Equal remainders mean a difference that is a multiple. */
  lemma SameRemainder(a: nat, b: nat)
    ensures (a + b) % U64 == b % U64 <==> a % U64 == 0
  {
  }

  /** Hexadecimal text is read correctly exactly when it starts with a decimal digit, or so many digits follow
      the leading letters that these pass 2^64. */
  lemma HexExact(d: string)
    requires AllDigits(d, 16) && FirstDigit(d, 0) < |d|
    ensures HexSum(d) % U64 == ValueOf(d, 16) % U64 <==> IsDigit(d[0]) || |d| - FirstDigit(d, 0) >= 16
    ensures |d| <= 16 ==> (HexSum(d) % U64 == ValueOf(d, 16) % U64 <==> IsDigit(d[0]))
  {
    hide ValueOf, LeftToRight, HexSum;
    var j := FirstDigit(d, 0);
    var v, k := ValueOf(d[..j], 16), |d| - j;
    HexSplit(d);
    SameRemainder(v * Pow(16, k), HexSum(d));
    LettersLost(d, v, k);
  }

  lemma LettersLost(d: string, v: nat, k: nat)
    requires AllDigits(d, 16) && FirstDigit(d, 0) < |d|
    requires v == ValueOf(d[..FirstDigit(d, 0)], 16) && k == |d| - FirstDigit(d, 0)
    ensures FirstDigit(d, 0) == 0 <==> IsDigit(d[0])
    ensures v * Pow(16, k) % U64 == 0 <==> FirstDigit(d, 0) == 0 || k >= 16
  {
    hide LeftToRight, Pow, ValueOf, DigitOf;
    var j := FirstDigit(d, 0);
    if j == 0 {
      NothingLost(d[..j]);
      Zero(Pow(16, k));
    } else {
      LettersBefore(d, 0, 0);
      LettersBefore(d, 0, j - 1);
      LastDigit(d[..j]);
      LetterIsNotZero(d[j - 1]);
      if k >= 16 {
        FullMultiple(v, k);
      } else {
        NoFullMultiple(v, k, v * Pow(16, k) / U64);
      }
    }
  }

  lemma NothingLost(s: string)
    requires s == ""
    ensures ValueOf(s, 16) == 0
  {
  }

  lemma Zero(p: nat)
    ensures 0 * p % U64 == 0
  {
  }

  lemma LetterIsNotZero(c: char)
    requires DigitIn(c, 16) && !IsDigit(c)
    ensures 0 < DigitOf(c) < 16
  {
  }

  lemma FullMultiple(v: nat, k: nat)
    requires k >= 16
    ensures v * Pow(16, k) % U64 == 0
  {
    hide Pow;
    SixteenDigits();
    PowAdd(16, k - 16, 16);
    Associate(v, Pow(16, k - 16), U64);
    QuotientIs(v * Pow(16, k), U64, v * Pow(16, k - 16), 0);
  }

  /** Such a text: the scan for the first digit knows decimal digits only. */
  lemma HexLettersLost()
    ensures AtouHeadOf("0xa1") == AtouHead(16, 3)
    ensures LeftToRight("0xa1"[3..], 16) == 1 && ValueOf("a1", 16) == 161
  {
    var text := "0xa1";
    assert SkipSpaces(text, 0) == 0;
    assert FirstDigit(text, 3) == 3;
    assert text[3..] == "1" && "1"[..0] == "";
    assert LeftToRight("", 16) == 0;
    assert "a1"[..1] == "a" && "a"[..0] == "";
    assert ValueOf("", 16) == 0;
    assert ValueOf("a", 16) == 10;
  }
}
