/** Reading printed integers back: which flags, widths and precisions lose the number. */
module ReadBack {
  import opened Division
  import opened Numerals
  import opened Parsing
  import opened Printing

  // ----- powers of the base

  /** The value modulo the k-th power of the base. */
  ghost function Modulus(value: nat, base: nat, k: nat): nat
    requires base > 0
  {
    PowPositive(base, k);
    value % Pow(base, k)
  }

  lemma ModulusBelow(value: nat, base: nat, k: nat)
    requires base > 0
    ensures Modulus(value, base, k) <= value && Pow(base, k) > 0
    ensures Modulus(value, base, k) == value <==> value < Pow(base, k)
  {
    PowPositive(base, k);
    SmallRemainder(value, Pow(base, k));
  }

  lemma SmallRemainder(v: nat, d: nat)
    requires d > 0
    ensures v % d <= v && (v % d == v <==> v < d)
  {
  }

  // ----- digit strings written backwards

  /** The number of a digit string whose first digit is the least significant. */
  function Backwards(s: string, base: nat): nat
    requires AllDigits(s, base)
  {
    if s == "" then 0 else
      assert forall i :: 0 <= i < |s| - 1 ==> s[1..][i] == s[i + 1];
      DigitOf(s[0]) + base * Backwards(s[1..], base)
  }

  lemma DigitsCat(a: string, b: string, base: nat)
    ensures AllDigits(a + b, base) <==> AllDigits(a, base) && AllDigits(b, base)
  {
    if AllDigits(a + b, base) {
      forall i | 0 <= i < |a|
        ensures DigitIn(a[i], base)
      {
        assert DigitIn((a + b)[i], base);
      }
      forall i | 0 <= i < |b|
        ensures DigitIn(b[i], base)
      {
        assert DigitIn((a + b)[|a| + i], base);
      }
    }
  }

  lemma {:induction false} BackwardsReversed(s: string, base: nat)
    requires AllDigits(s, base)
    ensures AllDigits(Reversed(s), base) && ValueOf(Reversed(s), base) == Backwards(s, base)
  {
    if s != "" {
      assert s == [s[0]] + s[1..];
      DigitsCat([s[0]], s[1..], base);
      BackwardsReversed(s[1..], base);
      var r := Reversed(s[1..]);
      assert Reversed(s) == r + [s[0]];
      DigitsCat(r, [s[0]], base);
      assert (r + [s[0]])[..|r|] == r;
      Commute(ValueOf(r, base), base);
    }
  }

  lemma Commute(a: nat, b: nat)
    ensures a * b == b * a
  {
  }

  lemma {:induction false} BackwardsCat(a: string, b: string, base: nat)
    requires AllDigits(a, base) && AllDigits(b, base)
    ensures AllDigits(a + b, base)
    ensures Backwards(a + b, base) == Backwards(a, base) + Pow(base, |a|) * Backwards(b, base)
  {
    DigitsCat(a, b, base);
    if a == "" {
      assert a + b == b;
    } else {
      assert a == [a[0]] + a[1..];
      DigitsCat([a[0]], a[1..], base);
      assert (a + b)[1..] == a[1..] + b;
      BackwardsCat(a[1..], b, base);
      CatStep(DigitOf(a[0]), base, Backwards(a[1..], base), Pow(base, |a| - 1), Backwards(b, base));
    }
  }

  lemma CatStep(d: nat, base: nat, x: nat, p: nat, y: nat)
    ensures d + base * (x + p * y) == (d + base * x) + (base * p) * y
  {
  }

  lemma BackwardsBound(s: string, base: nat)
    requires AllDigits(s, base) && base > 0
    ensures Backwards(s, base) < Pow(base, |s|)
  {
    BackwardsReversed(s, base);
    ValueBound(Reversed(s), base);
  }

  lemma {:induction false} ZerosCount(n: nat, base: nat)
    requires base > 0
    ensures AllDigits(Repeat('0', n), base) && ValueOf(Repeat('0', n), base) == 0
  {
    var zeros := Repeat('0', n);
    assert AllDigits(zeros, base);
    if n > 0 {
      assert zeros[..n - 1] == Repeat('0', n - 1) && zeros[n - 1] == '0';
      ZerosCount(n - 1, base);
      hide Repeat, AllDigits;
      assert ValueOf(zeros, base) == ValueOf(zeros[..n - 1], base) * base + DigitOf('0');
    }
  }

  lemma ZerosBackwards(n: nat, base: nat)
    requires base > 0
    ensures AllDigits(Repeat('0', n), base) && Backwards(Repeat('0', n), base) == 0
  {
    ZerosCount(n, base);
    BackwardsReversed(Repeat('0', n), base);
    assert Reversed(Repeat('0', n)) == Repeat('0', n);
  }

  /** The first k digits are the number modulo the k-th power of the base. */
  lemma FirstDigits(s: string, base: nat, k: nat)
    requires AllDigits(s, base) && base > 0 && k <= |s|
    ensures AllDigits(s[..k], base) && Backwards(s[..k], base) == Modulus(Backwards(s, base), base, k)
  {
    assert s == s[..k] + s[k..];
    DigitsCat(s[..k], s[k..], base);
    BackwardsCat(s[..k], s[k..], base);
    BackwardsBound(s[..k], base);
    PowPositive(base, k);
    Commute(Pow(base, k), Backwards(s[k..], base));
    QuotientIs(Backwards(s, base), Pow(base, k), Backwards(s[k..], base), Backwards(s[..k], base));
  }

  lemma {:induction false} PowSum(base: nat, a: nat, b: nat)
    ensures Pow(base, a + b) == Pow(base, a) * Pow(base, b)
  {
    if a > 0 {
      PowSum(base, a - 1, b);
      assert base * (Pow(base, a - 1) * Pow(base, b)) == (base * Pow(base, a - 1)) * Pow(base, b);
    }
  }

  /** Taking a number modulo a * b and then modulo a. */
  lemma ModuloTwice(v: nat, a: nat, b: nat)
    requires a > 0 && b > 0
    ensures a * b > 0 && v % (a * b) % a == v % a
  {
    Products(1, a, 1, b);
    var q, r := v / (a * b), v % (a * b);
    assert v == q * (a * b) + r;
    assert q * (a * b) == (q * b) * a;
    var q2, r2 := r / a, r % a;
    assert r == q2 * a + r2;
    assert v == (q * b + q2) * a + r2;
    QuotientIs(v, a, q * b + q2, r2);
  }

  lemma ModulusTwice(v: nat, base: nat, k: nat, n: nat)
    requires base > 0 && k <= n
    ensures Modulus(Modulus(v, base, n), base, k) == Modulus(v, base, k)
  {
    PowPositive(base, k);
    PowPositive(base, n - k);
    PowSum(base, k, n - k);
    ModuloTwice(v, Pow(base, k), Pow(base, n - k));
  }

  /** One digit off, the rest modulo p. */
  lemma ModuloStep(v: nat, base: nat, p: nat)
    requires base > 0 && p > 0
    ensures base * p > 0 && v % base + base * (v / base % p) == v % (base * p)
  {
    Products(1, base, 1, p);
    var q, r := v / base, v % base;
    assert v == q * base + r;
    var q2, r2 := q / p, q % p;
    assert q == q2 * p + r2;
    var low := r + base * r2;
    assert v == q2 * (base * p) + low by {
      assert (q2 * p + r2) * base == q2 * (base * p) + base * r2;
    }
    Scaled(r2 + 1, p, base);
    Commute(base, r2 + 1);
    Commute(base, p);
    Commute(base, r2);
    QuotientIs(v, base * p, q2, low);
  }

  lemma BackwardsCons(c: char, t: string, base: nat)
    requires DigitIn(c, base) && AllDigits(t, base)
    ensures AllDigits([c] + t, base) && Backwards([c] + t, base) == DigitOf(c) + base * Backwards(t, base)
  {
    DigitsCat([c], t, base);
    assert ([c] + t)[1..] == t;
  }

  lemma DigitsUnfold(value: nat, base: nat, upper: bool, room: nat)
    requires 2 <= base <= 36 && room > 0
    ensures var t := if value / base > 0 && room > 1 then Digits(value / base, base, upper, room - 1) else "";
      Digits(value, base, upper, room) == [DigitChar(value % base, upper)] + t
  {
  }

  lemma NoDigits(base: nat)
    ensures AllDigits("", base) && Backwards("", base) == 0
  {
  }

  /** A digit in front of a number that is right modulo the power below. */
  lemma OneMoreDigit(value: nat, base: nat, k: nat, c: char, t: string)
    requires base > 0 && DigitIn(c, base) && DigitOf(c) == value % base
    requires AllDigits(t, base) && Backwards(t, base) == Modulus(value / base, base, k)
    ensures AllDigits([c] + t, base) && Backwards([c] + t, base) == Modulus(value, base, k + 1)
  {
    BackwardsCons(c, t, base);
    PowPositive(base, k);
    hide Backwards, DigitOf;
    ModuloStep(value, base, Pow(base, k));
  }

  /** The digit loop writes the value modulo the room it has. */
  lemma {:induction false} DigitsWritten(value: nat, base: nat, upper: bool, room: nat)
    requires 2 <= base <= 36 && room > 0
    ensures Backwards(Digits(value, base, upper, room), base) == Modulus(value, base, room)
    decreases room
  {
    hide Pow, Digits, Backwards, DigitChar, Modulus;
    DigitsUnfold(value, base, upper, room);
    var q, c := value / base, DigitChar(value % base, upper);
    if q > 0 && room > 1 {
      DigitsWritten(q, base, upper, room - 1);
      OneMoreDigit(value, base, room - 1, c, Digits(q, base, upper, room - 1));
    } else {
      NoDigits(base);
      LastDigit(value, base, room - 1);
      OneMoreDigit(value, base, room - 1, c, "");
    }
  }

  lemma LastDigit(value: nat, base: nat, k: nat)
    requires base > 0
    ensures value / base == 0 || k == 0 ==> Modulus(value / base, base, k) == 0
  {
    PowPositive(base, k);
    if value / base == 0 {
      SmallRemainder(0, Pow(base, k));
    }
  }

  lemma BodyIs(digits: string, base: nat, prec: nat, w: nat, f: Flags)
    requires |digits| <= BUFFER
    ensures |digits| <= Padded(|digits|, prec, w, f) <= BUFFER
    ensures var body := Body(digits, base, prec, w, f);
      && |body| <= Padded(|digits|, prec, w, f)
      && body == (digits + Repeat('0', Padded(|digits|, prec, w, f) - |digits|))[..|body|]
  {
    hide Padded, Kept, Repeat;
    PaddedFits(|digits|, prec, w, f);
  }

  /** Zeros behind the digits, and a cut. */
  lemma FilledValue(digits: string, zeros: nat, k: nat, base: nat)
    requires AllDigits(digits, base) && base > 0 && k <= |digits| + zeros
    ensures var s := (digits + Repeat('0', zeros))[..k];
      AllDigits(s, base) && Backwards(s, base) == Modulus(Backwards(digits, base), base, k)
  {
    hide *;
    var z := Repeat('0', zeros);
    ZerosBackwards(zeros, base);
    DigitsCat(digits, z, base);
    BackwardsCat(digits, z, base);
    TimesZero(Pow(base, |digits|));
    FirstDigits(digits + z, base, k);
  }

  lemma TimesZero(x: nat)
    ensures x * 0 == 0
  {
  }

  /** What the kept digits and zeros stand for. */
  lemma BodyValue(value: nat, base: nat, prec: nat, w: nat, f: Flags)
    requires 2 <= base <= 36
    ensures var g := FlagsFor(value, f);
      var body := Body(DigitsFor(value, base, f), base, prec, w, g);
      && AllDigits(body, base) && |body| <= BUFFER
      && Backwards(body, base) == Modulus(value, base, |body|)
  {
    hide *;
    var g := FlagsFor(value, f);
    var digits := DigitsFor(value, base, f);
    DigitsFit(value, base, f);
    BodyIs(digits, base, prec, w, g);
    var k := |Body(digits, base, prec, w, g)|;
    FilledValue(digits, Padded(|digits|, prec, w, g) - |digits|, k, base);
    ModulusTwice(value, base, k, BUFFER);
  }

  lemma DigitsFit(value: nat, base: nat, f: Flags)
    requires 2 <= base <= 36
    ensures var digits := DigitsFor(value, base, f);
      AllDigits(digits, base) && |digits| <= BUFFER && Backwards(digits, base) == Modulus(value, base, BUFFER)
  {
    PowPositive(base, BUFFER);
    hide Pow;
    SmallRemainder(0, Pow(base, BUFFER));
    if !(f.precision && value == 0) {
      DigitsWritten(value, base, f.upper, BUFFER);
    }
  }

  lemma PaddedFits(n: nat, prec: nat, w: nat, f: Flags)
    requires n <= BUFFER
    ensures n <= Padded(n, prec, w, f) <= BUFFER
  {
  }

  // ----- spaces and signs around the digits

  lemma {:induction false} ReversedCat(a: string, b: string)
    ensures Reversed(a + b) == Reversed(b) + Reversed(a)
  {
  }

  ghost predicate Blank(s: string) {
    forall i :: 0 <= i < |s| ==> s[i] == ' '
  }

  lemma {:induction false} SkipsTo(text: string, i: nat, j: nat)
    requires i <= j <= |text| && (forall k :: i <= k < j ==> IsSpace(text[k])) && !IsSpace(CharAt(text, j))
    ensures SkipSpaces(text, i) == j
    decreases j - i
  {
    if i < j {
      SkipsTo(text, i + 1, j);
    }
  }

  /** A run of digits ends where it ends, wherever the text stands. */
  lemma {:induction false} RunShifted(front: string, rest: string, tail: string, k: nat, base: nat)
    requires k <= |rest| && Blank(tail)
    ensures RunEnd(front + rest + tail, |front| + k, base) == |front| + RunEnd(rest, k, base)
    decreases |rest| - k
  {
    var text := front + rest + tail;
    if k < |rest| {
      assert text[|front| + k] == rest[k];
      RunShifted(front, rest, tail, k + 1, base);
    } else if tail != "" {
      assert text[|front| + k] == tail[0];
    }
  }

  /** Blanks around, and one sign before, a number change nothing but the sign. */
  lemma InContext(sp: string, sign: string, rest: string, tail: string, base: nat)
    requires Blank(sp) && Blank(tail) && 2 <= base <= 36 && (sign == "" || sign == "-" || sign == "+")
    requires rest != "" ==> DigitOf(rest[0]) >= 0
    ensures var text := sp + sign + rest + tail;
      && HeadOf(text, base).base == HeadOf(rest, base).base == base
      && HeadOf(text, base).negative == (sign == "-") && !HeadOf(rest, base).negative
      && DigitsRead(text, base) == DigitsRead(rest, base)
  {
    var front := sp + sign;
    var text := front + rest + tail;
    if rest == "" && sign == "" {
      OnlyBlanks(text, base);
      OnlyBlanks("", base);
    } else {
      hide HeadOf, DigitOf, DigitsRead, RunEnd, Blank, AllDigits;
      HeadInContext(sp, sign, rest, tail, base);
      SameDigitsRead(front, rest, tail, base, sign == "-");
    }
  }

  lemma SameDigitsRead(front: string, rest: string, tail: string, base: nat, negative: bool)
    requires Blank(tail)
    requires HeadOf(front + rest + tail, base) == Head(negative, HeadOf(rest, base).base, |front| + HeadOf(rest, base).start)
    ensures DigitsRead(front + rest + tail, base) == DigitsRead(rest, base)
  {
    hide HeadOf, RunEnd, AllDigits, Blank;
    var h := HeadOf(rest, base);
    RunShifted(front, rest, tail, h.start, h.base);
    Inside(front, rest, tail, h.start, RunEnd(rest, h.start, h.base));
  }

  lemma Inside(front: string, rest: string, tail: string, i: nat, j: nat)
    requires i <= j <= |rest|
    ensures (front + rest + tail)[|front| + i..|front| + j] == rest[i..j]
  {
  }

  lemma OnlyBlanks(text: string, base: nat)
    requires Blank(text) && 2 <= base <= 36
    ensures HeadOf(text, base) == Head(false, base, |text|) && DigitsRead(text, base) == ""
  {
    SkipsTo(text, 0, |text|);
    EmptyRun(text, |text|, base);
  }

  lemma HeadInContext(sp: string, sign: string, rest: string, tail: string, base: nat)
    requires Blank(sp) && Blank(tail) && 2 <= base <= 36 && (sign == "" || sign == "-" || sign == "+")
    requires rest != "" || sign != ""
    requires rest != "" ==> DigitOf(rest[0]) >= 0
    ensures var text := sp + sign + rest + tail;
      var h := HeadOf(rest, base);
      h.base == base && !h.negative && HeadOf(text, base) == Head(sign == "-", base, |sp + sign| + h.start)
  {
    var front := sp + sign;
    var text := front + rest + tail;
    assert sign != "" ==> text[|sp|] == sign[0];
    assert rest != "" ==> text[|front|] == rest[0];
    SkipsTo(rest, 0, 0);
    SkipsTo(text, 0, |sp|);
    SameHead(front, rest, tail, base);
  }

  lemma EmptyRun(text: string, i: nat, base: nat)
    requires i <= |text| && !DigitIn(CharAt(text, i), base)
    ensures RunEnd(text, i, base) == i && text[i..i] == ""
  {
  }

  /** The characters the head scan looks at are those of the number itself. */
  lemma SameHead(front: string, rest: string, tail: string, base: nat)
    requires Blank(tail)
    ensures var text := front + rest + tail;
      && (CharAt(text, |front|) == '0' <==> CharAt(rest, 0) == '0')
      && (CharAt(rest, 0) == '0' ==>
            (CharAt(text, |front| + 1) == 'x' <==> CharAt(rest, 1) == 'x')
            && (CharAt(text, |front| + 1) == 'X' <==> CharAt(rest, 1) == 'X'))
  {
  }

  // ----- the base prefix

  /** The prefix makes the number unreadable: "0b" always, "x" when its zero found no room. */
  predicate PrefixLost(len: nat, base: nat, f: Flags) {
    f.hash && ((base == 16 && len == BUFFER - 1) || (base == 2 && len < BUFFER))
  }

  lemma WithPrefix(len: nat, d: string, base: nat, f: Flags)
    requires 2 <= base <= 36 && AllDigits(d, base)
    ensures var rest := Reversed(PrefixChars(len, base, f)) + d;
      && (rest != "" ==> DigitOf(rest[0]) >= 0) && HeadOf(rest, base).base == base
      && ValueOf(DigitsRead(rest, base), base) == if PrefixLost(len, base, f) then 0 else ValueOf(d, base)
  {
    var p := PrefixChars(len, base, f);
    var rest := Reversed(p) + d;
    if p == "" {
      assert rest == d;
      UnsignedDigits(d, base);
      NoPrefix(d, base);
      assert d != "" ==> DigitIn(d[0], base);
    } else if base == 16 {
      HexPrefix(len, d, f);
    } else if base == 2 {
      BinaryPrefix(len, d, f);
    } else {
      assert p == "0" && Reversed("0") == "0";
      LeadingDigit('0', d, base);
      assert rest == ['0'] + d;
      UnsignedDigits(rest, base);
      NoPrefix(rest, base);
    }
  }

  lemma HexNumber(x: char, d: string)
    requires AllDigits(d, 16) && (x == 'x' || x == 'X')
    ensures var rest := "0" + [x] + d; HeadOf(rest, 16) == Head(false, 16, 2) && DigitsRead(rest, 16) == d
  {
    var rest := "0" + [x] + d;
    SkipsTo(rest, 0, 0);
    RunShifted("0" + [x], d, "", 0, 16);
    assert rest == "0" + [x] + d + "";
    WholeRun(d, 0, 16);
    hide RunEnd;
    assert rest[2..2 + |d|] == d;
  }

  lemma HexPrefix(len: nat, d: string, f: Flags)
    requires AllDigits(d, 16) && f.hash && len < BUFFER
    ensures var rest := Reversed(PrefixChars(len, 16, f)) + d;
      && rest != "" && DigitOf(rest[0]) >= 0 && HeadOf(rest, 16).base == 16
      && ValueOf(DigitsRead(rest, 16), 16) == if PrefixLost(len, 16, f) then 0 else ValueOf(d, 16)
  {
    hide HeadOf, RunEnd, DigitsRead, ValueOf;
    var x := if f.upper then 'X' else 'x';
    var p := PrefixChars(len, 16, f);
    if len + 1 < BUFFER {
      assert p == [x, '0'] && Reversed(p) == "0" + [x];
      HexNumber(x, d);
    } else {
      assert p == [x] && Reversed(p) == [x];
      LoneX(x, d);
    }
  }

  lemma LoneX(x: char, d: string)
    requires x == 'x' || x == 'X'
    ensures var rest := [x] + d;
      && DigitOf(rest[0]) >= 0 && HeadOf(rest, 16).base == 16
      && DigitsRead(rest, 16) == "" && ValueOf("", 16) == 0
  {
    var rest := [x] + d;
    SkipsTo(rest, 0, 0);
    EmptyRun(rest, 0, 16);
  }

  lemma ZeroB(d: string)
    ensures var rest := ['0', 'b'] + d;
      && DigitOf(rest[0]) >= 0 && HeadOf(rest, 2).base == 2
      && DigitsRead(rest, 2) == "0" && ValueOf("0", 2) == 0
  {
    var rest := ['0', 'b'] + d;
    SkipsTo(rest, 0, 0);
    EmptyRun(rest, 1, 2);
    assert rest[0..1] == "0" && "0"[..0] == "";
    assert ValueOf("", 2) == 0;
  }

  lemma LoneB(d: string)
    ensures var rest := ['b'] + d;
      && DigitOf(rest[0]) >= 0 && HeadOf(rest, 2).base == 2
      && DigitsRead(rest, 2) == "" && ValueOf("", 2) == 0
  {
    var rest := ['b'] + d;
    SkipsTo(rest, 0, 0);
    EmptyRun(rest, 0, 2);
  }

  lemma BinaryPrefix(len: nat, d: string, f: Flags)
    requires AllDigits(d, 2) && f.hash && len < BUFFER
    ensures var rest := Reversed(PrefixChars(len, 2, f)) + d;
      && rest != "" && DigitOf(rest[0]) >= 0 && HeadOf(rest, 2).base == 2
      && ValueOf(DigitsRead(rest, 2), 2) == 0
  {
    hide HeadOf, RunEnd, DigitsRead, ValueOf;
    var p := PrefixChars(len, 2, f);
    if len + 1 < BUFFER {
      assert p == ['b', '0'] && Reversed(p) == ['0', 'b'];
      ZeroB(d);
    } else {
      assert p == ['b'] && Reversed(p) == ['b'];
      LoneB(d);
    }
  }

  // ----- reading back

  /** Digits and zeros that are still in the output. */
  function KeptDigits(value: nat, negative: bool, base: nat, prec: nat, width: nat, f: Flags): nat
    requires 2 <= base <= 36
  {
    var g := FlagsFor(value, f);
    Kept(|DigitsFor(value, base, f)|, base, prec, DigitWidth(width, negative, g), g)
  }

  /** The minus sign found room in the buffer. */
  predicate SignKept(value: nat, negative: bool, base: nat, prec: nat, width: nat, f: Flags)
    requires 2 <= base <= 36
  {
    var k := KeptDigits(value, negative, base, prec, width, f);
    k + |PrefixChars(k, base, FlagsFor(value, f))| < BUFFER
  }

  /** strtoull on printf's output, for all flags, widths, precisions and bases. */
  lemma WhatIsReadBack(value: nat, negative: bool, base: nat, prec: nat, width: nat, f: Flags)
    requires value < U64 && 2 <= base <= 36
    ensures var k := KeptDigits(value, negative, base, prec, width, f);
      var v := if PrefixLost(k, base, FlagsFor(value, f)) then 0
               else Modulus(value, base, k);
      Parsed(Printed(DigitsFor(value, base, f), negative, base, prec, width, FlagsFor(value, f)), base) ==
        if negative && SignKept(value, negative, base, prec, width, f) then (U64 - v) % U64 else v
  {
    hide Printed, Parsed, DigitsFor, Kept, Pow, Backwards, Body, Modulus, Reversed, PadLeft, PadRight, PrefixChars,
      SignChars, PrefixLost, DigitWidth, FlagsFor, AllDigits;
    var g := FlagsFor(value, f);
    var digits := DigitsFor(value, base, f);
    var w := DigitWidth(width, negative, g);
    var body := Body(digits, base, prec, w, g);
    BodyValue(value, base, prec, w, f);
    var prefix := PrefixChars(|body|, base, g);
    var sign := SignChars(|body| + |prefix|, negative, g);
    ModulusBelow(value, base, |body|);
    PrintedText(digits, negative, base, prec, width, g);
    SignsOf(|body| + |prefix|, negative, g);
    ReadText(body, sign, base, g, PadLeft(body + prefix + sign, w, g), PadRight(body + prefix + sign, w, g));
  }

  /** The spaces _out_rev puts before and behind the text. */
  function PadLeft(text: string, w: nat, f: Flags): (s: string)
    ensures Blank(s)
  {
    if f.left || f.zeropad || w <= |text| then "" else Repeat(' ', w - |text|)
  }

  function PadRight(text: string, w: nat, f: Flags): (s: string)
    ensures Blank(s)
  {
    if f.left && w > |text| then Repeat(' ', w - |text|) else ""
  }

  lemma PrintedText(digits: string, negative: bool, base: nat, prec: nat, width: nat, f: Flags)
    ensures var w := DigitWidth(width, negative, f);
      var body := Body(digits, base, prec, w, f);
      var prefix := PrefixChars(|body|, base, f);
      var sign := SignChars(|body| + |prefix|, negative, f);
      var all := body + prefix + sign;
      Printed(digits, negative, base, prec, width, f) == PadLeft(all, w, f) + Reversed(all) + PadRight(all, w, f)
  {
    hide Body, PrefixChars, SignChars, DigitWidth;
  }

  lemma SignsOf(len: nat, negative: bool, f: Flags)
    ensures var s := SignChars(len, negative, f);
      && (s == "" || s == "-" || s == "+" || s == " ") && (s == "-" <==> negative && len < BUFFER)
  {
  }

  /** What strtoull makes of a body with prefix, sign and blanks. */
  lemma ReadText(body: string, sign: string, base: nat, f: Flags, sp: string, tail: string)
    requires 2 <= base <= 36 && AllDigits(body, base) && Backwards(body, base) < U64 && Blank(sp) && Blank(tail)
    requires sign == "" || sign == "-" || sign == "+" || sign == " "
    ensures var v := if PrefixLost(|body|, base, f) then 0 else Backwards(body, base);
      Parsed(sp + Reversed(body + PrefixChars(|body|, base, f) + sign) + tail, base) ==
        if sign == "-" then (U64 - v) % U64 else v
  {
    hide *;
    var prefix := PrefixChars(|body|, base, f);
    var d := Reversed(body);
    BackwardsReversed(body, base);
    WithPrefix(|body|, d, base, f);
    ShortSign(sign);
    PrintedShape(body, prefix, sign);
    var rest := Reversed(prefix) + d;
    var v := if PrefixLost(|body|, base, f) then 0 else Backwards(body, base);
    SignedText(sp, sign, rest, tail, base, v);
  }

  lemma ShortSign(sign: string)
    requires sign == "" || sign == "-" || sign == "+" || sign == " "
    ensures |sign| <= 1
  {
  }

  lemma SignedText(sp: string, sign: string, rest: string, tail: string, base: nat, v: nat)
    requires Blank(sp) && Blank(tail) && 2 <= base <= 36
    requires sign == "" || sign == "-" || sign == "+" || sign == " "
    requires rest != "" ==> DigitOf(rest[0]) >= 0
    requires HeadOf(rest, base).base == base && ValueOf(DigitsRead(rest, base), base) == v < U64
    ensures Parsed(sp + (sign + rest) + tail, base) == if sign == "-" then (U64 - v) % U64 else v
  {
    hide HeadOf, ValueOf, DigitsRead, Parsed, DigitOf;
    if sign == " " {
      ParsedInContext(sp + " ", "", rest, tail, base, v);
      assert sp + " " + "" + rest + tail == sp + (sign + rest) + tail;
    } else {
      ParsedInContext(sp, sign, rest, tail, base, v);
      assert sp + sign + rest + tail == sp + (sign + rest) + tail;
    }
  }

  lemma ParsedInContext(sp: string, sign: string, rest: string, tail: string, base: nat, v: nat)
    requires Blank(sp) && Blank(tail) && 2 <= base <= 36 && (sign == "" || sign == "-" || sign == "+")
    requires rest != "" ==> DigitOf(rest[0]) >= 0
    requires HeadOf(rest, base).base == base && ValueOf(DigitsRead(rest, base), base) == v < U64
    ensures Parsed(sp + sign + rest + tail, base) == if sign == "-" then (U64 - v) % U64 else v
  {
    InContext(sp, sign, rest, tail, base);
    hide HeadOf, ValueOf, DigitsRead;
  }

  lemma PrintedShape(body: string, prefix: string, sign: string)
    requires |sign| <= 1
    ensures Reversed(body + prefix + sign) == sign + (Reversed(prefix) + Reversed(body))
  {
    ReversedCat(body + prefix, sign);
    ReversedCat(body, prefix);
    assert Reversed(sign) == sign;
  }

  /** An unsigned number reads back exactly when '#' dropped no digit that counts and its prefix is whole. */
  lemma ReadsBackExactly(value: nat, base: nat, prec: nat, width: nat, f: Flags)
    requires value < U64 && 2 <= base <= 36
    ensures var k := KeptDigits(value, false, base, prec, width, f);
      Parsed(Printed(DigitsFor(value, base, f), false, base, prec, width, FlagsFor(value, f)), base) == value <==>
        value < Pow(base, k) && !PrefixLost(k, base, FlagsFor(value, f))
  {
    var k := KeptDigits(value, false, base, prec, width, f);
    WhatIsReadBack(value, false, base, prec, width, f);
    ModulusBelow(value, base, k);
    PowPositive(base, k);
  }

  /** Without '#', every 64-bit number reads back in base 4 and above: octal, decimal and hexadecimal among them. */
  lemma PlainReadsBack(value: nat, base: nat, prec: nat, width: nat, f: Flags)
    requires value < U64 && 4 <= base <= 36 && !f.hash
    ensures Parsed(Printed(DigitsFor(value, base, f), false, base, prec, width, FlagsFor(value, f)), base) == value
  {
    var k := KeptDigits(value, false, base, prec, width, f);
    WhatIsReadBack(value, false, base, prec, width, f);
    hide Printed, Parsed;
    ModulusBelow(value, base, k);
    EnoughDigits(value, base, prec, DigitWidth(width, false, FlagsFor(value, f)), f);
  }

  /** Signed numbers likewise, exactly when padding left room for the sign, or the sign makes no difference. */
  lemma NegativeReadsBack(value: nat, base: nat, prec: nat, width: nat, f: Flags)
    requires value < U64 && 4 <= base <= 36 && !f.hash
    ensures Parsed(Printed(DigitsFor(value, base, f), true, base, prec, width, FlagsFor(value, f)), base) == (U64 - value) % U64
      <==> SignKept(value, true, base, prec, width, f) || value == 0 || value == U64 / 2
  {
    hide *;
    WhatIsReadBack(value, true, base, prec, width, f);
    AllDigitsKept(value, base, prec, width, f);
    SignMatters(value);
  }

  lemma AllDigitsKept(value: nat, base: nat, prec: nat, width: nat, f: Flags)
    requires value < U64 && 4 <= base <= 36 && !f.hash
    ensures var k := KeptDigits(value, true, base, prec, width, f);
      Modulus(value, base, k) == value && !PrefixLost(k, base, FlagsFor(value, f))
  {
    hide Pow, Modulus, Kept, DigitsFor, DigitWidth;
    ModulusBelow(value, base, KeptDigits(value, true, base, prec, width, f));
    EnoughDigits(value, base, prec, DigitWidth(width, true, FlagsFor(value, f)), f);
  }

  /** Negation modulo 2^64 changes every value but 0 and 2^63. */
  lemma SignMatters(value: nat)
    requires value < U64
    ensures value == (U64 - value) % U64 <==> value == 0 || value == U64 / 2
  {
  }

  lemma EnoughDigits(value: nat, base: nat, prec: nat, w: nat, f: Flags)
    requires value < U64 && 4 <= base <= 36 && !f.hash
    ensures var n := |DigitsFor(value, base, f)|; value < Pow(base, Kept(n, base, prec, w, FlagsFor(value, f)))
  {
    var n := |DigitsFor(value, base, f)|;
    DigitsFit(value, base, f);
    Pow4();
    PowMonotone(4, base, BUFFER);
    SmallRemainder(value, Pow(base, BUFFER));
    BackwardsBound(DigitsFor(value, base, f), base);
    hide Digits, Backwards, Pow;
    PaddedFits(n, prec, w, FlagsFor(value, f));
    PowLonger(base, n, Padded(n, prec, w, FlagsFor(value, f)));
  }

  lemma Pow4()
    ensures Pow(4, BUFFER) == U64
  {
    PowSum(4, 16, 16);
    PowSum(4, 8, 8);
    PowSum(4, 4, 4);
    assert Pow(4, 4) == 256;
  }

  lemma PowLonger(base: nat, a: nat, b: nat)
    requires base > 0 && a <= b
    ensures Pow(base, a) <= Pow(base, b)
  {
    PowSum(base, a, b - a);
    PowPositive(base, b - a);
    Products(Pow(base, a), Pow(base, a), 1, Pow(base, b - a));
  }

  /** printf("%#5x", 0x12345) gives up two digits that count: it prints 0x345. */
  lemma HashDropsDigits()
    ensures var f := Flags(false, false, false, false, true, false, false);
      && KeptDigits(0x12345, false, 16, 0, 5, f) == 3
      && Parsed(Printed(DigitsFor(0x12345, 16, f), false, 16, 0, 5, FlagsFor(0x12345, f)), 16) == 0x345
  {
    hide Printed, Parsed, KeptDigits, PrefixLost, FlagsFor, DigitsFor, Modulus, SignKept;
    var f := Flags(false, false, false, false, true, false, false);
    KeptThree();
    WhatIsReadBack(0x12345, false, 16, 0, 5, f);
    LastThree();
  }

  lemma KeptThree()
    ensures var f := Flags(false, false, false, false, true, false, false);
      KeptDigits(0x12345, false, 16, 0, 5, f) == 3 && !PrefixLost(3, 16, FlagsFor(0x12345, f))
  {
    hide Digits;
    FiveDigits();
  }

  lemma LastThree()
    ensures Modulus(0x12345, 16, 3) == 0x345
  {
    assert Pow(16, 3) == 4096;
  }

  lemma FiveDigits()
    ensures |Digits(0x12345, 16, false, BUFFER)| == 5
  {
    assert |Digits(0x1, 16, false, 28)| == 1;
    assert |Digits(0x12, 16, false, 29)| == 2;
    assert |Digits(0x123, 16, false, 30)| == 3;
    assert |Digits(0x1234, 16, false, 31)| == 4;
  }
}
