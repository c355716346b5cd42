/** Numbers as they are written: what strtoull, atou64 and printf make of blanks, signs, prefixes and digits. */
module NumberText {
  import opened Division
  import opened Numerals
  import opened Parsing
  import opened Printing

  // ----- single digits

  /** Letters go on counting behind the decimal digits, small and capital ones alike. */
  lemma DigitsInOrder(c: char, k: nat)
    requires k < 36 && c == if k < 10 then '0' + k as char else 'a' + (k - 10) as char
    ensures DigitOf('0') == 0 && DigitOf('9') == 9
    ensures DigitOf('a') == DigitOf('A') == 10 && DigitOf('z') == DigitOf('Z') == 35
    ensures k > 0 ==> DigitOf(c) == DigitOf(if k == 10 then '9' else (c as int - 1) as char) + 1
    ensures k >= 10 ==> DigitOf((c as int - 32) as char) == DigitOf(c)
    ensures DigitChar(k, false) == c
    ensures DigitChar(k, true) == if k < 10 then c else (c as int - 32) as char
  {
  }

  /** Characters strtoull takes for no digit. */
  lemma NoDigits(c: char)
    ensures DigitOf(c) == NO_DIGIT <==> c < '0' || '9' < c < 'A' || 'Z' < c < 'a' || 'z' < c
  {
  }

  /** atou64 reads the hexadecimal digits, and takes everything else for 0. */
  lemma LooseExactly(c: char)
    ensures LooseDigit(c) == if DigitIn(c, 16) then DigitOf(c) else 0
  {
  }

  // ----- reading

  predicate Blank(s: string) {
    forall i :: 0 <= i < |s| ==> s[i] == ' ' || s[i] == '\t'
  }

  predicate StartsBlank(s: string) {
    s != "" && (s[0] == ' ' || s[0] == '\t')
  }

  lemma {:induction false} BlanksSkipped(spaces: string, rest: string, i: nat)
    requires Blank(spaces) && !StartsBlank(rest) && i <= |spaces|
    ensures SkipSpaces(spaces + rest, i) == |spaces|
    decreases |spaces| - i
  {
    if i < |spaces| {
      assert (spaces + rest)[i] == spaces[i];
      BlanksSkipped(spaces, rest, i + 1);
    } else if rest != "" {
      assert (spaces + rest)[i] == rest[0];
    }
  }

  lemma {:induction false} RunStops(before: string, d: string, rest: string, base: nat, i: nat)
    requires AllDigits(d, base) && (rest == "" || !DigitIn(rest[0], base)) && i <= |d|
    ensures RunEnd(before + d + rest, |before| + i, base) == |before| + |d|
    decreases |d| - i
  {
    var text := before + d + rest;
    if i < |d| {
      assert text[|before| + i] == d[i];
      RunStops(before, d, rest, base, i + 1);
    } else if rest != "" {
      assert text[|before| + i] == rest[0];
    }
  }

  lemma CharBehind(a: string, b: string, k: nat)
    ensures CharAt(a + b, |a| + k) == CharAt(b, k)
  {
  }

  /** `tail` starts with the hexadecimal prefix. */
  predicate StartsHex(tail: string) {
    CharAt(tail, 0) == '0' && (CharAt(tail, 1) == 'x' || CharAt(tail, 1) == 'X')
  }

  lemma PlainTail(d: string, rest: string, b: nat)
    requires d != "" && AllDigits(d, b)
    requires d == "0" && rest != "" ==> rest[0] != 'x' && rest[0] != 'X'
    ensures CharAt(d + rest, 0) == d[0] && !StartsBlank(d + rest) && d[0] != '-' && d[0] != '+'
    ensures b <= 16 ==> !StartsHex(d + rest)
  {
    assert DigitIn(d[0], b);
    if |d| > 1 {
      assert DigitIn(d[1], b) && CharAt(d + rest, 1) == d[1];
    } else {
      CharBehind(d, rest, 0);
      assert d == [d[0]];
    }
  }

  lemma HexTail(prefix: string, d: string, rest: string)
    requires prefix in {"0x", "0X"}
    ensures StartsHex(prefix + d + rest) && !StartsBlank(prefix + d + rest) && CharAt(prefix + d + rest, 0) == '0'
  {
  }

  /** What is found in front of the digits, when behind blanks and sign stands `tail`. */
  lemma HeadIs(spaces: string, sign: string, tail: string, base: nat)
    requires Blank(spaces) && sign in {"", "+", "-"} && !StartsBlank(tail)
    requires CharAt(tail, 0) != '-' && CharAt(tail, 0) != '+'
    ensures var prefixed := (base == 0 || base == 16) && StartsHex(tail);
      HeadOf(spaces + (sign + tail), base) == Head(sign == "-",
        if prefixed then 16 else if base != 0 then base else if CharAt(tail, 0) == '0' then 8 else 10,
        |spaces| + |sign| + if prefixed then 2 else 0)
  {
    hide HeadOf, SkipSpaces, CharAt, Blank;
    var text := spaces + (sign + tail);
    SignSeen(sign, tail);
    BlanksSkipped(spaces, sign + tail, 0);
    CharBehind(spaces, sign + tail, 0);
    CharBehind(spaces + sign, tail, 0);
    CharBehind(spaces + sign, tail, 1);
    assert text == (spaces + sign) + tail;
    HeadAt(text, base, |spaces|, |spaces| + |sign|);
  }

  lemma SignSeen(sign: string, tail: string)
    requires sign in {"", "+", "-"} && !StartsBlank(tail) && CharAt(tail, 0) != '-' && CharAt(tail, 0) != '+'
    ensures !StartsBlank(sign + tail)
    ensures CharAt(sign + tail, 0) == if sign == "" then CharAt(tail, 0) else sign[0]
    ensures (sign == "-" <==> CharAt(sign + tail, 0) == '-') && (sign == "+" <==> CharAt(sign + tail, 0) == '+')
    ensures |sign| == if sign == "" then 0 else 1
  {
    if sign == "" {
      assert sign + tail == tail;
    } else {
      assert CharAt(sign + tail, 0) == sign[0];
    }
  }

  /** The head of a number, by the characters behind the blanks and behind the sign. */
  lemma HeadAt(text: string, base: nat, i: nat, j: nat)
    requires SkipSpaces(text, 0) == i && j == if CharAt(text, i) == '-' || CharAt(text, i) == '+' then i + 1 else i
    ensures
      var prefixed := (base == 0 || base == 16) && CharAt(text, j) == '0' && (CharAt(text, j + 1) == 'x' || CharAt(text, j + 1) == 'X');
      HeadOf(text, base) == Head(CharAt(text, i) == '-',
        if prefixed then 16 else if base != 0 then base else if CharAt(text, j) == '0' then 8 else 10,
        j + if prefixed then 2 else 0)
  {
    hide SkipSpaces, CharAt;
  }

  /** strtoull on a number as it is written, whatever stands behind it: blanks are skipped, sign and prefix are
      understood, a leading 0 means octal when no base is asked for, and the value is that of the digits, saturated or
      negated. */
  lemma NumbersRead(spaces: string, sign: string, prefix: string, d: string, rest: string, base: nat, b: nat)
    requires Blank(spaces) && sign in {"", "+", "-"} && prefix in {"", "0x", "0X"} && d != ""
    requires b == if prefix != "" then 16 else if base != 0 then base else if d[0] == '0' then 8 else 10
    requires (base == 0 || 2 <= base <= 36) && (prefix != "" ==> base == 0 || base == 16)
    requires AllDigits(d, b) && (rest == "" || !DigitIn(rest[0], b))
    requires prefix == "" && d == "0" && rest != "" ==> rest[0] != 'x' && rest[0] != 'X'
    ensures var text := spaces + (sign + (prefix + d + rest));
      && DigitsRead(text, base) == d && HeadOf(text, base).start == |spaces| + |sign| + |prefix|
      && Parsed(text, base) ==
         if ValueOf(d, b) >= U64 then U64 - 1
         else if sign == "-" && ValueOf(d, b) > 0 then U64 - ValueOf(d, b) else ValueOf(d, b)
  {
    hide HeadOf, RunEnd, ValueOf, AllDigits, Blank, DigitIn, DigitsRead, Parsed;
    NumberHead(spaces, sign, prefix, d, rest, base, b);
    Regrouped(spaces, sign, prefix, d, rest);
    BehindHead(spaces + sign + prefix, d, rest, base, sign == "-", b);
  }

  lemma Regrouped(spaces: string, sign: string, prefix: string, d: string, rest: string)
    ensures spaces + (sign + (prefix + d + rest)) == (spaces + sign + prefix) + d + rest
    ensures |spaces + sign + prefix| == |spaces| + |sign| + |prefix|
  {
  }

  lemma NumberHead(spaces: string, sign: string, prefix: string, d: string, rest: string, base: nat, b: nat)
    requires Blank(spaces) && sign in {"", "+", "-"} && prefix in {"", "0x", "0X"} && d != ""
    requires b == if prefix != "" then 16 else if base != 0 then base else if d[0] == '0' then 8 else 10
    requires (base == 0 || 2 <= base <= 36) && (prefix != "" ==> base == 0 || base == 16) && AllDigits(d, b)
    requires prefix == "" && d == "0" && rest != "" ==> rest[0] != 'x' && rest[0] != 'X'
    ensures HeadOf(spaces + (sign + (prefix + d + rest)), base) == Head(sign == "-", b, |spaces| + |sign| + |prefix|)
  {
    hide HeadOf, AllDigits, StartsBlank, StartsHex, Blank, CharAt;
    if prefix == "" {
      assert prefix + d + rest == d + rest;
      PlainTail(d, rest, b);
    } else {
      HexTail(prefix, d, rest);
    }
    HeadIs(spaces, sign, prefix + d + rest, base);
  }

  lemma BehindHead(before: string, d: string, rest: string, base: nat, negative: bool, b: nat)
    requires AllDigits(d, b) && (rest == "" || !DigitIn(rest[0], b))
    requires HeadOf(before + d + rest, base) == Head(negative, b, |before|)
    ensures DigitsRead(before + d + rest, base) == d
    ensures Parsed(before + d + rest, base) ==
      if ValueOf(d, b) >= U64 then U64 - 1
      else if negative && ValueOf(d, b) > 0 then U64 - ValueOf(d, b) else ValueOf(d, b)
  {
    hide HeadOf, RunEnd, ValueOf, AllDigits, DigitIn;
    var text := before + d + rest;
    RunStops(before, d, rest, b, 0);
    assert RunEnd(text, |before|, b) == |before| + |d|;
    assert text[|before|..|before| + |d|] == d;
    var v := ValueOf(d, b);
    assert DigitsRead(text, base) == d;
    assert v < U64 ==> (U64 - v) % U64 == if v > 0 then U64 - v else 0;
  }

  /** atou64 on decimal and binary text: every digit counts. */
  lemma AtouReads(spaces: string, d: string)
    requires Blank(spaces) && d != ""
    ensures AllDigits(d, 10) ==>
      var text := spaces + d;
      var h := AtouHeadOf(text);
      h == AtouHead(10, |spaces|) && LeftToRight(text[h.start..], h.base) == ValueOf(d, 10)
    ensures AllDigits(d, 2) ==>
      var text := spaces + "0b" + d;
      var h := AtouHeadOf(text);
      h == AtouHead(2, |spaces| + 2) && LeftToRight(text[h.start..], h.base) == ValueOf(d, 2)
  {
    if AllDigits(d, 10) {
      var text := spaces + d;
      assert DigitIn(d[0], 10);
      BlanksSkipped(spaces, d, 0);
      assert text[|spaces|] == d[0];
      if |d| > 1 {
        assert DigitIn(d[1], 10) && text[|spaces| + 1] == d[1];
      }
      assert text[|spaces|..] == d;
      DecimalStrings(d);
    }
    if AllDigits(d, 2) {
      var text := spaces + "0b" + d;
      assert DigitIn(d[0], 2);
      assert text == spaces + ("0b" + d);
      BlanksSkipped(spaces, "0b" + d, 0);
      assert text[|spaces|] == '0' && text[|spaces| + 1] == 'b' && text[|spaces| + 2] == d[0];
      assert text[|spaces| + 2..] == d;
      BinaryStrings(d);
    }
  }

  lemma {:induction false} BinaryStrings(s: string)
    requires AllDigits(s, 2)
    ensures LeftToRight(s, 2) == ValueOf(s, 2)
  {
    if s != "" {
      BinaryStrings(s[..|s| - 1]);
      assert DigitIn(s[|s| - 1], 2);
    }
  }

  // ----- printing

  lemma DivideTwice(v: nat, a: nat, b: nat)
    requires a > 0 && b > 0
    ensures a * b > 0 && v / (a * b) == v / a / b
  {
    Divided(v, a);
    Divided(v / a, b);
    DivideParts(v, a, b, v / a, v % a, v / a / b, v / a % b);
  }

  lemma Divided(x: nat, d: nat)
    requires d > 0
    ensures x == x / d * d + x % d && x % d < d
  {
  }

  lemma DivideParts(v: nat, a: nat, b: nat, q: nat, r: nat, p: nat, t: nat)
    requires v == q * a + r && q == p * b + t && r < a && t < b
    ensures a * b > 0 && v / (a * b) == p
  {
    TwoParts(v, a, b, p, t, r);
    QuotientIs(v, a * b, p, t * a + r);
  }

  lemma TwoParts(v: nat, a: nat, b: nat, p: nat, t: nat, r: nat)
    requires v == (p * b + t) * a + r && t < b && r < a
    ensures v == p * (a * b) + (t * a + r) && 0 <= t * a + r < a * b
  {
    Associate(p, b, a);
    Scaled(t + 1, b, a);
  }

  /** Digit `i` is that of the base's i-th power; there are as many digits as the value has, one for 0. */
  lemma {:induction false} DigitsAt(value: nat, base: nat, upper: bool, room: nat, i: nat)
    requires 2 <= base <= 36 && room > 0 && i < |Digits(value, base, upper, room)|
    ensures Pow(base, i) > 0 && Pow(base, i + 1) > 0 && value / Pow(base, i) % base < 36
    ensures Digits(value, base, upper, room)[i] == DigitChar(value / Pow(base, i) % base, upper)
    ensures i > 0 ==> value / Pow(base, i) > 0
    ensures i + 1 == |Digits(value, base, upper, room)| < room ==> value / Pow(base, i + 1) == 0
    decreases room
  {
    hide DigitChar, DigitOf;
    PowPositive(base, i);
    PowPositive(base, i + 1);
    PowStep(base, i + 1);
    if i == 0 {
      FirstPower(value, base);
      OneDigit(value, base, upper, room);
    } else {
      PowStep(base, i);
      MoreDigits(value, base, upper, room);
      DigitsAt(value / base, base, upper, room - 1, i - 1);
      DivideTwice(value, base, Pow(base, i - 1));
      DivideTwice(value, base, Pow(base, i));
    }
  }

  lemma FirstPower(value: nat, base: nat)
    requires base > 0
    ensures Pow(base, 0) == 1 && Pow(base, 1) == base && value / Pow(base, 0) == value
  {
    PowStep(base, 1);
  }

  lemma OneDigit(value: nat, base: nat, upper: bool, room: nat)
    requires 2 <= base <= 36 && room > 0
    ensures value % base < 36 && Digits(value, base, upper, room)[0] == DigitChar(value % base, upper)
    ensures |Digits(value, base, upper, room)| == 1 && room > 1 ==> value / base == 0
  {
    hide DigitChar, DigitOf;
  }

  lemma MoreDigits(value: nat, base: nat, upper: bool, room: nat)
    requires 2 <= base <= 36 && room > 0 && |Digits(value, base, upper, room)| > 1
    ensures value / base > 0 && room > 1
    ensures Digits(value, base, upper, room)[1..] == Digits(value / base, base, upper, room - 1)
  {
    hide DigitChar, DigitOf;
  }

  /** 0 has the digit 0, unless a precision is given: then it has none. */
  lemma ZeroDigits(base: nat, f: Flags)
    requires 2 <= base <= 36
    ensures DigitsFor(0, base, f) == if f.precision then "" else "0"
    ensures !FlagsFor(0, f).hash
  {
    assert 0 / base == 0 && 0 % base == 0;
  }

  lemma ReversedCat(a: string, b: string)
    ensures Reversed(a + b) == Reversed(b) + Reversed(a)
  {
    hide Reversed;
  }

  lemma ReversedRepeat(c: char, n: nat)
    ensures Reversed(Repeat(c, n)) == Repeat(c, n)
  {
    hide Reversed, Repeat;
  }

  lemma ReversedShort(s: string)
    requires |s| <= 1
    ensures Reversed(s) == s
  {
  }

  /** What stands in front of the digits of a number that is not negative, or is. */
  predicate IsSign(sign: string, negative: bool, f: Flags) {
    sign == if negative then "-" else if f.plus then "+" else if f.space then " " else ""
  }

  /** Output without '#': sign, zeros, digits; the zeros make up the precision, or the width when they are to pad; spaces
      fill the width, behind the number if it is to stand left. */
  lemma PlainLayout(digits: string, negative: bool, base: nat, prec: nat, width: nat, f: Flags, sign: string, text: string)
    requires !f.hash
    requires sign == if negative then "-" else if f.plus then "+" else if f.space then " " else ""
    requires |digits| + |sign| <= 32 && prec + |sign| <= 32 && (f.zeropad && !f.left ==> width <= 32)
    requires
      var places := if f.left then 0 else if f.zeropad then Max(prec, if width > |sign| then width - |sign| else 0) else prec;
      text == sign + Repeat('0', if places > |digits| then places - |digits| else 0) + Reversed(digits)
    ensures
      var spaces := Repeat(' ', if width > |text| then width - |text| else 0);
      && Printed(digits, negative, base, prec, width, f) == (if f.left then text + spaces else spaces + text)
      && |Printed(digits, negative, base, prec, width, f)| == Max(width, |text|)
  {
    hide Reversed, Repeat, DigitWidth, Padded, Body, PrefixChars, SignChars, Kept, Max, Printed;
    var w := DigitWidth(width, negative, f);
    var z := Padded(|digits|, prec, w, f) - |digits|;
    Places(|digits|, prec, width, negative, f, sign);
    PlainText(digits, negative, base, prec, w, f, sign);
    assert text == sign + Repeat('0', z) + Reversed(digits);
    Emitted(digits, negative, base, prec, width, f, text);
  }

  lemma Emitted(digits: string, negative: bool, base: nat, prec: nat, width: nat, f: Flags, text: string)
    requires var body := Body(digits, base, prec, DigitWidth(width, negative, f), f);
      var prefix := PrefixChars(|body|, base, f);
      text == Reversed(body + prefix + SignChars(|body| + |prefix|, negative, f))
    requires (f.left || !f.zeropad ==> DigitWidth(width, negative, f) == width) && (f.zeropad && !f.left ==> width <= |text|)
    ensures var spaces := Repeat(' ', if width > |text| then width - |text| else 0);
      && Printed(digits, negative, base, prec, width, f) == (if f.left then text + spaces else spaces + text)
      && |Printed(digits, negative, base, prec, width, f)| == Max(width, |text|)
  {
    hide Reversed, Repeat, DigitWidth, Body, PrefixChars, SignChars, Max, Printed;
    PrintedWith(digits, negative, base, prec, width, f, text);
    Spread(text, DigitWidth(width, negative, f), width, f);
  }

  lemma PrintedWith(digits: string, negative: bool, base: nat, prec: nat, width: nat, f: Flags, text: string)
    requires var body := Body(digits, base, prec, DigitWidth(width, negative, f), f);
      var prefix := PrefixChars(|body|, base, f);
      text == Reversed(body + prefix + SignChars(|body| + |prefix|, negative, f))
    ensures var w := DigitWidth(width, negative, f);
      var room := if w > |text| then w - |text| else 0;
      Printed(digits, negative, base, prec, width, f) ==
        (if f.left || f.zeropad then "" else Repeat(' ', room)) + text + (if f.left then Repeat(' ', room) else "")
  {
    hide Reversed, Repeat, DigitWidth, Padded, Body, PrefixChars, SignChars, Kept;
  }

  /** The spaces of the last step. */
  lemma Spread(text: string, w: nat, width: nat, f: Flags)
    requires (f.left || !f.zeropad ==> w == width) && (f.zeropad && !f.left ==> width <= |text|)
    ensures var room := if w > |text| then w - |text| else 0;
      var spaces := Repeat(' ', if width > |text| then width - |text| else 0);
      (if f.left || f.zeropad then "" else Repeat(' ', room)) + text + (if f.left then Repeat(' ', room) else "") ==
        if f.left then text + spaces else spaces + text
    ensures |Repeat(' ', if width > |text| then width - |text| else 0)| + |text| == Max(width, |text|)
  {
    if f.left {
      assert "" + text == text;
    } else {
      assert Repeat(' ', if width > |text| then width - |text| else 0) + text + "" ==
        Repeat(' ', if width > |text| then width - |text| else 0) + text;
    }
  }

  lemma PlainText(digits: string, negative: bool, base: nat, prec: nat, w: nat, f: Flags, sign: string)
    requires !f.hash && IsSign(sign, negative, f)
    requires |digits| <= Padded(|digits|, prec, w, f) && Padded(|digits|, prec, w, f) + |sign| <= 32
    ensures var body := Body(digits, base, prec, w, f);
      var prefix := PrefixChars(|body|, base, f);
      Reversed(body + prefix + SignChars(|body| + |prefix|, negative, f)) ==
        sign + Repeat('0', Padded(|digits|, prec, w, f) - |digits|) + Reversed(digits)
  {
    hide Reversed, Repeat, Padded;
    var body := Body(digits, base, prec, w, f);
    var zeros := Repeat('0', Padded(|digits|, prec, w, f) - |digits|);
    assert body == digits + zeros;
    assert SignChars(|body|, negative, f) == sign;
    assert body + "" + sign == digits + (zeros + sign);
    ReversedCat(digits, zeros + sign);
    ReversedCat(zeros, sign);
    ReversedRepeat('0', |zeros|);
    ReversedShort(sign);
  }

  lemma Places(n: nat, prec: nat, width: nat, negative: bool, f: Flags, sign: string)
    requires IsSign(sign, negative, f)
    requires n + |sign| <= 32 && prec + |sign| <= 32 && (f.zeropad && !f.left ==> width <= 32)
    ensures
      var places := if f.left then 0 else if f.zeropad then Max(prec, if width > |sign| then width - |sign| else 0) else prec;
      var w := DigitWidth(width, negative, f);
      && n <= Padded(n, prec, w, f) && Padded(n, prec, w, f) - n == (if places > n then places - n else 0)
      && Padded(n, prec, w, f) + |sign| <= 32
      && (f.zeropad && !f.left ==> width <= |sign| + Padded(n, prec, w, f))
      && (f.left || !f.zeropad ==> w == width)
  {
  }

  /** Output with '#' where no zeros are asked for and no place is given up: the prefix stands between sign and digits. */
  lemma HashLayout(digits: string, negative: bool, base: nat, prec: nat, width: nat, f: Flags, sign: string, prefix: string)
    requires f.hash && |digits| + 3 <= 32 && digits != ""
    requires sign == if negative then "-" else if f.plus then "+" else if f.space then " " else ""
    requires f.left || (!f.zeropad && prec <= |digits|)
    requires f.precision || (|digits| != prec && |digits| != width)
    requires prefix == if base == 16 then (if f.upper then "0X" else "0x") else if base == 2 then "0b" else "0"
    ensures var text := sign + prefix + Reversed(digits);
      var spaces := Repeat(' ', if width > |text| then width - |text| else 0);
      Printed(digits, negative, base, prec, width, f) == if f.left then text + spaces else spaces + text
  {
    hide Reversed, Repeat, DigitWidth, Padded, Body, PrefixChars, SignChars, Kept, Max, Printed;
    HashParts(digits, negative, base, prec, width, f, sign, prefix);
    var text := sign + prefix + Reversed(digits);
    Emitted(digits, negative, base, prec, width, f, text);
  }

  lemma HashParts(digits: string, negative: bool, base: nat, prec: nat, width: nat, f: Flags, sign: string, prefix: string)
    requires f.hash && IsSign(sign, negative, f) && |digits| + 3 <= 32 && digits != ""
    requires f.left || (!f.zeropad && prec <= |digits|)
    requires f.precision || (|digits| != prec && |digits| != width)
    requires prefix == if base == 16 then (if f.upper then "0X" else "0x") else if base == 2 then "0b" else "0"
    ensures DigitWidth(width, negative, f) == width
    ensures var body := Body(digits, base, prec, width, f);
      var chars := PrefixChars(|body|, base, f);
      Reversed(body + chars + SignChars(|body| + |chars|, negative, f)) == sign + prefix + Reversed(digits)
  {
    hide Reversed;
    var body := Body(digits, base, prec, width, f);
    NothingDropped(digits, base, prec, width, f);
    var chars := PrefixChars(|body|, base, f);
    assert SignChars(|body| + |chars|, negative, f) == sign;
    TurnedPrefix(chars, prefix);
    assert body + chars + sign == digits + (chars + sign);
    ReversedCat(digits, chars + sign);
    ReversedCat(chars, sign);
    ReversedShort(sign);
  }

  lemma NothingDropped(digits: string, base: nat, prec: nat, width: nat, f: Flags)
    requires |digits| + 3 <= 32 && (f.left || (!f.zeropad && prec <= |digits|))
    requires f.precision || (|digits| != prec && |digits| != width)
    ensures Body(digits, base, prec, width, f) == digits
  {
    assert Padded(|digits|, prec, width, f) == |digits|;
    assert digits + Repeat('0', 0) == digits;
  }

  lemma TurnedPrefix(chars: string, prefix: string)
    requires |chars| == |prefix| <= 2 && (|prefix| >= 1 ==> chars[|chars| - 1] == prefix[0])
    requires |prefix| == 2 ==> chars[0] == prefix[1]
    ensures Reversed(chars) == prefix
  {
    hide Reversed;
  }
}
