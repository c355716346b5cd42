/** printf's integer output, and what strtoull reads back from it. */
module Printing {
  import opened Numerals

  const BUFFER: int := 32      // PRINTF_NTOA_BUFFER_SIZE

  datatype Flags =
    Flags(zeropad: bool, left: bool, plus: bool, space: bool, hash: bool, upper: bool, precision: bool)

  function DigitChar(d: nat, upper: bool): (c: char)
    requires d < 36
    ensures DigitOf(c) == d
  {
    if d < 10 then '0' + d as char else (if upper then 'A' else 'a') + (d - 10) as char
  }

  function Repeat(c: char, n: nat): (s: string)
    ensures |s| == n && forall i :: 0 <= i < n ==> s[i] == c
  {
    if n == 0 then "" else Repeat(c, n - 1) + [c]
  }

  function Reversed(s: string): (r: string)
    ensures |r| == |s| && forall i :: 0 <= i < |s| ==> r[i] == s[|s| - 1 - i]
  {
    if s == "" then "" else Reversed(s[1..]) + [s[0]]
  }

  /** The digits of a value, least significant first, at most `room` and at least one. */
  function Digits(value: nat, base: nat, upper: bool, room: nat): (s: string)
    requires 2 <= base <= 36 && room > 0
    ensures 0 < |s| <= room && AllDigits(s, base)
    decreases room
  {
    if value / base > 0 && room > 1 then [DigitChar(value % base, upper)] + Digits(value / base, base, upper, room - 1)
    else [DigitChar(value % base, upper)]
  }

  // ----- layout of the output

  /** The width left for digits when a sign takes one place of a zero-padded number. */
  function DigitWidth(width: nat, negative: bool, f: Flags): nat {
    if !f.left && width > 0 && f.zeropad && (negative || f.plus || f.space) then width - 1 else width
  }

  function Min32(n: nat): nat {
    if n < BUFFER then n else BUFFER
  }

  function Max(a: nat, b: nat): nat {
    if a < b then b else a
  }

  /** Digits and leading zeros in the buffer. */
  function Padded(n: nat, prec: nat, w: nat, f: Flags): nat {
    if f.left then n else
      var m := Max(n, Min32(prec));
      if f.zeropad then Max(m, Min32(w)) else m
  }

  /** What the '#' flag leaves of them: up to two places are given up to the base prefix. */
  function Kept(n: nat, base: nat, prec: nat, w: nat, f: Flags): (k: nat)
    ensures k <= Padded(n, prec, w, f)
  {
    var len := Padded(n, prec, w, f);
    if f.hash && !f.precision && len > 0 && (len == prec || len == w) then
      if len > 1 && base == 16 then len - 2 else len - 1
    else len
  }

  /** The base prefix in buffer order, as far as there is room. */
  function PrefixChars(len: nat, base: nat, f: Flags): string {
    if !f.hash || len >= BUFFER then ""
    else if base == 16 then [if f.upper then 'X' else 'x'] + (if len + 1 < BUFFER then "0" else "")
    else if base == 2 then "b" + (if len + 1 < BUFFER then "0" else "")
    else "0"
  }

  function SignChars(len: nat, negative: bool, f: Flags): string {
    if len >= BUFFER then ""
    else if negative then "-"
    else if f.plus then "+"
    else if f.space then " "
    else ""
  }

  /** Digits and zeros, least significant first. */
  function Body(digits: string, base: nat, prec: nat, w: nat, f: Flags): (s: string)
    ensures |s| == Kept(|digits|, base, prec, w, f)
  {
    var len := Padded(|digits|, prec, w, f);
    (digits + Repeat('0', len - |digits|))[..Kept(|digits|, base, prec, w, f)]
  }

  /** Everything printed: padding, sign, prefix, digits, padding. */
  function Printed(digits: string, negative: bool, base: nat, prec: nat, width: nat, f: Flags): string {
    var w := DigitWidth(width, negative, f);
    var body := Body(digits, base, prec, w, f);
    var prefix := PrefixChars(|body|, base, f);
    var sign := SignChars(|body| + |prefix|, negative, f);
    var text := Reversed(body + prefix + sign);
    var room := if w > |text| then w - |text| else 0;
    (if f.left || f.zeropad then "" else Repeat(' ', room)) + text + (if f.left then Repeat(' ', room) else "")
  }

  /** The flags and digits _ntoa_long_long starts from. */
  function FlagsFor(value: nat, f: Flags): Flags {
    if value == 0 then f.(hash := false) else f
  }

  function DigitsFor(value: nat, base: nat, f: Flags): string
    requires 2 <= base <= 36
  {
    if f.precision && value == 0 then "" else Digits(value, base, f.upper, BUFFER)
  }

  function Quotient(v: nat, base: nat): nat
    requires base > 0
  {
    v / base
  }

  /** The digit expression of the loop. */
  method PickDigit(digit: nat, upper: bool) returns (c: char)
    requires digit < 36
    ensures c == DigitChar(digit, upper)
  {
    c := if digit < 10 then '0' + digit as char else (if upper then 'A' else 'a') + (digit - 10) as char;
  }

  lemma DigitsStep(before: string, v: nat, base: nat, upper: bool, room: nat, all: string)
    requires 2 <= base <= 36 && room > 0 && before + Digits(v, base, upper, room) == all
    ensures v % base < 36
    ensures var more := before + [DigitChar(v % base, upper)];
      if v / base > 0 && room > 1 then more + Digits(v / base, base, upper, room - 1) == all else more == all
  {
    if v / base > 0 && room > 1 {
      var rest := Digits(v / base, base, upper, room - 1);
      assert before + ([DigitChar(v % base, upper)] + rest) == (before + [DigitChar(v % base, upper)]) + rest;
    }
  }

  /** The digit loop of _ntoa_long_long. */
  method FillDigits(buf: array<char>, value: nat, base: nat, upper: bool) returns (len: nat)
    requires buf.Length == BUFFER && 2 <= base <= 36
    modifies buf
    ensures len <= BUFFER && buf[..len] == Digits(value, base, upper, BUFFER)
  {
    hide Digits, DigitChar;
    len := 0;
    var v: nat := value;
    ghost var room: nat := BUFFER;
    ghost var all := Digits(value, base, upper, BUFFER);
    assert buf[..0] == "";
    while true
      invariant room > 0 && len + room == BUFFER
      invariant buf[..len] + Digits(v, base, upper, room) == all
      decreases room
    {
      var digit := v % base;
      ghost var before := buf[..len];
      DigitsStep(before, v, base, upper, room, all);
      var c := PickDigit(digit, upper);
      buf[len] := c;
      len := len + 1;
      assert buf[..len] == before + [c];
      ghost var more := buf[..len];
      v := Quotient(v, base);
      if v == 0 || len >= BUFFER {
        break;
      }
      room := room - 1;
      assert more + Digits(v, base, upper, room) == all;
    }
  }

  /** _ntoa_long_long into a string. */
  method NtoaLongLong(value: nat, negative: bool, base: nat, prec: nat, width: nat, flags: Flags) returns (out: string)
    requires 2 <= base <= 36
    ensures out == Printed(DigitsFor(value, base, flags), negative, base, prec, width, FlagsFor(value, flags))
  {
    hide Printed, Digits;
    var buf := new char[BUFFER];
    var len := 0;
    var f := flags;
    if value == 0 {
      f := f.(hash := false);
    }
    if !f.precision || value != 0 {
      len := FillDigits(buf, value, base, f.upper);
    }
    assert buf[..len] == DigitsFor(value, base, flags);
    out := NtoaFormat(buf, len, negative, base, prec, width, f);
  }

  /** The padding loops of _ntoa_format. */
  method PadZeros(buf: array<char>, len0: nat, target: nat) returns (len: nat)
    requires buf.Length == BUFFER && len0 <= BUFFER
    modifies buf
    ensures len == Max(len0, Min32(target)) <= BUFFER && buf[..len] == old(buf[..len0]) + Repeat('0', len - len0)
  {
    len := len0;
    while len < target && len < BUFFER
      invariant len0 <= len <= Max(len0, Min32(target)) && len <= BUFFER
      invariant buf[..len] == old(buf[..len0]) + Repeat('0', len - len0)
    {
      buf[len] := '0';
      len := len + 1;
    }
  }

  lemma RepeatCat(c: char, a: nat, b: nat)
    ensures Repeat(c, a) + Repeat(c, b) == Repeat(c, a + b)
  {
  }

  /** The zero padding of _ntoa_format. */
  method PadDigits(buf: array<char>, len0: nat, negative: bool, prec: nat, width0: nat, flags: Flags)
    returns (len: nat, width: nat)
    requires buf.Length == BUFFER && len0 <= BUFFER
    modifies buf
    ensures width == DigitWidth(width0, negative, flags) && len == Padded(len0, prec, width, flags) <= BUFFER
    ensures buf[..len] == old(buf[..len0]) + Repeat('0', len - len0)
  {
    len, width := len0, width0;
    if !flags.left {
      if width != 0 && flags.zeropad && (negative || flags.plus || flags.space) {
        width := width - 1;
      }
      len := PadZeros(buf, len, prec);
      ghost var mid := len - len0;
      if flags.zeropad {
        len := PadZeros(buf, len, width);
        RepeatCat('0', mid, len - len0 - mid);
      }
    }
  }

  /** The '#' part of _ntoa_format. */
  method PutHash(buf: array<char>, len0: nat, base: nat, prec: nat, width: nat, flags: Flags, ghost digits: string)
    returns (len: nat)
    requires buf.Length == BUFFER && |digits| <= len0 == Padded(|digits|, prec, width, flags) <= BUFFER
    requires buf[..len0] == digits + Repeat('0', len0 - |digits|)
    modifies buf
    ensures var body := Body(digits, base, prec, width, flags);
      len <= BUFFER && buf[..len] == body + PrefixChars(|body|, base, flags)
  {
    hide PrefixChars, Padded;
    len := len0;
    ghost var all := buf[..len];
    NoHashNoPrefix(base, flags);
    if flags.hash {
      if !flags.precision && len != 0 && (len == prec || len == width) {
        len := len - 1;
        if len != 0 && base == 16 {
          len := len - 1;
        }
      }
      assert buf[..len] == all[..len];
      len := AppendPrefix(buf, len, base, flags);
    }
  }

  lemma NoHashNoPrefix(base: nat, flags: Flags)
    ensures !flags.hash ==> forall len :: PrefixChars(len, base, flags) == ""
  {
  }

  /** _ntoa_format: completes the buffer and emits it. */
  method NtoaFormat(buf: array<char>, len0: nat, negative: bool, base: nat, prec: nat, width0: nat, flags: Flags)
    returns (out: string)
    requires buf.Length == BUFFER && len0 <= BUFFER
    modifies buf
    ensures out == Printed(old(buf[..len0]), negative, base, prec, width0, flags)
  {
    hide Reversed, Body, PrefixChars, Padded, DigitWidth, SignChars;
    ghost var digits := buf[..len0];
    var len, width := PadDigits(buf, len0, negative, prec, width0, flags);
    len := PutHash(buf, len, base, prec, width, flags, digits);
    len := AppendSign(buf, len, negative, flags);
    out := OutRev(buf, len, width, flags);
  }

  /** The sign of _ntoa_format. */
  method AppendSign(buf: array<char>, len0: nat, negative: bool, flags: Flags) returns (len: nat)
    requires buf.Length == BUFFER && len0 <= BUFFER
    modifies buf
    ensures len <= BUFFER && buf[..len] == old(buf[..len0]) + SignChars(len0, negative, flags)
  {
    len := len0;
    if len < BUFFER {
      if negative {
        buf[len] := '-';
        len := len + 1;
      } else if flags.plus {
        buf[len] := '+';
        len := len + 1;
      } else if flags.space {
        buf[len] := ' ';
        len := len + 1;
      }
    }
  }

  /** The base prefix of _ntoa_format. */
  method AppendPrefix(buf: array<char>, len0: nat, base: nat, flags: Flags) returns (len: nat)
    requires buf.Length == BUFFER && len0 <= BUFFER && flags.hash
    modifies buf
    ensures len <= BUFFER && buf[..len] == old(buf[..len0]) + PrefixChars(len0, base, flags)
  {
    len := len0;
    if base == 16 && !flags.upper && len < BUFFER {
      buf[len] := 'x';
      len := len + 1;
    } else if base == 16 && flags.upper && len < BUFFER {
      buf[len] := 'X';
      len := len + 1;
    } else if base == 2 && len < BUFFER {
      buf[len] := 'b';
      len := len + 1;
    }
    if len < BUFFER {
      buf[len] := '0';
      len := len + 1;
    }
  }

  /** The padding loops of _out_rev: spaces from column `from` up to the width. */
  method SpacesFrom(from: nat, width: nat) returns (s: string)
    ensures s == Repeat(' ', if width > from then width - from else 0)
  {
    s := "";
    var i := from;
    while i < width
      invariant from <= i <= Max(from, width) && s == Repeat(' ', i - from)
    {
      s := s + " ";
      i := i + 1;
    }
  }

  /** _out_rev: the buffer backwards, padded with spaces to the width. */
  method OutRev(buf: array<char>, len0: nat, width: nat, flags: Flags) returns (out: string)
    requires buf.Length == BUFFER && len0 <= BUFFER
    ensures var room := if width > len0 then width - len0 else 0;
      out == (if flags.left || flags.zeropad then "" else Repeat(' ', room)) + Reversed(buf[..len0])
        + (if flags.left then Repeat(' ', room) else "")
  {
    hide Repeat;
    out := "";
    if !flags.left && !flags.zeropad {
      out := SpacesFrom(len0, width);
    }
    ghost var front := out;
    var len: nat := len0;
    while len != 0
      invariant 0 <= len <= len0 && out == front + Reversed(buf[len..len0])
    {
      len := len - 1;
      assert buf[len..len0][1..] == buf[len + 1..len0];
      out := out + [buf[len]];
    }
    assert buf[0..len0] == buf[..len0];
    if flags.left {
      var spaces := SpacesFrom(len0, width);
      out := out + spaces;
    }
  }
}
