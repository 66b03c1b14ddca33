/** Printing numbers (printnum of lib/printfmt.c) and reading them back (strtol
    of lib/string.c). */
module Numbers {
  import opened Dyadic
  import opened Words

  /** Where putch puts its characters. */
  class Sink {
    var out: string

    constructor ()
      ensures out == ""
    {
      out := "";
    }

    method Putch(c: char)
      modifies this
      ensures out == old(out) + [c]
    {
      out := out + [c];
    }
  }

  function Digit(d: nat): char
    requires d < 16
  {
    "0123456789abcdef"[d]
  }

  lemma TimesAtLeast(q: nat, m: nat)
    requires 2 <= m
    ensures 2 * q <= q * m
  {
    var d := m - 2;
    assert q * (2 + d) == 2 * q + q * d;
  }

  lemma QuotientLess(num: nat, base: nat)
    requires 2 <= base <= num
    ensures num / base < num
  {
    var q := num / base;
    assert num == q * base + num % base;
    TimesAtLeast(q, base);
  }

  /** A number in a base, without leading zeros. */
  function Digits(num: nat, base: nat): (s: string)
    requires 2 <= base <= 16
    ensures |s| > 0
    decreases num
  {
    if num < base then [Digit(num)]
    else
      QuotientLess(num, base);
      Digits(num / base, base) + [Digit(num % base)]
  }

  function Repeat(c: char, n: int): (s: string)
    ensures |s| == if n > 0 then n else 0
    ensures forall i :: 0 <= i < |s| ==> s[i] == c
    decreases n
  {
    if n <= 0 then "" else Repeat(c, n - 1) + [c]
  }

  /** How many pad characters a number gets; the width is an int. */
  function Pads(num: nat, base: nat, width: int): int
    requires 2 <= base <= 16
  {
    Int(width - |Digits(num, base)|)
  }

  /** A number padded on the left to a width. */
  function Padded(num: nat, base: nat, width: int, padc: char): string
    requires 2 <= base <= 16
  {
    Repeat(padc, Pads(num, base, width)) + Digits(num, base)
  }

  lemma MorePadded(num: nat, base: nat, width: int, padc: char)
    requires 2 <= base <= 16 && num >= base
    ensures num / base < num
    ensures Padded(num, base, width, padc) == Padded(num / base, base, Int(width - 1), padc) + [Digit(num % base)]
  {
    QuotientLess(num, base);
    IntAdds(width - 1, -|Digits(num / base, base)|);
  }

  lemma QuotientHalves(num: nat, base: nat)
    requires 2 <= base <= num
    ensures 2 * (num / base) <= num
  {
    TimesAtLeast(num / base, base);
    QuotientAndRest(num, base);
  }

  /** A number below 2^k has at most k digits. */
  lemma {:induction false} DigitsBound(num: nat, base: nat, k: nat)
    requires 2 <= base <= 16 && k > 0 && num < Pow2(k)
    ensures |Digits(num, base)| <= k
    decreases k
  {
    if num >= base {
      QuotientHalves(num, base);
      DigitsBound(num / base, base, k - 1);
    }
  }

  lemma Pow2Doubles(k: nat, j: nat, p: nat)
    requires Pow2(k) == p && j == k + k
    ensures Pow2(j) == p * p
  {
    Pow2Add(k, k);
  }

  lemma WordIsPow2()
    ensures Pow2(64) == WORD
  {
    assert Pow2(8) == 0x100;
    hide Pow2;
    Pow2Doubles(8, 16, 0x100);
    Pow2Doubles(16, 32, 0x1_0000);
    Pow2Doubles(32, 64, 0x1_0000_0000);
  }

  /** A number is printed as wide as asked, or as wide as it is if that is more,
      unless the width is so far below zero that an int wraps round. */
  lemma PaddedLength(num: nat, base: nat, width: int, padc: char)
    requires 2 <= base <= 16 && num < WORD && -(INT / 2) <= width < INT / 2
    ensures var n := |Digits(num, base)|;
            |Padded(num, base, width, padc)| == (if width > n then width else n) <==> width - n >= -(INT / 2)
  {
    hide Digits;
    WordIsPow2();
    DigitsBound(num, base, 64);
  }

  /** while (--width > 0) putch(padc) */
  method Pad(sink: Sink, width: int, padc: char)
    modifies sink
    ensures sink.out == old(sink.out) + Repeat(padc, Int(width - 1))
  {
    ghost var n := Int(width - 1);
    var w := Int(width - 1);
    while w > 0
      invariant w <= n && (w >= 0 || w == n)
      invariant sink.out == old(sink.out) + Repeat(padc, n - w)
      decreases w
    {
      sink.Putch(padc);
      w := w - 1;
    }
  }

  lemma SmallRest(num: nat, base: nat)
    requires num < base
    ensures num % base == num
  {
  }

  function Power(base: int, k: nat): int {
    if k == 0 then 1 else base * Power(base, k - 1)
  }

  /** The number that digits with these weights stand for. */
  function Positional(ws: seq<nat>, base: int): int {
    if ws == [] then 0 else ws[0] * Power(base, |ws| - 1) + Positional(ws[1..], base)
  }

  /** ds is the number in lower-case digits, without leading zeros. */
  ghost predicate Numeral(ds: string, ws: seq<nat>, num: nat, base: nat) {
    && |ds| == |ws| > 0 && (|ws| > 1 ==> ws[0] != 0) && Positional(ws, base) == num
    && forall i :: 0 <= i < |ws| ==> ws[i] < base && ws[i] < 16 && ds[i] == "0123456789abcdef"[ws[i]]
  }

  lemma Horner2(w: int, p: int, q: int, base: int)
    ensures w * (base * p) + q * base == (w * p + q) * base
  {
  }

  lemma {:induction false} PositionalAppend(ws: seq<nat>, w: nat, base: int)
    ensures Positional(ws + [w], base) == Positional(ws, base) * base + w
    decreases ws
  {
    if ws == [] {
      assert [w][1..] == [];
    } else {
      assert (ws + [w])[1..] == ws[1..] + [w];
      PositionalAppend(ws[1..], w, base);
      Horner2(ws[0], Power(base, |ws| - 1), Positional(ws[1..], base), base);
    }
  }

  lemma NumeralOne(w: nat, base: nat)
    requires w < base <= 16
    ensures Numeral([Digit(w)], [w], w, base)
  {
    assert [w][1..] == [];
  }

  lemma NumeralMore(ds: string, ws: seq<nat>, q: nat, w: nat, base: nat, num: nat)
    requires Numeral(ds, ws, q, base) && ws[0] > 0 && w < base <= 16 && num == q * base + w
    ensures Numeral(ds + [Digit(w)], ws + [w], num, base)
  {
    hide Positional;
    PositionalAppend(ws, w, base);
  }

  lemma {:induction false} DigitsAreNumeral(num: nat, base: nat) returns (ws: seq<nat>)
    requires 2 <= base <= 16
    ensures Numeral(Digits(num, base), ws, num, base) && (num > 0 ==> ws[0] > 0)
    decreases num
  {
    if num < base {
      ws := [num];
      NumeralOne(num, base);
    } else {
      QuotientLess(num, base);
      QuotientAndRest(num, base);
      var us := DigitsAreNumeral(num / base, base);
      ws := us + [num % base];
      hide Positional;
      NumeralMore(Digits(num / base, base), us, num / base, num % base, base, num);
    }
  }

  lemma PaddedIs(num: nat, base: nat, width: int, padc: char)
    requires 2 <= base <= 16
    ensures exists ds: string, ws: seq<nat> ::
              Numeral(ds, ws, num, base) && Padded(num, base, width, padc) == Repeat(padc, Int(width - |ds|)) + ds
  {
    hide Numeral, Digits, Repeat, Int;
    var ws := DigitsAreNumeral(num, base);
    assert Numeral(Digits(num, base), ws, num, base);
  }

  lemma LastPadded(num: nat, base: nat, width: int, padc: char)
    requires 2 <= base <= 16 && num < base
    ensures Padded(num, base, width, padc) == Repeat(padc, Int(width - 1)) + [Digit(num % base)]
  {
    SmallRest(num, base);
  }

  /** Prints the more significant digits first; the innermost call pads. */
  method PrintNum(sink: Sink, num: nat, base: nat, width: int, padc: char)
    requires 2 <= base <= 16
    modifies sink
    ensures sink.out == old(sink.out) + Padded(num, base, width, padc)
    ensures exists ds: string, ws: seq<nat> ::
              Numeral(ds, ws, num, base) && sink.out == old(sink.out) + (Repeat(padc, Int(width - |ds|)) + ds)
    decreases num
  {
    hide Numeral, Padded, Digits, Int, Repeat;
    PaddedIs(num, base, width, padc);
    if num >= base {
      MorePadded(num, base, width, padc);
      PrintNum(sink, num / base, base, Int(width - 1), padc);
    } else {
      LastPadded(num, base, width, padc);
      Pad(sink, width, padc);
    }
    sink.Putch("0123456789abcdef"[num % base]);
  }

  // ----- strtol -----

  /** s is a C string, its terminator included. */
  ghost predicate Terminated(s: string) {
    |s| > 0 && s[|s| - 1] == '\0' && forall i :: 0 <= i < |s| - 1 ==> s[i] != '\0'
  }

  /** The value of a digit or letter, or -1. */
  function DigitValue(c: char): int {
    if '0' <= c <= '9' then c as int - '0' as int
    else if 'a' <= c <= 'z' then c as int - 'a' as int + 10
    else if 'A' <= c <= 'Z' then c as int - 'A' as int + 10
    else -1
  }

  predicate IsDigit(c: char, base: int) {
    0 <= DigitValue(c) < base
  }

  /** The first position from i on that holds no blank. */
  function SkipBlanks(s: string, i: nat): nat
    decreases |s| - i
  {
    if i < |s| && (s[i] == ' ' || s[i] == '\t') then SkipBlanks(s, i + 1) else i
  }

  /** The first position from i on that holds no digit. */
  function SkipDigits(s: string, i: nat, base: int): nat
    decreases |s| - i
  {
    if i < |s| && IsDigit(s[i], base) then SkipDigits(s, i + 1, base) else i
  }

  /** The value of a digit string that goes on from val. */
  function Value(ds: string, base: int, val: int): int {
    if ds == "" then val else Value(ds[1..], base, val * base + DigitValue(ds[0]))
  }

  /** The base, and where the digits start, after an optional prefix. */
  function Prefix(s: string, i: nat, base: int): (int, nat) {
    if (base == 0 || base == 16) && i + 1 < |s| && s[i] == '0' && s[i + 1] == 'x' then (16, i + 2)
    else if base == 0 && i < |s| && s[i] == '0' then (8, i + 1)
    else if base == 0 then (10, i)
    else (base, i)
  }

  /** What strtol returns, where it leaves endptr, and whether every value on
      the way fitted a long. */
  datatype Reading = Reading(val: int, end: nat, fits: bool)

  /** After blanks: where a sign ends, and whether it is '-'. */
  function Sign(s: string): (nat, bool) {
    var i := SkipBlanks(s, 0);
    (if i < |s| && (s[i] == '+' || s[i] == '-') then i + 1 else i, i < |s| && s[i] == '-')
  }

  function Parsed(s: string, base: int): Reading {
    var (j, neg) := Sign(s);
    var (b, k) := Prefix(s, j, base);
    var end := SkipDigits(s, k, b);
    var v := if k <= end <= |s| then Value(s[k..end], b, 0) else 0;
    Reading(Long(if neg then -v else v), end, v < WORD / 2)
  }

  method ReadSign(s: string) returns (i: nat, neg: bool)
    requires Terminated(s)
    ensures i < |s| && (i, neg) == Sign(s)
  {
    i, neg := 0, false;
    while s[i] == ' ' || s[i] == '\t'
      invariant i < |s| && SkipBlanks(s, i) == SkipBlanks(s, 0)
      decreases |s| - i
    {
      i := i + 1;
    }
    if s[i] == '+' {
      i := i + 1;
    } else if s[i] == '-' {
      i := i + 1;
      neg := true;
    }
  }

  method ReadPrefix(s: string, start: nat, base: int) returns (b: int, i: nat)
    requires Terminated(s) && start < |s|
    ensures i < |s| && (b, i) == Prefix(s, start, base)
  {
    b, i := base, start;
    if (base == 0 || base == 16) && s[i] == '0' && s[i + 1] == 'x' {
      i := i + 2;
      b := 16;
    } else if base == 0 && s[i] == '0' {
      i := i + 1;
      b := 8;
    } else if base == 0 {
      b := 10;
    }
  }

  lemma {:induction false} ValueAppend(a: string, b: string, base: int, val: int)
    ensures Value(a + b, base, val) == Value(b, base, Value(a, base, val))
    decreases a
  {
    if a == "" {
      assert a + b == b;
    } else {
      assert (a + b)[1..] == a[1..] + b;
      ValueAppend(a[1..], b, base, val * base + DigitValue(a[0]));
    }
  }

  lemma ValueOne(c: char, base: int, val: int)
    ensures Value([c], base, val) == val * base + DigitValue(c)
  {
    assert [c][1..] == "";
  }

  lemma NoLess(v: nat, base: int)
    requires base > 0
    ensures v * base >= v
  {
  }

  /** The digit loop of strtol. */
  method ReadDigits(s: string, k: nat, base: int) returns (val: int, i: nat, ghost fits: bool)
    requires Terminated(s) && k < |s|
    ensures k <= i < |s| && i == SkipDigits(s, k, base) && val == Long(Value(s[k..i], base, 0))
    ensures fits <==> Value(s[k..i], base, 0) < WORD / 2
  {
    i, val, fits := k, 0, true;
    while true
      invariant k <= i < |s| && SkipDigits(s, i, base) == SkipDigits(s, k, base)
      invariant 0 <= Value(s[k..i], base, 0) && val == Long(Value(s[k..i], base, 0))
      invariant fits <==> Value(s[k..i], base, 0) < WORD / 2
      decreases |s| - i
    {
      var dig;
      if '0' <= s[i] <= '9' {
        dig := s[i] as int - '0' as int;
      } else if 'a' <= s[i] <= 'z' {
        dig := s[i] as int - 'a' as int + 10;
      } else if 'A' <= s[i] <= 'Z' {
        dig := s[i] as int - 'A' as int + 10;
      } else {
        break;
      }
      if dig >= base {
        break;
      }
      ghost var v := Value(s[k..i], base, 0);
      ValueAppend(s[k..i], [s[i]], base, 0);
      ValueOne(s[i], base, v);
      assert s[k..i + 1] == s[k..i] + [s[i]];
      LongGrows(v, base, dig);
      NoLess(v, base);
      fits := fits && val * base + dig < WORD / 2;
      i, val := i + 1, Long(val * base + dig);
    }
  }

  /** Overflow is not detected: the long wraps round. */
  method Strtol(s: string, base: int) returns (val: int, endptr: nat, ghost fits: bool)
    requires Terminated(s)
    ensures Reading(val, endptr, fits) == Parsed(s, base)
    ensures endptr < |s| && -(WORD / 2) <= val < WORD / 2
  {
    hide Value, SkipDigits, IsDigit, Sign, Prefix, Terminated;
    var i, neg := ReadSign(s);
    var b;
    b, i := ReadPrefix(s, i, base);
    val, endptr, fits := ReadDigits(s, i, b);
    LongGrows(Value(s[i..endptr], b, 0), -1, 0);
    val := if neg then Long(-val) else val;
  }

  // ----- printing and reading back -----

  lemma DigitRoundTrip(d: nat, base: nat)
    requires d < base <= 16
    ensures IsDigit(Digit(d), base) && DigitValue(Digit(d)) == d && Digit(d) != 'x'
  {
  }

  lemma {:induction false} DigitsAreDigits(num: nat, base: nat, i: nat)
    requires 2 <= base <= 16 && i < |Digits(num, base)|
    ensures var c := Digits(num, base)[i];
            IsDigit(c, base) && c != 'x' && c != ' ' && c != '-' && c != '+' && c != '\t' && c != '\0'
    decreases num
  {
    DigitRoundTrip(num % base, base);
    if num >= base {
      QuotientLess(num, base);
      if i < |Digits(num / base, base)| {
        DigitsAreDigits(num / base, base, i);
      }
    } else {
      SmallRest(num, base);
    }
  }

  lemma {:induction false} DigitsValue(num: nat, base: nat)
    requires 2 <= base <= 16
    ensures Value(Digits(num, base), base, 0) == num
    decreases num
  {
    DigitRoundTrip(num % base, base);
    if num >= base {
      QuotientLess(num, base);
      DigitsValue(num / base, base);
      ValueAppend(Digits(num / base, base), [Digit(num % base)], base, 0);
      ValueOne(Digit(num % base), base, num / base);
      QuotientAndRest(num, base);
    } else {
      SmallRest(num, base);
    }
  }

  lemma {:induction false} ZerosValue(n: int, base: int)
    ensures Value(Repeat('0', n), base, 0) == 0
    decreases n
  {
    if n > 0 {
      ZerosValue(n - 1, base);
      ValueAppend(Repeat('0', n - 1), "0", base, 0);
    }
  }

  lemma {:induction false} SkipDigitsTo(s: string, i: nat, j: nat, base: int)
    requires i <= j < |s| && !IsDigit(s[j], base)
    requires forall k :: i <= k < j ==> IsDigit(s[k], base)
    ensures SkipDigits(s, i, base) == j
    decreases j - i
  {
    if i < j {
      SkipDigitsTo(s, i + 1, j, base);
    }
  }

  lemma {:induction false} DigitsEnd(s: string, i: nat, base: int)
    requires i <= |s|
    ensures i <= SkipDigits(s, i, base) <= |s|
    ensures forall j :: i <= j < SkipDigits(s, i, base) ==> IsDigit(s[j], base)
    decreases |s| - i
  {
    if i < |s| && IsDigit(s[i], base) {
      DigitsEnd(s, i + 1, base);
    }
  }

  lemma {:induction false} SkipBlanksTo(s: string, i: nat, j: nat)
    requires i <= j < |s| && s[j] != ' ' && s[j] != '\t'
    requires forall k :: i <= k < j ==> s[k] == ' ' || s[k] == '\t'
    ensures SkipBlanks(s, i) == j
    decreases j - i
  {
    if i < j {
      SkipBlanksTo(s, i + 1, j);
    }
  }

  /** Reads a text made of blanks, an optional sign, zeros and digits. */
  lemma ReadsDigits(s: string, k: nat, num: nat, base: nat, zeros: int)
    requires 2 <= base <= 16 && k <= |s|
    requires s[k..] == Repeat('0', zeros) + Digits(num, base) + "\0"
    ensures SkipDigits(s, k, base) == |s| - 1 && Value(s[k..|s| - 1], base, 0) == num
  {
    var z, d := Repeat('0', zeros), Digits(num, base);
    var end := |s| - 1;
    forall i | k <= i < end ensures IsDigit(s[i], base) {
      assert s[i] == s[k..][i - k];
      if i - k >= |z| {
        DigitsAreDigits(num, base, i - k - |z|);
      }
    }
    assert s[end] == s[k..][end - k];
    SkipDigitsTo(s, k, end, base);
    assert s[k..end] == z + d by {
      assert s[k..end] == s[k..][..end - k];
    }
    ValueAppend(z, d, base, 0);
    ZerosValue(zeros, base);
    DigitsValue(num, base);
  }

  lemma {:induction false} ValueGrows(ds: string, base: nat, val: nat)
    requires base > 0 && forall i :: 0 <= i < |ds| ==> IsDigit(ds[i], base)
    ensures Value(ds, base, val) >= val
    decreases ds
  {
    if ds != "" {
      assert IsDigit(ds[0], base) && val * base >= val;
      ValueGrows(ds[1..], base, val * base + DigitValue(ds[0]));
    }
  }

  /** What strtol has read so far never exceeds the number, so that a number
      below 2^63 does not overflow a long on the way. */
  lemma PartialValues(s: string, k: nat, i: nat, num: nat, base: nat, zeros: int)
    requires 2 <= base <= 16 && k <= i < |s|
    requires s[k..] == Repeat('0', zeros) + Digits(num, base) + "\0"
    ensures 0 <= Value(s[k..i], base, 0) <= num
  {
    var end := |s| - 1;
    ReadsDigits(s, k, num, base, zeros);
    DigitsEnd(s, k, base);
    ValueGrows(s[k..i], base, 0);
    ValueGrows(s[i..end], base, Value(s[k..i], base, 0));
    ValueAppend(s[k..i], s[i..end], base, 0);
    assert s[k..end] == s[k..i] + s[i..end];
  }

  lemma NoPrefix(s: string, k: nat, num: nat, base: nat, zeros: int)
    requires 2 <= base <= 16 && k <= |s|
    requires s[k..] == Repeat('0', zeros) + Digits(num, base) + "\0"
    ensures Prefix(s, k, base) == (base, k)
    ensures k < |s| && s[k] != '-' && s[k] != '+' && s[k] != ' ' && s[k] != '\t'
  {
    var z, d := Repeat('0', zeros), Digits(num, base);
    assert s[k] == s[k..][0];
    if |z| == 0 {
      DigitsAreDigits(num, base, 0);
    }
    if k + 1 < |s| {
      assert s[k + 1] == s[k..][1];
      if |z| <= 1 && 1 - |z| < |d| {
        DigitsAreDigits(num, base, 1 - |z|);
      }
    }
  }

  function Signed(neg: bool, num: nat): int {
    if neg then 0 - num else num
  }

  lemma ParsedIs(s: string, given: int, j: nat, neg: bool, base: int, k: nat, end: nat, v: int)
    requires Sign(s) == (j, neg) && Prefix(s, j, given) == (base, k)
    requires k <= end <= |s| && SkipDigits(s, k, base) == end && Value(s[k..end], base, 0) == v
    ensures Parsed(s, given) == Reading(Long(if neg then -v else v), end, v < WORD / 2)
  {
  }

  /** A text of zeros and digits, from where its sign has been read. */
  lemma ReadsFrom(s: string, k: nat, num: nat, base: nat, zeros: int, neg: bool)
    requires 2 <= base <= 16 && k <= |s|
    requires s[k..] == Repeat('0', zeros) + Digits(num, base) + "\0"
    requires SkipBlanks(s, 0) == if neg then k - 1 else k
    requires neg ==> k > 0 && s[k - 1] == '-'
    ensures Parsed(s, base) == Reading(Long(Signed(neg, num)), |s| - 1, num < WORD / 2)
  {
    hide Parsed, Prefix, Digits, Repeat, Value, SkipDigits;
    NoPrefix(s, k, num, base, zeros);
    assert Sign(s) == (k, neg);
    hide Sign;
    ReadsDigits(s, k, num, base, zeros);
    ParsedIs(s, base, k, neg, base, k, |s| - 1, num);
  }

  /** A text with a sign before something that is neither digit nor prefix. */
  lemma StopsAtOnce(s: string, base: int)
    requires |s| >= 2 && s[0] == '-' && !IsDigit(s[1], base) && s[1] != '0' && base > 0
    ensures Parsed(s, base) == Reading(0, 1, true)
  {
  }

  ghost predicate PadChar(c: char) {
    c == ' ' || c == '0' || c == '-'
  }

  /** Whether strtol reads on to the end of a printed number: after a sign or 0x
      only zeros may stand before the digits; else all but '-', of which one is
      read as a sign and does no harm to 0. */
  predicate Legible(num: nat, base: nat, prefixed: bool, padc: char, width: int)
    requires 2 <= base <= 16
  {
    var n := Pads(num, base, width);
    n <= 0 || padc == '0' || (!prefixed && (padc == ' ' || (n == 1 && num == 0)))
  }

  /** When strtol finds a printed number again, without overflow. */
  predicate ReadsBack(num: nat, base: nat, prefixed: bool, padc: char, width: int)
    requires 2 <= base <= 16
  {
    num < WORD / 2 && Legible(num, base, prefixed, padc, width)
  }

  /** What printnum prints, strtol reads back in full, but for the '-' flag: its
      padding is read as a sign. A number from 2^63 on overflows the long, and
      comes back as the long with the same bits. */
  lemma PrintThenParse(num: nat, base: nat, width: int, padc: char)
    requires 2 <= base <= 16 && PadChar(padc)
    ensures var s := Padded(num, base, width, padc);
            && (Parsed(s + "\0", base) == Reading(num, |s|, true) <==> ReadsBack(num, base, false, padc, width))
            && (Legible(num, base, false, padc, width) ==>
                  Parsed(s + "\0", base) == Reading(Long(num), |s|, num < WORD / 2))
  {
    var d, n := Digits(num, base), Pads(num, base, width);
    var pads := Repeat(padc, n);
    var s := pads + d + "\0";
    DigitsAreDigits(num, base, 0);
    if padc == ' ' {
      SkipBlanksTo(s, 0, |pads|);
      assert s[|pads|..] == Repeat('0', 0) + d + "\0";
      ReadsFrom(s, |pads|, num, base, 0, false);
    } else if padc == '0' {
      assert s[0..] == s;
      ReadsFrom(s, 0, num, base, n, false);
    } else if |pads| == 0 {
      assert s[0..] == Repeat('0', 0) + d + "\0";
      ReadsFrom(s, 0, num, base, 0, false);
    } else if |pads| == 1 {
      assert s[1..] == Repeat('0', 0) + d + "\0";
      ReadsFrom(s, 1, num, base, 0, true);
    } else {
      StopsAtOnce(s, base);
    }
  }

  /** %d of a negative number: strtol finds the number again unless padding
      other than zeros separates it from its sign, or its magnitude overflows. */
  lemma PrintThenParseNegative(num: nat, width: int, padc: char)
    requires PadChar(padc)
    ensures var s := "-" + Padded(num, 10, width, padc);
            && (Parsed(s + "\0", 10) == Reading(0 - num, |s|, true) <==> ReadsBack(num, 10, true, padc, width))
            && (Legible(num, 10, true, padc, width) ==>
                  Parsed(s + "\0", 10) == Reading(Long(0 - num), |s|, num < WORD / 2))
  {
    var d, n := Digits(num, 10), Pads(num, 10, width);
    var s := "-" + Padded(num, 10, width, padc) + "\0";
    DigitsAreDigits(num, 10, 0);
    if padc == '0' {
      assert s[1..] == Repeat('0', n) + d + "\0";
      ReadsFrom(s, 1, num, 10, n, true);
    } else if n <= 0 {
      assert s[1..] == Repeat('0', 0) + d + "\0";
      ReadsFrom(s, 1, num, 10, 0, true);
    } else {
      assert s[1] == padc;
      StopsAtOnce(s, 10);
    }
  }

  lemma ReadsHex(s: string)
    requires |s| >= 3 && s[0] == '0' && s[1] == 'x'
    ensures var end := SkipDigits(s, 2, 16);
            2 <= end <= |s| ==>
              var v := Value(s[2..end], 16, 0); Parsed(s, 0) == Reading(Long(v), end, v < WORD / 2)
  {
    assert SkipBlanks(s, 0) == 0;
  }

  /** %p: strtol with base 0 takes the prefix off, and finds the number again
      unless padding other than zeros follows the prefix, or it overflows; then
      the long has the bits of the address. */
  lemma PrintThenParsePointer(num: nat, width: int, padc: char)
    requires PadChar(padc)
    ensures var s := "0x" + Padded(num, 16, width, padc);
            && (Parsed(s + "\0", 0) == Reading(num, |s|, true) <==> ReadsBack(num, 16, true, padc, width))
            && (Legible(num, 16, true, padc, width) ==>
                  Parsed(s + "\0", 0) == Reading(Long(num), |s|, num < WORD / 2))
  {
    var d, n := Digits(num, 16), Pads(num, 16, width);
    var s := "0x" + Padded(num, 16, width, padc) + "\0";
    DigitsAreDigits(num, 16, 0);
    ReadsHex(s);
    hide Parsed, Digits, Value;
    if padc == '0' {
      assert s[2..] == Repeat('0', n) + d + "\0";
      ReadsDigits(s, 2, num, 16, n);
    } else if n <= 0 {
      assert s[2..] == Repeat('0', 0) + d + "\0";
      ReadsDigits(s, 2, num, 16, 0);
    } else {
      assert s[2] == padc && SkipDigits(s, 2, 16) == 2;
    }
  }

  lemma {:induction false} FirstDigit(num: nat, base: nat)
    requires 2 <= base <= 10 && num > 0
    ensures '1' <= Digits(num, base)[0] <= '9'
    decreases num
  {
    if num >= base {
      QuotientLess(num, base);
      assert num / base > 0;
      FirstDigit(num / base, base);
    }
  }

  // ----- every text that strtol may be given -----

  /** c is the digit of weight w, in either case. */
  predicate Weight(c: char, w: nat) {
    w < 36 && (c == "0123456789abcdefghijklmnopqrstuvwxyz"[w] || c == "0123456789ABCDEFGHIJKLMNOPQRSTUVWXYZ"[w])
  }

  lemma LowerIs(w: nat)
    requires w < 36
    ensures var c := "0123456789abcdefghijklmnopqrstuvwxyz"[w];
            DigitValue(c) == w && ('0' <= c <= '9' || 'a' <= c <= 'z')
  {
  }

  lemma UpperIs(w: nat)
    requires w < 36
    ensures var c := "0123456789ABCDEFGHIJKLMNOPQRSTUVWXYZ"[w];
            DigitValue(c) == w && ('0' <= c <= '9' || 'A' <= c <= 'Z')
  {
  }

  lemma SameValue(c: char, lower: char, upper: char)
    requires DigitValue(c) == DigitValue(lower) == DigitValue(upper) >= 0
    requires ('0' <= lower <= '9' || 'a' <= lower <= 'z') && ('0' <= upper <= '9' || 'A' <= upper <= 'Z')
    ensures c == lower || c == upper
  {
  }

  /** A digit has its weight, and what has a weight is such a digit. */
  lemma WeightIs(c: char, w: nat)
    ensures Weight(c, w) <==> DigitValue(c) == w
  {
    if w < 36 {
      LowerIs(w);
      UpperIs(w);
      var lower, upper := "0123456789abcdefghijklmnopqrstuvwxyz"[w], "0123456789ABCDEFGHIJKLMNOPQRSTUVWXYZ"[w];
      if DigitValue(c) == w {
        SameValue(c, lower, upper);
      }
    }
  }

  /** ds are digits of a base up to 36 with the weights ws. */
  ghost predicate Weighs(ds: string, ws: seq<nat>, base: int) {
    |ds| == |ws| && forall i :: 0 <= i < |ws| ==> ws[i] < base && Weight(ds[i], ws[i])
  }

  lemma Horner(val: int, base: int, w: int, p: int)
    ensures (val * base + w) * p == val * (base * p) + w * p
  {
  }

  lemma {:induction false} ValueIsPositional(ds: string, ws: seq<nat>, base: int, val: int)
    requires Weighs(ds, ws, base)
    ensures Value(ds, base, val) == val * Power(base, |ws|) + Positional(ws, base)
    decreases ds
  {
    hide Weight, DigitValue;
    if ds != "" {
      WeightIs(ds[0], ws[0]);
      ValueIsPositional(ds[1..], ws[1..], base, val * base + ws[0]);
      Horner(val, base, ws[0], Power(base, |ws| - 1));
    }
  }

  /** How the base given and the text after the sign settle the base: a prefix
      of 0x, of 0, or none. */
  ghost predicate Settles(given: int, prefix: string, base: int, rest: string) {
    || (prefix == "0x" && (given == 0 || given == 16) && base == 16)
    || (prefix == "0" && given == 0 && base == 8 && (rest == "" || rest[0] != 'x'))
    || (prefix == "" && given == 0 && base == 10 && (rest == "" || rest[0] != '0'))
    || (prefix == "" && given != 0 && base == given && !(given == 16 && |rest| > 1 && rest[0] == '0' && rest[1] == 'x'))
  }

  ghost predicate Blanks(s: string) {
    forall i :: 0 <= i < |s| ==> s[i] == ' ' || s[i] == '\t'
  }

  /** A text taken apart: blanks, a sign, a prefix, digits, and what stops them. */
  ghost predicate Splits(s: string, blanks: string, sign: string, prefix: string, ds: string, tail: string) {
    && s == blanks + (sign + (prefix + (ds + tail))) && Blanks(blanks)
    && (sign == "" || sign == "+" || sign == "-") && tail != ""
    && (sign == prefix == ds == "" ==> tail[0] != ' ' && tail[0] != '\t' && tail[0] != '+' && tail[0] != '-')
  }

  lemma SplitsSign(s: string, blanks: string, sign: string, prefix: string, ds: string, tail: string,
                   given: int, base: int, j: nat)
    requires Splits(s, blanks, sign, prefix, ds, tail) && Settles(given, prefix, base, ds + tail)
    requires forall i :: 0 <= i < |ds| ==> IsDigit(ds[i], base)
    requires j == |blanks| + |sign|
    ensures Sign(s) == (j, sign == "-")
  {
    assert prefix == "" || prefix == "0" || prefix == "0x";
    hide Settles;
    var rest := sign + (prefix + (ds + tail));
    var n := |blanks|;
    assert s[n] == rest[0];
    assert rest[0] == if sign != "" then sign[0] else if prefix != "" then '0' else if ds != "" then ds[0] else tail[0];
    assert forall i :: 0 <= i < n ==> s[i] == blanks[i];
    SkipBlanksTo(s, 0, n);
  }

  lemma PrefixInPlace(s: string, before: string, prefix: string, rest: string, given: int, base: int)
    requires s == before + (prefix + rest) && Settles(given, prefix, base, rest)
    requires rest != ""
    ensures Prefix(s, |before|, given) == (base, |before| + |prefix|)
  {
    var j := |before|;
    var t := prefix + rest;
    assert forall i :: 0 <= i < |t| ==> s[j + i] == t[i];
    assert t[0] == if prefix == "" then rest[0] else '0';
    if |t| > 1 {
      assert t[1] == if prefix == "0x" then 'x' else if prefix == "0" then rest[0] else rest[1];
      assert s[j + 1] == t[1];
    }
    assert s[j] == t[0];
  }

  lemma SplitsPrefix(s: string, blanks: string, sign: string, prefix: string, ds: string, tail: string,
                     given: int, base: int, j: nat, k: nat)
    requires Splits(s, blanks, sign, prefix, ds, tail) && Settles(given, prefix, base, ds + tail)
    requires j == |blanks| + |sign| && k == j + |prefix|
    ensures Prefix(s, j, given) == (base, k)
  {
    var rest := ds + tail;
    hide Settles, Prefix;
    assert s == (blanks + sign) + (prefix + rest);
    PrefixInPlace(s, blanks + sign, prefix, rest, given, base);
  }

  lemma DigitsInPlace(s: string, before: string, ds: string, tail: string, k: nat, end: nat, base: int)
    requires s == before + (ds + tail) && k == |before| && end == |before| + |ds| && tail != ""
    requires !IsDigit(tail[0], base) && forall i :: 0 <= i < |ds| ==> IsDigit(ds[i], base)
    ensures s[k..end] == ds && SkipDigits(s, k, base) == end
  {
    assert s[k..end] == ds && s[end] == tail[0];
    forall i | k <= i < end ensures IsDigit(s[i], base) {
      assert s[i] == s[k..end][i - k];
    }
    SkipDigitsTo(s, k, end, base);
  }

  lemma SplitsDigits(s: string, blanks: string, sign: string, prefix: string, ds: string, tail: string, base: int,
                     k: nat, end: nat)
    requires Splits(s, blanks, sign, prefix, ds, tail)
    requires !IsDigit(tail[0], base) && forall i :: 0 <= i < |ds| ==> IsDigit(ds[i], base)
    requires k == |blanks| + |sign| + |prefix| && end == k + |ds|
    ensures end == |s| - |tail| && s[k..end] == ds && SkipDigits(s, k, base) == end
  {
    hide IsDigit, SkipDigits;
    assert s == (blanks + sign + prefix) + (ds + tail);
    DigitsInPlace(s, blanks + sign + prefix, ds, tail, k, end, base);
  }

  lemma ReadsText(s: string, blanks: string, sign: string, prefix: string, ds: string, tail: string,
                  given: int, base: int)
    requires Splits(s, blanks, sign, prefix, ds, tail) && Settles(given, prefix, base, ds + tail)
    requires !IsDigit(tail[0], base) && forall i :: 0 <= i < |ds| ==> IsDigit(ds[i], base)
    ensures var v := Value(ds, base, 0);
            Parsed(s, given) == Reading(Long(if sign == "-" then -v else v), |s| - |tail|, v < WORD / 2)
  {
    hide IsDigit, Parsed, Sign, Prefix, Value, SkipDigits, Splits, Settles, Long;
    var j := |blanks| + |sign|;
    var k := j + |prefix|;
    var end := k + |ds|;
    SplitsSign(s, blanks, sign, prefix, ds, tail, given, base, j);
    SplitsPrefix(s, blanks, sign, prefix, ds, tail, given, base, j, k);
    SplitsDigits(s, blanks, sign, prefix, ds, tail, base, k, end);
    ParsedIs(s, given, j, sign == "-", base, k, end, Value(ds, base, 0));
  }

  /** c is no digit of the base. */
  ghost predicate Stops(c: char, base: int) {
    forall w: nat :: Weight(c, w) ==> w >= base
  }

  lemma StopsIff(c: char, base: int)
    ensures Stops(c, base) <==> !IsDigit(c, base)
  {
    hide Weight, DigitValue;
    forall w: nat ensures Weight(c, w) <==> DigitValue(c) == w {
      WeightIs(c, w);
    }
    if IsDigit(c, base) {
      assert Weight(c, DigitValue(c));
    }
  }

  lemma {:induction false} BlanksEnd(s: string, i: nat)
    requires Terminated(s) && i < |s|
    ensures var j := SkipBlanks(s, i);
            i <= j < |s| && s[j] != ' ' && s[j] != '\t' && Blanks(s[i..j])
    decreases |s| - i
  {
    if s[i] == ' ' || s[i] == '\t' {
      BlanksEnd(s, i + 1);
      var j := SkipBlanks(s, i + 1);
      assert s[i..j] == [s[i]] + s[i + 1..j];
    }
  }

  lemma {:induction false} WeightsOf(ds: string, base: int) returns (ws: seq<nat>)
    requires forall i :: 0 <= i < |ds| ==> IsDigit(ds[i], base)
    ensures Weighs(ds, ws, base)
    decreases ds
  {
    hide Weight;
    if ds == "" {
      ws := [];
    } else {
      var us := WeightsOf(ds[1..], base);
      assert IsDigit(ds[0], base);
      ws := [DigitValue(ds[0])] + us;
      WeightIs(ds[0], ws[0]);
      forall i | 0 <= i < |ws| ensures ws[i] < base && Weight(ds[i], ws[i]) {
        assert i > 0 ==> ds[i] == ds[1..][i - 1] && ws[i] == us[i - 1];
      }
    }
  }

  lemma Pieces(s: string, i: nat, j: nat, k: nat, end: nat)
    requires i <= j <= k <= end < |s|
    ensures s == s[..i] + (s[i..j] + (s[j..k] + (s[k..end] + s[end..]))) && s[k..end] + s[end..] == s[k..]
  {
    assert s[k..end] + s[end..] == s[k..];
    assert s[j..k] + s[k..] == s[j..];
    assert s[i..j] + s[j..] == s[i..];
  }

  lemma {:induction false} SkippedStops(s: string, i: nat, base: int)
    ensures var j := SkipDigits(s, i, base); j < |s| ==> !IsDigit(s[j], base)
    decreases |s| - i
  {
    if i < |s| && IsDigit(s[i], base) {
      SkippedStops(s, i + 1, base);
    }
  }

  lemma PrefixSettles(s: string, j: nat, given: int, base: int, k: nat)
    requires Terminated(s) && j < |s| && Prefix(s, j, given) == (base, k)
    ensures j <= k < |s| && Settles(given, s[j..k], base, s[k..])
  {
  }

  lemma SignedAt(s: string, i: nat, j: nat, k: nat, end: nat)
    requires i <= j <= k <= end < |s| && Blanks(s[..i]) && s[i] != ' ' && s[i] != '\t'
    requires j == if s[i] == '+' || s[i] == '-' then i + 1 else i
    ensures Splits(s, s[..i], s[i..j], s[j..k], s[k..end], s[end..])
    ensures s[k..end] + s[end..] == s[k..] && s[end..][0] == s[end]
  {
    Pieces(s, i, j, k, end);
    assert s[i..j] == if j == i then "" else [s[i]];
  }

  lemma DigitsAt(s: string, k: nat, base: int) returns (ws: seq<nat>)
    requires Terminated(s) && k < |s|
    ensures var end := SkipDigits(s, k, base); k <= end < |s| && Weighs(s[k..end], ws, base) && Stops(s[end], base)
  {
    var end := SkipDigits(s, k, base);
    DigitsEnd(s, k, base);
    assert !IsDigit('\0', base) && end < |s|;
    SkippedStops(s, k, base);
    hide IsDigit, SkipDigits, Terminated, Stops, Weighs;
    StopsIff(s[end], base);
    forall n | 0 <= n < end - k ensures IsDigit(s[k..end][n], base) {
      assert s[k..end][n] == s[k + n];
    }
    ws := WeightsOf(s[k..end], base);
  }

  lemma SignEnds(s: string, i: nat)
    requires Terminated(s) && i < |s| && (s[i] == '+' || s[i] == '-')
    ensures i + 1 < |s|
  {
  }

  /** Every text can be taken apart like this. */
  lemma EveryTextSplits(s: string, given: int)
      returns (blanks: string, sign: string, prefix: string, ds: string, tail: string, ws: seq<nat>, base: int)
    requires Terminated(s)
    ensures Splits(s, blanks, sign, prefix, ds, tail) && Settles(given, prefix, base, ds + tail)
    ensures Weighs(ds, ws, base) && Stops(tail[0], base)
  {
    var i := SkipBlanks(s, 0);
    BlanksEnd(s, 0);
    var j := if s[i] == '+' || s[i] == '-' then i + 1 else i;
    if j > i {
      SignEnds(s, i);
    }
    var (b, k) := Prefix(s, j, given);
    hide *;
    PrefixSettles(s, j, given, b, k);
    var end := SkipDigits(s, k, b);
    ws := DigitsAt(s, k, b);
    assert s[0..i] == s[..i];
    SignedAt(s, i, j, k, end);
    blanks, sign, prefix, ds, tail, base := s[..i], s[i..j], s[j..k], s[k..end], s[end..], b;
  }

  lemma SplitsTail(s: string, blanks: string, sign: string, prefix: string, ds: string, tail: string)
    requires Splits(s, blanks, sign, prefix, ds, tail)
    ensures tail != ""
  {
  }

  /** What strtol makes of any text: the digits' number, with the sign, as far as
      a long holds it; where it stops; whether the long overflows. */
  lemma StrtolReads(s: string, blanks: string, sign: string, prefix: string, ds: string, tail: string,
                    ws: seq<nat>, given: int, base: int)
    requires Splits(s, blanks, sign, prefix, ds, tail) && Settles(given, prefix, base, ds + tail)
    requires Weighs(ds, ws, base) && Stops(tail[0], base)
    ensures var v := Positional(ws, base);
            Parsed(s, given) == Reading(Long(if sign == "-" then -v else v), |s| - |tail|, v < 0x8000_0000_0000_0000)
  {
    hide Weight, DigitValue, Splits, Settles, Parsed, Value, Positional, Stops;
    SplitsTail(s, blanks, sign, prefix, ds, tail);
    StopsIff(tail[0], base);
    forall i | 0 <= i < |ds| ensures IsDigit(ds[i], base) {
      WeightIs(ds[i], ws[i]);
    }
    ReadsText(s, blanks, sign, prefix, ds, tail, given, base);
    ValueIsPositional(ds, ws, base, 0);
  }

  /** With base 0, or 16, printed numbers are read back in their own base: as
      they are if decimal and not 0, after a 0 if octal, after 0x if hexadecimal. */
  lemma BaseFromPrefix(num: nat, base: nat, given: int)
    requires (given == 0 && (base == 8 || base == 16 || (base == 10 && num > 0))) || (given == base == 16)
    ensures var s := (if base == 8 then "0" else if base == 16 then "0x" else "") + Digits(num, base);
            Parsed(s + "\0", given) == Reading(Long(num), |s|, num < 0x8000_0000_0000_0000)
  {
    var prefix, ds := if base == 8 then "0" else if base == 16 then "0x" else "", Digits(num, base);
    var s := prefix + ds + "\0";
    forall i | 0 <= i < |ds| ensures IsDigit(ds[i], base) && ds[i] != 'x' {
      DigitsAreDigits(num, base, i);
    }
    if num > 0 && base == 10 {
      FirstDigit(num, 10);
    }
    DigitsValue(num, base);
    assert s == "" + ("" + (prefix + (ds + "\0")));
    hide Digits, Value, Parsed;
    ReadsText(s, "", "", prefix, ds, "\0", given, base);
  }

  // ----- the one text of a number -----

  lemma {:induction false} PowerPositive(base: nat, k: nat)
    requires base >= 1
    ensures Power(base, k) >= 1
  {
    if k > 0 {
      PowerPositive(base, k - 1);
      NoLess(Power(base, k - 1), base);
    }
  }

  lemma {:induction false} PositionalNat(ws: seq<nat>, base: nat)
    requires base >= 1
    ensures Positional(ws, base) >= 0
    decreases ws
  {
    if ws != [] {
      PowerPositive(base, |ws| - 1);
      PositionalNat(ws[1..], base);
    }
  }

  lemma {:induction false} PositionalBound(ws: seq<nat>, base: nat)
    requires base >= 2 && ws != [] && ws[0] > 0
    ensures Positional(ws, base) >= 1
    decreases ws
  {
    PowerPositive(base, |ws| - 1);
    PositionalNat(ws[1..], base);
    NoLess(Power(base, |ws| - 1), ws[0]);
  }

  /** There is no other text than Digits. */
  lemma {:induction false} NumeralIsDigits(ds: string, ws: seq<nat>, num: nat, base: nat)
    requires 2 <= base <= 16 && Numeral(ds, ws, num, base)
    ensures ds == Digits(num, base)
    decreases ds
  {
    var n := |ws| - 1;
    var us, w := ws[..n], ws[n];
    assert ws == us + [w];
    PositionalAppend(us, w, base);
    PositionalNat(us, base);
    var q := Positional(us, base);
    DivUnique(num, base, q, w);
    if n == 0 {
      assert num == w;
    } else {
      PositionalBound(us, base);
      NoLess(base, q);
      NumeralIsDigits(ds[..n], us, q, base);
      assert ds == ds[..n] + [ds[n]];
    }
  }

  /** A number in a base has one text, and it is what printnum puts after the pads. */
  lemma NumeralIff(ds: string, num: nat, base: nat)
    requires 2 <= base <= 16
    ensures (exists ws: seq<nat> :: Numeral(ds, ws, num, base)) <==> ds == Digits(num, base)
  {
    hide Numeral, Digits;
    if ws: seq<nat> :| Numeral(ds, ws, num, base) {
      NumeralIsDigits(ds, ws, num, base);
    }
    var ws := DigitsAreNumeral(num, base);
  }
}
