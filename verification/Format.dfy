/** The format scanner (vprintfmt of lib/printfmt.c). Its ints wrap round. */
module Format {
  import opened Words
  import opened Numbers

  /** An argument: a 64-bit number, or the address of a C string. */
  datatype Arg = Word(w: nat) | Text(w: nat, s: string) | Null

  ghost predicate Fits(a: Arg) {
    (!a.Null? ==> a.w < WORD) && (a.Text? ==> Terminated(a.s))
  }

  /** What the caller must pass: 64-bit slots and C strings. */
  ghost predicate Passable(args: seq<Arg>) {
    forall i :: 0 <= i < |args| ==> Fits(args[i])
  }

  /** What an escape sequence sets before its conversion. */
  datatype Flags = Flags(padc: char, width: int, precision: int, lflag: int, alt: bool)

  const PLAIN := Flags(' ', -1, -1, 0, false)

  /** Where the escape ends, and what it left; Missing: va_arg found nothing. */
  datatype Escape = Scanned(end: nat, flags: Flags, rest: seq<Arg>) | Missing

  /** What is printed, and which arguments are left; Stuck: va_arg found none,
      or one of another type. */
  datatype Outcome = Printed(text: string, rest: seq<Arg>) | Stuck

  function After(text: string, o: Outcome): Outcome {
    if o.Printed? then Printed(text + o.text, o.rest) else Stuck
  }

  lemma AfterTwo(a: string, b: string, o: Outcome)
    ensures After(a, After(b, o)) == After(a + b, o)
  {
    if o.Printed? {
      assert a + (b + o.text) == (a + b) + o.text;
    }
  }

  // ----- arguments -----

  function GetInt(w: nat, lflag: int): int {
    if lflag == 0 then Int(w) else Long(w)
  }

  function GetUint(w: nat, lflag: int): nat {
    if lflag == 0 then w % INT else w
  }

  // ----- conversions -----

  predicate Printable(c: char) {
    ' ' <= c <= '~'
  }

  /** A string with '?' for what cannot be printed. */
  function Masked(s: string, alt: bool): (r: string)
    ensures |r| == |s|
    ensures forall i :: 0 <= i < |s| ==> r[i] == if alt && !Printable(s[i]) then '?' else s[i]
  {
    if s == "" then "" else Masked(s[..|s| - 1], alt) + [if alt && !Printable(s[|s| - 1]) then '?' else s[|s| - 1]]
  }

  /** The part of a C string that %s prints. */
  function Cut(s: string, precision: int): string
    requires |s| > 0
  {
    if 0 <= precision < |s| then s[..precision] else s[..|s| - 1]
  }

  /** What is left of the width once %s has padded on the left, and how many
      pads that took. */
  function LeftPads(f: Flags, n: nat): (int, int) {
    if f.width > 0 && f.padc != '-' then
      var left := Int(f.width - n);
      (left, if left > 0 then 0 else left)
    else (0, f.width)
  }

  function StringField(s: string, f: Flags): (r: string)
    requires |s| > 0
  {
    var shown := Masked(Cut(s, f.precision), f.alt);
    var (left, width) := LeftPads(f, |shown|);
    Repeat(f.padc, left) + shown + Repeat(' ', Int(width - |shown|))
  }

  function Decimal(n: int, f: Flags): string {
    if n < 0 then "-" + Padded(-n, 10, f.width, f.padc) else Padded(n, 10, f.width, f.padc)
  }

  /** error_string; "" where it holds no string. */
  function ErrorString(err: int): string {
    match err
    case 1 => "Resources temporarily unavailable"
    case 2 => "No child process"
    case 4 => "Bad address"
    case 5 => "Invalid argument"
    case 6 => "Not enough space"
    case 7 => "Function not implemented"
    case 8 => "Operation not permitted"
    case _ => ""
  }

  function ErrorText(err: int): string {
    var e := if err < 0 then Int(-err) else err;
    if ErrorString(e) == "" then "error " + Decimal(e, PLAIN) else ErrorString(e)
  }

  predicate IsFlag(c: char) {
    c == '-' || '0' <= c <= '9' || c == '*' || c == '.' || c == '#' || c == 'l'
  }

  predicate IsConversion(c: char) {
    c == 'c' || c == 'e' || c == 's' || c == 'd' || c == 'u' || c == 'o' || c == 'p' || c == 'x' || c == '%'
  }

  /** The text of a conversion that takes a 64-bit slot. */
  function WordText(c: char, f: Flags, w: nat): string {
    match c
    case 'c' => [(w % 256) as char]
    case 'e' => ErrorText(Int(w))
    case 'd' => Decimal(GetInt(w, f.lflag), f)
    case 'u' => Padded(GetUint(w, f.lflag), 10, f.width, f.padc)
    case 'o' => Padded(GetUint(w, f.lflag), 8, f.width, f.padc)
    case 'p' => "0x" + Padded(w, 16, f.width, f.padc)
    case _ => Padded(GetUint(w, f.lflag), 16, f.width, f.padc)
  }

  /** The 64 bits of an argument. */
  function Slot(a: Arg): nat {
    if a.Null? then 0 else a.w
  }

  ghost function Converted(c: char, f: Flags, args: seq<Arg>): (o: Outcome)
    requires Passable(args)
    ensures o.Printed? ==> Passable(o.rest)
  {
    if c == '%' then Printed("%", args)
    else if args == [] then Stuck
    else if c == 's' then
      match args[0]
      case Text(_, s) => Printed(StringField(s, f), args[1..])
      case Null => Printed(StringField("(null)\0", f), args[1..])
      case Word(_) => Stuck
    else if args[0].Word? || c == 'p' then Printed(WordText(c, f, Slot(args[0])), args[1..])
    else Stuck
  }

  // ----- the scanner -----

  /** A number goes to the width first, and then to the precision. */
  function TakeNumber(f: Flags, n: int): Flags {
    if f.width < 0 then f.(width := n, precision := -1) else f.(precision := n)
  }

  /** The effect of a flag of one character. */
  function Flagged(f: Flags, c: char): Flags {
    match c
    case '-' => f.(padc := '-')
    case '0' => f.(padc := '0')
    case '.' => if f.width < 0 then f.(width := 0) else f
    case '#' => f.(alt := true)
    case _ => f.(lflag := Int(f.lflag + 1))
  }

  /** The flags of an escape, up to its conversion. */
  ghost function Scan(fmt: string, i: nat, f: Flags, args: seq<Arg>): (e: Escape)
    requires Terminated(fmt) && i < |fmt| && Passable(args)
    ensures e.Scanned? ==> i <= e.end < |fmt| && !IsFlag(fmt[e.end]) && Passable(e.rest)
    ensures e.Scanned? ==> forall j :: i <= j < e.end ==> IsFlag(fmt[j])
    decreases |fmt| - i
  {
    var c := fmt[i];
    if '1' <= c <= '9' then
      var j := SkipDigits(fmt, i + 1, 10);
      DigitsEnd(fmt, i + 1, 10);
      assert !IsDigit(fmt[|fmt| - 1], 10);
      Scan(fmt, j, TakeNumber(f, Int(Value(fmt[i..j], 10, 0))), args)
    else if c == '*' then
      if args == [] || !args[0].Word? then Missing
      else Scan(fmt, i + 1, TakeNumber(f, Int(args[0].w)), args[1..])
    else if IsFlag(c) then Scan(fmt, i + 1, Flagged(f, c), args)
    else Scanned(i, f, args)
  }

  /** What vprintfmt prints from position i on. */
  ghost function Formatted(fmt: string, i: nat, args: seq<Arg>): Outcome
    requires Terminated(fmt) && i < |fmt| && Passable(args)
    decreases |fmt| - i
  {
    if fmt[i] == '\0' then Printed("", args)
    else if fmt[i] != '%' then After([fmt[i]], Formatted(fmt, i + 1, args))
    else
      var e := Scan(fmt, i + 1, PLAIN, args);
      if e.Missing? then Stuck
      else if !IsConversion(fmt[e.end]) then After("%", Formatted(fmt, i + 1, e.rest))
      else
        var o := Converted(fmt[e.end], e.flags, e.rest);
        if o.Stuck? then Stuck else After(o.text, Formatted(fmt, e.end + 1, o.rest))
  }

  // ----- the code -----

  /** The digits of a width. */
  method ReadNumber(fmt: string, i: nat) returns (n: int, j: nat)
    requires Terminated(fmt) && i < |fmt| && '1' <= fmt[i] <= '9'
    ensures i < j < |fmt| && j == SkipDigits(fmt, i + 1, 10) && n == Int(Value(fmt[i..j], 10, 0))
  {
    n, j := 0, i;
    var ch := fmt[i];
    while true
      invariant i <= j < |fmt| && ch == fmt[j] && '0' <= ch <= '9'
      invariant SkipDigits(fmt, j, 10) == SkipDigits(fmt, i, 10)
      invariant n == Int(Value(fmt[i..j], 10, 0))
      decreases |fmt| - j
    {
      ghost var v := Value(fmt[i..j], 10, 0);
      ValueAppend(fmt[i..j], [ch], 10, 0);
      ValueOne(ch, 10, v);
      assert fmt[i..j + 1] == fmt[i..j] + [ch];
      IntGrows(v, 10, ch as int - '0' as int);
      n := Int(n * 10 + ch as int - '0' as int);
      ch := fmt[j + 1];
      if ch < '0' || ch > '9' {
        j := j + 1;
        break;
      }
      j := j + 1;
    }
  }

  /** The reswitch loop. */
  method ScanEscape(fmt: string, start: nat, args: seq<Arg>) returns (ok: bool, i: nat, f: Flags, rest: seq<Arg>)
    requires Terminated(fmt) && start < |fmt| && Passable(args)
    ensures Passable(rest) && Scan(fmt, start, PLAIN, args) == if ok then Scanned(i, f, rest) else Missing
  {
    hide Value, SkipDigits, Int;
    ok, i, f, rest := true, start, PLAIN, args;
    while IsFlag(fmt[i])
      invariant i < |fmt| && Passable(rest)
      invariant Scan(fmt, start, PLAIN, args) == Scan(fmt, i, f, rest)
      decreases |fmt| - i
    {
      var ch := fmt[i];
      if ch == '-' || ch == '0' {
        f := f.(padc := ch);
        i := i + 1;
      } else if '1' <= ch <= '9' {
        var n;
        n, i := ReadNumber(fmt, i);
        f := TakeNumber(f, n);
      } else if ch == '*' {
        if rest == [] || !rest[0].Word? {
          return false, i, f, rest;
        }
        f, rest := TakeNumber(f, Int(rest[0].w)), rest[1..];
        i := i + 1;
      } else if ch == '.' {
        if f.width < 0 {
          f := f.(width := 0);
        }
        i := i + 1;
      } else if ch == '#' {
        f := f.(alt := true);
        i := i + 1;
      } else {
        f := f.(lflag := Int(f.lflag + 1));
        i := i + 1;
      }
    }
  }

  /** for (; width > 0; width--) putch(c) */
  method Fill(sink: Sink, width: int, c: char) returns (w: int)
    modifies sink
    ensures sink.out == old(sink.out) + Repeat(c, width)
    ensures w == if width > 0 then 0 else width
  {
    w := width;
    while w > 0
      invariant w <= width && (w >= 0 || w == width)
      invariant sink.out == old(sink.out) + Repeat(c, width - w)
    {
      sink.Putch(c);
      w := w - 1;
    }
  }

  /** strnlen; a negative limit is a huge size_t. */
  method StrNLen(s: string, limit: int) returns (n: int)
    requires Terminated(s)
    ensures n == Int(|Cut(s, limit)|)
  {
    n := 0;
    var size, p := limit, 0;
    while size != 0 && s[p] != '\0'
      invariant p < |s| && size == limit - p && (limit >= 0 ==> size >= 0)
      invariant n == Int(p)
      decreases |s| - p
    {
      IntAdds(p, 1);
      n, p, size := Int(n + 1), p + 1, size - 1;
    }
  }

  lemma IntMinus(a: int, b: int)
    ensures Int(a - Int(b)) == Int(a - b)
  {
    IntGrows(b, -1, a);
  }

  /** The first loop of %s. */
  method PadLeft(sink: Sink, s: string, f: Flags) returns (width: int)
    requires Terminated(s)
    modifies sink
    ensures var (left, w) := LeftPads(f, |Cut(s, f.precision)|);
            sink.out == old(sink.out) + Repeat(f.padc, left) && width == w
  {
    hide Cut;
    width := f.width;
    if width > 0 && f.padc != '-' {
      var n := StrNLen(s, f.precision);
      IntMinus(width, |Cut(s, f.precision)|);
      width := Fill(sink, Int(width - n), f.padc);
    }
  }

  /** The middle loop of %s. */
  method PutShown(sink: Sink, s: string, f: Flags, width: int) returns (w: int)
    requires Terminated(s)
    modifies sink
    ensures sink.out == old(sink.out) + Masked(Cut(s, f.precision), f.alt)
    ensures w == Int(width - |Cut(s, f.precision)|)
  {
    hide Masked, Int;
    ghost var cut := Cut(s, f.precision);
    ghost var shown := Masked(cut, f.alt);
    var p, precision := 0, f.precision;
    w := Int(width);
    while true
      invariant p <= |cut| && w == Int(width - p)
      invariant f.precision >= 0 ==> precision == f.precision - p
      invariant f.precision < 0 ==> precision == f.precision
      invariant sink.out == old(sink.out) + shown[..p]
      decreases |s| - p
    {
      var ch := s[p];
      if ch == '\0' {
        break;
      }
      if precision >= 0 {
        precision := precision - 1;
        if precision < 0 {
          break;
        }
      }
      assert shown[..p + 1] == shown[..p] + [shown[p]];
      IntAdds(width - p, -1);
      sink.Putch(if f.alt && (ch < ' ' || ch > '~') then '?' else ch);
      p, w := p + 1, Int(w - 1);
    }
    assert p == |cut|;
  }

  method PutString(sink: Sink, s: string, f: Flags)
    requires Terminated(s)
    modifies sink
    ensures sink.out == old(sink.out) + StringField(s, f)
  {
    ghost var shown := Masked(Cut(s, f.precision), f.alt);
    hide Cut, Masked, LeftPads;
    var width := PadLeft(sink, s, f);
    width := PutShown(sink, s, f, width);
    var _ := Fill(sink, width, ' ');
  }

  /** %d */
  method PutDecimal(sink: Sink, n: int, f: Flags)
    modifies sink
    ensures sink.out == old(sink.out) + Decimal(n, f)
  {
    var num := n;
    if num < 0 {
      sink.Putch('-');
      num := -num;
    }
    PrintNum(sink, num, 10, f.width, f.padc);
  }

  method PutText(sink: Sink, s: string)
    modifies sink
    ensures sink.out == old(sink.out) + s
  {
    var i := 0;
    while i < |s|
      invariant i <= |s| && sink.out == old(sink.out) + s[..i]
    {
      sink.Putch(s[i]);
      i := i + 1;
    }
  }

  /** %e */
  method PutError(sink: Sink, n: int)
    requires -0x8000_0000 <= n < 0x8000_0000
    modifies sink
    ensures sink.out == old(sink.out) + ErrorText(n)
  {
    hide ErrorString, Decimal;
    var err := n;
    if err < 0 {
      err := Int(-err);
    }
    var p := ErrorString(err);
    if p == "" {
      PutText(sink, "error ");
      PutDecimal(sink, err, PLAIN);
    } else {
      PutText(sink, p);
    }
  }

  method PutWord(sink: Sink, c: char, f: Flags, w: nat)
    requires IsConversion(c) && c != 's' && c != '%'
    modifies sink
    ensures sink.out == old(sink.out) + WordText(c, f, w)
  {
    if c == 'c' {
      sink.Putch((w % 256) as char);
    } else if c == 'e' {
      PutError(sink, Int(w));
    } else if c == 'd' {
      PutDecimal(sink, GetInt(w, f.lflag), f);
    } else {
      var num, base := GetUint(w, f.lflag), 16;
      if c == 'u' {
        base := 10;
      } else if c == 'o' {
        base := 8;
      } else if c == 'p' {
        sink.Putch('0');
        sink.Putch('x');
        num := w;
      }
      PrintNum(sink, num, base, f.width, f.padc);
    }
  }

  /** One conversion. */
  method Convert(sink: Sink, c: char, f: Flags, args: seq<Arg>) returns (ok: bool, rest: seq<Arg>)
    requires IsConversion(c) && Passable(args)
    modifies sink
    ensures Passable(rest)
    ensures ok <==> Converted(c, f, args).Printed?
    ensures ok ==> rest == Converted(c, f, args).rest && sink.out == old(sink.out) + Converted(c, f, args).text
  {
    assert Terminated("(null)\0");
    hide StringField, WordText, Terminated;
    if c == '%' {
      sink.Putch('%');
      return true, args;
    }
    if args == [] {
      return false, args;
    }
    ok, rest := true, args[1..];
    match args[0]
    case Text(w, s) =>
      ok := c == 's' || c == 'p';
      if c == 's' {
        PutString(sink, s, f);
      } else if c == 'p' {
        PutWord(sink, c, f, w);
      }
    case Null =>
      ok := c == 's' || c == 'p';
      if c == 's' {
        PutString(sink, "(null)\0", f);
      } else if c == 'p' {
        PutWord(sink, c, f, 0);
      }
    case Word(w) =>
      ok := c != 's';
      if ok {
        PutWord(sink, c, f, w);
      }
  }

  /** Steps fmt back to just after the '%' that opened the escape. */
  method BackToPercent(fmt: string, start: nat, end: nat) returns (i: nat)
    requires 0 < start <= end < |fmt| && fmt[start - 1] == '%'
    requires forall j :: start <= j < end ==> fmt[j] != '%'
    ensures i == start
  {
    i := end;
    while fmt[i - 1] != '%'
      invariant start <= i <= end
      decreases i
    {
      i := i - 1;
    }
  }

  /** Prints a format up to its terminator, and reads nothing past it; ok says
      that every va_arg found what it asked for. */
  method VPrintFmt(sink: Sink, fmt: string, args: seq<Arg>) returns (ok: bool, rest: seq<Arg>)
    requires Terminated(fmt) && Passable(args)
    modifies sink
    ensures ok <==> Formatted(fmt, 0, args).Printed?
    ensures ok ==> After(old(sink.out), Formatted(fmt, 0, args)) == Printed(sink.out, rest)
  {
    hide Scan, Converted;
    ghost var was := sink.out;
    ghost var goal := Formatted(fmt, 0, args);
    var i := 0;
    rest := args;
    while true
      invariant i < |fmt| && Passable(rest)
      invariant After(was, goal) == After(sink.out, Formatted(fmt, i, rest))
      decreases |fmt| - i
    {
      var ch := fmt[i];
      if ch == '\0' {
        return true, rest;
      }
      if ch != '%' {
        sink.Putch(ch);
        AfterTwo(sink.out[..|sink.out| - 1], [ch], Formatted(fmt, i + 1, rest));
        i := i + 1;
      } else {
        var end, f, left;
        ok, end, f, left := ScanEscape(fmt, i + 1, rest);
        if !ok {
          return;
        }
        if IsConversion(fmt[end]) {
          ghost var before, o := sink.out, Converted(fmt[end], f, left);
          ok, rest := Convert(sink, fmt[end], f, left);
          if !ok {
            return;
          }
          AfterTwo(before, o.text, Formatted(fmt, end + 1, rest));
          i := end + 1;
        } else {
          ghost var before := sink.out;
          sink.Putch('%');
          AfterTwo(before, "%", Formatted(fmt, i + 1, left));
          i := BackToPercent(fmt, i + 1, end);
          rest := left;
        }
      }
    }
  }

  // ----- formats piece by piece -----

  lemma {:induction false} SkipDigitsShift(pre: string, fmt: string, s: string, i: nat, k: nat, base: int)
    requires s == pre + fmt && k == |pre| + i && i <= |fmt|
    ensures SkipDigits(s, k, base) == |pre| + SkipDigits(fmt, i, base)
    decreases |fmt| - i
  {
    if i < |fmt| {
      assert s[k] == fmt[i];
      SkipDigitsShift(pre, fmt, s, i + 1, k + 1, base);
    }
  }

  function Moved(e: Escape, n: nat): Escape {
    if e.Scanned? then e.(end := e.end + n) else e
  }

  lemma NumberShift(pre: string, fmt: string, s: string, i: nat, k: nat)
    requires s == pre + fmt && k == |pre| + i && Terminated(fmt) && i < |fmt| && fmt[i] != '\0'
    ensures var j := SkipDigits(fmt, i + 1, 10);
            i < j < |fmt| && SkipDigits(s, k + 1, 10) == |pre| + j && s[k..|pre| + j] == fmt[i..j]
  {
    DigitsEnd(fmt, i + 1, 10);
    assert !IsDigit(fmt[|fmt| - 1], 10);
    SkipDigitsShift(pre, fmt, s, i + 1, k + 1, 10);
  }

  lemma NumberStep(s: string, i: nat, f: Flags, args: seq<Arg>)
    requires Terminated(s) && i < |s| && Passable(args) && '1' <= s[i] <= '9'
    ensures var j := SkipDigits(s, i + 1, 10);
            i < j < |s| && Scan(s, i, f, args) == Scan(s, j, TakeNumber(f, Int(Value(s[i..j], 10, 0))), args)
  {
    hide Value, TakeNumber;
    DigitsEnd(s, i + 1, 10);
    assert !IsDigit(s[|s| - 1], 10);
  }

  lemma StarStep(s: string, i: nat, f: Flags, args: seq<Arg>)
    requires Terminated(s) && i < |s| && Passable(args) && s[i] == '*' && args != [] && args[0].Word?
    ensures i + 1 < |s| && Passable(args[1..])
    ensures Scan(s, i, f, args) == Scan(s, i + 1, TakeNumber(f, Int(args[0].w)), args[1..])
  {
  }

  lemma FlagStep(s: string, i: nat, f: Flags, args: seq<Arg>)
    requires Terminated(s) && i < |s| && Passable(args) && IsFlag(s[i]) && s[i] != '*' && !('1' <= s[i] <= '9')
    ensures i + 1 < |s| && Scan(s, i, f, args) == Scan(s, i + 1, Flagged(f, s[i]), args)
  {
  }

  lemma LastStep(s: string, i: nat, f: Flags, args: seq<Arg>)
    requires Terminated(s) && i < |s| && Passable(args)
    requires !IsFlag(s[i]) || (s[i] == '*' && (args == [] || !args[0].Word?))
    ensures Scan(s, i, f, args) == if IsFlag(s[i]) then Missing else Scanned(i, f, args)
  {
  }

  lemma {:induction false} ScanShift(pre: string, fmt: string, s: string, i: nat, k: nat, f: Flags, args: seq<Arg>)
    requires s == pre + fmt && k == |pre| + i && Terminated(fmt) && Terminated(s) && i < |fmt| && Passable(args)
    ensures Scan(s, k, f, args) == Moved(Scan(fmt, i, f, args), |pre|)
    decreases |fmt| - i
  {
    hide Scan, Value, SkipDigits, Flagged, TakeNumber, Int, Terminated, Passable;
    var c := fmt[i];
    assert s[k] == c;
    if '1' <= c <= '9' {
      NumberStep(fmt, i, f, args);
      NumberStep(s, k, f, args);
      NumberShift(pre, fmt, s, i, k);
      var j := SkipDigits(fmt, i + 1, 10);
      ScanShift(pre, fmt, s, j, |pre| + j, TakeNumber(f, Int(Value(fmt[i..j], 10, 0))), args);
    } else if !IsFlag(c) || (c == '*' && (args == [] || !args[0].Word?)) {
      LastStep(fmt, i, f, args);
      LastStep(s, k, f, args);
    } else if c == '*' {
      StarStep(fmt, i, f, args);
      StarStep(s, k, f, args);
      ScanShift(pre, fmt, s, i + 1, k + 1, TakeNumber(f, Int(args[0].w)), args[1..]);
    } else {
      FlagStep(fmt, i, f, args);
      FlagStep(s, k, f, args);
      ScanShift(pre, fmt, s, i + 1, k + 1, Flagged(f, c), args);
    }
  }

  /** What is printed depends on the rest of the format alone. */
  lemma {:induction false} FormattedShift(pre: string, fmt: string, s: string, i: nat, k: nat, args: seq<Arg>)
    requires s == pre + fmt && k == |pre| + i && Terminated(fmt) && Terminated(s) && i < |fmt| && Passable(args)
    ensures Formatted(s, k, args) == Formatted(fmt, i, args)
    decreases |fmt| - i
  {
    hide Scan, Converted, IsFlag;
    assert s[k] == fmt[i];
    if fmt[i] == '\0' {
    } else if fmt[i] != '%' {
      FormattedShift(pre, fmt, s, i + 1, k + 1, args);
    } else {
      ScanShift(pre, fmt, s, i + 1, k + 1, PLAIN, args);
      var e := Scan(fmt, i + 1, PLAIN, args);
      if e.Scanned? {
        assert s[|pre| + e.end] == fmt[e.end];
        if !IsConversion(fmt[e.end]) {
          FormattedShift(pre, fmt, s, i + 1, k + 1, e.rest);
        } else {
          var o := Converted(fmt[e.end], e.flags, e.rest);
          if o.Printed? {
            FormattedShift(pre, fmt, s, e.end + 1, |pre| + e.end + 1, o.rest);
          }
        }
      }
    }
  }

  ghost predicate Verbatim(text: string) {
    forall i :: 0 <= i < |text| ==> text[i] != '%' && text[i] != '\0'
  }

  lemma TerminatedAfter(text: string, fmt: string)
    requires Terminated(fmt) && forall i :: 0 <= i < |text| ==> text[i] != '\0'
    ensures Terminated(text + fmt)
  {
  }

  /** Text without '%' is printed as it stands. */
  lemma {:induction false} TextIsVerbatim(text: string, fmt: string, args: seq<Arg>)
    requires Terminated(fmt) && Verbatim(text) && Passable(args)
    ensures Terminated(text + fmt)
    ensures Formatted(text + fmt, 0, args) == After(text, Formatted(fmt, 0, args))
    decreases text
  {
    TerminatedAfter(text, fmt);
    if text == "" {
      assert text + fmt == fmt;
    } else {
      var rest := text[1..];
      TextIsVerbatim(rest, fmt, args);
      assert text + fmt == [text[0]] + (rest + fmt) && text == [text[0]] + rest;
      FormattedShift([text[0]], rest + fmt, text + fmt, 0, 1, args);
      AfterTwo([text[0]], rest, Formatted(fmt, 0, args));
    }
  }

  /** How many arguments the flags from i to end take. */
  ghost function Stars(s: string, i: nat, end: nat): nat
    requires end <= |s|
    decreases end - i
  {
    if i >= end then 0 else (if s[i] == '*' then 1 else 0) + Stars(s, i + 1, end)
  }

  lemma {:induction false} NoStarsIn(s: string, i: nat, j: nat, end: nat)
    requires i <= j <= end <= |s| && forall k :: i <= k < j ==> s[k] != '*'
    ensures Stars(s, i, end) == Stars(s, j, end)
    decreases j - i
  {
    if i < j {
      NoStarsIn(s, i + 1, j, end);
    }
  }

  lemma {:induction false} ScanTakes(fmt: string, i: nat, end: nat, f: Flags, args: seq<Arg>)
    requires Terminated(fmt) && i <= end < |fmt| && Passable(args)
    requires !IsFlag(fmt[end]) && forall j :: i <= j < end ==> IsFlag(fmt[j])
    requires Stars(fmt, i, end) <= |args| && forall j :: 0 <= j < Stars(fmt, i, end) ==> args[j].Word?
    ensures var e := Scan(fmt, i, f, args);
            e.Scanned? && e.end == end && e.rest == args[Stars(fmt, i, end)..]
    decreases |fmt| - i
  {
    hide Flagged, TakeNumber, Int, Value;
    if i < end {
      var c := fmt[i];
      if '1' <= c <= '9' {
        var j := SkipDigits(fmt, i + 1, 10);
        DigitsEnd(fmt, i + 1, 10);
        assert end >= j;
        NoStarsIn(fmt, i, j, end);
        ScanTakes(fmt, j, end, TakeNumber(f, Int(Value(fmt[i..j], 10, 0))), args);
      } else if c == '*' {
        ScanTakes(fmt, i + 1, end, TakeNumber(f, Int(args[0].w)), args[1..]);
      } else {
        ScanTakes(fmt, i + 1, end, Flagged(f, c), args);
      }
    }
  }

  /** The default branch: back to just after the '%'. */
  lemma BackToText(s: string, end: nat, args: seq<Arg>)
    requires Terminated(s) && s[0] == '%' && 1 <= end < |s| && Passable(args)
    requires !IsFlag(s[end]) && !IsConversion(s[end]) && forall j :: 1 <= j < end ==> IsFlag(s[j])
    requires var n := Stars(s, 1, end); n <= |args| && forall j :: 0 <= j < n ==> args[j].Word?
    ensures Formatted(s, 0, args) == After("%", Formatted(s, 1, args[Stars(s, 1, end)..]))
  {
    hide Scan, IsFlag, IsConversion, Stars;
    ScanTakes(s, 1, end, PLAIN, args);
  }

  lemma FlagsInPlace(flags: string, fmt: string, s: string, end: nat)
    requires s == "%" + flags + fmt && Terminated(fmt) && forall i :: 0 <= i < |flags| ==> IsFlag(flags[i])
    requires end == 1 + |flags|
    ensures Terminated(s) && s[0] == '%' && end < |s| && s[end] == fmt[0]
    ensures forall j :: 1 <= j < end ==> IsFlag(s[j])
  {
    TerminatedAfter("%" + flags, fmt);
    assert s[1..end] == flags && s[end] == fmt[0];
    forall j | 1 <= j < end ensures IsFlag(s[j]) {
      assert s[j] == s[1..end][j - 1];
    }
  }

  lemma FlagsAreText(flags: string, fmt: string, s: string, args: seq<Arg>)
    requires s == "%" + flags + fmt && Terminated(s) && Terminated(fmt) && Passable(args)
    requires forall i :: 0 <= i < |flags| ==> IsFlag(flags[i])
    ensures After("%", Formatted(s, 1, args)) == After("%" + flags, Formatted(fmt, 0, args))
  {
    TerminatedAfter(flags, fmt);
    TextIsVerbatim(flags, fmt, args);
    assert s == "%" + (flags + fmt);
    hide Formatted, Terminated, IsFlag;
    FormattedShift("%", flags + fmt, s, 0, 1, args);
    AfterTwo("%", flags, Formatted(fmt, 0, args));
  }

  predicate OneOf(c: char, chars: string) {
    c in chars
  }

  lemma FlagSet(c: char)
    ensures IsFlag(c) <==> OneOf(c, "-0123456789*.#l")
  {
  }

  lemma ConversionSet(c: char)
    ensures IsConversion(c) <==> OneOf(c, "cesduopx%")
  {
  }

  lemma NeitherSet(c: char)
    ensures !IsFlag(c) && !IsConversion(c) <==> !OneOf(c, "-0123456789*.#lcesduopx%")
  {
    FlagSet(c);
    ConversionSet(c);
    assert "-0123456789*.#lcesduopx%" == "-0123456789*.#l" + "cesduopx%";
  }

  lemma EscapeIsText(flags: string, fmt: string, s: string, args: seq<Arg>)
    requires s == "%" + flags + fmt && Terminated(fmt) && Passable(args)
    requires forall i :: 0 <= i < |flags| ==> IsFlag(flags[i])
    requires !IsFlag(fmt[0]) && !IsConversion(fmt[0])
    requires var n := Stars(s, 1, 1 + |flags|); n <= |args| && forall j :: 0 <= j < n ==> args[j].Word?
    ensures Terminated(s)
    ensures Formatted(s, 0, args) == After("%" + flags, Formatted(fmt, 0, args[Stars(s, 1, 1 + |flags|)..]))
  {
    var end := 1 + |flags|;
    hide Formatted, Terminated, Stars, IsFlag, IsConversion;
    FlagsInPlace(flags, fmt, s, end);
    BackToText(s, end, args);
    FlagsAreText(flags, fmt, s, args[Stars(s, 1, end)..]);
  }

  /** A malformed escape is printed as it stands; its stars have taken their
      arguments. */
  lemma MalformedIsVerbatim(flags: string, fmt: string, s: string, args: seq<Arg>)
    requires s == "%" + flags + fmt && Terminated(fmt) && Passable(args)
    requires forall i :: 0 <= i < |flags| ==> OneOf(flags[i], "-0123456789*.#l")
    requires !OneOf(fmt[0], "-0123456789*.#lcesduopx%")
    requires var n := Stars(s, 1, 1 + |flags|); n <= |args| && forall j :: 0 <= j < n ==> args[j].Word?
    ensures Terminated(s)
    ensures Formatted(s, 0, args) == After("%" + flags, Formatted(fmt, 0, args[Stars(s, 1, 1 + |flags|)..]))
  {
    NeitherSet(fmt[0]);
    hide Formatted, Terminated, Stars, IsFlag, IsConversion, OneOf;
    forall i | 0 <= i < |flags| ensures IsFlag(flags[i]) {
      FlagSet(flags[i]);
    }
    EscapeIsText(flags, fmt, s, args);
  }

  // ----- directives -----

  function WithPad(padc: char, t: string): string {
    if padc == ' ' then t else [padc] + t
  }

  function WithWidth(width: nat, t: string): string {
    if width == 0 then t else Digits(width, 10) + t
  }

  function WithPrecision(precision: nat, t: string): string {
    if precision == 0 then t else "." + (Digits(precision, 10) + t)
  }

  /** A directive's flags, as a programmer writes them, and what comes after
      them; 0 stands for no width, and for no precision. */
  function Written(padc: char, width: nat, precision: nat, lflag: nat, fmt: string): string {
    WithPad(padc, WithWidth(width, WithPrecision(precision, Repeat('l', lflag) + fmt)))
  }

  /** What the scanner makes of such a directive: what is written, as far as an
      int holds it. */
  function Meant(padc: char, width: nat, precision: nat, lflag: nat): Flags {
    var f := PLAIN.(padc := padc, lflag := Int(lflag));
    var g := if width == 0 then f else TakeNumber(f, Int(width));
    if precision == 0 then g else TakeNumber(Flagged(g, '.'), Int(precision))
  }

  /** Ints that hold what is written are taken as they stand. */
  lemma MeantAsWritten(padc: char, width: nat, precision: nat, lflag: nat)
    requires width < INT / 2 && precision < INT / 2 && lflag < INT / 2
    ensures var f := Meant(padc, width, precision, lflag);
            && f.padc == padc && f.lflag == lflag && !f.alt
            && f.width == (if width > 0 then width else if precision > 0 then 0 else -1)
            && f.precision == if precision > 0 then precision else -1
  {
  }

  /** t ends s. */
  ghost predicate Suffix(t: string, s: string) {
    |t| <= |s| && s[|s| - |t|..] == t
  }

  /** Scanning s with f is scanning t, which ends it, with g. */
  ghost predicate Passes(s: string, f: Flags, t: string, g: Flags, args: seq<Arg>)
    requires Passable(args)
  {
    Terminated(s) && Terminated(t) && Suffix(t, s) && Scan(s, 0, f, args) == Moved(Scan(t, 0, g, args), |s| - |t|)
  }

  lemma PassesOn(s: string, f: Flags, t: string, g: Flags, u: string, h: Flags, args: seq<Arg>)
    requires Passable(args) && Passes(s, f, t, g, args) && Passes(t, g, u, h, args)
    ensures Passes(s, f, u, h, args)
  {
    hide Scan, Terminated;
    var n, m := |s| - |t|, |t| - |u|;
    assert s[n + m..] == s[n..][m..];
  }

  lemma PassesSelf(s: string, f: Flags, args: seq<Arg>)
    requires Terminated(s) && Passable(args)
    ensures Passes(s, f, s, f, args)
  {
  }

  lemma PassPiece(piece: string, t: string, f: Flags, g: Flags, args: seq<Arg>)
    requires Terminated(t) && Passable(args) && forall i :: 0 <= i < |piece| ==> piece[i] != '\0'
    requires Terminated(piece + t) ==> Scan(piece + t, 0, f, args) == Scan(piece + t, |piece|, g, args)
    ensures Passes(piece + t, f, t, g, args)
  {
    TerminatedAfter(piece, t);
    ScanShift(piece, t, piece + t, 0, |piece|, g, args);
  }

  lemma PassFlag(c: char, t: string, f: Flags, args: seq<Arg>)
    requires Terminated(t) && Passable(args) && IsFlag(c) && c != '*' && !('1' <= c <= '9')
    ensures Terminated([c] + t)
    ensures Passes([c] + t, f, t, Flagged(f, c), args)
  {
    TerminatedAfter([c], t);
    PassPiece([c], t, f, Flagged(f, c), args);
  }

  lemma PassNumber(num: nat, t: string, f: Flags, args: seq<Arg>)
    requires Terminated(t) && Passable(args) && num > 0 && !IsDigit(t[0], 10)
    ensures Terminated(Digits(num, 10) + t)
    ensures Passes(Digits(num, 10) + t, f, t, TakeNumber(f, Int(num)), args)
  {
    var d := Digits(num, 10);
    var s := d + t;
    forall k | 0 <= k < |d| ensures d[k] != '\0' && IsDigit(s[k], 10) {
      DigitsAreDigits(num, 10, k);
    }
    TerminatedAfter(d, t);
    FirstDigit(num, 10);
    SkipDigitsTo(s, 1, |d|, 10);
    DigitsValue(num, 10);
    assert s[0..|d|] == d;
    PassPiece(d, t, f, TakeNumber(f, Int(num)), args);
  }

  lemma {:induction false} PassLongs(n: nat, t: string, f: Flags, args: seq<Arg>)
    requires Terminated(t) && Passable(args) && f.lflag == 0
    ensures Terminated(Repeat('l', n) + t)
    ensures Passes(Repeat('l', n) + t, f, t, f.(lflag := Int(n)), args)
    decreases n
  {
    hide Scan, Passes, Terminated;
    if n == 0 {
      assert Repeat('l', n) + t == t;
      PassesSelf(t, f, args);
    } else {
      var g := f.(lflag := Int(n - 1));
      TerminatedAfter("l", t);
      PassLongs(n - 1, "l" + t, f, args);
      PassFlag('l', t, g, args);
      IntAdds(n - 1, 1);
      assert Repeat('l', n) + t == Repeat('l', n - 1) + ("l" + t);
      PassesOn(Repeat('l', n) + t, f, "l" + t, g, t, f.(lflag := Int(n)), args);
    }
  }

  /** A precision, and what its '.' does to the width. */
  lemma PassPrecision(precision: nat, t: string, f: Flags, args: seq<Arg>)
    requires Terminated(t) && Passable(args) && !IsDigit(t[0], 10)
    ensures Terminated(WithPrecision(precision, t)) && !IsDigit(WithPrecision(precision, t)[0], 10)
    ensures Passes(WithPrecision(precision, t), f, t,
                   if precision == 0 then f else TakeNumber(Flagged(f, '.'), Int(precision)), args)
  {
    if precision == 0 {
      PassesSelf(t, f, args);
    } else {
      var u := Digits(precision, 10) + t;
      PassNumber(precision, t, Flagged(f, '.'), args);
      PassFlag('.', u, f, args);
      hide Passes, Digits, Scan;
      PassesOn("." + u, f, u, Flagged(f, '.'), t, TakeNumber(Flagged(f, '.'), Int(precision)), args);
    }
  }

  lemma PassWidth(width: nat, t: string, f: Flags, args: seq<Arg>)
    requires Terminated(t) && Passable(args) && !IsDigit(t[0], 10)
    ensures Terminated(WithWidth(width, t))
    ensures Passes(WithWidth(width, t), f, t, if width == 0 then f else TakeNumber(f, Int(width)), args)
  {
    if width == 0 {
      PassesSelf(t, f, args);
    } else {
      PassNumber(width, t, f, args);
    }
  }

  lemma PassPad(padc: char, t: string, args: seq<Arg>)
    requires Terminated(t) && Passable(args) && PadChar(padc)
    ensures Terminated(WithPad(padc, t))
    ensures Passes(WithPad(padc, t), PLAIN, t, PLAIN.(padc := padc), args)
  {
    if padc == ' ' {
      PassesSelf(t, PLAIN, args);
    } else {
      PassFlag(padc, t, PLAIN, args);
    }
  }

  /** The scanner reads a directive as it was meant. */
  lemma ScanWritten(padc: char, width: nat, precision: nat, lflag: nat, fmt: string, args: seq<Arg>)
    requires PadChar(padc) && Terminated(fmt) && !IsFlag(fmt[0]) && Passable(args)
    ensures Passes(Written(padc, width, precision, lflag, fmt), PLAIN, fmt, Meant(padc, width, precision, lflag), args)
  {
    var f1 := PLAIN.(padc := padc);
    var f2 := if width == 0 then f1 else TakeNumber(f1, Int(width));
    var f3 := if precision == 0 then f2 else TakeNumber(Flagged(f2, '.'), Int(precision));
    var f4 := f3.(lflag := Int(lflag));
    assert f4 == Meant(padc, width, precision, lflag);
    var longs := Repeat('l', lflag) + fmt;
    var point := WithPrecision(precision, longs);
    var wide := WithWidth(width, point);
    assert !IsDigit(longs[0], 10);
    PassLongs(lflag, fmt, f3, args);
    PassPrecision(precision, longs, f2, args);
    PassWidth(width, point, f1, args);
    PassPad(padc, wide, args);
    hide Passes, WithPad, WithWidth, WithPrecision, Terminated, Scan;
    PassesOn(point, f2, longs, f3, fmt, f4, args);
    PassesOn(wide, f1, point, f2, fmt, f4, args);
    PassesOn(WithPad(padc, wide), PLAIN, wide, f1, fmt, f4, args);
  }

  lemma ScanPasses(w: string, f: Flags, fmt: string, s: string, end: nat, args: seq<Arg>)
    requires Passable(args) && Passes(w, PLAIN, fmt, f, args) && s == "%" + w && IsConversion(fmt[0])
    requires end + |fmt| == |s|
    ensures Terminated(s) && end > 0 && s[0] == '%' && s[end..] == fmt
    ensures Scan(s, 1, PLAIN, args) == Scanned(end, f, args)
  {
    assert Scan(fmt, 0, f, args) == Scanned(0, f, args);
    hide Scan, IsConversion;
    TerminatedAfter("%", w);
    hide Terminated;
    ScanShift("%", w, s, 0, 1, PLAIN, args);
    assert s[end..] == w[|w| - |fmt|..];
  }

  /** The step of an escape. */
  lemma ConvertsAt(s: string, end: nat, f: Flags, args: seq<Arg>)
    requires Terminated(s) && s[0] == '%' && Passable(args) && Scan(s, 1, PLAIN, args) == Scanned(end, f, args)
    requires IsConversion(s[end])
    ensures var o := Converted(s[end], f, args);
            Formatted(s, 0, args) == if o.Stuck? then Stuck else After(o.text, Formatted(s, end + 1, o.rest))
  {
    hide Converted, Scan;
  }

  lemma WrittenLonger(padc: char, width: nat, precision: nat, lflag: nat, fmt: string)
    ensures |Written(padc, width, precision, lflag, fmt)| >= |fmt|
  {
  }

  lemma Ending(s: string, end: nat, c: char, tail: string)
    requires end <= |s| && s[end..] == [c] + tail
    ensures end + 1 <= |s| && s[end] == c && s == s[..end + 1] + tail
  {
    assert s[end] == s[end..][0];
    assert s[end..][1..] == tail;
    assert s == s[..end] + s[end..];
  }

  lemma ConvertsThen(s: string, end: nat, f: Flags, c: char, tail: string, args: seq<Arg>)
    requires Terminated(s) && Terminated(tail) && Passable(args) && IsConversion(c)
    requires s[0] == '%' && 0 < end <= |s| && s[end..] == [c] + tail
    requires Scan(s, 1, PLAIN, args) == Scanned(end, f, args)
    ensures var o := Converted(c, f, args);
            Formatted(s, 0, args) == if o.Stuck? then Stuck else After(o.text, Formatted(tail, 0, o.rest))
  {
    assert |tail| > 0;
    hide Converted, Scan, Formatted, Terminated, IsConversion;
    Ending(s, end, c, tail);
    ConvertsAt(s, end, f, args);
    var o := Converted(c, f, args);
    if o.Printed? {
      FormattedShift(s[..end + 1], tail, s, 0, end + 1, o.rest);
    }
  }

  /** A directive prints its conversion, and what comes after it goes on with
      the arguments left. */
  lemma DirectivePrints(padc: char, width: nat, precision: nat, lflag: nat, c: char, tail: string, args: seq<Arg>)
    requires PadChar(padc) && IsConversion(c) && Terminated(tail) && Passable(args)
    ensures var s := "%" + Written(padc, width, precision, lflag, [c] + tail);
            var o := Converted(c, Meant(padc, width, precision, lflag), args);
            Terminated(s) &&
            Formatted(s, 0, args) == if o.Stuck? then Stuck else After(o.text, Formatted(tail, 0, o.rest))
  {
    var fmt, f := [c] + tail, Meant(padc, width, precision, lflag);
    var s := "%" + Written(padc, width, precision, lflag, fmt);
    TerminatedAfter([c], tail);
    assert !IsFlag(fmt[0]);
    hide Meant, Written, Converted, Scan, Formatted, Passes, IsFlag, Terminated;
    ScanWritten(padc, width, precision, lflag, fmt, args);
    WrittenLonger(padc, width, precision, lflag, fmt);
    var end := |s| - |fmt|;
    ScanPasses(Written(padc, width, precision, lflag, fmt), f, fmt, s, end, args);
    ConvertsThen(s, end, f, c, tail, args);
  }

  /** A directive with one argument. */
  lemma OneDirective(padc: char, width: nat, precision: nat, lflag: nat, c: char, a: Arg)
    requires PadChar(padc) && Fits(a) && IsConversion(c) && c != '%'
    ensures var s := "%" + Written(padc, width, precision, lflag, [c] + "\0");
            var o := Converted(c, Meant(padc, width, precision, lflag), [a]);
            Terminated(s) && Formatted(s, 0, [a]) == if o.Stuck? then Stuck else Printed(o.text, [])
  {
    DirectivePrints(padc, width, precision, lflag, c, "\0", [a]);
    assert Formatted("\0", 0, []) == Printed("", []);
    var o := Converted(c, Meant(padc, width, precision, lflag), [a]);
    assert o.Printed? ==> o.rest == [];
    hide Written, Scan, Formatted, Converted;
    if o.Printed? {
      assert o.text + "" == o.text;
    }
  }

  /** A directive that takes a 64-bit slot. */
  lemma WordDirective(padc: char, width: nat, lflag: nat, c: char, w: nat)
    requires PadChar(padc) && w < WORD && IsConversion(c) && c != 's' && c != '%'
    ensures var s := "%" + Written(padc, width, 0, lflag, [c] + "\0");
            Terminated(s) && Formatted(s, 0, [Word(w)]) == Printed(WordText(c, Meant(padc, width, 0, lflag), w), [])
  {
    hide Written, Formatted, Meant, WordText;
    OneDirective(padc, width, 0, lflag, c, Word(w));
  }

  lemma LongFlag(padc: char, width: nat, precision: nat, lflag: nat)
    ensures var f := Meant(padc, width, precision, lflag);
            f.padc == padc && !f.alt && (f.lflag == 0 <==> lflag % 0x1_0000_0000 == 0)
  {
  }

  /** The number n that a conversion makes of an argument. */
  ghost predicate Denotes(c: char, lflag: nat, a: Arg, n: int) {
    var long := lflag % 0x1_0000_0000 != 0;
    || (c == 'p' && n == if a.Null? then 0 else a.w)
    || (c == 'd' && a.Word? && long && (n - a.w) % 0x1_0000_0000_0000_0000 == 0
        && -0x8000_0000_0000_0000 <= n < 0x8000_0000_0000_0000)
    || (c == 'd' && a.Word? && !long && (n - a.w) % 0x1_0000_0000 == 0 && -0x8000_0000 <= n < 0x8000_0000)
    || ((c == 'u' || c == 'o' || c == 'x') && a.Word? && n == if long then a.w else a.w % 0x1_0000_0000)
  }

  lemma OneInt(w: int, n: int)
    requires (n - w) % 0x1_0000_0000 == 0 && -0x8000_0000 <= n < 0x8000_0000
    ensures n == Int(w)
  {
    var r := Int(w);
    var a, b := (n - w) / 0x1_0000_0000, (w - r) / 0x1_0000_0000;
    hide Int;
    assert n - r == 0x1_0000_0000 * (a + b);
  }

  lemma OneLong(w: int, n: int)
    requires (n - w) % 0x1_0000_0000_0000_0000 == 0 && -0x8000_0000_0000_0000 <= n < 0x8000_0000_0000_0000
    ensures n == Long(w)
  {
    var r := Long(w);
    var a, b := (n - w) / 0x1_0000_0000_0000_0000, (w - r) / 0x1_0000_0000_0000_0000;
    hide Long;
    assert n - r == 0x1_0000_0000_0000_0000 * (a + b);
  }

  lemma DenotesGot(c: char, lflag: nat, a: Arg, n: int, f: Flags)
    requires Denotes(c, lflag, a, n) && Fits(a) && (f.lflag == 0 <==> lflag % 0x1_0000_0000 == 0)
    ensures n == if c == 'd' then GetInt(Slot(a), f.lflag) else if c == 'p' then Slot(a) else GetUint(Slot(a), f.lflag)
  {
    hide Int, Long;
    if c == 'd' && f.lflag == 0 {
      OneInt(a.w, n);
    } else if c == 'd' {
      OneLong(a.w, n);
    }
  }

  lemma DenotesWord(c: char, lflag: nat, a: Arg, n: int)
    requires Denotes(c, lflag, a, n) && Fits(a)
    ensures -0x1_0000_0000_0000_0000 < n < 0x1_0000_0000_0000_0000 && (n < 0 ==> c == 'd')
    ensures IsConversion(c) && c != '%' && c != 's'
  {
  }

  /** There is one such number for every argument that fits the conversion. */
  lemma DenotesOne(c: char, lflag: nat, a: Arg, n: int) returns (m: int)
    requires Fits(a) && (c == 'p' || (a.Word? && (c == 'd' || c == 'u' || c == 'o' || c == 'x')))
    ensures Denotes(c, lflag, a, m) && (Denotes(c, lflag, a, n) ==> m == n)
  {
    var l := if lflag % 0x1_0000_0000 == 0 then 0 else 1;
    m := if c == 'd' then GetInt(Slot(a), l) else if c == 'p' then Slot(a) else GetUint(Slot(a), l);
    var f := PLAIN.(lflag := l);
    if Denotes(c, lflag, a, n) {
      DenotesGot(c, lflag, a, n, f);
    }
  }

  /** %u, %o and %x with any padding, width and length. */
  lemma FormatThenParse(padc: char, width: nat, lflag: nat, c: char, w: nat, num: nat)
    requires PadChar(padc) && w < WORD && (c == 'u' || c == 'o' || c == 'x')
    requires num == if lflag % 0x1_0000_0000 == 0 then w % 0x1_0000_0000 else w
    ensures var s, f := "%" + Written(padc, width, 0, lflag, [c] + "\0"), Meant(padc, width, 0, lflag);
            var base := if c == 'u' then 10 else if c == 'o' then 8 else 16;
            Terminated(s) && var o := Formatted(s, 0, [Word(w)]);
            && o.Printed? && o.rest == []
            && (Parsed(o.text + "\0", base) == Reading(num, |o.text|, true) <==>
                  ReadsBack(num, base, false, padc, f.width))
            && (Legible(num, base, false, padc, f.width) ==>
                  Parsed(o.text + "\0", base) == Reading(Long(num), |o.text|, num < WORD / 2))
  {
    var f := Meant(padc, width, 0, lflag);
    var base := if c == 'u' then 10 else if c == 'o' then 8 else 16;
    LongFlag(padc, width, 0, lflag);
    assert Denotes(c, lflag, Word(w), num);
    DenotesGot(c, lflag, Word(w), num, f);
    assert WordText(c, f, w) == Padded(num, base, f.width, padc);
    hide Parsed, Digits, Written, Formatted, Scan, Padded, Terminated, Meant, WordText, GetUint;
    hide Legible, ReadsBack, Denotes;
    WordDirective(padc, width, lflag, c, w);
    PrintThenParse(num, base, f.width, padc);
  }

  lemma DecimalThenParse(n: int, f: Flags)
    requires PadChar(f.padc) && -(WORD / 2) <= n < WORD / 2
    ensures var s, num := Decimal(n, f), if n < 0 then -n else n;
            && (Parsed(s + "\0", 10) == Reading(n, |s|, true) <==> ReadsBack(num, 10, n < 0, f.padc, f.width))
            && (Legible(num, 10, n < 0, f.padc, f.width) ==>
                  Parsed(s + "\0", 10) == Reading(n, |s|, num < WORD / 2))
  {
    hide Parsed, Padded, Legible, ReadsBack;
    if n < 0 {
      PrintThenParseNegative(-n, f.width, f.padc);
      assert 0 - (-n) == n;
    } else {
      PrintThenParse(n, 10, f.width, f.padc);
    }
  }

  /** %d of any number: with an l of the long that has the bits of w, without
      of the int that has the low bits. */
  lemma FormatThenParseSigned(padc: char, width: nat, lflag: nat, w: nat, n: int)
    requires PadChar(padc) && w < WORD
    requires if lflag % 0x1_0000_0000 == 0 then (n - w) % 0x1_0000_0000 == 0 && -0x8000_0000 <= n < 0x8000_0000
             else (n - w) % 0x1_0000_0000_0000_0000 == 0 && -0x8000_0000_0000_0000 <= n < 0x8000_0000_0000_0000
    ensures var s, f := "%" + Written(padc, width, 0, lflag, "d" + "\0"), Meant(padc, width, 0, lflag);
            var num := if n < 0 then -n else n;
            Terminated(s) && var o := Formatted(s, 0, [Word(w)]);
            && o.Printed? && o.rest == []
            && (Parsed(o.text + "\0", 10) == Reading(n, |o.text|, true) <==>
                  ReadsBack(num, 10, n < 0, padc, f.width))
            && (Legible(num, 10, n < 0, padc, f.width) ==>
                  Parsed(o.text + "\0", 10) == Reading(n, |o.text|, num < WORD / 2))
  {
    var f := Meant(padc, width, 0, lflag);
    LongFlag(padc, width, 0, lflag);
    assert Denotes('d', lflag, Word(w), n);
    DenotesGot('d', lflag, Word(w), n, f);
    assert WordText('d', f, w) == Decimal(n, f);
    hide Parsed, Written, Formatted, Scan, Decimal, Terminated, Meant, WordText, GetInt, Legible, ReadsBack, Denotes;
    WordDirective(padc, width, lflag, 'd', w);
    DecimalThenParse(n, f);
  }

  /** %p, read with base 0. */
  lemma FormatThenParsePointer(padc: char, width: nat, w: nat)
    requires PadChar(padc) && w < WORD
    ensures var s, f := "%" + Written(padc, width, 0, 0, "p" + "\0"), Meant(padc, width, 0, 0);
            Terminated(s) && var o := Formatted(s, 0, [Word(w)]);
            && o.Printed? && o.rest == []
            && (Parsed(o.text + "\0", 0) == Reading(w, |o.text|, true) <==> ReadsBack(w, 16, true, padc, f.width))
            && (Legible(w, 16, true, padc, f.width) ==>
                  Parsed(o.text + "\0", 0) == Reading(Long(w), |o.text|, w < WORD / 2))
  {
    var f := Meant(padc, width, 0, 0);
    LongFlag(padc, width, 0, 0);
    assert WordText('p', f, w) == "0x" + Padded(w, 16, f.width, padc);
    hide Parsed, Written, Formatted, Scan, Padded, Terminated, Meant, WordText, Legible, ReadsBack;
    WordDirective(padc, width, 0, 'p', w);
    PrintThenParsePointer(w, f.width, padc);
  }

  lemma WidthMeant(padc: char, width: nat, lflag: nat)
    requires width < 0x8000_0000
    ensures Meant(padc, width, 0, lflag).width == if width > 0 then width else -1
  {
  }

  lemma NoPads(padc: char, n: int, m: int)
    requires n == m || (n <= 0 && m <= 0)
    ensures Repeat(padc, n) == Repeat(padc, m)
  {
  }

  lemma PadsAsWritten(num: nat, base: nat, width: nat, padc: char, wide: int)
    requires 2 <= base <= 16 && num < WORD && width < 0x8000_0000 && (wide == width || (width == 0 && wide == -1))
    ensures var ds := Digits(num, base); Padded(num, base, wide, padc) == Repeat(padc, width - |ds|) + ds
  {
    hide Digits;
    WordIsPow2();
    DigitsBound(num, base, 64);
    var n := |Digits(num, base)|;
    NoPads(padc, width - n, wide - n);
  }

  /** What stands before the digits, the base, and the number in digits. */
  ghost predicate Shape(c: char, n: int, lead: string, base: nat, m: nat) {
    && lead == (if c == 'p' then "0x" else if n < 0 then "-" else "")
    && base == (if c == 'o' then 8 else if c == 'u' || c == 'd' then 10 else 16)
    && m == if n < 0 then -n else n
  }

  lemma ConvertsNumber(c: char, lflag: nat, a: Arg, n: int, f: Flags, lead: string, base: nat, m: nat)
    requires Denotes(c, lflag, a, n) && Fits(a) && (f.lflag == 0 <==> lflag % 0x1_0000_0000 == 0)
    requires Shape(c, n, lead, base, m)
    ensures IsConversion(c) && c != '%' && m < WORD && 2 <= base <= 16
    ensures Converted(c, f, [a]) == Printed(lead + Padded(m, base, f.width, f.padc), [])
  {
    DenotesGot(c, lflag, a, n, f);
    DenotesWord(c, lflag, a, n);
    hide Padded, GetInt, GetUint, Denotes;
    var t := Padded(m, base, f.width, f.padc);
    assert "" + t == t;
  }

  lemma PaddedPrints(padc: char, width: nat, lflag: nat, c: char, a: Arg, lead: string, m: nat, base: nat)
    requires PadChar(padc) && width < 0x8000_0000 && Fits(a) && IsConversion(c) && c != '%'
    requires m < WORD && 2 <= base <= 16
    requires var f := Meant(padc, width, 0, lflag);
             Converted(c, f, [a]) == Printed(lead + Padded(m, base, f.width, padc), [])
    ensures var s, ds := "%" + Written(padc, width, 0, lflag, [c] + "\0"), Digits(m, base);
            Terminated(s) && Formatted(s, 0, [a]) == Printed(lead + (Repeat(padc, width - |ds|) + ds), [])
  {
    hide *;
    WidthMeant(padc, width, lflag);
    PadsAsWritten(m, base, width, padc, Meant(padc, width, 0, lflag).width);
    OneDirective(padc, width, 0, lflag, c, a);
  }

  /** What a number's directive prints: sign or 0x, pads, and the digits of the
      number that the argument denotes. */
  lemma NumberPrints(padc: char, width: nat, lflag: nat, c: char, a: Arg, n: int, lead: string, base: nat, m: nat)
    requires PadChar(padc) && width < 0x8000_0000 && Fits(a) && Denotes(c, lflag, a, n) && Shape(c, n, lead, base, m)
    ensures 2 <= base <= 16
    ensures var s, ds := "%" + Written(padc, width, 0, lflag, [c] + "\0"), Digits(m, base);
            Terminated(s) && Formatted(s, 0, [a]) == Printed(lead + (Repeat(padc, width - |ds|) + ds), [])
  {
    hide *;
    LongFlag(padc, width, 0, lflag);
    ConvertsNumber(c, lflag, a, n, Meant(padc, width, 0, lflag), lead, base, m);
    PaddedPrints(padc, width, lflag, c, a, lead, m, base);
  }

  /** r shows n characters of s in a field of a width, at its right end, or at
      its left with the - flag, and with the # flag '?' for every character
      from outside 0x20 to 0x7e. */
  ghost predicate Field(r: string, s: string, n: nat, width: int, padc: char, alt: bool)
    requires n <= |s|
  {
    && |r| == (if width > n then width else n)
    && var off := if padc == '-' then 0 else |r| - n;
    && forall i :: 0 <= i < |r| ==>
         r[i] == if i < off then padc else if i >= off + n then ' '
                 else if alt && !(0x20 <= s[i - off] as int <= 0x7e) then '?' else s[i - off]
  }

  lemma StringParts(s: string, f: Flags)
    requires 0 < |s| <= INT / 4 && -(INT / 2) <= f.width < INT / 2
    ensures var r, shown := StringField(s, f), Masked(Cut(s, f.precision), f.alt);
            var pads := f.width - |shown|;
            if pads < -(INT / 2) then |r| > |shown| && f.width < 0
            else r == if f.padc == '-' then shown + Repeat(' ', pads) else Repeat(f.padc, pads) + shown
  {
    var r, shown := StringField(s, f), Masked(Cut(s, f.precision), f.alt);
    var n := |shown|;
    var (left, width) := LeftPads(f, n);
    assert n < |s|;
    var before, after := Repeat(f.padc, left), Repeat(' ', Int(width - n));
    assert r == before + shown + after;
    hide Cut, Masked, StringField;
    if f.padc == '-' {
      assert r == shown + after;
    } else if f.width > 0 {
      assert |after| == 0 && r == before + shown;
    } else {
      assert |before| == 0;
    }
  }

  lemma ShownIs(s: string, f: Flags)
    requires |s| > 0
    ensures var shown := Masked(Cut(s, f.precision), f.alt);
            var n := if 0 <= f.precision < |s| - 1 then f.precision else |s| - 1;
            |shown| == n && forall i :: 0 <= i < n ==>
              shown[i] == if f.alt && !(0x20 <= s[i] as int <= 0x7e) then '?' else s[i]
  {
    hide Masked;
  }

  lemma ShownInField(r: string, shown: string, s: string, width: int, padc: char, alt: bool)
    requires |shown| <= |s|
    requires forall i :: 0 <= i < |shown| ==> shown[i] == if alt && !(0x20 <= s[i] as int <= 0x7e) then '?' else s[i]
    requires var pads := width - |shown|;
             r == if padc == '-' then shown + Repeat(' ', pads) else Repeat(padc, pads) + shown
    ensures Field(r, s, |shown|, width, padc, alt)
  {
  }

  lemma NoField(r: string, s: string, n: nat, width: int, padc: char, alt: bool)
    requires n <= |s| && |r| > n && width < 0
    ensures !Field(r, s, n, width, padc, alt)
  {
  }

  /** %s prints such a field, of the string cut to the precision, just when the
      width is not so far below zero that an int wraps round. */
  lemma StringWidth(s: string, f: Flags)
    requires 0 < |s| <= INT / 4 && -(INT / 2) <= f.width < INT / 2
    ensures var n := if 0 <= f.precision < |s| - 1 then f.precision else |s| - 1;
            Field(StringField(s, f), s, n, f.width, f.padc, f.alt) <==> f.width - n >= -0x8000_0000
  {
    var shown := Masked(Cut(s, f.precision), f.alt);
    StringParts(s, f);
    ShownIs(s, f);
    hide StringField, Masked, Cut, Field;
    if f.width - |shown| >= -(INT / 2) {
      ShownInField(StringField(s, f), shown, s, f.width, f.padc, f.alt);
    } else {
      NoField(StringField(s, f), s, |shown|, f.width, f.padc, f.alt);
    }
  }

  lemma StringMeant(padc: char, width: nat, precision: nat, lflag: nat)
    requires width < INT / 2 && precision < INT / 2
    ensures var f := Meant(padc, width, precision, lflag);
            && f.padc == padc && !f.alt && f.precision == (if precision > 0 then precision else -1)
            && -1 <= f.width && (f.width == width || (width == 0 && f.width == -1))
  {
  }

  lemma FieldWidth(r: string, s: string, n: nat, width: int, width': int, padc: char, alt: bool)
    requires n <= |s| && (width == width' || (width <= 0 && width' <= 0))
    ensures Field(r, s, n, width, padc, alt) <==> Field(r, s, n, width', padc, alt)
  {
  }

  lemma ConvertsString(f: Flags, a: Arg)
    requires Fits(a) && !a.Word?
    ensures Converted('s', f, [a]) == Printed(StringField(if a.Null? then "(null)\0" else a.s, f), [])
  {
  }

  /** %s, and "(null)" for NULL. */
  lemma StringPrints(padc: char, width: nat, precision: nat, lflag: nat, a: Arg)
    requires PadChar(padc) && width < 0x8000_0000 && precision < 0x8000_0000 && Fits(a) && !a.Word?
    requires a.Text? ==> |a.s| <= 0x4000_0000
    ensures var fmt, s := "%" + Written(padc, width, precision, lflag, "s" + "\0"), if a.Null? then "(null)\0" else a.s;
            var n := if 0 < precision < |s| - 1 then precision else |s| - 1;
            Terminated(fmt) && var o := Formatted(fmt, 0, [a]);
            o.Printed? && o.rest == [] && Field(o.text, s, n, width, padc, false)
  {
    var f, s := Meant(padc, width, precision, lflag), if a.Null? then "(null)\0" else a.s;
    var n := if 0 < precision < |s| - 1 then precision else |s| - 1;
    StringMeant(padc, width, precision, lflag);
    hide Written, Formatted, StringField, Meant, Converted, Field;
    StringWidth(s, f);
    FieldWidth(StringField(s, f), s, n, f.width, width, padc, false);
    ConvertsString(f, a);
    OneDirective(padc, width, precision, lflag, 's', a);
  }

  /** %c: the low byte, whatever the width. */
  lemma CharPrints(padc: char, width: nat, lflag: nat, w: nat)
    requires PadChar(padc) && w < WORD
    ensures var s := "%" + Written(padc, width, 0, lflag, "c" + "\0");
            Terminated(s) && Formatted(s, 0, [Word(w)]) == Printed([(w % 0x100) as char], [])
  {
    hide Written, Formatted, Meant;
    OneDirective(padc, width, 0, lflag, 'c', Word(w));
  }

  /** %% takes no argument. */
  lemma PercentPrints(padc: char, width: nat, precision: nat, lflag: nat, args: seq<Arg>)
    requires PadChar(padc) && Passable(args)
    ensures var s := "%" + Written(padc, width, precision, lflag, "%" + "\0");
            Terminated(s) && Formatted(s, 0, args) == Printed("%", args)
  {
    assert Formatted("\0", 0, args) == Printed("", args);
    hide Written, Formatted, Meant;
    DirectivePrints(padc, width, precision, lflag, '%', "\0", args);
  }

  /** Which directives find no argument of their type. */
  lemma StuckIff(padc: char, width: nat, precision: nat, lflag: nat, c: char, a: Arg)
    requires PadChar(padc) && Fits(a) && c in "cesduopx"
    ensures var s := "%" + Written(padc, width, precision, lflag, [c] + "\0");
            && Terminated(s) && Formatted(s, 0, []).Stuck?
            && (Formatted(s, 0, [a]).Stuck? <==> c != 'p' && (a.Word? <==> c == 's'))
  {
    hide Written, Formatted, Meant, StringField, WordText;
    ConversionSet(c);
    DirectivePrints(padc, width, precision, lflag, c, "\0", []);
    OneDirective(padc, width, precision, lflag, c, a);
  }

  lemma DigitsFit(num: nat)
    requires num < WORD
    ensures Padded(num, 10, -1, ' ') == Digits(num, 10)
  {
    PadsAsWritten(num, 10, 0, ' ', -1);
  }

  /** The message for a code or its negation, and the number of any other; the
      smallest int has no negation and keeps its sign. */
  lemma ErrorTextIs(err: int)
    requires -0x8000_0000 <= err < 0x8000_0000
    ensures var n := if err < 0 then -err else err;
            ErrorText(err) ==
              if n == 1 then "Resources temporarily unavailable"
              else if n == 2 then "No child process"
              else if n == 4 then "Bad address"
              else if n == 5 then "Invalid argument"
              else if n == 6 then "Not enough space"
              else if n == 7 then "Function not implemented"
              else if n == 8 then "Operation not permitted"
              else "error " + ((if n == 0x8000_0000 then "-" else "") + Digits(n, 10))
  {
    var n := if err < 0 then -err else err;
    hide Digits, Padded;
    DigitsFit(n);
    if n == 0x8000_0000 {
      assert ErrorText(err) == "error " + Decimal(-0x8000_0000, PLAIN);
    }
    assert "" + Digits(n, 10) == Digits(n, 10);
  }

  lemma PlainDirective(c: char, a: Arg)
    requires Fits(a) && IsConversion(c) && c != '%'
    ensures var s, o := "%" + [c] + "\0", Converted(c, PLAIN, [a]);
            Terminated(s) && Formatted(s, 0, [a]) == if o.Stuck? then Stuck else Printed(o.text, [])
  {
    assert "%" + [c] + "\0" == "%" + Written(' ', 0, 0, 0, [c] + "\0");
    assert Meant(' ', 0, 0, 0) == PLAIN;
    hide Written, Formatted, Converted, Terminated, Meant;
    OneDirective(' ', 0, 0, 0, c, a);
  }

  /** %e prints it of the int that the argument holds. */
  lemma ErrorPrints(w: nat, err: int)
    requires w < WORD && Denotes('d', 0, Word(w), err)
    ensures -0x8000_0000 <= err < 0x8000_0000
    ensures Terminated("%e\0") && Formatted("%e\0", 0, [Word(w)]) == Printed(ErrorText(err), [])
  {
    DenotesGot('d', 0, Word(w), err, PLAIN);
    assert "%" + ['e'] + "\0" == "%e\0";
    hide Formatted, Terminated, ErrorText;
    assert Converted('e', PLAIN, [Word(w)]) == Printed(ErrorText(err), []);
    hide Converted;
    PlainDirective('e', Word(w));
  }

  // ----- flags outside written directives -----

  /** * takes a width, and after . a precision, from an int. */
  lemma StarsScan(c: char, u: nat, v: nat, m: int, n: int, rest: seq<Arg>)
    requires u < WORD && v < WORD && Passable(rest) && c in "cesduopx%"
    requires Denotes('d', 0, Word(u), m) && Denotes('d', 0, Word(v), n)
    ensures var s, t, args := "%*" + [c] + "\0", "%*.*" + [c] + "\0", [Word(u), Word(v)] + rest;
            && Terminated(s) && Terminated(t)
            && Scan(s, 1, PLAIN, args) == Scanned(2, Flags(' ', m, -1, 0, false), [Word(v)] + rest)
            && Scan(t, 1, PLAIN, args) == Scanned(4, Flags(' ', if m < 0 then 0 else m, n, 0, false), rest)
  {
    var s, t, args := "%*" + [c] + "\0", "%*.*" + [c] + "\0", [Word(u), Word(v)] + rest;
    DenotesGot('d', 0, Word(u), m, PLAIN);
    DenotesGot('d', 0, Word(v), n, PLAIN);
    ConversionSet(c);
    assert Int(u) == m && Int(v) == n && !IsFlag(c);
    hide Denotes, Int, IsFlag;
    assert IsFlag('*') && IsFlag('.');
    assert args[1..] == [Word(v)] + rest && args[1..][1..] == rest;
    var f := PLAIN.(width := m);
    var g := Flags(' ', if m < 0 then 0 else m, -1, 0, false);
    StarStep(s, 1, PLAIN, args);
    LastStep(s, 2, f, args[1..]);
    StarStep(t, 1, PLAIN, args);
    FlagStep(t, 2, f, args[1..]);
    StarStep(t, 3, g, args[1..]);
    LastStep(t, 4, g.(precision := n), rest);
  }

  lemma {:induction false} PadsScan(s: string, i: nat, end: nat, f: Flags, args: seq<Arg>)
    requires Terminated(s) && Passable(args) && i <= end < |s| && !IsFlag(s[end])
    requires forall j :: i <= j < end ==> s[j] == '-' || s[j] == '0'
    ensures Scan(s, i, f, args) == Scanned(end, if i < end then f.(padc := s[end - 1]) else f, args)
    decreases end - i
  {
    hide Scan, Terminated, Passable;
    if i < end {
      FlagStep(s, i, f, args);
      PadsScan(s, i + 1, end, Flagged(f, s[i]), args);
    } else {
      LastStep(s, i, f, args);
    }
  }

  /** The last of several padding flags counts. */
  lemma LastPadWins(pads: string, c: char, args: seq<Arg>)
    requires pads != "" && forall i :: 0 <= i < |pads| ==> pads[i] == '-' || pads[i] == '0'
    requires OneOf(c, "cesduopx%") && Passable(args)
    ensures var s := "%" + pads + [c] + "\0";
            Terminated(s) &&
            Scan(s, 1, PLAIN, args) == Scanned(1 + |pads|, Flags(pads[|pads| - 1], -1, -1, 0, false), args)
  {
    var s, end := "%" + pads + [c] + "\0", 1 + |pads|;
    ConversionSet(c);
    hide OneOf, Scan;
    assert s[1..end] == pads && s[end] == c && s[end - 1] == pads[|pads| - 1];
    forall j | 1 <= j < end ensures s[j] == '-' || s[j] == '0' {
      assert s[j] == s[1..end][j - 1];
    }
    PadsScan(s, 1, end, PLAIN, args);
  }

  lemma AltScan(args: seq<Arg>)
    requires Passable(args)
    ensures Terminated("%#s\0") && Scan("%#s\0", 1, PLAIN, args) == Scanned(2, PLAIN.(alt := true), args)
    ensures Formatted("%#s\0", 3, []) == Printed("", [])
  {
    var f := PLAIN.(alt := true);
    assert Formatted("%#s\0", 3, []) == Printed("", []);
    hide Scan, Formatted;
    FlagStep("%#s\0", 1, PLAIN, args);
    LastStep("%#s\0", 2, f, args);
  }

  /** %#s shows '?' for what cannot be printed. */
  lemma AltMasks(a: Arg)
    requires Fits(a) && !a.Word? && (a.Text? ==> |a.s| <= 0x4000_0000)
    ensures var s := if a.Null? then "(null)\0" else a.s;
            Terminated("%#s\0") && var o := Formatted("%#s\0", 0, [a]);
            o.Printed? && o.rest == [] && Field(o.text, s, |s| - 1, -1, ' ', true)
  {
    var f, s := PLAIN.(alt := true), if a.Null? then "(null)\0" else a.s;
    hide Scan, StringField, Converted, Field, Formatted;
    AltScan([a]);
    ConvertsAt("%#s\0", 2, f, [a]);
    ConvertsString(f, a);
    StringWidth(s, f);
  }

  /** "%.0s": the 0 is taken for a flag, and no precision is set. */
  lemma ZeroIsFlag(args: seq<Arg>)
    requires Passable(args)
    ensures Terminated("%.0s\0")
    ensures Scan("%.0s\0", 1, PLAIN, args) == Scanned(3, PLAIN.(padc := '0', width := 0), args)
  {
    var f := PLAIN.(padc := '0', width := 0);
    assert Scan("%.0s\0", 3, f, args) == Scanned(3, f, args);
    assert Scan("%.0s\0", 2, PLAIN.(width := 0), args) == Scanned(3, f, args);
  }

  lemma Unpadded(s: string, f: Flags)
    requires 0 < |s| && f.width == 0 && !f.alt
    requires |Cut(s, f.precision)| <= INT / 2
    ensures StringField(s, f) == Cut(s, f.precision)
  {
    var cut := Cut(s, f.precision);
    assert Masked(cut, false) == cut;
  }

  lemma ZeroPrints(w: nat, s: string)
    requires w < WORD && Terminated(s) && |s| <= INT / 2
    ensures Terminated("%.0s\0") && Formatted("%.0s\0", 0, [Text(w, s)]) == Printed(Cut(s, -1), [])
  {
    var f := PLAIN.(padc := '0', width := 0);
    assert Formatted("%.0s\0", 4, []) == Printed("", []);
    hide Formatted, Scan;
    ZeroIsFlag([Text(w, s)]);
    ConvertsAt("%.0s\0", 3, f, [Text(w, s)]);
    Unpadded(s, f);
  }

  lemma PrecisionPrints(n: nat, w: nat, s: string)
    requires w < WORD && Terminated(s) && |s| <= INT / 2 && n > 0
    ensures var fmt := "%" + Written(' ', 0, n, 0, ['s'] + "\0");
            Terminated(fmt) && Formatted(fmt, 0, [Text(w, s)]) == Printed(Cut(s, Int(n)), [])
  {
    var f := Meant(' ', 0, n, 0);
    assert f == Flags(' ', 0, Int(n), 0, false);
    assert Formatted("\0", 0, []) == Printed("", []);
    hide Formatted, Scan, Digits, Written, Terminated, Meant;
    DirectivePrints(' ', 0, n, 0, 's', "\0", [Text(w, s)]);
    Unpadded(s, f);
  }

  /** So a precision cuts the string unless it is 0 or too big for an int. */
  lemma PrecisionCuts(n: nat, w: nat, s: string)
    requires w < WORD && Terminated(s) && |s| <= INT / 2
    ensures var fmt := "%" + ("." + (Digits(n, 10) + "s\0"));
            Terminated(fmt) && Formatted(fmt, 0, [Text(w, s)]).Printed? &&
            (Formatted(fmt, 0, [Text(w, s)]).text == s[..if n < |s| then n else |s| - 1] <==>
               0 < n < INT / 2 || |s| - 1 <= if Int(n) >= 0 then Int(n) else n)
  {
    if n > 0 {
      assert Repeat('l', 0) + (['s'] + "\0") == "s\0";
      PrecisionPrints(n, w, s);
    } else {
      assert "%" + ("." + (Digits(0, 10) + "s\0")) == "%.0s\0";
      ZeroPrints(w, s);
    }
    hide Formatted, Terminated;
  }

  /** An error without a text is printed as "error %d" prints it. */
  lemma ErrorIsFormatted(w: nat)
    requires w < WORD && 0 <= Int(w) && ErrorString(Int(w)) == ""
    ensures Terminated("error %d\0")
    ensures Formatted("error %d\0", 0, [Word(w)]) == Printed(ErrorText(Int(w)), [])
  {
    assert "error %d\0" == "error " + ("%" + Written(' ', 0, 0, 0, ['d'] + "\0"));
    DirectivePrints(' ', 0, 0, 0, 'd', "\0", [Word(w)]);
    TextIsVerbatim("error ", "%" + Written(' ', 0, 0, 0, ['d'] + "\0"), [Word(w)]);
  }

  /** An error code and its negation print the same. */
  lemma ErrorSignIsIgnored(err: int)
    requires -0x8000_0000 < err < 0x8000_0000
    ensures ErrorText(-err) == ErrorText(err)
  {
  }
}
