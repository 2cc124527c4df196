/** kvsprintf, arch/ia32/printf.c. */
module Format {
  import opened Basics
  import opened Machine
  import opened Numbers

  /** A string of C: its terminator follows it. */
  type CString = s: string | NoNul(s)

  /** Character i of a format and its terminator; there is nothing to be read behind that. */
  function At(f: CString, i: nat): char
    requires i <= |f|
  {
    if i < |f| then f[i] else '\0'
  }

  /** The variable arguments: the words they are passed in, the strings at their addresses, and the
      text that write_number_kfloat gives for the three words of a kfloat. */
  datatype Args = Args(word: nat -> Word, text: Word -> CString, float: (nat, nat) -> string)

  // ------------------------------------------------------------- directives

  predicate IsFlag(c: char) {
    c == '#' || c == '0' || c == ' '
  }

  predicate IsDigit(c: char) {
    '0' <= c <= '9'
  }

  /** Behind the flags that begin at i. */
  function FlagsEnd(f: CString, i: nat): (e: nat)
    requires i <= |f|
    ensures i <= e <= |f|
    decreases |f| - i
  {
    if IsFlag(At(f, i)) then FlagsEnd(f, i + 1) else i
  }

  /** Behind the digits that begin at i. */
  function DigitsEnd(f: CString, i: nat): (e: nat)
    requires i <= |f|
    ensures i <= e <= |f|
    decreases |f| - i
  {
    if IsDigit(At(f, i)) then DigitsEnd(f, i + 1) else i
  }

  /** Behind a number at i; a number does not begin with 0. */
  function NumberEnd(f: CString, i: nat): (e: nat)
    requires i <= |f|
    ensures i <= e <= |f|
  {
    if IsDigit(At(f, i)) && At(f, i) != '0' then DigitsEnd(f, i) else i
  }

  /** Behind the precision at i, if there is one. */
  function PrecisionEnd(f: CString, i: nat): (e: nat)
    requires i <= |f|
    ensures i <= e <= |f|
  {
    if At(f, i) == '.' then NumberEnd(f, i + 1) else i
  }

  /** The value of the precision at i, in 32 bits. */
  function Precision(f: CString, i: nat): Word
    requires i <= |f|
  {
    if At(f, i) == '.' then ReadDigits(f[i + 1..NumberEnd(f, i + 1)], 10) % 0x1_0000_0000 else 0
  }

  /** Behind the length at i, if there is one. */
  function LengthEnd(f: CString, i: nat): (e: nat)
    requires i <= |f|
    ensures i <= e <= |f|
  {
    if At(f, i) == 'h' then (if At(f, i + 1) == 'h' then i + 2 else i + 1)
    else if At(f, i) == 'l' then (if At(f, i + 1) == 'l' then i + 2 else i + 1)
    else i
  }

  /** The specifiers of integers. */
  predicate IsInteger(c: char) {
    c == 'X' || c == 'x' || c == 'o' || c == 'u' || c == 'd' || c == 'i'
  }

  predicate IsSpecifier(c: char) {
    c == '%' || c == 'c' || c == 's' || c == 'p' || IsInteger(c) || c == 'f' || c == 'F'
  }

  /** A directive: what stands between its % and `next`. */
  datatype Directive = Directive(flags: Flags, precision: Word, specifier: char, next: nat)

  /** A % is followed by a complete directive, or by something that ends in a character that no
      directive has there. */
  datatype Parsed = Complete(d: Directive) | Bad(c: char)

  function ParseFlags(f: CString, from: nat, to: nat, length: nat): Flags
    requires from <= to <= |f| && length <= |f|
  {
    var l := f[length..LengthEnd(f, length)];
    Flags('#' in f[from..to], '0' in f[from..to], ' ' in f[from..to], false, false, false, false,
          l == "hh", l == "h", l == "l", l == "ll")
  }

  /** Where the parts of the directive at i end: flags, width, precision, length. */
  datatype Parts = Parts(flags: nat, width: nat, precision: nat, length: nat)

  function PartsOf(f: CString, i: nat): (p: Parts)
    requires i <= |f|
    ensures i <= p.flags <= p.width <= p.precision <= p.length <= |f|
  {
    var a := FlagsEnd(f, i);
    var b := NumberEnd(f, a);
    var c := PrecisionEnd(f, b);
    Parts(a, b, c, LengthEnd(f, c))
  }

  /** The directive whose first character behind the % is at i. */
  function Parse(f: CString, i: nat): (p: Parsed)
    requires i <= |f|
    ensures p.Complete? ==> i < p.d.next <= |f| && IsSpecifier(p.d.specifier)
  {
    var p := PartsOf(f, i);
    var c := At(f, p.length);
    if IsSpecifier(c) then
      Complete(Directive(ParseFlags(f, i, p.flags, p.precision), Precision(f, p.width), c, p.length + 1))
    else
      Bad(c)
  }

  // -------------------------------------------------------------- rendering

  /** The flags with which a number is written. */
  function NumberFlags(d: Directive): Flags {
    match d.specifier
    case 'X' => d.flags.(upper := true, hex := true, unsigned := true)
    case 'x' => d.flags.(hex := true, unsigned := true)
    case 'o' => d.flags.(octal := true, unsigned := true)
    case 'u' => d.flags.(unsigned := true)
    case 'p' => d.flags.(alternate := true, hex := true, unsigned := true)
    case _ => d.flags
  }

  /** How many argument words a directive takes. */
  function Taken(d: Directive): nat {
    match d.specifier
    case '%' => 0
    case 'f' => 3
    case 'F' => 3
    case 'c' => 1
    case 's' => 1
    case 'p' => 1
    case _ => if d.flags.longLong then 2 else 1
  }

  /** What a directive writes, when its first argument is word n. */
  function Expansion(d: Directive, args: Args, n: nat): string {
    match d.specifier
    case '%' => "%"
    case 'c' => [(args.word(n) % 0x100) as char]
    case 's' => if args.word(n) == 0 then "(null)" else args.text(args.word(n))
    case 'p' => if args.word(n) == 0 then "(nil)" else Rendered(NumberFlags(d), args.word(n), d.precision)
    case 'f' => args.float(n, d.precision % 0x1_0000)
    case 'F' => args.float(n, d.precision % 0x1_0000)
    case _ => if d.flags.longLong then "" else Rendered(NumberFlags(d), args.word(n), d.precision)
  }

  const ERROR: CString := "<format error,"

  /** What is written for a directive that character c leaves incomplete. */
  function ErrorText(c: char): string {
    ERROR + [c] + ">"
  }

  /** What the format writes from position i on. */
  function Render(f: CString, i: nat, args: Args, n: nat): string
    requires i <= |f|
    decreases |f| - i
  {
    if i == |f| then ""
    else if f[i] != '%' then [f[i]] + Render(f, i + 1, args, n)
    else
      match Parse(f, i + 1)
      case Complete(d) => Expansion(d, args, n) + Render(f, d.next, args, n + Taken(d))
      case Bad(c) => ErrorText(c)
  }

  // ---------------------------------------------------------------- the code

  method WriteString(out: Output, s: CString)
    modifies out
    ensures out.text == old(out.text) + s
  {
    var i := 0;
    assert s[..0] == "";
    while At(s, i) != '\0'
      invariant i <= |s| && out.text == old(out.text) + s[..i]
      decreases |s| - i
    {
      assert s[..i + 1] == s[..i] + [s[i]];
      out.WriteCharacter(At(s, i));
      i := i + 1;
    }
    assert s[..|s|] == s;
  }

  method ScanFlags(f: CString, from: nat) returns (alternate: bool, zeroPad: bool, spacePad: bool, i: nat)
    requires from <= |f|
    ensures i == FlagsEnd(f, from)
    ensures alternate == ('#' in f[from..i]) && zeroPad == ('0' in f[from..i]) && spacePad == (' ' in f[from..i])
  {
    alternate, zeroPad, spacePad, i := false, false, false, from;
    while true
      invariant from <= i <= |f| && FlagsEnd(f, from) == FlagsEnd(f, i)
      invariant alternate == ('#' in f[from..i]) && zeroPad == ('0' in f[from..i]) && spacePad == (' ' in f[from..i])
      decreases |f| - i
    {
      var c := At(f, i);
      if c == '#' {
        alternate := true;
      } else if c == '0' {
        zeroPad := true;
      } else if c == ' ' {
        spacePad := true;
      } else {
        break;
      }
      assert f[from..i + 1] == f[from..i] + [c];
      i := i + 1;
    }
  }

  /** The loop over the digits of a width or precision. */
  method ScanDigits(f: CString, from: nat) returns (value: Word, i: nat)
    requires from <= |f|
    ensures i == DigitsEnd(f, from) && value == ReadDigits(f[from..i], 10) % 0x1_0000_0000
  {
    value, i := 0, from;
    while IsDigit(At(f, i))
      invariant from <= i <= |f| && DigitsEnd(f, from) == DigitsEnd(f, i)
      invariant value == ReadDigits(f[from..i], 10) % 0x1_0000_0000
      decreases |f| - i
    {
      OneDigit(f, from, i, value);
      value := (value * 10 + (At(f, i) - '0') as nat) % 0x1_0000_0000;
      i := i + 1;
    }
  }

  lemma OneDigit(f: CString, from: nat, i: nat, value: Word)
    requires from <= i < |f| && IsDigit(f[i]) && value == ReadDigits(f[from..i], 10) % 0x1_0000_0000
    ensures ReadDigits(f[from..i + 1], 10) % 0x1_0000_0000 == (value * 10 + (f[i] - '0') as nat) % 0x1_0000_0000
  {
    var s := f[from..i + 1];
    assert s[..|s| - 1] == f[from..i];
    Wrapped(ReadDigits(f[from..i], 10), (f[i] - '0') as nat);
  }

  lemma Wrapped(n: nat, d: nat)
    ensures (n % 0x1_0000_0000 * 10 + d) % 0x1_0000_0000 == (n * 10 + d) % 0x1_0000_0000
  {
    var q, r := n / 0x1_0000_0000, n % 0x1_0000_0000;
    assert n * 10 + d == (r * 10 + d) + 0x1_0000_0000 * (q * 10);
  }

  /** The width, whose value nothing uses, and the precision. */
  method ScanNumbers(f: CString, from: nat) returns (precision: Word, i: nat)
    requires from <= |f|
    ensures i == PrecisionEnd(f, NumberEnd(f, from)) && precision == Precision(f, NumberEnd(f, from))
  {
    precision, i := 0, from;
    if IsDigit(At(f, i)) && At(f, i) != '0' {
      var width;
      width, i := ScanDigits(f, i);
    }
    if At(f, i) == '.' {
      i := i + 1;
      if IsDigit(At(f, i)) && At(f, i) != '0' {
        precision, i := ScanDigits(f, i);
      } else {
        assert f[i..i] == "";
      }
    }
  }

  method ScanLength(f: CString, from: nat) returns (byte: bool, half: bool, long: bool, longLong: bool, i: nat)
    requires from <= |f|
    ensures i == LengthEnd(f, from)
    ensures var l := f[from..i];
            byte == (l == "hh") && half == (l == "h") && long == (l == "l") && longLong == (l == "ll")
  {
    byte, half, long, longLong, i := false, false, false, false, from;
    if At(f, i) == 'h' {
      i := i + 1;
      if At(f, i) == 'h' {
        byte := true;
        i := i + 1;
      } else {
        half := true;
      }
    } else if At(f, i) == 'l' {
      i := i + 1;
      if At(f, i) == 'l' {
        longLong := true;
        i := i + 1;
      } else {
        long := true;
      }
    }
  }

  /** The parts of a directive before its specifier. */
  method ScanDirective(f: CString, from: nat) returns (flags: Flags, precision: Word, i: nat)
    requires from <= |f|
    ensures var p := PartsOf(f, from);
            i == p.length && flags == ParseFlags(f, from, p.flags, p.precision) && precision == Precision(f, p.width)
  {
    hide FlagsEnd, NumberEnd, PrecisionEnd, LengthEnd, Precision;
    var alternate, zeroPad, spacePad, byte, half, long, longLong;
    alternate, zeroPad, spacePad, i := ScanFlags(f, from);
    precision, i := ScanNumbers(f, i);
    byte, half, long, longLong, i := ScanLength(f, i);
    flags := Flags(alternate, zeroPad, spacePad, false, false, false, false, byte, half, long, longLong);
  }

  /** The integers. */
  method WriteInteger(out: Output, d: Directive, args: Args, n: nat) returns (next: nat)
    requires IsInteger(d.specifier)
    modifies out
    ensures out.text == old(out.text) + Expansion(d, args, n) && next == n + Taken(d)
  {
    var flags := FallThrough(d);
    hide Rendered, NumberFlags;
    if flags.longLong {
      next := n + 2;
      assert out.text + "" == out.text;
    } else {
      next := n + 1;
      var _ := out.WriteNumber(args.word(n), flags, d.precision);
    }
  }

  /** The cases of the switch that fall through. */
  method FallThrough(d: Directive) returns (flags: Flags)
    requires IsInteger(d.specifier)
    ensures flags == NumberFlags(d)
  {
    var c := d.specifier;
    flags := d.flags;
    if c == 'X' {
      flags := flags.(upper := true);
    }
    if c == 'X' || c == 'x' {
      flags := flags.(hex := true);
    }
    if c == 'o' {
      flags := flags.(octal := true);
    }
    if c != 'd' && c != 'i' {
      flags := flags.(unsigned := true);
    }
  }

  /** The switch over the specifier. */
  method WriteDirective(out: Output, d: Directive, args: Args, n: nat) returns (next: nat)
    requires IsSpecifier(d.specifier)
    modifies out
    ensures out.text == old(out.text) + Expansion(d, args, n) && next == n + Taken(d)
  {
    hide Rendered;
    var c := d.specifier;
    if c == '%' {
      next := n;
      out.WriteCharacter(c);
    } else if c == 'c' {
      next := n + 1;
      out.WriteCharacter((args.word(n) % 0x100) as char);
    } else if c == 's' {
      next := n + 1;
      WriteString(out, if args.word(n) != 0 then args.text(args.word(n)) else "(null)");
    } else if c == 'p' {
      next := n + 1;
      if args.word(n) != 0 {
        var _ := out.WriteNumber(args.word(n), d.flags.(alternate := true, hex := true, unsigned := true), d.precision);
      } else {
        WriteString(out, "(nil)");
      }
    } else if c == 'f' || c == 'F' {
      next := n + 3;
      out.text := out.text + args.float(n, d.precision % 0x1_0000);
    } else {
      next := WriteInteger(out, d, args, n);
    }
  }

  lemma RenderPlain(f: CString, i: nat, args: Args, n: nat)
    requires i < |f| && f[i] != '%'
    ensures Render(f, i, args, n) == [f[i]] + Render(f, i + 1, args, n)
  {
  }

  lemma RenderComplete(f: CString, i: nat, args: Args, n: nat)
    requires i < |f| && f[i] == '%' && Parse(f, i + 1).Complete?
    ensures var d := Parse(f, i + 1).d;
            Render(f, i, args, n) == Expansion(d, args, n) + Render(f, d.next, args, n + Taken(d))
  {
    hide Parse, Expansion, Taken;
  }

  lemma RenderBad(f: CString, i: nat, args: Args, n: nat)
    requires i < |f| && f[i] == '%' && Parse(f, i + 1).Bad?
    ensures Render(f, i, args, n) == ErrorText(Parse(f, i + 1).c)
  {
    hide Parse, Expansion, Taken;
  }

  lemma RenderNothing(f: CString, args: Args, n: nat)
    ensures Render(f, |f|, args, n) == ""
  {
  }

  lemma RenderEnd(f: CString, args: Args, n: nat, s: string)
    ensures s + Render(f, |f|, args, n) == s
  {
    assert Render(f, |f|, args, n) == "";
  }

  /** What kvsprintf does at a %: it expands the directive, or reports the error. */
  method WriteNext(out: Output, f: CString, i: nat, args: Args, n: nat) returns (ok: bool, j: nat, m: nat)
    requires i < |f|
    modifies out
    ensures ok == Parse(f, i + 1).Complete?
    ensures ok ==> var d := Parse(f, i + 1).d;
                   out.text == old(out.text) + Expansion(d, args, n) && j == d.next && m == n + Taken(d)
    ensures !ok ==> out.text == old(out.text) + ErrorText(Parse(f, i + 1).c)
  {
    hide PartsOf, ParseFlags, Precision, Expansion, Taken, IsSpecifier;
    var flags, precision, k := ScanDirective(f, i + 1);
    var c := At(f, k);
    ok, j, m := IsSpecifier(c), k + 1, n;
    if ok {
      m := WriteDirective(out, Directive(flags, precision, c, j), args, n);
    } else {
      WriteString(out, ERROR);
      out.WriteCharacter(c);
      out.WriteCharacter('>');
    }
  }

  /** kvsprintf: the number of characters written before the terminator. */
  method Vsprintf(out: Output, f: CString, args: Args) returns (count: nat)
    requires out.text == ""
    modifies out
    ensures out.text == Render(f, 0, args, 0) && count == |out.text|
  {
    hide PartsOf, ParseFlags, Precision, Expansion, Taken, Render, IsSpecifier;
    var i: nat, n: nat := 0, 0;
    ghost var whole := Render(f, 0, args, 0);
    assert "" + whole == whole;
    while At(f, i) != '\0'
      invariant i <= |f| && out.text + Render(f, i, args, n) == whole
      decreases |f| - i
    {
      ghost var before := out.text;
      var c := At(f, i);
      if c != '%' {
        RenderPlain(f, i, args, n);
        Regroup(out.text, [c], Render(f, i + 1, args, n));
        out.WriteCharacter(c);
        i := i + 1;
      } else {
        var ok, j, m := WriteNext(out, f, i, args, n);
        if !ok {
          RenderBad(f, i, args, n);
          break;
        }
        RenderComplete(f, i, args, n);
        ghost var d := Parse(f, i + 1).d;
        Regroup(before, Expansion(d, args, n), Render(f, d.next, args, n + Taken(d)));
        i, n := j, m;
      }
    }
    if i == |f| {
      RenderEnd(f, args, n, out.text);
    }
    count := |out.text|;
  }

  // --------------------------------------------------- formats in sequence

  /** From position i on the format is made of plain characters and complete directives. */
  predicate Clean(f: CString, i: nat)
    requires i <= |f|
    decreases |f| - i
  {
    i == |f| ||
    if f[i] != '%' then Clean(f, i + 1) else Parse(f, i + 1).Complete? && Clean(f, Parse(f, i + 1).d.next)
  }

  /** The argument words that the directives from position i on take. */
  function Used(f: CString, i: nat): nat
    requires i <= |f|
    decreases |f| - i
  {
    if i == |f| then 0
    else if f[i] != '%' then Used(f, i + 1)
    else
      match Parse(f, i + 1)
      case Complete(d) => Taken(d) + Used(f, d.next)
      case Bad(c) => 0
  }

  // Text that follows does not change where a part ends.

  lemma {:induction false} FlagsEndLocal(f: CString, g: CString, i: nat)
    requires i <= |f| && FlagsEnd(f, i) < |f| && NoNul(f + g)
    ensures FlagsEnd(f + g, i) == FlagsEnd(f, i)
    decreases |f| - i
  {
    if IsFlag(At(f, i)) {
      FlagsEndLocal(f, g, i + 1);
    }
  }

  lemma {:induction false} DigitsEndLocal(f: CString, g: CString, i: nat)
    requires i <= |f| && DigitsEnd(f, i) < |f| && NoNul(f + g)
    ensures DigitsEnd(f + g, i) == DigitsEnd(f, i)
    decreases |f| - i
  {
    if IsDigit(At(f, i)) {
      DigitsEndLocal(f, g, i + 1);
    }
  }

  lemma NumberEndLocal(f: CString, g: CString, i: nat)
    requires i <= |f| && NumberEnd(f, i) < |f| && NoNul(f + g)
    ensures NumberEnd(f + g, i) == NumberEnd(f, i)
  {
    if IsDigit(At(f, i)) && At(f, i) != '0' {
      DigitsEndLocal(f, g, i);
    }
  }

  lemma PartsLocal(f: CString, g: CString, i: nat)
    requires i <= |f| && PartsOf(f, i).length < |f| && NoNul(f + g)
    ensures PartsOf(f + g, i) == PartsOf(f, i)
    ensures var p := PartsOf(f, i);
            && Precision(f + g, p.width) == Precision(f, p.width)
            && ParseFlags(f + g, i, p.flags, p.precision) == ParseFlags(f, i, p.flags, p.precision)
            && At(f + g, p.length) == At(f, p.length)
  {
    hide FlagsEnd, NumberEnd, ReadDigits, LengthEnd, ParseFlags;
    var p := PartsOf(f, i);
    FlagsEndLocal(f, g, i);
    NumberEndLocal(f, g, p.flags);
    if At(f, p.width) == '.' {
      NumberEndLocal(f, g, p.width + 1);
      assert (f + g)[p.width + 1..p.precision] == f[p.width + 1..p.precision];
    }
    LengthLocal(f, g, p.precision);
    ParseFlagsLocal(f, g, i, p.flags, p.precision);
  }

  lemma LengthLocal(f: CString, g: CString, i: nat)
    requires i <= |f| && LengthEnd(f, i) < |f| && NoNul(f + g)
    ensures LengthEnd(f + g, i) == LengthEnd(f, i)
  {
  }

  lemma ParseFlagsLocal(f: CString, g: CString, from: nat, to: nat, length: nat)
    requires from <= to <= |f| && length <= |f| && LengthEnd(f, length) < |f| && NoNul(f + g)
    ensures ParseFlags(f + g, from, to, length) == ParseFlags(f, from, to, length)
  {
    LengthLocal(f, g, length);
    hide LengthEnd;
    assert (f + g)[from..to] == f[from..to];
    assert (f + g)[length..LengthEnd(f, length)] == f[length..LengthEnd(f, length)];
  }

  lemma ParseLocal(f: CString, g: CString, i: nat)
    requires i <= |f| && Parse(f, i).Complete? && NoNul(f + g)
    ensures Parse(f + g, i) == Parse(f, i)
  {
    PartsLocal(f, g, i);
    hide PartsOf, ParseFlags, Precision, IsSpecifier;
  }

  // Text that precedes only moves the parts.

  lemma {:induction false} FlagsEndShift(f: CString, g: CString, j: nat)
    requires j <= |g| && NoNul(f + g)
    ensures FlagsEnd(f + g, |f| + j) == |f| + FlagsEnd(g, j)
    decreases |g| - j
  {
    if IsFlag(At(g, j)) {
      FlagsEndShift(f, g, j + 1);
    }
  }

  lemma {:induction false} DigitsEndShift(f: CString, g: CString, j: nat)
    requires j <= |g| && NoNul(f + g)
    ensures DigitsEnd(f + g, |f| + j) == |f| + DigitsEnd(g, j)
    decreases |g| - j
  {
    if IsDigit(At(g, j)) {
      DigitsEndShift(f, g, j + 1);
    }
  }

  lemma NumberEndShift(f: CString, g: CString, j: nat)
    requires j <= |g| && NoNul(f + g)
    ensures NumberEnd(f + g, |f| + j) == |f| + NumberEnd(g, j)
  {
    DigitsEndShift(f, g, j);
  }

  lemma PrecisionShift(f: CString, g: CString, j: nat)
    requires j <= |g| && NoNul(f + g)
    ensures PrecisionEnd(f + g, |f| + j) == |f| + PrecisionEnd(g, j) && Precision(f + g, |f| + j) == Precision(g, j)
  {
    if At(g, j) == '.' {
      NumberEndShift(f, g, j + 1);
      assert (f + g)[|f| + j + 1..|f| + NumberEnd(g, j + 1)] == g[j + 1..NumberEnd(g, j + 1)];
    }
    hide NumberEnd, ReadDigits;
  }

  lemma PartsShift(f: CString, g: CString, j: nat)
    requires j <= |g| && NoNul(f + g)
    ensures var p, q := PartsOf(g, j), PartsOf(f + g, |f| + j);
            && q == Parts(|f| + p.flags, |f| + p.width, |f| + p.precision, |f| + p.length)
            && Precision(f + g, q.width) == Precision(g, p.width)
            && ParseFlags(f + g, |f| + j, q.flags, q.precision) == ParseFlags(g, j, p.flags, p.precision)
            && At(f + g, q.length) == At(g, p.length)
  {
    hide FlagsEnd, NumberEnd, PrecisionEnd, LengthEnd, Precision, ParseFlags;
    var p := PartsOf(g, j);
    FlagsEndShift(f, g, j);
    NumberEndShift(f, g, p.flags);
    PrecisionShift(f, g, p.width);
    LengthShift(f, g, p.precision, f + g);
    ParseFlagsShift(f, g, j, p.flags, p.precision);
  }

  lemma ParseFlagsShift(f: CString, g: CString, from: nat, to: nat, length: nat)
    requires from <= to <= |g| && length <= |g| && NoNul(f + g)
    ensures ParseFlags(f + g, |f| + from, |f| + to, |f| + length) == ParseFlags(g, from, to, length)
  {
    LengthShift(f, g, length, f + g);
    hide LengthEnd;
    assert (f + g)[|f| + from..|f| + to] == g[from..to];
  }

  lemma LengthShift(f: CString, g: CString, j: nat, x: CString)
    requires j <= |g| && x == f + g
    ensures LengthEnd(x, |f| + j) == |f| + LengthEnd(g, j)
    ensures x[|f| + j..LengthEnd(x, |f| + j)] == g[j..LengthEnd(g, j)]
    ensures At(x, LengthEnd(x, |f| + j)) == At(g, LengthEnd(g, j))
  {
  }

  lemma ParseShift(f: CString, g: CString, j: nat)
    requires j <= |g| && NoNul(f + g)
    ensures Parse(f + g, |f| + j) == match Parse(g, j)
                                     case Complete(d) => Complete(d.(next := |f| + d.next))
                                     case Bad(c) => Bad(c)
  {
    PartsShift(f, g, j);
    hide PartsOf, ParseFlags, Precision, IsSpecifier;
  }

  lemma {:induction false} RenderShift(f: CString, g: CString, j: nat, args: Args, n: nat)
    requires j <= |g| && NoNul(f + g)
    ensures Render(f + g, |f| + j, args, n) == Render(g, j, args, n)
    decreases |g| - j
  {
    hide Render, Parse, Expansion, Taken;
    if j == |g| {
      RenderNothing(f + g, args, n);
      RenderNothing(g, args, n);
    } else {
      assert (f + g)[|f| + j] == g[j];
      ParseShift(f, g, j + 1);
      if g[j] != '%' {
        RenderPlain(f + g, |f| + j, args, n);
        RenderPlain(g, j, args, n);
        RenderShift(f, g, j + 1, args, n);
      } else if Parse(g, j + 1).Complete? {
        var d := Parse(g, j + 1).d;
        RenderComplete(f + g, |f| + j, args, n);
        RenderComplete(g, j, args, n);
        RenderShift(f, g, d.next, args, n + Taken(d));
        SameExpansion(d, d.(next := |f| + d.next), args, n);
      } else {
        RenderBad(f + g, |f| + j, args, n);
        RenderBad(g, j, args, n);
      }
    }
  }

  lemma SameExpansion(d: Directive, e: Directive, args: Args, n: nat)
    requires e == d.(next := e.next)
    ensures Expansion(e, args, n) == Expansion(d, args, n) && Taken(e) == Taken(d)
  {
    hide Rendered;
  }

  lemma {:induction false} RenderLocal(f: CString, g: CString, i: nat, args: Args, n: nat)
    requires i <= |f| && Clean(f, i) && NoNul(f + g)
    ensures Render(f + g, i, args, n) == Render(f, i, args, n) + Render(f + g, |f|, args, n + Used(f, i))
    decreases |f| - i
  {
    hide Render, Parse, Expansion, Taken, Clean, Used, NoNul;
    CleanStep(f, i);
    if i == |f| {
      LocalNothing(f, g, args, n);
    } else if f[i] != '%' {
      RenderLocal(f, g, i + 1, args, n);
      LocalPlain(f, g, i, args, n, Render(f + g, |f|, args, n + Used(f, i)));
    } else {
      var d := Parse(f, i + 1).d;
      RenderLocal(f, g, d.next, args, n + Taken(d));
      assert n + Taken(d) + Used(f, d.next) == n + Used(f, i);
      LocalComplete(f, g, i, args, n, Render(f + g, |f|, args, n + Used(f, i)));
    }
  }

  lemma LocalNothing(f: CString, g: CString, args: Args, n: nat)
    requires NoNul(f + g)
    ensures Render(f + g, |f|, args, n) == Render(f, |f|, args, n) + Render(f + g, |f|, args, n)
  {
    hide Render;
    RenderNothing(f, args, n);
  }

  lemma LocalPlain(f: CString, g: CString, i: nat, args: Args, n: nat, rest: string)
    requires i < |f| && f[i] != '%' && NoNul(f + g)
    requires Render(f + g, i + 1, args, n) == Render(f, i + 1, args, n) + rest
    ensures Render(f + g, i, args, n) == Render(f, i, args, n) + rest
  {
    hide Render;
    assert (f + g)[i] == f[i];
    RenderPlain(f, i, args, n);
    RenderPlain(f + g, i, args, n);
    Regroup([f[i]], Render(f, i + 1, args, n), rest);
  }

  lemma LocalComplete(f: CString, g: CString, i: nat, args: Args, n: nat, rest: string)
    requires i < |f| && f[i] == '%' && Parse(f, i + 1).Complete? && NoNul(f + g)
    requires var d := Parse(f, i + 1).d;
             Render(f + g, d.next, args, n + Taken(d)) == Render(f, d.next, args, n + Taken(d)) + rest
    ensures Render(f + g, i, args, n) == Render(f, i, args, n) + rest
  {
    hide Render, Parse, Expansion, Taken;
    assert (f + g)[i] == f[i];
    var d := Parse(f, i + 1).d;
    ParseLocal(f, g, i + 1);
    RenderComplete(f, i, args, n);
    RenderComplete(f + g, i, args, n);
    Regroup(Expansion(d, args, n), Render(f, d.next, args, n + Taken(d)), rest);
  }

  lemma CleanStep(f: CString, i: nat)
    requires i <= |f| && Clean(f, i)
    ensures i == |f| ==> Used(f, i) == 0
    ensures i < |f| && f[i] != '%' ==> Clean(f, i + 1) && Used(f, i) == Used(f, i + 1)
    ensures i < |f| && f[i] == '%' ==>
              && Parse(f, i + 1).Complete? && Clean(f, Parse(f, i + 1).d.next)
              && Used(f, i) == Taken(Parse(f, i + 1).d) + Used(f, Parse(f, i + 1).d.next)
  {
    hide Parse, Taken;
  }

  /** Two formats in sequence write what they write one after the other, if the first one's
      directives are complete. */
  lemma RenderConcat(f: CString, g: CString, args: Args, n: nat)
    requires Clean(f, 0) && NoNul(f + g)
    ensures Render(f + g, 0, args, n) == Render(f, 0, args, n) + Render(g, 0, args, n + Used(f, 0))
  {
    RenderLocal(f, g, 0, args, n);
    RenderShift(f, g, 0, args, n + Used(f, 0));
  }

  /** Behind an incomplete directive nothing more is written. */
  lemma ErrorEnds(f: CString, g: CString, args: Args, n: nat)
    requires Clean(f, 0) && g != "" && g[0] == '%' && Parse(g, 1).Bad? && NoNul(f + g)
    ensures Render(f + g, 0, args, n) == Render(f, 0, args, n) + ErrorText(Parse(g, 1).c)
  {
    hide Render, Parse, Clean, Used;
    RenderConcat(f, g, args, n);
    RenderBad(g, 0, args, n + Used(f, 0));
  }

  /** Every % doubled. */
  function Doubled(s: string): string {
    if s == "" then "" else OneOrTwo(s[0]) + Doubled(s[1..])
  }

  function OneOrTwo(c: char): string {
    if c == '%' then "%%" else [c]
  }

  lemma {:induction false} DoubledNoNul(s: string)
    requires NoNul(s)
    ensures NoNul(Doubled(s))
  {
    if s != "" {
      DoubledNoNul(s[1..]);
    }
  }

  lemma OneDoubled(c: char, args: Args, n: nat)
    requires c != '\0'
    ensures var f := OneOrTwo(c);
            NoNul(f) && Clean(f, 0) && Used(f, 0) == 0 && Render(f, 0, args, n) == [c]
  {
    if c == '%' {
      DoubleParsed();
      var f: CString := "%%";
      RenderComplete(f, 0, args, n);
      assert Render(f, 2, args, n) == "";
    } else {
      var f: CString := [c];
      RenderPlain(f, 0, args, n);
      assert Render(f, 1, args, n) == "";
    }
    hide Parse;
  }

  lemma DoubleParsed()
    ensures var f: CString := "%%"; Parse(f, 1).Complete? && Parse(f, 1).d.next == 2 && Parse(f, 1).d.specifier == '%'
  {
    var f: CString := "%%";
    assert PartsOf(f, 1) == Parts(1, 1, 1, 1);
  }

  /** Any text with every % doubled is a format that writes the text, whatever the arguments. */
  lemma {:induction false} DoubledRenders(s: CString, args: Args, n: nat)
    ensures NoNul(Doubled(s)) && Render(Doubled(s), 0, args, n) == s
  {
    hide Render, Clean, Used;
    DoubledNoNul(s);
    if s == "" {
      RenderEmpty(args, n);
    } else {
      var first, rest := OneOrTwo(s[0]), Doubled(s[1..]);
      OneDoubled(s[0], args, n);
      DoubledRenders(s[1..], args, n);
      RenderConcat(first, rest, args, n);
      assert Doubled(s) == first + rest && s == [s[0]] + s[1..];
    }
  }

  lemma RenderEmpty(args: Args, n: nat)
    ensures Render("", 0, args, n) == ""
  {
  }

  // ----------------------------------------------------------------- width

  lemma {:induction false} FlagsRun(f: CString, i: nat, e: nat)
    requires i <= e <= |f| && (forall k :: i <= k < e ==> IsFlag(f[k])) && !IsFlag(At(f, e))
    ensures FlagsEnd(f, i) == e
    decreases e - i
  {
    if i < e {
      FlagsRun(f, i + 1, e);
    }
  }

  lemma {:induction false} DigitsRun(f: CString, i: nat, e: nat)
    requires i <= e <= |f| && (forall k :: i <= k < e ==> IsDigit(f[k])) && !IsDigit(At(f, e))
    ensures DigitsEnd(f, i) == e
    decreases e - i
  {
    if i < e {
      DigitsRun(f, i + 1, e);
    }
  }

  /** A % and flags. */
  predicate IsHead(head: CString) {
    head != "" && head[0] == '%' && forall k :: 1 <= k < |head| ==> IsFlag(head[k])
  }

  /** Digits that do not begin with 0, or none. */
  predicate IsWidth(w: CString) {
    (forall k :: 0 <= k < |w| ==> IsDigit(w[k])) && (w != "" ==> w[0] != '0')
  }

  /** The directive that `head` begins and `rest` completes. */
  function Completed(head: CString, rest: CString): Parsed
    requires head != ""
  {
    var l := PrecisionEnd(rest, 0);
    var e := LengthEnd(rest, l);
    var m := rest[l..e];
    if IsSpecifier(At(rest, e)) then
      Complete(Directive(Flags('#' in head[1..], '0' in head[1..], ' ' in head[1..], false, false, false, false,
                               m == "hh", m == "h", m == "l", m == "ll"), Precision(rest, 0), At(rest, e), e + 1))
    else
      Bad(At(rest, e))
  }

  lemma HeadEnds(head: CString, w: CString, rest: CString, x: CString)
    requires IsHead(head) && IsWidth(w) && x == head + w + rest
    requires !IsFlag(At(rest, 0)) && !IsDigit(At(rest, 0))
    ensures FlagsEnd(x, 1) == |head| && NumberEnd(x, |head|) == |head + w|
  {
    assert At(x, |head + w|) == At(rest, 0);
    assert forall k :: |head| <= k < |head + w| ==> x[k] == w[k - |head|];
    FlagsRun(x, 1, |head|);
    DigitsRun(x, |head|, |head + w|);
  }

  function Moved(c: Parsed, offset: nat): Parsed {
    match c
    case Complete(d) => Complete(d.(next := offset + d.next))
    case Bad(b) => c
  }

  /** A width between flags and the rest of a directive only moves the rest. */
  lemma HeadParsed(head: CString, w: CString, rest: CString, p: CString, x: CString)
    requires IsHead(head) && IsWidth(w) && p == head + w && x == p + rest
    requires !IsFlag(At(rest, 0)) && !IsDigit(At(rest, 0))
    ensures Parse(x, 1) == Moved(Completed(head, rest), |p|)
  {
    hide FlagsEnd, NumberEnd, PrecisionEnd, LengthEnd, Precision, IsSpecifier, IsHead, IsWidth, NoNul, At;
    HeadEnds(head, w, rest, x);
    HeadFlags(head, w, rest, x);
    PrecisionShift(p, rest, 0);
    LengthShift(p, rest, PrecisionEnd(rest, 0), x);
  }

  lemma HeadFlags(head: CString, w: CString, rest: CString, x: CString)
    requires IsHead(head) && x == head + w + rest
    ensures x[1..|head|] == head[1..]
  {
  }

  /** A width changes nothing. */
  lemma WidthIgnored(head: CString, w: CString, rest: CString, x: CString, y: CString, args: Args, n: nat)
    requires IsHead(head) && IsWidth(w) && x == head + w + rest && y == head + rest
    requires !IsFlag(At(rest, 0)) && !IsDigit(At(rest, 0))
    ensures Render(x, 0, args, n) == Render(y, 0, args, n)
  {
    var p: CString := head + w;
    hide Render, Parse, Completed, Expansion, Taken, IsHead, IsWidth, IsFlag, IsDigit, At;
    EmptyWidth(head);
    FirstPercent(head, w, rest, x);
    FirstPercent(head, "", rest, y);
    HeadParsed(head, w, rest, p, x);
    HeadParsed(head, "", rest, head, y);
    CompletedWithin(head, rest);
    CompletedRenders(p, rest, Completed(head, rest), args, n);
    CompletedRenders(head, rest, Completed(head, rest), args, n);
  }

  lemma EmptyWidth(head: CString)
    ensures IsWidth("") && head + "" == head
  {
  }

  lemma FirstPercent(head: CString, w: CString, rest: CString, x: CString)
    requires IsHead(head) && x == head + w + rest
    ensures x != "" && x[0] == '%'
  {
  }

  /** What a completed directive at the start of x writes depends on what completes it alone. */
  lemma CompletedRenders(p: CString, rest: CString, c: Parsed, args: Args, n: nat)
    requires NoNul(p + rest) && p + rest != "" && (p + rest)[0] == '%'
    requires Parse(p + rest, 1) == Moved(c, |p|) && (c.Complete? ==> c.d.next <= |rest|)
    ensures Render(p + rest, 0, args, n) == Outcome(c, rest, args, n)
  {
    hide Render, Parse, Expansion, Taken, NoNul, ErrorText;
    if c.Complete? {
      CompleteRenders(p, rest, c.d, args, n);
    } else {
      RenderBad(p + rest, 0, args, n);
    }
  }

  lemma CompleteRenders(p: CString, rest: CString, d: Directive, args: Args, n: nat)
    requires NoNul(p + rest) && p + rest != "" && (p + rest)[0] == '%' && d.next <= |rest|
    requires Parse(p + rest, 1) == Complete(d.(next := |p| + d.next))
    ensures Render(p + rest, 0, args, n) == Expansion(d, args, n) + Render(rest, d.next, args, n + Taken(d))
  {
    hide Render, Parse, Expansion, Taken, NoNul;
    RenderComplete(p + rest, 0, args, n);
    SameExpansion(d, d.(next := |p| + d.next), args, n);
    RenderShift(p, rest, d.next, args, n + Taken(d));
  }

  function Outcome(c: Parsed, rest: CString, args: Args, n: nat): string
    requires c.Complete? ==> c.d.next <= |rest|
  {
    if c.Complete? then Expansion(c.d, args, n) + Render(rest, c.d.next, args, n + Taken(c.d))
    else ErrorText(c.c)
  }

  lemma CompletedWithin(head: CString, rest: CString)
    requires head != ""
    ensures Completed(head, rest).Complete? ==> Completed(head, rest).d.next <= |rest|
  {
  }

  /** The word in which width and precision are handed on: its low six bits, which a number's
      padding uses, are those of the precision. */
  lemma PaddingBits(width: bv32, precision: bv32)
    ensures ((width << 16) | precision) & 0x3F == precision & 0x3F
  {
  }
}
