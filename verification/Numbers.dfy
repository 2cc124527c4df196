/** write_number_kuint32, arch/ia32/printf.c: a number is written from its last character to its
    first into a fixed buffer and read out in reverse. */
module Numbers {
  import opened Basics
  import opened Machine

  /** The flag bits of a directive. Each of the length bits stands for its own modifier. */
  datatype Flags = Flags(alternate: bool, zeroPad: bool, spacePad: bool, unsigned: bool, octal: bool, hex: bool,
                         upper: bool, byte: bool, half: bool, long: bool, longLong: bool)

  type Base = b: nat | b == 8 || b == 10 || b == 16 witness 10

  function Digit(d: nat, upper: bool): (c: char)
    requires d < 16
    ensures c != '\0' && c != ' ' && c != '-' && c != 'x' && c != 'X'
  {
    if d < 10 then '0' + d as char else if upper then 'A' + (d - 10) as char else 'a' + (d - 10) as char
  }

  function DigitValue(c: char): (d: nat)
    ensures d < 16
  {
    if '0' <= c <= '9' then (c - '0') as nat
    else if 'A' <= c <= 'F' then (c - 'A') as nat + 10
    else if 'a' <= c <= 'f' then (c - 'a') as nat + 10
    else 0
  }

  lemma DigitRead(d: nat, upper: bool)
    requires d < 16
    ensures DigitValue(Digit(d, upper)) == d
  {
  }

  /** Neither a terminator nor anything that stands before digits. */
  predicate Plain(s: string) {
    forall i :: 0 <= i < |s| ==> s[i] != '\0' && s[i] != ' ' && s[i] != '-' && s[i] != 'x' && s[i] != 'X'
  }

  function Digits(n: nat, base: Base, upper: bool): (s: string)
    ensures |s| >= 1 && Plain(s)
  {
    if n < base then [Digit(n, upper)] else Digits(n / base, base, upper) + [Digit(n % base, upper)]
  }

  function Repeat(c: char, n: nat): (s: string)
    ensures |s| == n && forall i :: 0 <= i < n ==> s[i] == c
  {
    seq(n, i => c)
  }

  function Radix(f: Flags): Base {
    if f.hex then 16 else if f.octal then 8 else 10
  }

  predicate Upper(f: Flags) {
    f.hex && f.upper
  }

  /** A negative number is written as such only in a signed decimal directive. */
  predicate Negative(f: Flags, number: Word) {
    !f.hex && !f.octal && !f.unsigned && number >= 0x8000_0000
  }

  /** The magnitude that is written: a length modifier cuts it off after the sign is gone. */
  function Magnitude(f: Flags, number: Word): Word {
    var m := if Negative(f, number) then 0x1_0000_0000 - number else number;
    if f.byte then m % 0x100 else if f.half then m % 0x1_0000 else m
  }

  function Sign(negative: bool): string {
    if negative then "-" else ""
  }

  function Prefix(f: Flags): string {
    if f.alternate && f.hex then (if f.upper then "0X" else "0x") else ""
  }

  function Padding(f: Flags, number: Word, precision: nat): nat {
    var n := |Digits(Magnitude(f, number), Radix(f), Upper(f))|;
    if precision % 64 > n then precision % 64 - n else 0
  }

  /** The text of a number. */
  function Rendered(f: Flags, number: Word, precision: nat): string {
    var pad := Padding(f, number, precision);
    Repeat(' ', if f.zeroPad then 0 else pad)
    + Sign(Negative(f, number))
    + Prefix(f)
    + Repeat('0', if f.zeroPad then pad else 0)
    + Digits(Magnitude(f, number), Radix(f), Upper(f))
  }

  // ------------------------------------------------------- reading it back

  function ReadDigits(s: string, base: Base): nat {
    if s == "" then 0 else ReadDigits(s[..|s| - 1], base) * base + DigitValue(s[|s| - 1])
  }

  function SkipSpaces(s: string): string {
    if s != "" && s[0] == ' ' then SkipSpaces(s[1..]) else s
  }

  /** The digits of a number, behind the 0x that a hexadecimal one may have. */
  function ReadUnsigned(s: string, base: Base): nat {
    if base == 16 && |s| >= 2 && s[0] == '0' && (s[1] == 'x' || s[1] == 'X') then ReadDigits(s[2..], base)
    else ReadDigits(s, base)
  }

  /** The number a text stands for in a base. */
  function ReadNumber(s: string, base: Base): int {
    var t := SkipSpaces(s);
    if t != "" && t[0] == '-' then -(ReadUnsigned(t[1..], base) as int) else ReadUnsigned(t, base)
  }

  /** What the bits of the argument mean to the directive. */
  function Meaning(f: Flags, number: Word): int {
    if Negative(f, number) then number - 0x1_0000_0000 else number
  }

  lemma {:induction false} DigitsRead(n: nat, base: Base, upper: bool)
    ensures ReadDigits(Digits(n, base, upper), base) == n
  {
    var s := Digits(n, base, upper);
    if n < base {
      DigitRead(n, upper);
      assert s[..|s| - 1] == "";
    } else {
      DigitsRead(n / base, base, upper);
      DigitRead(n % base, upper);
      assert s[..|s| - 1] == Digits(n / base, base, upper);
    }
  }

  lemma {:induction false} ZerosRead(k: nat, s: string, base: Base)
    ensures ReadDigits(Repeat('0', k) + s, base) == ReadDigits(s, base)
  {
    var t := Repeat('0', k) + s;
    if s != "" {
      assert t[..|t| - 1] == Repeat('0', k) + s[..|s| - 1];
      ZerosRead(k, s[..|s| - 1], base);
    } else if k > 0 {
      assert t[..|t| - 1] == Repeat('0', k - 1) + s;
      ZerosRead(k - 1, s, base);
    } else {
      assert t == s;
    }
  }

  lemma {:induction false} SpacesSkipped(k: nat, s: string)
    requires s != "" && s[0] != ' '
    ensures SkipSpaces(Repeat(' ', k) + s) == s
  {
    var t := Repeat(' ', k) + s;
    if k > 0 {
      assert t[1..] == Repeat(' ', k - 1) + s;
      SpacesSkipped(k - 1, s);
    } else {
      assert t == s;
    }
  }

  /** The part behind the sign reads as the magnitude. */
  lemma UnsignedRead(f: Flags, number: Word, zeros: nat)
    ensures var t := Prefix(f) + Repeat('0', zeros) + Digits(Magnitude(f, number), Radix(f), Upper(f));
            t != "" && t[0] != ' ' && t[0] != '-' && ReadUnsigned(t, Radix(f)) == Magnitude(f, number)
  {
    hide Digits, ReadDigits, Magnitude, ReadUnsigned, Repeat, Plain, Prefix;
    var m, base := Magnitude(f, number), Radix(f);
    var d := Digits(m, base, Upper(f));
    DigitsRead(m, base, Upper(f));
    ZerosRead(zeros, d, base);
    TailPlain(zeros, d);
    if f.alternate && f.hex {
      PrefixRead(f, Repeat('0', zeros) + d);
      assert Prefix(f) + (Repeat('0', zeros) + d) == Prefix(f) + Repeat('0', zeros) + d;
    } else {
      NoPrefixRead(f, Repeat('0', zeros) + d, base);
      assert Prefix(f) + (Repeat('0', zeros) + d) == Prefix(f) + Repeat('0', zeros) + d;
    }
  }

  lemma TailPlain(zeros: nat, d: string)
    requires d != "" && Plain(d)
    ensures Repeat('0', zeros) + d != "" && Plain(Repeat('0', zeros) + d)
  {
  }

  lemma PrefixRead(f: Flags, s: string)
    requires f.alternate && f.hex
    ensures var t := Prefix(f) + s;
            t != "" && t[0] != ' ' && t[0] != '-' && ReadUnsigned(t, 16) == ReadDigits(s, 16)
  {
    assert (Prefix(f) + s)[2..] == s;
    hide ReadDigits;
  }

  lemma NoPrefixRead(f: Flags, s: string, base: Base)
    requires s != "" && Plain(s) && !(f.alternate && f.hex)
    ensures var t := Prefix(f) + s;
            t != "" && t[0] != ' ' && t[0] != '-' && ReadUnsigned(t, base) == ReadDigits(s, base)
  {
    assert Prefix(f) + s == s;
    hide ReadDigits;
  }

  /** What is written reads back as the argument, but for the magnitude that a length modifier may
      cut. */
  lemma RenderedRead(f: Flags, number: Word, precision: nat)
    ensures ReadNumber(Rendered(f, number, precision), Radix(f))
            == if Negative(f, number) then -(Magnitude(f, number) as int) else Magnitude(f, number)
  {
    hide Digits, Magnitude, Padding, ReadUnsigned, Prefix, Negative, Repeat, Plain, ReadNumber, Sign;
    var pad := Padding(f, number, precision);
    var spaces, zeros := if f.zeroPad then 0 else pad, if f.zeroPad then pad else 0;
    UnsignedRead(f, number, zeros);
    var d := Digits(Magnitude(f, number), Radix(f), Upper(f));
    RegroupHead(Repeat(' ', spaces), Sign(Negative(f, number)), Prefix(f), Repeat('0', zeros), d);
    SignRead(spaces, Negative(f, number), Prefix(f) + Repeat('0', zeros) + d, Radix(f));
  }

  lemma RegroupHead(a: string, b: string, c: string, d: string, e: string)
    ensures a + b + c + d + e == a + (b + (c + d + e))
  {
  }

  lemma SignRead(spaces: nat, negative: bool, t: string, base: Base)
    requires t != "" && t[0] != ' ' && t[0] != '-'
    ensures ReadNumber(Repeat(' ', spaces) + (Sign(negative) + t), base)
            == if negative then -(ReadUnsigned(t, base) as int) else ReadUnsigned(t, base)
  {
    hide ReadUnsigned, Repeat;
    var s := Sign(negative) + t;
    SpacesSkipped(spaces, s);
    if negative {
      assert s[1..] == t;
    } else {
      assert s == t;
    }
  }

  predicate Fits(f: Flags, number: Word) {
    var m := Meaning(f, number);
    (f.byte ==> -0x100 < m < 0x100) && (f.half && !f.byte ==> -0x1_0000 < m < 0x1_0000)
  }

  /** The text means the argument, the least integer included, exactly when the magnitude fits the
      length modifier. */
  lemma RoundTripIff(f: Flags, number: Word, precision: nat)
    ensures ReadNumber(Rendered(f, number, precision), Radix(f)) == Meaning(f, number) <==> Fits(f, number)
  {
    RenderedRead(f, number, precision);
    MagnitudeIff(f, number);
    hide Rendered, Magnitude, Fits, ReadNumber;
  }

  lemma MagnitudeIff(f: Flags, number: Word)
    ensures Meaning(f, number) == (if Negative(f, number) then -(Magnitude(f, number) as int) else Magnitude(f, number))
            <==> Fits(f, number)
  {
    var m := if Negative(f, number) then 0x1_0000_0000 - number else number;
    CutIff(m, 0x100);
    CutIff(m, 0x1_0000);
  }

  lemma CutIff(m: nat, k: nat)
    requires k == 0x100 || k == 0x1_0000
    ensures m % k == m <==> m < k
  {
  }

  /** Digits and padding together number the precision, or the digits needed if they are more. */
  lemma RenderedWidth(f: Flags, number: Word, precision: nat)
    ensures var n := |Digits(Magnitude(f, number), Radix(f), Upper(f))|;
            |Rendered(f, number, precision)|
            == (if precision % 64 > n then precision % 64 else n)
               + (if Negative(f, number) then 1 else 0) + |Prefix(f)|
  {
  }

  lemma DigitTable(d: nat, upper: bool)
    requires d < 16
    ensures Digit(d, upper) == (if upper then "0123456789ABCDEF" else "0123456789abcdef")[d]
  {
  }

  /** q is the quotient of n by p. */
  predicate Divides(n: nat, p: nat, q: nat, rest: nat) {
    n == q * p + rest && rest < p
  }

  /** The digit with weight base^k, counted from the last, is the one that the number has there: the last digit
      of its quotient by base^k. */
  lemma {:induction false} DigitIs(n: nat, base: Base, upper: bool, k: nat) returns (q: nat, rest: nat)
    requires k < |Digits(n, base, upper)|
    ensures Divides(n, Power(base, k), q, rest) && q % base < 16
    ensures var s := Digits(n, base, upper);
            s[|s| - 1 - k] == (if upper then "0123456789ABCDEF" else "0123456789abcdef")[q % base]
    decreases k
  {
    hide Divides, Power, Digits, Digit;
    if k == 0 {
      q, rest := n, 0;
      PowerNone(n, base);
      LastDigit(n, base, upper);
    } else {
      LastApart(n, base, upper, k);
      q, rest := DigitIs(n / base, base, upper, k - 1);
      PowerMoreBy(base, k);
      rest := DigitShifted(n, base, Power(base, k - 1), q, rest);
    }
  }

  lemma LastDigit(n: nat, base: Base, upper: bool)
    ensures n % base < base <= 16
    ensures var s := Digits(n, base, upper);
            s[|s| - 1] == (if upper then "0123456789ABCDEF" else "0123456789abcdef")[n % base]
  {
    QuotientSmaller(n, base);
    DigitTable(n % base, upper);
  }

  lemma PowerNone(n: nat, base: Base)
    ensures Divides(n, Power(base, 0), n, 0)
  {
  }

  lemma PowerMoreBy(base: Base, k: nat)
    requires k > 0
    ensures Power(base, k) == base * Power(base, k - 1)
  {
  }

  lemma LastApart(n: nat, base: Base, upper: bool, k: nat)
    requires 0 < k < |Digits(n, base, upper)|
    ensures n / base >= 0
    ensures var s, t := Digits(n, base, upper), Digits(n / base, base, upper);
            |s| == |t| + 1 && s[|s| - 1 - k] == t[|t| - 1 - (k - 1)]
  {
    hide Digit;
    QuotientSmaller(n, base);
    assert n >= base;
    assert Digits(n, base, upper) == Digits(n / base, base, upper) + [Digit(n % base, upper)];
  }

  lemma DigitShifted(n: nat, base: Base, p: nat, q: nat, rest: nat) returns (more: nat)
    requires Divides(n / base, p, q, rest)
    ensures base * p >= 0 && Divides(n, base * p, q, more)
  {
    var product := q * p;
    Reassociated(base, q, p);
    if base == 8 {
      more := rest * 8 + n % 8;
    } else if base == 10 {
      more := rest * 10 + n % 10;
    } else {
      more := rest * 16 + n % 16;
    }
    assert n == base * product + more;
  }

  lemma Reassociated(base: Base, q: nat, p: nat)
    ensures q * (base * p) == base * (q * p)
  {
  }

  /** There are as many digits as the number needs. */
  lemma {:induction false} DigitsNeeded(n: nat, base: Base, upper: bool)
    ensures var s := Digits(n, base, upper);
            n < Power(base, |s|) && (|s| > 1 ==> Power(base, |s| - 1) <= n)
  {
    var s := Digits(n, base, upper);
    if n >= base {
      var t := Digits(n / base, base, upper);
      DigitsNeeded(n / base, base, upper);
      PowerScaled(n, base, Power(base, |t|));
      if |t| > 1 {
        PowerScaled(n, base, Power(base, |t| - 1));
      } else {
        assert Power(base, 1) == base * Power(base, 0);
      }
    } else {
      assert Power(base, 1) == base * Power(base, 0);
    }
  }

  lemma PowerScaled(n: nat, base: Base, p: nat)
    ensures n / base < p ==> n < base * p
    ensures p <= n / base ==> base * p <= n
  {
  }

  lemma {:induction false} DigitsBound(n: nat, base: Base, upper: bool, k: nat)
    requires n < Power(base, k) && k >= 1
    ensures |Digits(n, base, upper)| <= k
  {
    if n >= base {
      assert Power(base, 1) == base * Power(base, 0);
      assert n / base < Power(base, k - 1) by {
        assert Power(base, k) == base * Power(base, k - 1);
        Quotient(n, base, Power(base, k - 1));
      }
      DigitsBound(n / base, base, upper, k - 1);
    }
  }

  function Power(base: nat, k: nat): nat {
    if k == 0 then 1 else base * Power(base, k - 1)
  }

  lemma Quotient(n: nat, base: Base, q: nat)
    requires n < base * q
    ensures n / base < q
  {
  }

  /** A word has at most 11 digits. */
  lemma WordDigits(w: Word, base: Base, upper: bool)
    ensures |Digits(w, base, upper)| <= 11
  {
    assert Power(8, 4) == 4096 && Power(8, 8) == 4096 * 4096 && Power(8, 11) == 512 * Power(8, 8) by {
      assert Power(8, 2) == 64 && Power(8, 6) == 64 * Power(8, 4) && Power(8, 10) == 64 * Power(8, 8);
    }
    PowerMore(base, 11);
    DigitsBound(w, base, upper, 11);
  }

  lemma {:induction false} PowerMore(base: nat, k: nat)
    requires base >= 8
    ensures Power(base, k) >= Power(8, k)
  {
    if k > 0 {
      PowerMore(base, k - 1);
      Products(base, 8, Power(base, k - 1), Power(8, k - 1));
    }
  }

  lemma Products(a: nat, b: nat, x: nat, y: nat)
    requires a >= b && x >= y
    ensures a * x >= b * y
  {
    assert a * x == b * x + (a - b) * x;
    assert b * x == b * y + b * (x - y);
  }

  // ------------------------------------------------------------- the code

  const CELLS: nat := 68

  /** A buffer that is filled from its start reads out from its end. */
  function Backwards(s: string): (r: string)
    ensures |r| == |s|
  {
    if s == "" then "" else [s[|s| - 1]] + Backwards(s[..|s| - 1])
  }

  predicate NoNul(s: string) {
    forall i :: 0 <= i < |s| ==> s[i] != '\0'
  }

  /** The cells from 1 up to p hold `text` backwards, behind the terminator in cell 0. */
  ghost predicate Holds(a: array<char>, p: nat, text: string)
    reads a
  {
    1 <= p <= a.Length && a[0] == '\0' && NoNul(a[1..p]) && Backwards(a[1..p]) == text
  }

  method Put(a: array<char>, p: nat, c: char, ghost text: string) returns (next: nat)
    requires Holds(a, p, text) && p < a.Length && c != '\0'
    modifies a
    ensures next == p + 1 && Holds(a, next, [c] + text)
  {
    ghost var before := a[1..p];
    a[p] := c;
    next := p + 1;
    assert a[1..next] == before + [c];
    assert (before + [c])[..|before|] == before;
  }

  /** The digit loop: least significant digit first. */
  method PutDigits(a: array<char>, n: Word, base: Base, upper: bool, pad: int) returns (p: nat, rest: int)
    requires a.Length == CELLS && Holds(a, 1, "")
    modifies a
    ensures Holds(a, p, Digits(n, base, upper)) && p == 1 + |Digits(n, base, upper)|
    ensures rest == pad - |Digits(n, base, upper)|
  {
    hide Holds, Digits, Above;
    WordDigits(n, base, upper);
    var m: nat := n;
    ghost var done := "";
    assert Digits(n, base, upper) == Digits(m, base, upper) + done;
    DigitsShift(m, base, upper, done);
    done := [Digit(m % base, upper)] + done;
    rest := pad - 1;
    p := Put(a, 1, Digit(m % base, upper), "");
    m := m / base;
    while m > 0
      invariant Holds(a, p, done) && p == 1 + |done| && rest == pad - |done|
      invariant Digits(n, base, upper) == Above(m, base, upper) + done
    {
      DigitsShift(m, base, upper, done);
      rest := rest - 1;
      p := Put(a, p, Digit(m % base, upper), done);
      done := [Digit(m % base, upper)] + done;
      m := m / base;
    }
    NothingAbove(base, upper, done);
  }

  /** The digits still to be written. */
  function Above(m: nat, base: Base, upper: bool): string {
    if m == 0 then "" else Digits(m, base, upper)
  }

  lemma NothingAbove(base: Base, upper: bool, done: string)
    ensures Above(0, base, upper) + done == done
  {
  }

  lemma DigitsShift(m: nat, base: Base, upper: bool, done: string)
    ensures Digits(m, base, upper) + done == Above(m / base, base, upper) + ([Digit(m % base, upper)] + done)
    ensures m > 0 ==> Above(m, base, upper) == Digits(m, base, upper) && m / base < m
    ensures |Above(m / base, base, upper)| + 1 + |done| <= |Digits(m, base, upper) + done|
  {
    DigitsAbove(m, base, upper);
    QuotientSmaller(m, base);
    hide Digits, Digit;
    Regroup(if m / base == 0 then "" else Digits(m / base, base, upper), [Digit(m % base, upper)], done);
  }

  lemma DigitsAbove(m: nat, base: Base, upper: bool)
    ensures Digits(m, base, upper) == Above(m / base, base, upper) + [Digit(m % base, upper)]
  {
    QuotientSmaller(m, base);
    hide Digit;
  }

  lemma QuotientSmaller(m: nat, base: Base)
    ensures if m < base then m / base == 0 && m % base == m else 0 < m / base < m
  {
    if base == 8 {
    } else if base == 10 {
    } else {
    }
  }

  /** A padding loop; the counter it leaves is negative, so that a second one does nothing. */
  method PutPadding(a: array<char>, from: nat, c: char, pad: int, ghost text: string) returns (p: nat, rest: int)
    requires Holds(a, from, text) && c != '\0' && from + (if pad > 0 then pad else 0) <= a.Length
    modifies a
    ensures rest < 0
    ensures var n := if pad > 0 then pad else 0; p == from + n && Holds(a, p, Repeat(c, n) + text)
  {
    p, rest := from, pad;
    ghost var n, done: nat := if pad > 0 then pad else 0, 0;
    RepeatNone(c, text);
    hide Holds, Repeat;
    while true
      invariant p == from + done && Holds(a, p, Repeat(c, done) + text)
      invariant rest == pad - done && done <= n
      decreases rest
    {
      rest := rest - 1;
      if rest + 1 <= 0 {
        break;
      }
      p := Put(a, p, c, Repeat(c, done) + text);
      RepeatMore(c, done, text);
      done := done + 1;
    }
  }

  lemma RepeatNone(c: char, text: string)
    ensures Repeat(c, 0) + text == text
  {
  }

  lemma RepeatMore(c: char, n: nat, text: string)
    ensures [c] + (Repeat(c, n) + text) == Repeat(c, n + 1) + text
  {
    assert [c] + Repeat(c, n) == Repeat(c, n + 1);
  }

  /** The characters written so far. */
  class Output {
    var text: string

    constructor ()
      ensures text == ""
    {
      text := "";
    }

    method WriteCharacter(c: char)
      modifies this
      ensures text == old(text) + [c]
    {
      text := text + [c];
    }

    /** The last loop of write_number_kuint32: from the last cell used down to the terminator. */
    method ReadOut(a: array<char>, end: nat, ghost rendered: string)
      requires Holds(a, end, rendered)
      modifies this
      ensures text == old(text) + rendered
    {
      assert forall i :: 1 <= i < end ==> a[i] == a[1..end][i - 1];
      var p := end - 1;
      while a[p] != '\0'
        invariant 0 <= p < end && a[0] == '\0'
        invariant text + Backwards(a[1..p + 1]) == old(text) + rendered
        invariant forall i :: 1 <= i < end ==> a[i] != '\0'
        decreases p
      {
        assert a[1..p + 1][..p - 1] == a[1..p];
        WriteCharacter(a[p]);
        p := p - 1;
      }
      assert a[1..p + 1] == "";
    }

    /** write_number_kuint32. At most 66 of the 68 cells are used. */
    method WriteNumber(number: Word, f: Flags, precision: nat) returns (ghost cells: nat)
      modifies this
      ensures text == old(text) + Rendered(f, number, precision)
      ensures cells == 1 + |Rendered(f, number, precision)| <= 66
    {
      var a := new char[CELLS];
      a[0] := '\0';
      HoldsNothing(a);
      hide Holds, Rendered;
      var p := FillNumber(a, number, f, precision);
      ReadOut(a, p, Rendered(f, number, precision));
      cells := p;
    }
  }

  lemma HoldsNothing(a: array<char>)
    requires 1 <= a.Length && a[0] == '\0'
    ensures Holds(a, 1, "")
  {
  }

  /** The text of the number, written backwards into the buffer. */
  method FillNumber(a: array<char>, number: Word, f: Flags, precision: nat) returns (p: nat)
    requires a.Length == CELLS && Holds(a, 1, "")
    modifies a
    ensures Holds(a, p, Rendered(f, number, precision)) && p == 1 + |Rendered(f, number, precision)| <= 66
  {
    hide Holds, Digits, Repeat, Magnitude, Prefix, Sign, Negative, Rendered, Radix, Upper;
    var m, minus := Split(f, number);
    var pad;
    p, pad := PutDigits(a, m, Radix(f), Upper(f), precision % 64);
    WordDigits(m, Radix(f), Upper(f));
    RenderedIs(f, number, precision);
    ghost var t := Digits(m, Radix(f), Upper(f));
    ghost var n := Padding(f, number, precision);
    if f.zeroPad {
      p, pad := PutPadding(a, p, '0', pad, t);
      t := Repeat('0', n) + t;
    }
    p := PutPrefix(a, p, f, t);
    t := Prefix(f) + t;
    p := PutSign(a, p, minus, t);
    t := Sign(minus) + t;
    p, pad := PutPadding(a, p, ' ', pad, t);
  }

  /** The sign and the magnitude, before any digit is written. */
  method Split(f: Flags, number: Word) returns (m: Word, minus: bool)
    ensures m == Magnitude(f, number) && minus == Negative(f, number)
    ensures |Prefix(f)| + |Sign(minus)| <= 2
  {
    m, minus := number, false;
    if !f.hex && !f.octal && !f.unsigned && m >= 0x8000_0000 {
      m := 0x1_0000_0000 - m;
      minus := true;
    }
    if f.byte {
      m := m % 0x100;
    } else if f.half {
      m := m % 0x1_0000;
    }
  }

  method PutPrefix(a: array<char>, p: nat, f: Flags, ghost text: string) returns (next: nat)
    requires Holds(a, p, text) && p + 2 <= a.Length
    modifies a
    ensures next == p + |Prefix(f)| && Holds(a, next, Prefix(f) + text)
  {
    hide Holds;
    next := p;
    assert "" + text == text;
    if f.alternate && f.hex {
      if f.upper {
        next := Put(a, next, 'X', text);
        next := Put(a, next, '0', ['X'] + text);
        assert ['0'] + (['X'] + text) == Prefix(f) + text;
      } else {
        next := Put(a, next, 'x', text);
        next := Put(a, next, '0', ['x'] + text);
        assert ['0'] + (['x'] + text) == Prefix(f) + text;
      }
    }
  }

  method PutSign(a: array<char>, p: nat, minus: bool, ghost text: string) returns (next: nat)
    requires Holds(a, p, text) && p + |Sign(minus)| <= a.Length
    modifies a
    ensures next == p + |Sign(minus)| && Holds(a, next, Sign(minus) + text)
  {
    hide Holds;
    next := p;
    assert "" + text == text;
    if minus {
      next := Put(a, next, '-', text);
      assert ['-'] + text == Sign(minus) + text;
    }
  }

  /** The text in the order in which the cells are filled. */
  lemma RenderedIs(f: Flags, number: Word, precision: nat)
    ensures var n := Padding(f, number, precision);
            var d := Digits(Magnitude(f, number), Radix(f), Upper(f));
            && n == (if precision % 64 > |d| then precision % 64 - |d| else 0)
            && Rendered(f, number, precision)
               == if f.zeroPad then Repeat(' ', 0) + (Sign(Negative(f, number)) + (Prefix(f) + (Repeat('0', n) + d)))
                  else Repeat(' ', n) + (Sign(Negative(f, number)) + (Prefix(f) + d))
  {
    hide Digits, Prefix, Sign, Magnitude, Negative;
    var n := Padding(f, number, precision);
    var d := Digits(Magnitude(f, number), Radix(f), Upper(f));
    if f.zeroPad {
      RegroupRight(Repeat(' ', 0), Sign(Negative(f, number)), Prefix(f), Repeat('0', n), d);
    } else {
      assert Repeat('0', 0) + d == d;
      RegroupRight(Repeat(' ', n), Sign(Negative(f, number)), Prefix(f), Repeat('0', 0), d);
    }
  }

  lemma RegroupRight(a: string, b: string, c: string, d: string, e: string)
    ensures a + b + c + d + e == a + (b + (c + (d + e)))
  {
  }
}
