/** What each directive of kvsprintf writes, told from the characters of the directive and its argument words
    alone. */
module Directives {
  import opened Machine
  import opened Numbers
  import opened Format

  /** A % with flags, a width, a precision of value N and a length modifier before `tail`, which begins with the
      character that ends the directive. */
  predicate Spelled(x: CString, flags: CString, w: CString, p: CString, N: nat, l: CString, tail: CString) {
    && x == "%" + flags + w + p + l + tail
    && (forall k :: 0 <= k < |flags| ==> flags[k] == '#' || flags[k] == '0' || flags[k] == ' ')
    && (forall k :: 0 <= k < |w| ==> '0' <= w[k] <= '9') && (w != "" ==> w[0] != '0')
    && (if N == 0 then p == "" || p == "." else p == "." + Digits(N, 10, false))
    && (l == "" || l == "h" || l == "hh" || l == "l" || l == "ll")
    && (tail != "" ==> tail[0] != '#' && tail[0] != ' ' && !('0' <= tail[0] <= '9')
                       && tail[0] != '.' && tail[0] != 'h' && tail[0] != 'l')
  }

  // --------------------------------------------------------------- precision

  lemma {:induction false} DecimalDigits(n: nat)
    ensures var s := Digits(n, 10, false);
            (forall k :: 0 <= k < |s| ==> IsDigit(s[k])) && (n >= 1 ==> s[0] != '0')
  {
    if n >= 10 {
      DecimalDigits(n / 10);
    }
  }

  lemma PrecisionSpelled(p: CString, N: nat, rest: CString, x: CString)
    requires x == p + rest && !IsDigit(At(rest, 0)) && At(rest, 0) != '.'
    requires if N == 0 then p == "" || p == "." else p == "." + Digits(N, 10, false)
    ensures PrecisionEnd(x, 0) == |p| && Precision(x, 0) == N % 0x1_0000_0000
  {
    assert At(x, |p|) == At(rest, 0);
    if N > 0 {
      var s := Digits(N, 10, false);
      DecimalDigits(N);
      DigitsRead(N, 10, false);
      assert x[1..|p|] == s;
      assert forall k :: 1 <= k < |p| ==> x[k] == s[k - 1];
      hide Digits, ReadDigits;
      DigitsRun(x, 1, |p|);
    } else if p == "." {
      assert x[1..1] == "" && ReadDigits("", 10) == 0;
    }
  }

  lemma LengthSpelled(l: CString, tail: CString, x: CString, i: nat)
    requires i <= |x| && x[i..] == l + tail && At(tail, 0) != 'h' && At(tail, 0) != 'l'
    requires l == "" || l == "h" || l == "hh" || l == "l" || l == "ll"
    ensures LengthEnd(x, i) == i + |l| <= |x| && x[i..i + |l|] == l && At(x, i + |l|) == At(tail, 0)
  {
    assert forall k :: 0 <= k < |l + tail| ==> (l + tail)[k] == x[i + k];
    assert |x| == i + |l| + |tail|;
    assert At(x, i + |l|) == At(tail, 0) by {
      if tail != "" {
        assert (l + tail)[|l|] == tail[0];
      }
    }
    assert x[i..i + |l|] == (l + tail)[..|l|] == l;
  }

  // ---------------------------------------------------------------- parsing

  /** The directive that is spelled, before its end. */
  function Read(flags: CString, N: nat, l: CString, c: char): Directive {
    Directive(Flags('#' in flags, '0' in flags, ' ' in flags, false, false, false, false,
                    l == "hh", l == "h", l == "l", l == "ll"), N % 0x1_0000_0000, c, 0)
  }

  lemma NoNulOf(a: string, b: string)
    requires NoNul(a + b)
    ensures NoNul(a) && NoNul(b)
  {
    assert forall i :: 0 <= i < |a| ==> a[i] == (a + b)[i];
    assert forall i :: 0 <= i < |b| ==> b[i] == (a + b)[|a| + i];
  }

  lemma RegroupFive(a: string, b: string, c: string, d: string, e: string, f: string)
    ensures a + b + c + d + e + f == (a + b + c) + (d + (e + f))
  {
  }

  lemma SpelledParts(x: CString, flags: CString, w: CString, p: CString, N: nat, l: CString, tail: CString)
    returns (head: CString, front: CString, rest: CString)
    requires Spelled(x, flags, w, p, N, l, tail)
    ensures head == "%" + flags && front == head + w && rest == p + (l + tail) && x == front + rest
    ensures IsHead(head) && IsWidth(w) && !IsFlag(At(rest, 0)) && !IsDigit(At(rest, 0))
  {
    RegroupFive("%", flags, w, p, l, tail);
    NoNulOf("%" + flags + w, p + (l + tail));
    NoNulOf("%" + flags, w);
    FirstOf(p, l, tail);
    HeadOf(flags);
    hide Digits, NoNul, IsFlag, IsDigit, IsHead, At;
    head, front, rest := "%" + flags, "%" + flags + w, p + (l + tail);
    hide IsWidth;
    assert IsWidth(w) by {
      WidthOf(w);
    }
  }

  lemma WidthOf(w: CString)
    requires (forall k :: 0 <= k < |w| ==> '0' <= w[k] <= '9') && (w != "" ==> w[0] != '0')
    ensures IsWidth(w)
  {
  }

  lemma HeadOf(flags: CString)
    requires forall k :: 0 <= k < |flags| ==> flags[k] == '#' || flags[k] == '0' || flags[k] == ' '
    requires NoNul("%" + flags)
    ensures IsHead("%" + flags)
  {
    var head: CString := "%" + flags;
    assert forall k :: 1 <= k < |head| ==> head[k] == flags[k - 1];
  }

  lemma FirstOf(p: CString, l: CString, tail: CString)
    requires p == "" || p[0] == '.'
    requires l == "" || l == "h" || l == "hh" || l == "l" || l == "ll"
    requires tail != "" ==> tail[0] != '#' && tail[0] != ' ' && !('0' <= tail[0] <= '9')
    requires NoNul(p + (l + tail))
    ensures !IsFlag(At(p + (l + tail), 0)) && !IsDigit(At(p + (l + tail), 0))
    ensures !IsDigit(At(tail, 0))
  {
  }

  lemma SpelledCompletes(head: CString, flags: CString, p: CString, N: nat, l: CString, tail: CString, rest: CString)
    requires head == "%" + flags && rest == p + (l + tail)
    requires if N == 0 then p == "" || p == "." else p == "." + Digits(N, 10, false)
    requires l == "" || l == "h" || l == "hh" || l == "l" || l == "ll"
    requires var c := At(tail, 0); !IsDigit(c) && c != '.' && c != 'h' && c != 'l'
    ensures Completed(head, rest) ==
            var c := At(tail, 0);
            if IsSpecifier(c) then Complete(Read(flags, N, l, c).(next := |p| + |l| + 1)) else Bad(c)
  {
    hide Digits, IsSpecifier, PrecisionEnd, Precision, LengthEnd;
    NoNulOf(p, l + tail);
    var after: CString := l + tail;
    AfterLength(l, tail);
    PrecisionSpelled(p, N, after, rest);
    assert rest[|p|..] == after;
    LengthSpelled(l, tail, rest, |p|);
    assert head[1..] == flags;
    hide NoNul, IsDigit, At;
  }

  lemma AfterLength(l: CString, tail: CString)
    requires l == "" || l == "h" || l == "hh" || l == "l" || l == "ll"
    requires NoNul(l + tail)
    requires var c := At(tail, 0); !IsDigit(c) && c != '.'
    ensures var after: CString := l + tail; !IsDigit(At(after, 0)) && At(after, 0) != '.'
  {
  }

  /** A directive that is spelled is read as it is spelled, and a character that ends no directive is found. */
  lemma SpelledParsed(x: CString, flags: CString, w: CString, p: CString, N: nat, l: CString, tail: CString)
    requires Spelled(x, flags, w, p, N, l, tail)
    ensures x != "" && x[0] == '%' && |tail| <= |x|
    ensures Parse(x, 1) == var c := At(tail, 0);
                           if IsSpecifier(c) then Complete(Read(flags, N, l, c).(next := |x| - |tail| + 1)) else Bad(c)
  {
    hide Parse, Completed, IsSpecifier, IsHead, IsWidth, Digits, Read;
    var head, front, rest := SpelledParts(x, flags, w, p, N, l, tail);
    SpelledCompletes(head, flags, p, N, l, tail, rest);
    HeadParsed(head, w, rest, front, x);
    assert |x| == |front| + |p| + |l| + |tail|;
  }

  // --------------------------------------------------------------- writing

  lemma TailRenders(x: CString, i: nat, back: CString, args: Args, n: nat)
    requires i <= |x| && x[i..] == back
    ensures Render(x, i, args, n) == Render(back, 0, args, n)
  {
    var front := x[..i];
    assert x == front + back;
    NoNulOf(front, back);
    hide Render, NoNul;
    RenderShift(front, back, 0, args, n);
  }

  lemma DirectiveWrites(x: CString, d: Directive, next: nat, back: CString, args: Args, n: nat)
    requires x != "" && x[0] == '%' && next <= |x| && Parse(x, 1) == Complete(d.(next := next)) && x[next..] == back
    ensures Render(x, 0, args, n) == Expansion(d, args, n) + Render(back, 0, args, n + Taken(d))
  {
    hide Parse, Render, Expansion, Taken, NoNul;
    RenderComplete(x, 0, args, n);
    SameExpansion(d, d.(next := next), args, n);
    TailRenders(x, next, back, args, n + Taken(d));
  }

  lemma SpelledWrites(x: CString, flags: CString, w: CString, p: CString, N: nat, l: CString, c: char, rest: CString,
                      args: Args, n: nat)
    requires NoNul([c] + rest) && Spelled(x, flags, w, p, N, l, [c] + rest) && IsSpecifier(c)
    ensures var d := Read(flags, N, l, c);
            Render(x, 0, args, n) == Expansion(d, args, n) + Render(rest, 0, args, n + Taken(d))
  {
    hide Parse, Render, Expansion, Taken, Spelled, Read, IsSpecifier, NoNul;
    SpelledEnds(x, flags, w, p, N, l, c, rest);
    DirectiveWrites(x, Read(flags, N, l, c), |x| - |rest|, rest, args, n);
  }

  lemma SpelledEnds(x: CString, flags: CString, w: CString, p: CString, N: nat, l: CString, c: char, rest: CString)
    requires NoNul([c] + rest) && Spelled(x, flags, w, p, N, l, [c] + rest) && IsSpecifier(c)
    ensures |rest| < |x| && x[0] == '%' && x[|x| - |rest|..] == rest
    ensures Parse(x, 1) == Complete(Read(flags, N, l, c).(next := |x| - |rest|))
  {
    hide Parse, Spelled, Read, IsSpecifier, NoNul;
    var tail: CString := [c] + rest;
    SpelledParsed(x, flags, w, p, N, l, tail);
    SpelledTail(x, tail, flags, w, p, N, l);
    Beginning(c, rest, tail);
  }

  lemma Beginning(c: char, rest: CString, tail: CString)
    requires tail == [c] + rest
    ensures At(tail, 0) == c && tail[1..] == rest && |tail| == |rest| + 1
  {
  }

  lemma SpelledTail(x: CString, tail: CString, flags: CString, w: CString, p: CString, N: nat, l: CString)
    requires Spelled(x, flags, w, p, N, l, tail) && tail != ""
    ensures |tail| <= |x| && x[|x| - |tail| + 1..] == tail[1..]
  {
    hide Digits, NoNul;
    var before := "%" + flags + w + p + l;
    assert x == before + tail;
    assert x[|before| + 1..] == tail[1..];
  }

  /** %% writes a percent sign and takes no argument. */
  lemma PercentWritten(x: CString, flags: CString, w: CString, p: CString, N: nat, l: CString, rest: CString,
                       args: Args, n: nat)
    requires NoNul("%" + rest) && Spelled(x, flags, w, p, N, l, "%" + rest)
    ensures Render(x, 0, args, n) == "%" + Render(rest, 0, args, n)
  {
    assert "%" + rest == ['%'] + rest;
    SpelledWrites(x, flags, w, p, N, l, '%', rest, args, n);
    hide Render, Spelled, Rendered;
  }

  /** %c writes the low byte of its argument word. */
  lemma CharacterWritten(x: CString, flags: CString, w: CString, p: CString, N: nat, l: CString, rest: CString,
                         args: Args, n: nat)
    requires NoNul("c" + rest) && Spelled(x, flags, w, p, N, l, "c" + rest)
    ensures Render(x, 0, args, n) == [(args.word(n) % 0x100) as char] + Render(rest, 0, args, n + 1)
  {
    assert "c" + rest == ['c'] + rest;
    SpelledWrites(x, flags, w, p, N, l, 'c', rest, args, n);
    hide Render, Spelled, Rendered;
  }

  /** %s writes the string at its argument, or (null). */
  lemma StringWritten(x: CString, flags: CString, w: CString, p: CString, N: nat, l: CString, rest: CString,
                      args: Args, n: nat)
    requires NoNul("s" + rest) && Spelled(x, flags, w, p, N, l, "s" + rest)
    ensures Render(x, 0, args, n) ==
            (if args.word(n) == 0 then "(null)" else args.text(args.word(n))) + Render(rest, 0, args, n + 1)
  {
    assert "s" + rest == ['s'] + rest;
    SpelledWrites(x, flags, w, p, N, l, 's', rest, args, n);
    hide Render, Spelled, Rendered;
  }

  lemma Modulo16(N: nat)
    ensures N % 0x1_0000_0000 % 0x1_0000 == N % 0x1_0000
  {
  }

  /** %f and %F write what write_number_kfloat gives for three argument words and the precision. */
  lemma FloatWritten(x: CString, flags: CString, w: CString, p: CString, N: nat, l: CString, c: char, rest: CString,
                     args: Args, n: nat)
    requires (c == 'f' || c == 'F') && NoNul([c] + rest) && Spelled(x, flags, w, p, N, l, [c] + rest)
    ensures Render(x, 0, args, n) == args.float(n, N % 0x1_0000) + Render(rest, 0, args, n + 3)
  {
    SpelledWrites(x, flags, w, p, N, l, c, rest, args, n);
    Modulo16(N);
    hide Render, Spelled, Rendered;
  }

  /** An integer with the modifier ll writes nothing and takes two words. */
  lemma LongLongWritten(x: CString, flags: CString, w: CString, p: CString, N: nat, c: char, rest: CString,
                        args: Args, n: nat)
    requires c == 'd' || c == 'i' || c == 'u' || c == 'o' || c == 'x' || c == 'X'
    requires NoNul([c] + rest) && Spelled(x, flags, w, p, N, "ll", [c] + rest)
    ensures Render(x, 0, args, n) == Render(rest, 0, args, n + 2)
  {
    SpelledWrites(x, flags, w, p, N, "ll", c, rest, args, n);
    hide Render, Spelled, Rendered;
    assert "" + Render(rest, 0, args, n + 2) == Render(rest, 0, args, n + 2);
  }

  /** The padding in front of digits, of which the precision modulo 64 demands so many. */
  function Lacking(digits: string, N: nat): nat {
    if N % 64 > |digits| then N % 64 - |digits| else 0
  }

  lemma Modulo64(N: nat)
    ensures N % 0x1_0000_0000 % 64 == N % 64
  {
  }

  /** What the characters of an integer directive mean for its number. */
  lemma FlagsMean(flags: CString, N: nat, l: CString, c: char, word: Word)
    requires IsInteger(c) || c == 'p'
    ensures var f := NumberFlags(Read(flags, N, l, c));
            var minus := (c == 'd' || c == 'i') && word >= 0x8000_0000;
            var whole := if minus then 0x1_0000_0000 - word else word;
            && Radix(f) == (if c == 'x' || c == 'X' || c == 'p' then 16 else if c == 'o' then 8 else 10)
            && Upper(f) == (c == 'X') && Negative(f, word) == minus && f.zeroPad == ('0' in flags)
            && Magnitude(f, word) == (if l == "hh" then whole % 0x100 else if l == "h" then whole % 0x1_0000 else whole)
            && Prefix(f) == if ('#' in flags && c == 'x') || c == 'p' then "0x"
                            else if '#' in flags && c == 'X' then "0X" else ""
  {
  }

  lemma IntegerExpands(flags: CString, N: nat, l: CString, c: char, args: Args, n: nat)
    requires IsInteger(c) && l != "ll"
    ensures var d := Read(flags, N, l, c);
            && Taken(d) == 1
            && Expansion(d, args, n) == Rendered(NumberFlags(d), args.word(n), N % 0x1_0000_0000)
  {
    hide NumberFlags, Rendered;
  }

  lemma PointerExpands(flags: CString, N: nat, l: CString, args: Args, n: nat)
    ensures var d := Read(flags, N, l, 'p');
            && Taken(d) == 1
            && Expansion(d, args, n) ==
               if args.word(n) == 0 then "(nil)" else Rendered(NumberFlags(d), args.word(n), N % 0x1_0000_0000)
  {
    hide NumberFlags, Rendered;
  }

  lemma RenderedFrom(f: Flags, word: Word, N: nat, m: Word, base: Base, upper: bool)
    requires Radix(f) == base && Upper(f) == upper && Magnitude(f, word) == m
    ensures var digits := Digits(m, base, upper);
            Rendered(f, word, N % 0x1_0000_0000) ==
              Repeat(' ', if f.zeroPad then 0 else Lacking(digits, N)) + Sign(Negative(f, word)) + Prefix(f)
              + Repeat('0', if f.zeroPad then Lacking(digits, N) else 0) + digits
  {
    Modulo64(N);
    hide Digits, Repeat, Sign, Prefix, Negative, Radix, Upper, Magnitude;
  }

  /** The integers. The digits are those of the argument in base 16 for x and X, 8 for o and 10 otherwise, with
      capitals for X; d and i take the word in two's complement and write a minus sign for a negative one. hh and h
      cut the magnitude to 8 and 16 bits. # puts 0x or 0X before hexadecimal digits. What the precision lacks is
      filled up with zeros behind that, or with spaces in front. */
  lemma IntegerWritten(x: CString, flags: CString, w: CString, p: CString, N: nat, l: CString, c: char, rest: CString,
                       args: Args, n: nat)
    requires c == 'd' || c == 'i' || c == 'u' || c == 'o' || c == 'x' || c == 'X'
    requires l != "ll" && NoNul([c] + rest) && Spelled(x, flags, w, p, N, l, [c] + rest)
    ensures var minus := (c == 'd' || c == 'i') && args.word(n) >= 0x8000_0000;
            var whole := if minus then 0x1_0000_0000 - args.word(n) else args.word(n);
            var m := if l == "hh" then whole % 0x100 else if l == "h" then whole % 0x1_0000 else whole;
            var digits := Digits(m, if c == 'x' || c == 'X' then 16 else if c == 'o' then 8 else 10, c == 'X');
            Render(x, 0, args, n) ==
              Repeat(' ', if '0' in flags then 0 else Lacking(digits, N))
              + (if minus then "-" else "")
              + (if '#' in flags && c == 'x' then "0x" else if '#' in flags && c == 'X' then "0X" else "")
              + Repeat('0', if '0' in flags then Lacking(digits, N) else 0)
              + digits
              + Render(rest, 0, args, n + 1)
  {
    SpelledWrites(x, flags, w, p, N, l, c, rest, args, n);
    var word := args.word(n);
    var minus := (c == 'd' || c == 'i') && word >= 0x8000_0000;
    var whole := if minus then 0x1_0000_0000 - word else word;
    var m := if l == "hh" then whole % 0x100 else if l == "h" then whole % 0x1_0000 else whole;
    FlagsMean(flags, N, l, c, word);
    IntegerExpands(flags, N, l, c, args, n);
    hide Render, Spelled, Digits, Repeat, NumberFlags, Radix, Upper, Negative, Magnitude, Prefix, Rendered, Lacking,
         Read, Expansion, Taken, NoNul;
    var f := NumberFlags(Read(flags, N, l, c));
    RenderedFrom(f, word, N, m, if c == 'x' || c == 'X' then 16 else if c == 'o' then 8 else 10, c == 'X');
  }

  /** %p: (nil) for a null pointer, and otherwise the digits of the word in base 16 behind 0x. */
  lemma PointerWritten(x: CString, flags: CString, w: CString, p: CString, N: nat, l: CString, rest: CString,
                       args: Args, n: nat)
    requires NoNul("p" + rest) && Spelled(x, flags, w, p, N, l, "p" + rest)
    ensures args.word(n) == 0 ==> Render(x, 0, args, n) == "(nil)" + Render(rest, 0, args, n + 1)
    ensures args.word(n) != 0 ==>
              var whole := args.word(n);
              var m := if l == "hh" then whole % 0x100 else if l == "h" then whole % 0x1_0000 else whole;
              var digits := Digits(m, 16, false);
              Render(x, 0, args, n) ==
                Repeat(' ', if '0' in flags then 0 else Lacking(digits, N)) + "" + "0x"
                + Repeat('0', if '0' in flags then Lacking(digits, N) else 0) + digits
                + Render(rest, 0, args, n + 1)
  {
    assert "p" + rest == ['p'] + rest;
    SpelledWrites(x, flags, w, p, N, l, 'p', rest, args, n);
    var word := args.word(n);
    FlagsMean(flags, N, l, 'p', word);
    PointerExpands(flags, N, l, args, n);
    hide Render, Spelled, Digits, Repeat, NumberFlags, Radix, Upper, Negative, Magnitude, Prefix, Rendered, Lacking,
         Read, Expansion, Taken, NoNul;
    var f := NumberFlags(Read(flags, N, l, 'p'));
    RenderedFrom(f, word, N, Magnitude(f, word), 16, false);
  }

  /** A character that ends no directive, or the end of the format, is reported, and nothing more is written. */
  lemma OtherReported(x: CString, flags: CString, w: CString, p: CString, N: nat, l: CString, tail: CString,
                      args: Args, n: nat)
    requires Spelled(x, flags, w, p, N, l, tail)
    requires tail != "" ==> tail[0] !in "%cspXxoudifF"
    ensures Render(x, 0, args, n) == "<format error," + [if tail == "" then '\0' else tail[0]] + ">"
  {
    SpelledParsed(x, flags, w, p, N, l, tail);
    hide Parse, Spelled;
    RenderBad(x, 0, args, n);
  }

  /** The word that an integer directive of full width stands for: the value of its digits, with the minus sign,
      is the argument read as an unsigned number or in two's complement. */
  lemma IntegerReadsBack(word: Word, base: Base, upper: bool, signed: bool)
    ensures var minus := signed && word >= 0x8000_0000;
            var value: int := ReadDigits(Digits(if minus then 0x1_0000_0000 - word else word, base, upper), base);
            (if minus then -value else value) == if signed && word >= 0x8000_0000 then word - 0x1_0000_0000 else word
  {
    DigitsRead(if signed && word >= 0x8000_0000 then 0x1_0000_0000 - word else word, base, upper);
  }
}
