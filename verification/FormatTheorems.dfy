/** What formatted output promises: lengths, values that can be read back, meanings that compose. */
module FormatTheorems {
  import opened FormatSpec
  import opened Numerals
  import opened Options

  // ---- Field lengths ----

  lemma {:induction false} GroupLength(digits: string, sep: string)
    ensures |Group(digits, sep)| == |digits| + Separators(|digits|) * |sep|
  {
    if digits != "" {
      GroupLength(digits[1..], sep);
      var n := |digits|;
      if n > 1 && (n - 1) % 3 == 0 {
        assert Separators(n) == Separators(n - 1) + 1;
        assert (Separators(n - 1) + 1) * |sep| == Separators(n - 1) * |sep| + |sep|;
      } else {
        assert Separators(n) == Separators(n - 1);
      }
    }
  }

  /** The characters that must be there before any padding to the width. */
  function Wanted(f: IntField): int
    requires f.Valid()
  {
    |f.sign| + |f.Prefix()| + Max(f.EffectivePrecision(), |f.Body()|) + f.SepLength()
  }

  lemma TextLength(f: IntField)
    requires f.Valid()
    ensures |f.Text()| == f.Pad() + |f.sign| + |f.Prefix()|
                          + Max(0, f.EffectivePrecision() - |f.Body()| - f.SepLength()) + |f.Body()| + f.SepLength()
  {
    hide Digits, Repeat, Group;
    GroupLength(f.Body(), f.Sep());
  }

  /**
   * A field takes the larger of its width and of what it must hold, unless separators meet a precision
   * beyond the digits; in that case it always comes out shorter.
   */
  lemma FieldLength(f: IntField)
    requires f.Valid()
    ensures |f.Text()| == Max(f.width, Wanted(f)) <==> f.SepLength() == 0 || f.EffectivePrecision() <= |f.Body()|
    ensures |f.Text()| <= Max(f.width, Wanted(f))
  {
    hide Digits, IntField.Text, Separators;
    TextLength(f);
  }

  /** The minimum field width is missed exactly when separators stand in for zeros of the precision. */
  lemma WidthMissed(f: IntField)
    requires f.Valid()
    ensures |f.Text()| < f.width <==>
      && f.SepLength() > 0 && f.EffectivePrecision() > |f.Body()|
      && f.width > |f.sign| + |f.Prefix()| + Max(f.EffectivePrecision(), |f.Body()| + f.SepLength())
  {
    hide Digits, IntField.Text, Separators;
    TextLength(f);
  }

  /** The digits that a precision asks for are there unless separators stand in for some of the zeros. */
  lemma PrecisionMet(f: IntField)
    requires f.Valid() && f.precision >= 0
    ensures f.Zeros() + |f.Body()| >= f.precision <==> f.SepLength() == 0 || f.precision <= |f.Body()|
  {
    hide Digits, Separators;
  }

  /** The leading zero of the octal alternative form is there unless separators have used up its place. */
  lemma OctalZero(f: IntField)
    requires f.Valid() && f.base == 8 && f.flags.num && f.magnitude != 0
    ensures f.Zeros() > 0 <==>
      f.SepLength() == 0 || f.precision > |f.Body()| + f.SepLength() || (f.ZeroPadded() && f.Pad() > 0)
  {
    hide Digits, Separators;
  }

  lemma StrTextLength(value: Option<string>, width: nat, precision: int, minus: bool)
    requires precision >= -1
    ensures |StrText(value, width, precision, minus)| == Max(width, |Shown(value, precision)|)
  {
    hide Repeat;
  }

  /** A character takes one place, so the width is met only if it asks for no more. */
  lemma CharIgnoresWidth(d: Directive, args: seq<Arg>, done: nat, loc: Locale)
    requires d.precision >= -1 && d.conversion == 'c' && HasInteger(args, RANGE32)
    ensures var r := Convert(d, args, done, loc);
            r.Rendered? && |r.text| == 1 && (|r.text| >= d.width <==> d.width <= 1)
  {
  }

  /** A star after the digits of a width takes their place; they only have to fit an int. */
  lemma {:induction false} StarReplacesDigits(s: string, flags: Flags, args: seq<Arg>)
    requires var n := Span(s, IsDigit); n < |s| && s[n] == '*'
    ensures var n := Span(s, IsDigit);
            ParseWidth(s, flags, 0, args) ==
            if Value(s[..n]) > INT_MAX then TooBig else ParseWidth(s[n..], flags, 0, args)
  {
    hide ParseDot;
    var n := Span(s, IsDigit);
    AccumulateIsValue(s[..n]);
    assert s[n..][..0] == "";
  }

  /** So does one after the digits of a precision. */
  lemma {:induction false} StarReplacesPrecision(s: string, flags: Flags, width: nat, args: seq<Arg>)
    requires var n := Span(s, IsDigit); n < |s| && s[n] == '*'
    ensures var n := Span(s, IsDigit);
            ParsePrecision(s, flags, width, 0, args) ==
            if Value(s[..n]) > INT_MAX then TooBig else ParsePrecision(s[n..], flags, width, 0, args)
  {
    hide ParseModifier;
    var n := Span(s, IsDigit);
    AccumulateIsValue(s[..n]);
    assert s[n..][..0] == "";
  }

  // ---- Reading numbers back ----

  predicate IsDigitIn(c: char, base: nat) {
    ('0' <= c <= '9' && c as int - '0' as int < base)
    || (base == 16 && ('a' <= c <= 'f' || 'A' <= c <= 'F'))
  }

  function DigitIn(c: char): nat
    requires IsDigitIn(c, 16)
  {
    if c <= '9' then c as int - '0' as int
    else if c <= 'F' then c as int - 'A' as int + 10
    else c as int - 'a' as int + 10
  }

  /** Feeds the digits found in a text, whatever else it holds, to a running total. */
  function ReadDigits(total: nat, text: string, base: nat): nat
    requires base == 8 || base == 10 || base == 16
    decreases |text|
  {
    if text == "" then total
    else ReadDigits(if IsDigitIn(text[0], base) then base * total + DigitIn(text[0]) else total, text[1..], base)
  }

  function ReadInt(text: string, base: nat): int
    requires base == 8 || base == 10 || base == 16
  {
    var n := ReadDigits(0, text, base);
    if '-' in text then 0 - n else n
  }

  predicate NoDigits(s: string, base: nat) { forall i :: 0 <= i < |s| ==> !IsDigitIn(s[i], base) }

  lemma {:induction false} ReadConcat(total: nat, x: string, y: string, base: nat)
    requires base == 8 || base == 10 || base == 16
    ensures ReadDigits(total, x + y, base) == ReadDigits(ReadDigits(total, x, base), y, base)
    decreases |x|
  {
    if x == "" {
      assert x + y == y;
    } else {
      assert (x + y)[1..] == x[1..] + y;
      ReadConcat(if IsDigitIn(x[0], base) then base * total + DigitIn(x[0]) else total, x[1..], y, base);
    }
  }

  lemma {:induction false} ReadNothing(total: nat, s: string, base: nat)
    requires (base == 8 || base == 10 || base == 16) && NoDigits(s, base)
    ensures ReadDigits(total, s, base) == total
    decreases |s|
  {
    if s != "" { ReadNothing(total, s[1..], base); }
  }

  lemma {:induction false} RepeatAll(c: char, n: nat)
    ensures forall i :: 0 <= i < n ==> Repeat(c, n)[i] == c
  {
    if n > 0 { RepeatAll(c, n - 1); }
  }

  lemma {:induction false} ReadZeros(n: nat, base: nat)
    requires base == 8 || base == 10 || base == 16
    ensures ReadDigits(0, Repeat('0', n), base) == 0
  {
    if n > 0 { ReadZeros(n - 1, base); }
  }

  lemma DigitCharReads(d: nat, base: nat, up: bool)
    requires (base == 8 || base == 10 || base == 16) && d < base
    ensures var c := DigitChar(d, up); IsDigitIn(c, base) && DigitIn(c) == d && c != '-'
  {
  }

  lemma ReadLast(total: nat, s: string, c: char, base: nat)
    requires (base == 8 || base == 10 || base == 16) && IsDigitIn(c, base)
    ensures ReadDigits(total, s + [c], base) == base * ReadDigits(total, s, base) + DigitIn(c)
  {
    ReadConcat(total, s, [c], base);
    assert [c][1..] == "";
  }

  lemma DivMod(n: nat, base: nat)
    requires base > 0
    ensures n == base * (n / base) + n % base && n % base < base
  {
  }

  /** The digits of n read as n. */
  lemma {:induction false} DigitsRead(n: nat, base: nat, up: bool)
    requires base == 8 || base == 10 || base == 16
    ensures ReadDigits(0, Digits(n, base, up), base) == n
  {
    hide DigitChar, ReadDigits, IsDigitIn, DigitIn;
    DivMod(n, base);
    DigitCharReads(n % base, base, up);
    var c := DigitChar(n % base, up);
    if n < base {
      assert n % base == n;
      ReadLast(0, "", c, base);
      ReadNothing(0, "", base);
      assert Digits(n, base, up) == "" + [c];
    } else {
      DigitsRead(n / base, base, up);
      ReadLast(0, Digits(n / base, base, up), c, base);
    }
  }

  lemma GroupFirst(digits: string, sep: string) returns (mark: string)
    requires digits != ""
    ensures (mark == "" || mark == sep) && Group(digits, sep) == [digits[0]] + (mark + Group(digits[1..], sep))
  {
    var left := |digits| - 1;
    mark := if left > 0 && left % 3 == 0 then sep else "";
  }

  /** Separators without digits are invisible to the reader. */
  lemma {:induction false} ReadGroup(total: nat, digits: string, sep: string, base: nat)
    requires (base == 8 || base == 10 || base == 16) && NoDigits(sep, base)
    ensures ReadDigits(total, Group(digits, sep), base) == ReadDigits(total, digits, base)
    decreases |digits|
  {
    if digits != "" {
      hide Group, ReadDigits, NoDigits;
      var mark := GroupFirst(digits, sep);
      var more := Group(digits[1..], sep);
      assert digits == [digits[0]] + digits[1..];
      ReadFirst(total, digits[0], mark + more, base);
      ReadFirst(total, digits[0], digits[1..], base);
      var next := if IsDigitIn(digits[0], base) then base * total + DigitIn(digits[0]) else total;
      ReadConcat(next, mark, more, base);
      NoDigitsInNothing(base);
      ReadNothing(next, mark, base);
      ReadGroup(next, digits[1..], sep, base);
    }
  }

  lemma NoDigitsInNothing(base: nat)
    ensures NoDigits("", base)
  {
  }

  lemma ReadFirst(total: nat, c: char, s: string, base: nat)
    requires base == 8 || base == 10 || base == 16
    ensures ReadDigits(total, [c] + s, base) ==
            ReadDigits(if IsDigitIn(c, base) then base * total + DigitIn(c) else total, s, base)
  {
    assert ([c] + s)[1..] == s;
  }

  /** Dropping blanks, sign, prefix, padding and separators leaves the digits of the magnitude. */
  lemma FieldReads(f: IntField)
    requires f.Valid() && NoDigits(f.sign, f.base) && NoDigits(f.Sep(), f.base)
    ensures ReadDigits(0, f.Text(), f.base) == f.magnitude
  {
    hide Digits, Repeat, Group, ReadDigits;
    var b := f.base;
    var lead := Repeat(' ', if f.flags.minus || f.ZeroPadded() then 0 else f.Pad());
    var trail := Repeat(' ', if f.flags.minus then f.Pad() else 0);
    var zeros, body := Repeat('0', f.Zeros()), Group(f.Body(), f.Sep());
    RepeatAll(' ', |lead|);
    RepeatAll(' ', |trail|);
    ReadNothing(0, lead, b);
    ReadConcat(0, lead, f.sign, b);
    ReadNothing(0, f.sign, b);
    ReadConcat(0, lead + f.sign, f.Prefix(), b);
    PrefixReads(f);
    ReadConcat(0, lead + f.sign + f.Prefix(), zeros, b);
    ReadZeros(f.Zeros(), b);
    ReadConcat(0, lead + f.sign + f.Prefix() + zeros, body, b);
    ReadGroup(0, f.Body(), f.Sep(), b);
    DigitsRead(f.magnitude, b, f.up);
    ReadConcat(0, lead + f.sign + f.Prefix() + zeros + body, trail, b);
    ReadNothing(f.magnitude, trail, b);
  }

  lemma PrefixReads(f: IntField)
    requires f.Valid()
    ensures ReadDigits(0, f.Prefix(), f.base) == 0
  {
    var p := f.Prefix();
    if p != "" {
      assert p[1..] == [p[1]];
      ReadNothing(0, p[1..], f.base);
    }
  }

  // ---- A minus sign stands for a negative value ----

  lemma {:induction false} DigitsHaveNoMinus(n: nat, base: nat, up: bool)
    requires base == 8 || base == 10 || base == 16
    ensures '-' !in Digits(n, base, up)
  {
    DigitCharReads(n % base, base, up);
    if n < base { assert n % base == n; } else { DigitsHaveNoMinus(n / base, base, up); }
  }

  lemma {:induction false} GroupHasNoMinus(digits: string, sep: string)
    requires '-' !in digits && '-' !in sep
    ensures '-' !in Group(digits, sep)
  {
    if digits != "" { GroupHasNoMinus(digits[1..], sep); }
  }

  lemma MinusMeansNegative(f: IntField)
    requires f.Valid() && '-' !in f.Sep()
    ensures '-' in f.Text() <==> '-' in f.sign
  {
    hide Digits, Repeat, Group;
    RepeatAll(' ', if f.flags.minus || f.ZeroPadded() then 0 else f.Pad());
    RepeatAll(' ', if f.flags.minus then f.Pad() else 0);
    RepeatAll('0', f.Zeros());
    DigitsHaveNoMinus(f.magnitude, f.base, f.up);
    GroupHasNoMinus(f.Body(), f.Sep());
  }

  /** A locale whose separator cannot be mistaken for a part of a number. */
  predicate PlainSeparator(loc: Locale) { NoDigits(loc.Sep(), 16) && '-' !in loc.Sep() }

  lemma FieldReadsBack(f: IntField)
    requires f.Valid() && NoDigits(f.sep, 16) && '-' !in f.sep && f.sign in {"", "+", "-", " "}
    ensures ReadInt(f.Text(), f.base) == if f.sign == "-" then 0 - f.magnitude else f.magnitude
  {
    hide IntField.Text, ReadDigits;
    FieldReads(f);
    MinusMeansNegative(f);
  }

  /** Whatever flags, width and precision a directive has, its text reads back as its argument. */
  lemma IntegerRoundTrip(d: Directive, v: int, args: seq<Arg>, done: nat, loc: Locale)
    requires d.precision >= -1 && PlainSeparator(loc)
    ensures var r := Convert(d, [Integer(v)] + args, done, loc);
            && (r.Rendered? && IsSignedConversion(d.conversion) ==>
                  ReadInt(r.text, 10) == Signed(ValueRange(d.modifier), v))
            && (r.Rendered? && d.conversion == 'u' ==>
                  ReadInt(r.text, 10) == Unsigned(ValueRange(d.modifier), v))
            && (r.Rendered? && d.conversion == 'o' ==>
                  ReadInt(r.text, 8) == Unsigned(ValueRange(d.modifier), v))
            && (r.Rendered? && (d.conversion == 'x' || d.conversion == 'X') ==>
                  ReadInt(r.text, 16) == Unsigned(ValueRange(d.modifier), v))
  {
    hide IntField.Text, IntField.FitsInt, Signed, Unsigned, ReadInt;
    assert ([Integer(v)] + args)[0] == Integer(v);
    if IsSignedConversion(d.conversion) {
      FieldReadsBack(SignedField(d, Signed(ValueRange(d.modifier), v), loc.Sep()));
    } else if IsUnsignedConversion(d.conversion) {
      FieldReadsBack(UnsignedField(d, Unsigned(ValueRange(d.modifier), v), loc.Sep()));
    }
  }

  /** The digits that section 7.19.6.1 of C99 asks for when zero is printed with precision zero: none, but
      a single 0 in the alternative form of octal numbers. */
  function RequiredDigits(f: IntField): string { if f.base == 8 && f.flags.num then "0" else "" }

  /** The whole field that C99 asks for: the precision turns the zero flag off. */
  function RequiredText(f: IntField): string {
    var shown := f.sign + RequiredDigits(f);
    var blanks := Repeat(' ', Max(0, f.width - |shown|));
    if f.flags.minus then shown + blanks else blanks + shown
  }

  lemma ZeroText(f: IntField)
    requires f.Valid() && f.magnitude == 0 && f.precision == 0
    ensures var shown, blanks := f.sign + "0", Repeat(' ', Max(0, f.width - |f.sign| - 1));
            f.Text() == if f.flags.minus then shown + blanks else blanks + shown
  {
    hide Digits, Group, Repeat;
    assert f.Body() == "0" by { OneDigit(f.base, f.up); }
    assert Group("0", f.Sep()) == "0" by { GroupOne(f.Sep()); }
    RepeatAll('0', 0);
    assert Repeat(' ', 0) == "" && Repeat('0', 0) == "";
  }

  /** Zero under a precision of zero prints as C99 asks if and only if it is the alternative form of octal. */
  lemma ZeroIsPrinted(f: IntField)
    requires f.Valid() && f.magnitude == 0 && f.precision == 0 && '0' !in f.sign
    ensures f.Text() == RequiredText(f) <==> f.base == 8 && f.flags.num
  {
    hide Digits, Group, Repeat, IntField.Text;
    ZeroText(f);
    var pad := Max(0, f.width - |f.sign| - 1);
    RepeatAll(' ', pad);
    if f.base == 8 && f.flags.num {
      assert |f.sign + "0"| == |f.sign| + 1;
    } else {
      var wider := Max(0, f.width - |f.sign|);
      RepeatAll(' ', wider);
      assert f.sign + "" == f.sign;
      assert '0' !in RequiredText(f);
      assert (f.sign + "0")[|f.sign|] == '0';
      assert '0' in f.Text();
    }
  }

  /** The same of every directive for integers. */
  lemma ZeroDirective(d: Directive, args: seq<Arg>, done: nat, loc: Locale)
    requires d.precision == 0 && (IsSignedConversion(d.conversion) || IsUnsignedConversion(d.conversion))
    requires HasInteger(args, PassedRange(d.modifier)) && Unsigned(ValueRange(d.modifier), args[0].v) == 0
    ensures var r := Convert(d, args, done, loc);
            var f := if IsSignedConversion(d.conversion) then SignedField(d, 0, loc.Sep())
                     else UnsignedField(d, 0, loc.Sep());
            r.Rendered? ==> (r.text == RequiredText(f) <==> d.conversion == 'o' && d.flags.num)
  {
    hide IntField.Text, IntField.FitsInt, RequiredText;
    if IsSignedConversion(d.conversion) {
      ZeroIsPrinted(SignedField(d, 0, loc.Sep()));
    } else {
      ZeroIsPrinted(UnsignedField(d, 0, loc.Sep()));
    }
  }

  lemma OneDigit(base: nat, up: bool)
    requires 2 <= base <= 16
    ensures Digits(0, base, up) == "0"
  {
  }

  lemma GroupOne(sep: string)
    ensures Group("0", sep) == "0"
  {
  }

  // ---- Widths and precisions are decimal numbers ----

  lemma {:induction false} WidthIsDecimal(s: string, flags: Flags, args: seq<Arg>)
    ensures var n := Span(s, IsDigit);
            var w := Value(s[..n]);
            if w > INT_MAX then ParseWidth(s, flags, 0, args) == TooBig
            else (n < |s| && s[n] == '*') || ParseWidth(s, flags, 0, args) == ParseDot(s[n..], flags, w, args)
  {
    hide ParseDot, Span;
    AccumulateIsValue(s[..Span(s, IsDigit)]);
  }

  lemma {:induction false} PrecisionIsDecimal(s: string, flags: Flags, width: nat, args: seq<Arg>)
    ensures var n := Span(s, IsDigit);
            var p := Value(s[..n]);
            if p > INT_MAX then ParsePrecision(s, flags, width, 0, args) == TooBig
            else (n < |s| && s[n] == '*') ||
                 ParsePrecision(s, flags, width, 0, args) == ParseModifier(s[n..], flags, width, p, args)
  {
    hide ParseModifier, Span;
    AccumulateIsValue(s[..Span(s, IsDigit)]);
  }

  // ---- Meanings compose ----

  lemma {:induction false} SpanLocal(s: string, t: string, p: char -> bool)
    requires Span(s, p) < |s|
    ensures Span(s + t, p) == Span(s, p)
  {
    if p(s[0]) {
      assert (s + t)[1..] == s[1..] + t;
      SpanLocal(s[1..], t, p);
    }
  }

  /** A directive read to its end is read the same in front of more format and more arguments. */
  predicate ReadsLocally(p: Parsed, q: Parsed, t: string, b: seq<Arg>) {
    p.Parsed? ==> q == Parsed(p.d, p.rest + t, p.args + b)
  }

  lemma ModifierLocal(s: string, t: string, flags: Flags, width: nat, precision: int, a: seq<Arg>, b: seq<Arg>)
    requires precision >= -1
    ensures ReadsLocally(ParseModifier(s, flags, width, precision, a),
                         ParseModifier(s + t, flags, width, precision, a + b), t, b)
  {
    var (m, n) := ModifierAt(s);
    if n < |s| {
      assert ModifierAt(s + t) == (m, n);
      assert (s + t)[n..] == s[n..] + t;
      assert (s[n..] + t)[1..] == s[n..][1..] + t;
    }
  }

  lemma PrecisionLocal(s: string, t: string, flags: Flags, width: nat, a: seq<Arg>, b: seq<Arg>)
    ensures ReadsLocally(ParsePrecision(s, flags, width, 0, a), ParsePrecision(s + t, flags, width, 0, a + b), t, b)
  {
    hide ParseModifier, Signed, Accumulate;
    var n := Span(s, IsDigit);
    if n < |s| {
      SpanLocal(s, t, IsDigit);
      assert (s + t)[..n] == s[..n] && (s + t)[n..] == s[n..] + t && (s + t)[n + 1..] == s[n + 1..] + t;
      ModifierLocal(s[n..], t, flags, width, Accumulate(0, s[..n]), a, b);
      if s[n] == '*' && HasInt(a) {
        assert (a + b)[1..] == a[1..] + b;
        var v := Signed(RANGE32, a[0].v);
        ModifierLocal(s[n + 1..], t, flags, width, if v < 0 then -1 else v, a[1..], b);
      }
    } else {
      EmptyIsUnfinished(flags, width, Accumulate(0, s[..n]), a);
      assert s[n..] == "";
    }
  }

  lemma EmptyIsUnfinished(flags: Flags, width: nat, precision: int, a: seq<Arg>)
    requires precision >= -1
    ensures ParseModifier("", flags, width, precision, a) == Unfinished
  {
  }

  lemma DotLocal(s: string, t: string, flags: Flags, width: nat, a: seq<Arg>, b: seq<Arg>)
    ensures ReadsLocally(ParseDot(s, flags, width, a), ParseDot(s + t, flags, width, a + b), t, b)
  {
    hide ParseModifier, ParsePrecision;
    if s == "" {
      EmptyIsUnfinished(flags, width, -1, a);
    } else if s[0] == '.' {
      assert (s + t)[1..] == s[1..] + t;
      PrecisionLocal(s[1..], t, flags, width, a, b);
    } else {
      ModifierLocal(s, t, flags, width, -1, a, b);
    }
  }

  lemma WidthLocal(s: string, t: string, flags: Flags, a: seq<Arg>, b: seq<Arg>)
    ensures ReadsLocally(ParseWidth(s, flags, 0, a), ParseWidth(s + t, flags, 0, a + b), t, b)
  {
    hide ParseDot, Signed, Accumulate;
    var n := Span(s, IsDigit);
    if n < |s| {
      SpanLocal(s, t, IsDigit);
      assert (s + t)[..n] == s[..n] && (s + t)[n..] == s[n..] + t && (s + t)[n + 1..] == s[n + 1..] + t;
      DotLocal(s[n..], t, flags, Accumulate(0, s[..n]), a, b);
      if s[n] == '*' && HasInt(a) {
        assert (a + b)[1..] == a[1..] + b;
        var v := Signed(RANGE32, a[0].v);
        if v < 0 { DotLocal(s[n + 1..], t, flags.(minus := true), -v, a[1..], b); }
        else { DotLocal(s[n + 1..], t, flags, v, a[1..], b); }
      }
    } else {
      assert s[n..] == "";
      EndAtDot(flags, Accumulate(0, s[..n]), a);
    }
  }

  lemma EndAtDot(flags: Flags, width: nat, a: seq<Arg>)
    ensures ParseDot("", flags, width, a) == Unfinished
  {
  }

  lemma FlagsLocal(s: string, t: string, flags: Flags, a: seq<Arg>, b: seq<Arg>)
    ensures ReadsLocally(ParseFlags(s, flags, a), ParseFlags(s + t, flags, a + b), t, b)
  {
    hide ParseWidth;
    var n := Span(s, IsFlag);
    if n < |s| {
      SpanLocal(s, t, IsFlag);
      assert (s + t)[..n] == s[..n] && (s + t)[n..] == s[n..] + t;
      WidthLocal(s[n..], t, AddFlags(flags, s[..n]), a, b);
    } else {
      assert s[n..] == "";
      EndAtWidth(AddFlags(flags, s[..n]), a);
    }
  }

  lemma EndAtWidth(flags: Flags, a: seq<Arg>)
    ensures ParseWidth("", flags, 0, a) == Unfinished
  {
  }

  lemma ConvertLocal(d: Directive, a: seq<Arg>, b: seq<Arg>, done: nat, loc: Locale)
    requires d.precision >= -1
    ensures var r := Convert(d, a, done, loc);
            r.Rendered? ==> Convert(d, a + b, done, loc) == r.(args := r.args + b)
  {
    hide IntField.Text, IntField.FitsInt, Signed, Unsigned, StrText, Shown;
    if a != [] {
      assert (a + b)[0] == a[0] && (a + b)[1..] == a[1..] + b;
    }
  }

  /** The format ends between directives and its arguments are used up. */
  ghost predicate Closed(fmt: string, args: seq<Arg>, done: nat, loc: Locale)
    decreases |fmt|
  {
    if fmt == "" then args == []
    else if fmt[0] != '%' then Closed(fmt[1..], args, done + 1, loc)
    else
      var p := ParseFlags(fmt[1..], NO_FLAGS, args);
      p.Parsed? &&
      var r := Convert(p.d, p.args, done, loc);
      r.Rendered? && Closed(p.rest, r.args, done + |r.text|, loc)
  }

  /** A closed format followed by another one prints what the two print, one after the other. */
  lemma {:induction false} RenderConcat(f: string, g: string, a: seq<Arg>, b: seq<Arg>, done: nat, loc: Locale)
    requires Closed(f, a, done, loc)
    ensures var o := Render(f, a, done, loc);
            && o.status == Complete
            && Render(f + g, a + b, done, loc) == Prepend(o.text, o.stores, Render(g, b, done + |o.text|, loc))
    decreases |f|
  {
    hide ParseFlags, Convert, Prepend;
    if f == "" {
      assert f + g == g && a + b == b;
      PrependNothing(Render(g, b, done, loc));
    } else if f[0] != '%' {
      assert (f + g)[1..] == f[1..] + g;
      RenderConcat(f[1..], g, a, b, done + 1, loc);
      var o := Render(f[1..], a, done + 1, loc);
      PrependParts([f[0]], [], o);
      PrependNested([f[0]], [], o, Render(g, b, done + 1 + |o.text|, loc));
    } else {
      assert (f + g)[1..] == f[1..] + g;
      FlagsLocal(f[1..], g, NO_FLAGS, a, b);
      var p := ParseFlags(f[1..], NO_FLAGS, a);
      ConvertLocal(p.d, p.args, b, done, loc);
      var r := Convert(p.d, p.args, done, loc);
      RenderConcat(p.rest, g, r.args, b, done + |r.text|, loc);
      var o := Render(p.rest, r.args, done + |r.text|, loc);
      PrependParts(r.text, r.stores, o);
      PrependNested(r.text, r.stores, o, Render(g, b, done + |r.text| + |o.text|, loc));
    }
  }

  lemma PrependNothing(o: Outcome)
    ensures Prepend("", [], o) == o
  {
  }

  lemma PrependParts(t: string, st: seq<(nat, int)>, o: Outcome)
    ensures Prepend(t, st, o) == Outcome(t + o.text, st + o.stores, o.status)
  {
  }

  lemma PrependNested(t: string, st: seq<(nat, int)>, o: Outcome, rest: Outcome)
    ensures Prepend(t, st, Prepend(o.text, o.stores, rest)) == Prepend(t + o.text, st + o.stores, rest)
  {
    assert t + (o.text + rest.text) == t + o.text + rest.text;
    assert st + (o.stores + rest.stores) == st + o.stores + rest.stores;
  }

  // ---- Any text can be printed by a format without arguments ----

  function Escape(s: string): string {
    if s == "" then "" else (if s[0] == '%' then "%%" else [s[0]]) + Escape(s[1..])
  }

  lemma {:induction false} PercentDirective(s: string, done: nat, loc: Locale)
    ensures Render("%%" + s, [], done, loc) == Prepend("%", [], Render(s, [], done + 1, loc))
  {
    hide Render;
    var t := ("%%" + s)[1..];
    assert t[0] == '%' && t[1..] == s && t[0..] == t;
    assert Span(t, IsFlag) == 0 && t[..0] == "" && Span(t, IsDigit) == 0;
    assert AddFlags(NO_FLAGS, "") == NO_FLAGS;
    assert ParseFlags(t, NO_FLAGS, []) == Parsed(Directive(NO_FLAGS, 0, -1, NoModifier, '%'), s, []);
    RenderPercent("%%" + s, done, loc);
  }

  lemma RenderPercent(fmt: string, done: nat, loc: Locale)
    requires fmt != "" && fmt[0] == '%'
    ensures Render(fmt, [], done, loc) == Finish(ParseFlags(fmt[1..], NO_FLAGS, []), done, loc)
  {
  }

  lemma {:induction false} EscapeRoundTrip(s: string, done: nat, loc: Locale)
    ensures Render(Escape(s), [], done, loc) == Outcome(s, [], Complete)
    decreases |s|
  {
    hide Finish, ParseFlags;
    if s != "" {
      EscapeRoundTrip(s[1..], done + 1, loc);
      if s[0] == '%' {
        PercentDirective(Escape(s[1..]), done, loc);
      } else {
        assert Escape(s)[1..] == Escape(s[1..]);
      }
      assert s == [s[0]] + s[1..];
    }
  }
}
