/**
 * What formats print, over directives as they are spelt: every flag, modifier and conversion character is named, and
 * so is every base.
 */
module FormatMeaning {
  import opened FormatSpec
  import opened FormatTheorems
  import opened Numerals
  import opened Options

  // ---- A directive reads as it is spelt ----

  /** Flags, a width, a precision if any, a length modifier if any, and the conversion. */
  datatype Spelling = Spelling(flags: string, width: string, precision: Option<string>, modifier: string,
                               conversion: char)
  {
    predicate Valid() {
      && (forall i :: 0 <= i < |flags| ==> IsFlag(flags[i]))
      && Numeral(width) && Value(width) <= INT_MAX && (width != "" ==> width[0] != '0')
      && (precision.Some? ==> Numeral(precision.value) && Value(precision.value) <= INT_MAX)
      && IsModifier(modifier) && IsConversion(conversion)
    }

    function Text(): string { flags + AfterFlags() }

    function AfterFlags(): string { width + AfterWidth() }

    function AfterWidth(): string {
      if precision.Some? then "." + (precision.value + AfterPrecision()) else AfterPrecision()
    }

    function AfterPrecision(): string { modifier + [conversion] }

    function Width(): nat
      requires Valid()
    {
      Value(width)
    }

    /** -1 where there is none. */
    function Precision(): (p: int)
      requires Valid()
      ensures -1 <= p <= INT_MAX
    {
      if precision.Some? then Value(precision.value) else -1
    }

    function Meaning(): Directive
      requires Valid()
    {
      Directive(AddFlags(NO_FLAGS, flags), Width(), Precision(), ModifierOf(modifier), conversion)
    }
  }

  predicate IsModifier(m: string) {
    m == "" || m == "h" || m == "hh" || m == "l" || m == "ll" || m == "j" || m == "z" || m == "t" || m == "L"
  }

  function ModifierOf(m: string): Modifier
    requires IsModifier(m)
  {
    if m == "h" then Short else if m == "hh" then Char else if m == "l" then Long else if m == "ll" then LongLong
    else if m == "j" then Intmax else if m == "z" then Size else if m == "t" then Ptrdiff
    else if m == "L" then LongDouble else NoModifier
  }

  /** A character that cannot be taken for an earlier part of a directive. */
  predicate IsConversion(c: char) {
    !IsFlag(c) && !IsDigit(c) && c != '*' && c != '.'
    && c != 'h' && c != 'l' && c != 'j' && c != 'z' && c != 't' && c != 'L'
  }

  lemma RunRead(run: string, u: string, p: char -> bool)
    requires (forall i :: 0 <= i < |run| ==> p(run[i])) && u != "" && !p(u[0])
    ensures var s := run + u;
            Span(s, p) == |run| && s[..|run|] == run && s[|run|..] == u && |run| < |s| && s[|run|] == u[0]
  {
    SpanUnique(run + u, p, |run|);
  }

  lemma ModifierRead(m: string, c: char, t: string)
    requires IsModifier(m) && IsConversion(c)
    ensures var s := m + ([c] + t);
            ModifierAt(s) == (ModifierOf(m), |m|) && s[|m|..] == [c] + t && s != "" && !IsDigit(s[0]) && !IsFlag(s[0])
            && s[0] != '*' && s[0] != '.'
  {
    var s := m + ([c] + t);
    assert s[|m|] == c && s[|m|..] == [c] + t;
    assert m != "" ==> s[0] == m[0];
    assert |m| == 2 ==> s[1] == m[1];
  }

  lemma AfterPrecisionReads(d: Spelling, t: string, flags: Flags, width: nat, precision: int, args: seq<Arg>)
    requires d.Valid() && precision >= -1
    ensures var s := d.AfterPrecision() + t;
            && s != "" && !IsDigit(s[0]) && !IsFlag(s[0]) && s[0] != '*' && s[0] != '.'
            && ParseModifier(s, flags, width, precision, args) ==
               Parsed(Directive(flags, width, precision, ModifierOf(d.modifier), d.conversion), t, args)
  {
    hide Value, ModifierAt, ModifierOf;
    var s := d.AfterPrecision() + t;
    assert s == d.modifier + ([d.conversion] + t);
    ModifierRead(d.modifier, d.conversion, t);
    assert ([d.conversion] + t)[1..] == t;
  }

  lemma PrecisionReads(q: string, u: string, flags: Flags, width: nat, args: seq<Arg>)
    requires Numeral(q) && Value(q) <= INT_MAX && u != "" && !IsDigit(u[0]) && u[0] != '*'
    ensures ParsePrecision(q + u, flags, width, 0, args) == ParseModifier(u, flags, width, Value(q), args)
  {
    hide ParseModifier, Value, Accumulate;
    RunRead(q, u, IsDigit);
    AccumulateIsValue(q);
  }

  lemma DotReads(u: string, v: string, flags: Flags, width: nat, args: seq<Arg>)
    requires u != "" && u[0] != '.'
    ensures ParseDot("." + v, flags, width, args) == ParsePrecision(v, flags, width, 0, args)
    ensures ParseDot(u, flags, width, args) == ParseModifier(u, flags, width, -1, args)
  {
    hide ParsePrecision, ParseModifier;
    assert ("." + v)[1..] == v;
  }

  lemma AfterWidthReads(d: Spelling, t: string, flags: Flags, width: nat, args: seq<Arg>)
    requires d.Valid()
    ensures var s := d.AfterWidth() + t;
            s != "" && !IsDigit(s[0]) && !IsFlag(s[0]) && s[0] != '*' && ParseDot(s, flags, width, args) ==
            Parsed(Directive(flags, width, d.Precision(), ModifierOf(d.modifier), d.conversion), t, args)
  {
    hide ParseModifier, ParsePrecision, ParseDot, Value, ModifierOf, Spelling.AfterPrecision;
    var u := d.AfterPrecision() + t;
    AfterPrecisionReads(d, t, flags, width, d.Precision(), args);
    if d.precision.Some? {
      PrecisionReads(d.precision.value, u, flags, width, args);
      DotReads(u, d.precision.value + u, flags, width, args);
      assert d.AfterWidth() + t == "." + (d.precision.value + u);
    } else {
      DotReads(u, "", flags, width, args);
      assert d.AfterWidth() + t == u;
    }
  }

  lemma AfterFlagsReads(d: Spelling, t: string, flags: Flags, args: seq<Arg>)
    requires d.Valid()
    ensures var s := d.AfterFlags() + t;
            s != "" && !IsFlag(s[0]) && ParseWidth(s, flags, 0, args) ==
            Parsed(Directive(flags, d.Width(), d.Precision(), ModifierOf(d.modifier), d.conversion), t, args)
  {
    hide ParseDot, Value, ModifierOf, Accumulate, Spelling.AfterWidth;
    var u := d.AfterWidth() + t;
    AfterWidthReads(d, t, flags, d.Width(), args);
    RunRead(d.width, u, IsDigit);
    AccumulateIsValue(d.width);
    assert d.AfterFlags() + t == d.width + u;
    if d.width != "" { assert (d.width + u)[0] == d.width[0]; } else { assert d.width + u == u; }
  }

  /** Reading a spelling gives its meaning, whatever format follows. */
  lemma SpellingReads(d: Spelling, t: string, args: seq<Arg>)
    requires d.Valid()
    ensures ParseFlags(d.Text() + t, NO_FLAGS, args) == Parsed(d.Meaning(), t, args)
  {
    hide ParseWidth, Value, ModifierOf, AddFlags, Spelling.AfterFlags;
    var u := d.AfterFlags() + t;
    AfterFlagsReads(d, t, AddFlags(NO_FLAGS, d.flags), args);
    RunRead(d.flags, u, IsFlag);
    assert d.Text() + t == d.flags + u;
  }

  /** The flags of a meaning are those spelt. */
  lemma FlagsMean(run: string)
    ensures var f := AddFlags(NO_FLAGS, run);
            && (f.minus <==> '-' in run) && (f.plus <==> '+' in run) && (f.space <==> ' ' in run)
            && (f.num <==> '#' in run) && (f.zero <==> '0' in run) && (f.quote <==> '\'' in run)
  {
  }

  /** A format that is one directive prints what the directive renders to. */
  lemma DirectivePrints(fmt: string, args: seq<Arg>, d: Directive, own: seq<Arg>, o: Rendered, done: nat, loc: Locale)
    requires fmt != "" && fmt[0] == '%' && d.precision >= -1
    ensures ParseFlags(fmt[1..], NO_FLAGS, args) == Parsed(d, "", own) && Convert(d, own, done, loc) == o
            && o.Rendered? && o.args == [] ==>
              Render(fmt, args, done, loc) == Outcome(o.text, o.stores, Complete)
  {
    hide ParseFlags, Convert;
    if o.Rendered? { assert Render("", [], done + |o.text|, loc) == Outcome("", [], Complete); }
  }

  lemma OneDirective(d: Spelling, args: seq<Arg>, o: Rendered, done: nat, loc: Locale)
    requires d.Valid() && o.Rendered? && o.args == []
    ensures Convert(d.Meaning(), args, done, loc) == o ==>
      Render("%" + d.Text(), args, done, loc) == Outcome(o.text, o.stores, Complete)
  {
    hide ParseFlags, Convert, Render;
    var fmt := "%" + d.Text();
    assert fmt[1..] == d.Text() + "" == d.Text();
    SpellingReads(d, "", args);
    DirectivePrints(fmt, args, d.Meaning(), args, o, done, loc);
  }

  /** Any sequence of directives composes: one that prints something is closed. */
  lemma DirectiveIsClosed(d: Spelling, args: seq<Arg>, done: nat, loc: Locale)
    requires d.Valid()
    ensures var r := Convert(d.Meaning(), args, done, loc);
            r.Rendered? && r.args == [] ==> Closed("%" + d.Text(), args, done, loc)
  {
    hide ParseFlags, Convert;
    var fmt := "%" + d.Text();
    assert fmt[1..] == d.Text() + "" == d.Text();
    SpellingReads(d, "", args);
  }

  // ---- Numbers of every type, in every base ----

  /** How many values the type named by a modifier has. */
  function Values(m: string): int {
    if m == "hh" then 0x100 else if m == "h" then 0x1_0000
    else if m == "" || m == "L" then 0x1_0000_0000 else 0x1_0000_0000_0000_0000
  }

  /** The argument is passed as an int, or in the type named when that is wider. */
  predicate Passed(m: string, v: int) {
    if m == "" || m == "h" || m == "hh" || m == "L" then -0x8000_0000 <= v <= 0xFFFF_FFFF
    else -0x8000_0000_0000_0000 <= v <= 0xFFFF_FFFF_FFFF_FFFF
  }

  predicate IsSigned(c: char) { c == 'd' || c == 'i' }

  predicate IsInteger(c: char) { IsSigned(c) || c == 'u' || c == 'o' || c == 'x' || c == 'X' }

  function Base(c: char): nat { if c == 'o' then 8 else if c == 'x' || c == 'X' then 16 else 10 }

  function Shifted(v: int, n: int, q: int): int { v + n * q }

  /** k is the value of the type that v becomes: it differs from v by a multiple of the number of values. */
  ghost predicate Becomes(m: string, c: char, v: int, k: int) {
    && (exists q :: k == Shifted(v, Values(m), q))
    && if IsSigned(c) then -Values(m) <= 2 * k < Values(m) else 0 <= k < Values(m)
  }

  lemma RangesMean(m: string, v: int)
    requires IsModifier(m)
    ensures ValueRange(ModifierOf(m)) == Values(m)
    ensures InType(PassedRange(ModifierOf(m)), v) <==> Passed(m, v)
  {
  }

  predicate IsRange(n: int) { n == 0x100 || n == 0x1_0000 || n == 0x1_0000_0000 || n == 0x1_0000_0000_0000_0000 }

  lemma Remainder(n: int, v: int)
    requires n > 0
    ensures Shifted(v, n, -(v / n)) == v % n && Shifted(v, n, -(v / n) - 1) == v % n - n
  {
    var q, r := v / n, v % n;
    assert v == n * q + r;
    assert n * (-q) == -(n * q) && n * (-q - 1) == -(n * q) - n;
  }

  lemma SignedMeans(n: int, v: int)
    requires IsRange(n)
    ensures (exists q :: Signed(n, v) == Shifted(v, n, q)) && -n <= 2 * Signed(n, v) < n
    ensures (exists q :: Unsigned(n, v) == Shifted(v, n, q)) && 0 <= Unsigned(n, v) < n
  {
    Remainder(n, v);
    hide Shifted;
  }

  /** The value printed. */
  function Shows(s: Spelling, v: int): int
    requires IsModifier(s.modifier)
  {
    var n := Values(s.modifier);
    if IsSigned(s.conversion) then Signed(n, v) else Unsigned(n, v)
  }

  /** Beyond this no intermediate result leaves the range of int; and the least value of the widest type has no
      magnitude in it. */
  predicate Modest(s: Spelling, v: int, loc: Locale)
    requires s.Valid()
  {
    s.Precision() <= 0x4000_0000 && |loc.Sep()| <= 0x10_0000 && Shows(s, v) != -0x8000_0000_0000_0000
  }

  function FieldOf(s: Spelling, v: int, sep: string): IntField
    requires s.Valid() && IsInteger(s.conversion)
  {
    var d, n := s.Meaning(), Values(s.modifier);
    if IsSigned(s.conversion) then SignedField(d, Signed(n, v), sep) else UnsignedField(d, Unsigned(n, v), sep)
  }

  lemma ShowsMeans(s: Spelling, v: int)
    requires s.Valid()
    ensures Becomes(s.modifier, s.conversion, v, Shows(s, v))
    ensures -0x8000_0000_0000_0000 <= Shows(s, v) < 0x1_0000_0000_0000_0000
  {
    hide Signed, Unsigned;
    SignedMeans(Values(s.modifier), v);
  }

  /** What the field of a directive holds. */
  lemma FieldMeans(s: Spelling, v: int, sep: string)
    requires s.Valid() && IsInteger(s.conversion)
    ensures var f, k := FieldOf(s, v, sep), Shows(s, v);
            && f.Valid() && f.magnitude == (if k < 0 then -k else k) && f.magnitude < 0x1_0000_0000_0000_0000
            && f.base == Base(s.conversion) && (f.base == 16 ==> (f.up <==> s.conversion == 'X'))
            && f.flags == s.Meaning().flags && f.width == s.Width() && f.precision == s.Precision() && f.sep == sep
            && f.sign == (if !IsSigned(s.conversion) then "" else if k < 0 then "-" else if '+' in s.flags then "+"
                          else if ' ' in s.flags then " " else "")
  {
    hide Value, AddFlags;
    ShowsMeans(s, v);
    FlagsMean(s.flags);
  }

  lemma ModestFits(f: IntField)
    requires f.Valid() && f.magnitude < 0x1_0000_0000_0000_0000 && f.precision <= 0x4000_0000 && |f.sep| <= 0x10_0000
    ensures f.FitsInt()
  {
    BufferSuffices(f.magnitude, f.base, f.up);
    hide Digits;
    assert Separators(|f.Body()|) <= 14;
    TimesMonotone(Separators(|f.Body()|), 14, |f.Sep()|, 0x10_0000);
    hide Separators;
  }

  /** An integer directive prints its field, and is defined. */
  lemma IntegerPrints(s: Spelling, v: int, done: nat, loc: Locale)
    requires s.Valid() && IsInteger(s.conversion) && Passed(s.modifier, v) && Modest(s, v, loc)
    ensures Render("%" + s.Text(), [Integer(v)], done, loc) ==
            Outcome(FieldOf(s, v, loc.Sep()).Text(), [], Complete)
  {
    var f := FieldOf(s, v, loc.Sep());
    FieldMeans(s, v, loc.Sep());
    ModestFits(f);
    IntegerConverts(s, v, done, loc);
    hide *;
    OneDirective(s, [Integer(v)], Rendered(f.Text(), [], []), done, loc);
  }

  lemma IntegerConverts(s: Spelling, v: int, done: nat, loc: Locale)
    requires s.Valid() && IsInteger(s.conversion) && Passed(s.modifier, v) && Modest(s, v, loc)
    requires FieldOf(s, v, loc.Sep()).Valid() && FieldOf(s, v, loc.Sep()).FitsInt()
    ensures Convert(s.Meaning(), [Integer(v)], done, loc) == Rendered(FieldOf(s, v, loc.Sep()).Text(), [], [])
  {
    RangesMean(s.modifier, v);
    ShowsMeans(s, v);
    assert [Integer(v)][1..] == [] && [Integer(v)][0] == Integer(v);
    hide Signed, Unsigned, Value, AddFlags, ModifierOf, Values, PassedRange, ValueRange, InType;
    hide IntField.Text, IntField.FitsInt, IntField.Valid;
  }

  lemma ShownReads(s: Spelling, v: int, loc: Locale)
    requires s.Valid() && IsInteger(s.conversion) && PlainSeparator(loc)
    ensures FieldOf(s, v, loc.Sep()).Valid()
    ensures ReadInt(FieldOf(s, v, loc.Sep()).Text(), Base(s.conversion)) == Shows(s, v)
  {
    FieldMeans(s, v, loc.Sep());
    ShowsMeans(s, v);
    hide Shows, FieldOf, IntField.Text, ReadInt, Spelling.Valid, Spelling.Meaning;
    FieldReadsBack(FieldOf(s, v, loc.Sep()));
  }

  /** What is printed under d, i or u reads in base 10, under o in base 8, and under x or X in base 16, as the value of
      the type named: a signed one under d and i, an unsigned one else. */
  lemma IntegerReads(s: Spelling, v: int, done: nat, loc: Locale)
    requires s.Valid() && IsInteger(s.conversion) && Passed(s.modifier, v) && Modest(s, v, loc) && PlainSeparator(loc)
    ensures var o := Render("%" + s.Text(), [Integer(v)], done, loc);
            && o.status == Complete
            && (s.conversion == 'd' || s.conversion == 'i' || s.conversion == 'u' ==>
                  Becomes(s.modifier, s.conversion, v, ReadInt(o.text, 10)))
            && (s.conversion == 'o' ==> Becomes(s.modifier, s.conversion, v, ReadInt(o.text, 8)))
            && (s.conversion == 'x' || s.conversion == 'X' ==>
                  Becomes(s.modifier, s.conversion, v, ReadInt(o.text, 16)))
  {
    IntegerPrints(s, v, done, loc);
    ShowsMeans(s, v);
    ShownReads(s, v, loc);
    hide Shows, FieldOf, Modest, Passed, PlainSeparator, IntField.Text, ReadInt, Render, Becomes;
    hide Spelling.Valid, Spelling.Text, Spelling.Meaning;
  }

  // ---- Digits ----

  /** The numbers in a format are decimal. */
  lemma {:induction false} NumeralReads(s: string)
    requires Numeral(s)
    ensures Value(s) == ReadDigits(0, s, 10)
  {
    hide ReadDigits;
    if s == "" {
      NoDigitsInNothing(10);
      ReadNothing(0, "", 10);
    } else {
      var n := |s| - 1;
      NumeralReads(s[..n]);
      ReadLast(0, s[..n], s[n], 10);
      assert s == s[..n] + [s[n]];
    }
  }

  /** The digits of a base, in the case asked for. */
  predicate IsFigure(c: char, base: nat, up: bool) {
    || ('0' <= c <= '7')
    || (base > 8 && '8' <= c <= '9')
    || (base == 16 && if up then 'A' <= c <= 'F' else 'a' <= c <= 'f')
  }

  lemma FigureOf(d: nat, base: nat, up: bool)
    requires (base == 8 || base == 10 || base == 16) && d < base
    ensures IsFigure(DigitChar(d, up), base, up) && (DigitChar(d, up) == '0' <==> d == 0)
  {
  }

  /** Digits have the case asked for, and no zero in front but for zero itself. */
  lemma {:induction false} DigitsAre(n: nat, base: nat, up: bool)
    requires base == 8 || base == 10 || base == 16
    ensures var s := Digits(n, base, up);
            && (forall i :: 0 <= i < |s| ==> IsFigure(s[i], base, up))
            && (n == 0 ==> s == "0") && (n > 0 ==> s[0] != '0')
  {
    hide DigitChar, IsFigure;
    DivMod(n, base);
    FigureOf(n % base, base, up);
    if n < base {
      assert n % base == n;
      ZeroFigure(up);
    } else {
      QuotientPositive(n, base);
      DigitsAre(n / base, base, up);
      var s, t := Digits(n, base, up), Digits(n / base, base, up);
      assert s == t + [DigitChar(n % base, up)];
      assert forall i :: 0 <= i < |s| ==> s[i] == if i < |t| then t[i] else DigitChar(n % base, up);
    }
  }

  lemma QuotientPositive(n: nat, base: nat)
    requires 0 < base <= n
    ensures n / base > 0
  {
  }

  lemma ZeroFigure(up: bool)
    ensures DigitChar(0, up) == '0'
  {
  }

  /** Grouping puts the separator in front of each three digits from the end, and none in front of the first. */
  lemma {:induction false} GroupByThrees(x: string, y: string, sep: string)
    requires |y| == 3 && x != ""
    ensures Group(x + y, sep) == Group(x, sep) + (sep + y)
    decreases |x|
  {
    hide Group;
    GroupThree(y, sep);
    var mark := GroupFirstOf(x, y, sep);
    if |x| == 1 {
      GroupThree(x, sep);
      GroupThree("", sep);
    } else {
      GroupByThrees(x[1..], y, sep);
      Regroup([x[0]], mark, Group(x[1..], sep), sep + y);
    }
  }

  lemma Regroup(a: string, b: string, c: string, d: string)
    ensures a + b + (c + d) == a + b + c + d
  {
  }

  /** The first digit of a group that three digits follow. */
  lemma GroupFirstOf(x: string, y: string, sep: string) returns (mark: string)
    requires |y| == 3 && x != ""
    ensures |x| > 1 ==> Group(x, sep) == [x[0]] + mark + Group(x[1..], sep)
    ensures |x| > 1 ==> Group(x + y, sep) == [x[0]] + mark + Group(x[1..] + y, sep)
    ensures |x| == 1 ==> Group(x + y, sep) == x + (sep + Group(y, sep)) && x == [x[0]]
  {
    mark := if |x| > 1 && (|x| - 1) % 3 == 0 then sep else "";
    assert (x + y)[1..] == x[1..] + y && (x + y)[0] == x[0];
    if |x| == 1 { assert x[1..] + y == y && [x[0]] + sep + Group(y, sep) == x + (sep + Group(y, sep)); }
  }

  lemma GroupThree(s: string, sep: string)
    requires |s| <= 3
    ensures Group(s, sep) == s
  {
    assert Group("", sep) == "";
    if |s| == 1 { assert s == [s[0]] && s[1..] == ""; }
    if |s| == 2 { assert s == [s[0]] + s[1..] && s[1..] == [s[1]] && s[1..][1..] == ""; }
    if |s| == 3 {
      assert s == [s[0]] + s[1..] && s[1..] == [s[1]] + s[2..] && s[2..] == [s[2]];
      assert s[1..][1..] == s[2..] && s[2..][1..] == "";
    }
  }

  // ---- What stands where in a field ----

  predicate AllAre(s: string, c: char) { forall i :: 0 <= i < |s| ==> s[i] == c }

  /** The least number of digits: the precision, and one more than there are for an octal alternative form that has
      no zero in front yet. */
  function Least(s: Spelling, k: int, digits: nat): int
    requires s.Valid()
  {
    if '#' in s.flags && s.conversion == 'o' && k != 0 && s.Precision() <= digits then digits + 1 else s.Precision()
  }

  function SignText(s: Spelling, k: int): string {
    if !IsSigned(s.conversion) then "" else if k < 0 then "-" else if '+' in s.flags then "+"
    else if ' ' in s.flags then " " else ""
  }

  function PrefixText(s: Spelling, k: int): string {
    if '#' in s.flags && k != 0 && s.conversion == 'x' then "0x"
    else if '#' in s.flags && k != 0 && s.conversion == 'X' then "0X" else ""
  }

  predicate ZeroFilled(s: Spelling) { '0' in s.flags && '-' !in s.flags && s.precision.None? }

  /**
   * Without the quote flag, a field consists of blanks, sign, prefix, zeros, digits and blanks. Blanks stand in front
   * without a minus flag and behind with one; a zero flag turns those in front into zeros, unless there is a precision;
   * and there are only as many as the width demands.
   */
  lemma IntegerParts(s: Spelling, v: int, done: nat, loc: Locale)
    returns (left: string, zeros: string, digits: string, right: string)
    requires s.Valid() && IsInteger(s.conversion) && Passed(s.modifier, v) && Modest(s, v, loc) && '\'' !in s.flags
    ensures var k := Shows(s, v);
            && Render("%" + s.Text(), [Integer(v)], done, loc) ==
               Outcome(left + SignText(s, k) + PrefixText(s, k) + zeros + digits + right, [], Complete)
            && AllAre(left, ' ') && AllAre(zeros, '0') && AllAre(right, ' ')
            && (forall i :: 0 <= i < |digits| ==> IsFigure(digits[i], Base(s.conversion), s.conversion == 'X'))
            && ReadDigits(0, digits, Base(s.conversion)) == (if k < 0 then -k else k)
            && (k == 0 ==> digits == "0") && (k != 0 ==> digits != "" && digits[0] != '0')
            && (right != "" ==> '-' in s.flags) && (left != "" ==> '-' !in s.flags && !ZeroFilled(s))
            && var fill := Max(0, Least(s, k, |digits|) - |digits|);
               var core := |SignText(s, k)| + |PrefixText(s, k)| + fill + |digits|;
               && (if ZeroFilled(s) then |zeros| >= fill else |zeros| == fill)
               && |left| + |right| + |zeros| - fill + core == Max(s.Width(), core)
  {
    hide *;
    IntegerPrints(s, v, done, loc);
    FieldWords(s, v, loc.Sep());
    left, zeros, digits, right := FieldParts(FieldOf(s, v, loc.Sep()));
    LeastMeans(s, v, loc.Sep(), |digits|);
  }

  /** The parts of the field, in terms of the spelling. */
  lemma FieldWords(s: Spelling, v: int, sep: string)
    requires s.Valid() && IsInteger(s.conversion)
    ensures var f, k := FieldOf(s, v, sep), Shows(s, v);
            && f.Valid() && f.base == Base(s.conversion) && f.magnitude == (if k < 0 then -k else k)
            && f.sign == SignText(s, k) && f.Prefix() == PrefixText(s, k) && f.width == s.Width()
            && (f.base == 16 ==> (f.up <==> s.conversion == 'X'))
            && (f.flags.quote <==> '\'' in s.flags) && (f.flags.minus <==> '-' in s.flags)
            && (f.flags.zero && !f.flags.minus && f.precision == -1 <==> ZeroFilled(s))
            && (ZeroFilled(s) ==> '-' !in s.flags)
    ensures forall c :: IsFigure(c, Base(s.conversion), FieldOf(s, v, sep).up) ==>
                        IsFigure(c, Base(s.conversion), s.conversion == 'X')
  {
    FieldMeans(s, v, sep);
    FlagsMean(s.flags);
    hide FieldOf, Shows, Value, AddFlags;
  }

  lemma LeastMeans(s: Spelling, v: int, sep: string, digits: nat)
    requires s.Valid() && IsInteger(s.conversion)
    ensures var f, k := FieldOf(s, v, sep), Shows(s, v);
            Least(s, k, digits) ==
            if f.flags.num && f.base == 8 && f.magnitude != 0 && f.precision <= digits then digits + 1 else f.precision
  {
    FieldMeans(s, v, sep);
    FlagsMean(s.flags);
    hide FieldOf, Shows, Value, AddFlags;
  }

  /** The parts of a field without separators. */
  lemma FieldParts(f: IntField) returns (left: string, zeros: string, digits: string, right: string)
    requires f.Valid() && !f.flags.quote
    ensures f.Text() == left + f.sign + f.Prefix() + zeros + digits + right
    ensures AllAre(left, ' ') && AllAre(zeros, '0') && AllAre(right, ' ')
    ensures forall i :: 0 <= i < |digits| ==> IsFigure(digits[i], f.base, f.up)
    ensures ReadDigits(0, digits, f.base) == f.magnitude
    ensures (f.magnitude == 0 ==> digits == "0") && (f.magnitude > 0 ==> digits != "" && digits[0] != '0')
    ensures right != "" ==> f.flags.minus
    ensures left != "" ==> !f.flags.minus && !(f.flags.zero && f.precision == -1)
    ensures var least := if f.flags.num && f.base == 8 && f.magnitude != 0 && f.precision <= |digits| then |digits| + 1
                         else f.precision;
            var fill := Max(0, least - |digits|);
            var core := |f.sign| + |f.Prefix()| + fill + |digits|;
            && (if f.flags.zero && !f.flags.minus && f.precision == -1 then |zeros| >= fill else |zeros| == fill)
            && |left| + |right| + |zeros| - fill + core == Max(f.width, core)
  {
    left := Repeat(' ', if f.flags.minus || f.ZeroPadded() then 0 else f.Pad());
    right := Repeat(' ', if f.flags.minus then f.Pad() else 0);
    zeros, digits := Repeat('0', f.Zeros()), f.Body();
    RepeatAll(' ', |left|);
    RepeatAll(' ', |right|);
    RepeatAll('0', |zeros|);
    DigitsAre(f.magnitude, f.base, f.up);
    DigitsRead(f.magnitude, f.base, f.up);
    GroupNothing(digits);
    hide Digits, Repeat, Group, ReadDigits, IsFigure;
    assert f.SepLength() == 0;
  }

  lemma {:induction false} GroupNothing(digits: string)
    ensures Group(digits, "") == digits
  {
    if digits != "" { GroupNothing(digits[1..]); }
  }

  // ---- Strings, characters, pointers, counts ----

  /** The characters of a string that are shown: no more than the precision. */
  function Cut(s: Spelling, value: Option<string>): string
    requires s.Valid()
  {
    var t := if value.Some? then value.value else "(null)";
    if s.precision.Some? && s.Precision() < |t| then t[..s.Precision()] else t
  }

  /** A string is padded with blanks to the width: behind it with a minus flag, in front of it without. */
  lemma StringPrints(s: Spelling, value: Option<string>, done: nat, loc: Locale) returns (blanks: string)
    requires s.Valid() && s.conversion == 's' && |Cut(s, value)| <= 0x7FFF_FFFF
    ensures var t := Cut(s, value);
            && AllAre(blanks, ' ') && |blanks| + |t| == Max(s.Width(), |t|)
            && Render("%" + s.Text(), [String(value)], done, loc) ==
               Outcome(if '-' in s.flags then t + blanks else blanks + t, [], Complete)
  {
    var t, d := Cut(s, value), s.Meaning();
    FlagsMean(s.flags);
    assert t == Shown(value, d.precision);
    hide Spelling.Text, Value, AddFlags, ModifierOf, Shown, Cut, Repeat;
    blanks := Repeat(' ', Max(0, d.width - |t|));
    RepeatAll(' ', |blanks|);
    assert [String(value)][1..] == [];
    assert Convert(d, [String(value)], done, loc) ==
           Rendered(if '-' in s.flags then t + blanks else blanks + t, [], []);
    hide Convert;
    OneDirective(s, [String(value)], Convert(d, [String(value)], done, loc), done, loc);
  }

  lemma ConversionOf(s: Spelling)
    requires s.Valid()
    ensures var d := s.Meaning();
            d.conversion == s.conversion && d.precision == s.Precision() >= -1 && d.width == s.Width()
            && (d.flags.minus <==> '-' in s.flags) && d.modifier == ModifierOf(s.modifier) && IsModifier(s.modifier)
  {
    FlagsMean(s.flags);
    hide Value, AddFlags;
  }

  lemma CharConverts(d: Directive, v: int, done: nat, loc: Locale)
    requires d.precision >= -1 && d.conversion == 'c' && -0x8000_0000 <= v <= 0xFFFF_FFFF
    ensures Convert(d, [Integer(v)], done, loc) == Rendered([(v % 0x100) as char], [], [])
  {
    assert [Integer(v)][1..] == [];
  }

  /** A character is the argument as an unsigned char, whatever the flags, width and precision. */
  lemma CharPrints(s: Spelling, v: int, done: nat, loc: Locale)
    requires s.Valid() && s.conversion == 'c' && -0x8000_0000 <= v <= 0xFFFF_FFFF
    ensures Render("%" + s.Text(), [Integer(v)], done, loc) == Outcome([(v % 0x100) as char], [], Complete)
  {
    hide *;
    ConversionOf(s);
    CharConverts(s.Meaning(), v, done, loc);
    OneDirective(s, [Integer(v)], Rendered([(v % 0x100) as char], [], []), done, loc);
  }

  lemma NullConverts(d: Directive, done: nat, loc: Locale)
    requires d.precision >= -1 && d.conversion == 'p'
    ensures Convert(d, [Pointer(0)], done, loc) ==
            Rendered(StrText(Some("(nil)"), d.width, -1, d.flags.minus), [], [])
  {
    assert [Pointer(0)][1..] == [];
    hide StrText, RenderInt;
  }

  lemma AddressConverts(d: Directive, address: nat, done: nat, loc: Locale)
    requires d.precision >= -1 && d.conversion == 'p' && 0 < address < 0x1_0000_0000_0000_0000
    ensures Convert(d, [Pointer(address)], done, loc) == RenderInt(PointerField(d, address, loc.Sep()), [])
  {
    assert [Pointer(address)][1..] == [];
    hide StrText, RenderInt, PointerField;
  }

  lemma PointerConverts(d: Directive, address: nat, done: nat, loc: Locale)
    requires d.precision >= -1 && d.conversion == 'p' && 0 < address < 0x1_0000_0000_0000_0000
    ensures var e := d.(flags := d.flags.(num := true), modifier := Long, conversion := 'x');
            Convert(d, [Pointer(address)], done, loc) == Convert(e, [Integer(address)], done, loc)
  {
    AddressConverts(d, address, done, loc);
    assert [Integer(address)][1..] == [];
    assert Unsigned(RANGE64, address) == address;
    hide RenderInt, Unsigned, Signed, StrText;
  }

  lemma NilText(width: nat, minus: bool) returns (blanks: string)
    ensures AllAre(blanks, ' ') && |blanks| == Max(0, width - 5)
    ensures StrText(Some("(nil)"), width, -1, minus) == if minus then "(nil)" + blanks else blanks + "(nil)"
  {
    blanks := Repeat(' ', Max(0, width - 5));
    RepeatAll(' ', |blanks|);
    hide Repeat;
  }

  /** A null pointer prints as the string (nil), without a precision. */
  lemma NullPrints(s: Spelling, done: nat, loc: Locale) returns (blanks: string)
    requires s.Valid() && s.conversion == 'p'
    ensures AllAre(blanks, ' ') && |blanks| == Max(0, s.Width() - 5)
    ensures Render("%" + s.Text(), [Pointer(0)], done, loc) ==
            Outcome(if '-' in s.flags then "(nil)" + blanks else blanks + "(nil)", [], Complete)
  {
    hide *;
    ConversionOf(s);
    NullConverts(s.Meaning(), done, loc);
    blanks := NilText(s.Width(), s.Meaning().flags.minus);
    OneDirective(s, [Pointer(0)],
                 Rendered(if '-' in s.flags then "(nil)" + blanks else blanks + "(nil)", [], []), done, loc);
  }

  /** Any other pointer prints as its address under #lx. */
  lemma PointerPrints(s: Spelling, address: nat, done: nat, loc: Locale)
    requires s.Valid() && s.conversion == 'p' && 0 < address < 0x1_0000_0000_0000_0000
    requires Modest(s, 0, loc)
    ensures var x := Spelling("#" + s.flags, s.width, s.precision, "l", 'x');
            && x.Valid() && Passed("l", address) && Modest(x, address, loc)
            && Render("%" + s.Text(), [Pointer(address)], done, loc) ==
               Outcome(FieldOf(x, address, loc.Sep()).Text(), [], Complete)
  {
    var x := Spelling("#" + s.flags, s.width, s.precision, "l", 'x');
    AlternativeOf(s, x);
    AddressShown(x, address);
    assert Modest(x, address, loc) by { hide Value, Shows; }
    assert Passed("l", address);
    ConversionOf(s);
    FieldMeans(x, address, loc.Sep());
    hide *;
    PointerConverts(s.Meaning(), address, done, loc);
    AddressFits(x, address, loc);
    IntegerConverts(x, address, done, loc);
    OneDirective(s, [Pointer(address)], Rendered(FieldOf(x, address, loc.Sep()).Text(), [], []), done, loc);
  }

  lemma AddressFits(x: Spelling, address: nat, loc: Locale)
    requires x.Valid() && IsInteger(x.conversion) && Modest(x, address, loc)
    ensures FieldOf(x, address, loc.Sep()).Valid() && FieldOf(x, address, loc.Sep()).FitsInt()
    ensures IsInteger(x.conversion)
  {
    FieldMeans(x, address, loc.Sep());
    hide FieldOf, Shows, Value;
    ModestFits(FieldOf(x, address, loc.Sep()));
  }

  lemma AlternativeOf(s: Spelling, x: Spelling)
    requires s.Valid() && s.conversion == 'p' && x == Spelling("#" + s.flags, s.width, s.precision, "l", 'x')
    ensures x.Valid() && IsInteger(x.conversion) && x.Width() == s.Width() && x.Precision() == s.Precision()
    ensures var d := s.Meaning();
            x.Meaning() == d.(flags := d.flags.(num := true), modifier := Long, conversion := 'x')
  {
    hide Value;
    assert forall c :: c in "#" + s.flags <==> c == '#' || c in s.flags;
  }

  lemma AddressShown(x: Spelling, address: nat)
    requires x.Valid() && x.modifier == "l" && x.conversion == 'x' && address < 0x1_0000_0000_0000_0000
    ensures Shows(x, address) == address
  {
  }

  lemma CountConverts(d: Directive, id: nat, done: nat, loc: Locale)
    requires d.precision >= -1 && d.conversion == 'n'
    ensures Convert(d, [Cell(id)], done, loc) == Rendered("", [(id, StoredCount(d.modifier, done))], [])
  {
    assert [Cell(id)][1..] == [];
    hide StoredCount;
  }

  lemma CountMeans(m: string, done: nat)
    requires IsModifier(m)
    ensures var k := StoredCount(ModifierOf(m), done);
            && (exists q :: k == Shifted(done, Values(m), q)) && (2 * done < Values(m) ==> k == done)
  {
    RangesMean(m, 0);
    SignedMeans(Values(m), done);
    hide Shifted;
  }

  /** A count is stored, reduced to a type of the size named, and nothing is printed. */
  lemma CountStored(s: Spelling, id: nat, done: nat, loc: Locale)
    requires s.Valid() && s.conversion == 'n'
    ensures var o := Render("%" + s.Text(), [Cell(id)], done, loc);
            && o.text == "" && o.status == Complete && |o.stores| == 1 && o.stores[0].0 == id
            && (exists q :: o.stores[0].1 == Shifted(done, Values(s.modifier), q))
            && (2 * done < Values(s.modifier) ==> o.stores[0].1 == done)
  {
    hide *;
    ConversionOf(s);
    CountConverts(s.Meaning(), id, done, loc);
    CountMeans(s.modifier, done);
    OneDirective(s, [Cell(id)], Rendered("", [(id, StoredCount(ModifierOf(s.modifier), done))], []), done, loc);
  }

  // ---- Floating point: which directive the renderer of such values is given ----

  predicate IsFloating(c: char) {
    c == 'a' || c == 'A' || c == 'e' || c == 'E' || c == 'f' || c == 'F' || c == 'g' || c == 'G'
  }

  lemma FloatConverts(d: Directive, id: nat, done: nat, loc: Locale)
    requires d.precision >= -1 && IsFloating(d.conversion)
    ensures var p := if (d.conversion == 'g' || d.conversion == 'G') && d.precision == 0 then 1 else d.precision;
            var t := loc.float(id, d.modifier == LongDouble, d.conversion, d.flags, d.width, p);
            Convert(d, [Float(id)], done, loc) == if t.Some? then Rendered(t.value, [], []) else FloatOverflow
  {
    assert [Float(id)][1..] == [];
  }

  lemma OverflowPrints(s: Spelling, args: seq<Arg>, done: nat, loc: Locale)
    requires s.Valid()
    ensures Convert(s.Meaning(), args, done, loc) == FloatOverflow ==>
      Render("%" + s.Text(), args, done, loc) == Outcome("", [], Overflow)
  {
    hide Convert, ParseFlags, Spelling.Text, Spelling.Meaning;
    SpellingReads(s, "", args);
    assert ("%" + s.Text())[1..] == s.Text() + "" == s.Text();
  }

  lemma LongDoubleMeans(m: string)
    requires IsModifier(m)
    ensures ModifierOf(m) == LongDouble <==> m == "L"
  {
  }

  /** The renderer is given the width and the precision as spelt, but that g and G take a precision of zero for one; it
      is told of a long double by the modifier L. Its text is printed; when it overflows nothing is. */
  lemma FloatPrints(s: Spelling, id: nat, done: nat, loc: Locale)
    requires s.Valid() && IsFloating(s.conversion)
    ensures var p := if (s.conversion == 'g' || s.conversion == 'G') && s.Precision() == 0 then 1 else s.Precision();
            var t := loc.float(id, s.modifier == "L", s.conversion, s.Meaning().flags, s.Width(), p);
            Render("%" + s.Text(), [Float(id)], done, loc) ==
            if t.Some? then Outcome(t.value, [], Complete) else Outcome("", [], Overflow)
  {
    hide *;
    var p := if (s.conversion == 'g' || s.conversion == 'G') && s.Precision() == 0 then 1 else s.Precision();
    var t := loc.float(id, s.modifier == "L", s.conversion, s.Meaning().flags, s.Width(), p);
    ConversionOf(s);
    LongDoubleMeans(s.modifier);
    FloatConverts(s.Meaning(), id, done, loc);
    OverflowPrints(s, [Float(id)], done, loc);
    if t.Some? { OneDirective(s, [Float(id)], Rendered(t.value, [], []), done, loc); }
  }

  /** A character that names no conversion prints nothing and takes no argument. */
  lemma OthersPrintNothing(s: Spelling, done: nat, loc: Locale)
    requires s.Valid() && !IsInteger(s.conversion) && !IsFloating(s.conversion)
    requires s.conversion != 's' && s.conversion != 'c' && s.conversion != 'p' && s.conversion != 'n'
    ensures Render("%" + s.Text(), [], done, loc) == Outcome(if s.conversion == '%' then "%" else "", [], Complete)
  {
    hide Spelling.Text, Value, AddFlags, ModifierOf;
    OneDirective(s, [], Rendered(if s.conversion == '%' then "%" else "", [], []), done, loc);
  }

  // ---- Stars ----

  lemma IntArgument(v: int, args: seq<Arg>)
    requires -0x8000_0000 <= v <= 0x7FFF_FFFF
    ensures var a := [Integer(v)] + args; HasInt(a) && a[0] == Integer(v) && a[1..] == args && Signed(RANGE32, v) == v
  {
  }

  lemma StarInFront(u: string)
    ensures var s := "*" + u;
            s[0] == '*' && s[1..] == u && Span(s, IsDigit) == 0 && s[..0] == "" && Accumulate(0, "") == 0
  {
  }

  lemma WidthAtStar(s: string, flags: Flags, args: seq<Arg>, v: int)
    requires s != "" && s[0] == '*' && Span(s, IsDigit) == 0 && s[..0] == "" && Accumulate(0, "") == 0
    requires HasInt(args) && Signed(RANGE32, args[0].v) == v && -INT_MAX <= v
    ensures ParseWidth(s, flags, 0, args) ==
            if v < 0 then ParseDot(s[1..], flags.(minus := true), -v, args[1..])
            else ParseDot(s[1..], flags, v, args[1..])
  {
    hide ParseDot, Signed, Span, Accumulate, HasInt;
  }

  lemma StarWidthRead(u: string, flags: Flags, v: int, args: seq<Arg>)
    requires -INT_MAX <= v <= INT_MAX
    ensures ParseWidth("*" + u, flags, 0, [Integer(v)] + args) ==
            if v < 0 then ParseDot(u, flags.(minus := true), -v, args) else ParseDot(u, flags, v, args)
  {
    IntArgument(v, args);
    StarInFront(u);
    hide ParseWidth, ParseDot, Signed, Span, Accumulate, HasInt;
    WidthAtStar("*" + u, flags, [Integer(v)] + args, v);
  }

  lemma WidthReads(w: string, u: string, flags: Flags, args: seq<Arg>)
    requires Numeral(w) && Value(w) <= INT_MAX && u != "" && !IsDigit(u[0]) && u[0] != '*'
    ensures ParseWidth(w + u, flags, 0, args) == ParseDot(u, flags, Value(w), args)
  {
    hide ParseDot, Value, Accumulate;
    RunRead(w, u, IsDigit);
    AccumulateIsValue(w);
  }

  /** A star for a width reads as the width given as its argument, and as a minus flag and its absolute value when that
      is negative. */
  lemma StarWidth(w: string, u: string, flags: Flags, v: int, args: seq<Arg>)
    requires Numeral(w) && Value(w) <= INT_MAX && u != "" && !IsDigit(u[0]) && u[0] != '*'
    requires v == Value(w) || v == 0 - Value(w)
    ensures ParseWidth("*" + u, flags, 0, [Integer(v)] + args) ==
            ParseWidth(w + u, if v < 0 then flags.(minus := true) else flags, 0, args)
  {
    hide *;
    StarWidthRead(u, flags, v, args);
    WidthReads(w, u, if v < 0 then flags.(minus := true) else flags, args);
  }

  lemma StarRead(u: string, flags: Flags, width: nat, v: int, args: seq<Arg>)
    requires -0x8000_0000 <= v <= INT_MAX
    ensures ParsePrecision("*" + u, flags, width, 0, [Integer(v)] + args) ==
            ParseModifier(u, flags, width, if v < 0 then -1 else v, args)
  {
    IntArgument(v, args);
    StarInFront(u);
    hide ParseModifier, Signed, Span, Accumulate, HasInt;
  }

  /** A star for a precision reads as the precision given as its argument, and as none when that is negative. */
  lemma StarPrecision(q: string, u: string, flags: Flags, width: nat, v: int, args: seq<Arg>)
    requires Numeral(q) && Value(q) <= INT_MAX && u != "" && !IsDigit(u[0]) && u[0] != '*' && u[0] != '.'
    requires v == Value(q) || -0x8000_0000 <= v < 0
    ensures ParseDot("." + ("*" + u), flags, width, [Integer(v)] + args) ==
            if v < 0 then ParseDot(u, flags, width, args) else ParseDot("." + (q + u), flags, width, args)
  {
    hide *;
    StarRead(u, flags, width, v, args);
    PrecisionReads(q, u, flags, width, args);
    DotReads(u, "*" + u, flags, width, [Integer(v)] + args);
    DotReads(u, q + u, flags, width, args);
  }
}
