/** Formats whose output shows where the formatter differs from what is said of it. */
module FormatExamples {
  import opened FormatMeaning
  import opened FormatSpec
  import opened FormatTheorems
  import opened Numerals
  import opened Options

  function FieldFor(d: Directive, v: nat, sep: string): IntField {
    if IsSignedConversion(d.conversion) then SignedField(d, v, sep) else UnsignedField(d, v, sep)
  }

  /** An integer conversion renders to its field. */
  lemma IntegerConverts(d: Directive, v: nat, loc: Locale)
    requires d.precision >= -1 && (IsSignedConversion(d.conversion) || IsUnsignedConversion(d.conversion))
    requires d.modifier == NoModifier && v <= INT_MAX && FieldFor(d, v, loc.Sep()).FitsInt()
    ensures Convert(d, [Integer(v)], 0, loc) == Rendered(FieldFor(d, v, loc.Sep()).Text(), [], [])
  {
    hide IntField.Text, IntField.FitsInt;
    assert Signed(RANGE32, v) == v && Unsigned(RANGE32, v) == v;
    assert [Integer(v)][1..] == [];
  }

  /** A format that is one integer directive prints its field. */
  lemma IntegerDirective(s: Spelling, d: Directive, v: nat, loc: Locale)
    requires s.Valid() && d == s.Meaning() && s.modifier == ""
    requires IsSignedConversion(d.conversion) || IsUnsignedConversion(d.conversion)
    requires v <= INT_MAX && FieldFor(d, v, loc.Sep()).FitsInt()
    ensures Render("%" + s.Text(), [Integer(v)], 0, loc) == Outcome(FieldFor(d, v, loc.Sep()).Text(), [], Complete)
  {
    hide Spelling.Valid, Spelling.Text, IntField.Text, IntField.FitsInt, Render, Convert, AddFlags, Value;
    IntegerConverts(d, v, loc);
    OneDirective(s, [Integer(v)], Rendered(FieldFor(d, v, loc.Sep()).Text(), [], []), 0, loc);
  }

  // ---- Examples ----

  const QUOTE := NO_FLAGS.(quote := true)
  const ALTERNATIVE := NO_FLAGS.(num := true)

  /** Zero with precision zero: C99 asks for nothing, and there is a digit. */
  lemma PrecisionZero(loc: Locale)
    ensures Render("%.0d", [Integer(0)], 0, loc) == Outcome("0", [], Complete)
    ensures RequiredText(SignedField(Directive(NO_FLAGS, 0, 0, NoModifier, 'd'), 0, loc.Sep())) == ""
  {
    var s, d := Spelling("", "", Some("0"), "", 'd'), Directive(NO_FLAGS, 0, 0, NoModifier, 'd');
    assert s.Valid() && s.Meaning() == d && "%" + s.Text() == "%.0d" by { SmallNumber('0'); NoRun(); }
    hide *;
    ZeroField(d, loc.Sep());
    IntegerDirective(s, d, 0, loc);
  }

  /** The octal alternative form of zero with precision zero is as C99 asks. */
  lemma PrecisionZeroOctal(loc: Locale)
    ensures Render("%#.0o", [Integer(0)], 0, loc) == Outcome("0", [], Complete)
    ensures RequiredText(UnsignedField(Directive(ALTERNATIVE, 0, 0, NoModifier, 'o'), 0, loc.Sep())) == "0"
  {
    var s, d := Spelling("#", "", Some("0"), "", 'o'), Directive(ALTERNATIVE, 0, 0, NoModifier, 'o');
    assert s.Valid() && s.Meaning() == d && "%" + s.Text() == "%#.0o" by { SmallNumber('0'); }
    hide *;
    ZeroField(d, loc.Sep());
    IntegerDirective(s, d, 0, loc);
  }

  /** A width of ten that yields nine characters. */
  lemma WidthMissedExample(loc: Locale)
    requires loc.Sep() == ","
    ensures Render("%'10.5d", [Integer(1234)], 0, loc) == Outcome("    1,234", [], Complete)
  {
    var s, d := Spelling("'", "10", Some("5"), "", 'd'), Directive(QUOTE, 10, 5, NoModifier, 'd');
    WidthMissedSpelling(s, d);
    WidthMissedField();
    assert FieldFor(d, 1234, ",") == IntField(1234, "", 10, false, QUOTE, 10, 5, ",");
    hide *;
    IntegerDirective(s, d, 1234, loc);
  }

  lemma WidthMissedSpelling(s: Spelling, d: Directive)
    requires s == Spelling("'", "10", Some("5"), "", 'd') && d == Directive(QUOTE, 10, 5, NoModifier, 'd')
    ensures s.Valid() && s.Meaning() == d && "%" + s.Text() == "%'10.5d"
  {
    SmallNumber('5');
    TwoDigits('1', '0');
    hide Value;
    assert s.Text() == "'" + ("10" + ("." + ("5" + ("" + "d"))));
  }

  lemma WidthMissedField()
    ensures var f := IntField(1234, "", 10, false, QUOTE, 10, 5, ",");
            f.Valid() && f.FitsInt() && f.Text() == "    1,234"
  {
    var f := IntField(1234, "", 10, false, QUOTE, 10, 5, ",");
    FourDigits(1234, 10, "1234");
    hide Digits, Group;
    assert f.Body() == "1234" && f.Prefix() == "";
    assert f.SepLength() == 1 && f.Room() == 4 && f.Pad() == 4 && f.Zeros() == 0;
    assert f.Text() == Repeat(' ', 4) + "" + "" + Repeat('0', 0) + Group("1234", ",") + Repeat(' ', 0);
    hide IntField.Text, IntField.Zeros, IntField.Pad, IntField.Room;
    assert Repeat(' ', 4) == "    " && Repeat('0', 0) == "" && Repeat(' ', 0) == "";
    assert Group("1234", ",") == "1,234";
  }

  /** An octal alternative form without its leading zero: 1234 is 2322 in octal. */
  lemma OctalZeroExample(loc: Locale)
    requires loc.Sep() == ","
    ensures Render("%'#o", [Integer(1234)], 0, loc) == Outcome("2,322", [], Complete)
  {
    var s, d := Spelling("'#", "", None, "", 'o'), Directive(QUOTE.(num := true), 0, -1, NoModifier, 'o');
    OctalZeroSpelling(s, d);
    OctalZeroField();
    assert FieldFor(d, 1234, ",") == IntField(1234, "", 8, false, QUOTE.(num := true), 0, -1, ",");
    hide *;
    IntegerDirective(s, d, 1234, loc);
  }

  lemma OctalZeroSpelling(s: Spelling, d: Directive)
    requires s == Spelling("'#", "", None, "", 'o')
    requires d == Directive(QUOTE.(num := true), 0, -1, NoModifier, 'o')
    ensures s.Valid() && s.Meaning() == d && "%" + s.Text() == "%'#o"
  {
    NoRun();
    hide Value;
    assert s.Text() == "'#" + ("" + ("" + "o"));
  }

  lemma OctalZeroField()
    ensures var f := IntField(1234, "", 8, false, QUOTE.(num := true), 0, -1, ",");
            f.Valid() && f.FitsInt() && f.Text() == "2,322"
  {
    FourDigits(1234, 8, "2322");
    hide Digits, Group;
    assert Repeat('0', 0) == "" && Repeat(' ', 0) == "";
    hide Repeat;
    assert "" + "" + "" + "" + "2,322" + "" == "2,322";
  }

  /** The star of %5*d takes the first argument, and the 5 is forgotten. */
  lemma StarExample(loc: Locale)
    ensures Render("%5*d", [Integer(3), Integer(7)], 0, loc) == Outcome("  7", [], Complete)
  {
    var d, args := Directive(NO_FLAGS, 3, -1, NoModifier, 'd'), [Integer(3), Integer(7)];
    StarRead(args);
    assert args[1..] == [Integer(7)] && "%5*d"[1..] == "5*d";
    StarField(d, loc.Sep());
    hide *;
    IntegerConverts(d, 7, loc);
    DirectivePrints("%5*d", args, d, [Integer(7)], Rendered("  7", [], []), 0, loc);
  }

  lemma StarRead(args: seq<Arg>)
    requires args == [Integer(3), Integer(7)]
    ensures ParseFlags("5*d", NO_FLAGS, args) == Parsed(Directive(NO_FLAGS, 3, -1, NoModifier, 'd'), "", args[1..])
  {
    assert [Integer(3)] + args[1..] == args;
    SmallNumber('3');
    FiveStar(args);
    ThreeD(args[1..]);
    hide ParseFlags, ParseWidth, Value;
    StarWidth("3", "d", NO_FLAGS, 3, args[1..]);
    assert "3" + "d" == "3d" && "*" + "d" == "*d";
  }

  /** The digit in front of the star is dropped. */
  lemma FiveStar(args: seq<Arg>)
    ensures ParseFlags("5*d", NO_FLAGS, args) == ParseWidth("*d", NO_FLAGS, 0, args)
  {
    assert !IsFlag('5') && "5*d"[0] == '5' && "5*d"[..0] == "" && "5*d"[0..] == "5*d" && "5" + "*d" == "5*d";
    NoRun();
    SmallNumber('5');
    hide Value, AddFlags;
    SpanUnique("5*d", IsFlag, 0);
    RunRead("5", "*d", IsDigit);
    StarReplacesDigits("5*d", NO_FLAGS, args);
    hide ParseWidth, Span;
  }

  lemma ThreeD(args: seq<Arg>)
    ensures ParseWidth("3d", NO_FLAGS, 0, args) == Parsed(Directive(NO_FLAGS, 3, -1, NoModifier, 'd'), "", args)
  {
    var own := Spelling("", "3", None, "", 'd');
    SmallNumber('3');
    assert own.Valid() && own.AfterFlags() + "" == "3d" && own.Width() == 3;
    hide ParseWidth, Value;
    AfterFlagsReads(own, "", NO_FLAGS, args);
  }

  lemma StarField(d: Directive, sep: string)
    requires d == Directive(NO_FLAGS, 3, -1, NoModifier, 'd')
    ensures d.precision >= -1 && IsSignedConversion(d.conversion) && d.modifier == NoModifier && 7 <= INT_MAX
    ensures FieldFor(d, 7, sep).FitsInt() && FieldFor(d, 7, sep).Text() == "  7"
  {
    var f := FieldFor(d, 7, sep);
    assert f.Body() == "7";
    assert Group("7", "") == "7";
    hide Digits, Group;
    assert Repeat(' ', 2) == "  " && Repeat('0', 0) == "" && Repeat(' ', 0) == "";
    hide Repeat;
    assert "  " + "" + "" + "" + "7" + "" == "  7";
  }

  /** A character in a field of width five takes one place. */
  lemma CharExample(loc: Locale)
    ensures Render("%5c", [Integer(65)], 0, loc) == Outcome("A", [], Complete)
  {
    var s, d := Spelling("", "5", None, "", 'c'), Directive(NO_FLAGS, 5, -1, NoModifier, 'c');
    assert s.Valid() && s.Meaning() == d && "%" + s.Text() == "%5c" by { SmallNumber('5'); NoRun(); }
    assert Convert(d, [Integer(65)], 0, loc) == Rendered("A", [], []);
    hide *;
    OneDirective(s, [Integer(65)], Rendered("A", [], []), 0, loc);
  }

  lemma SmallNumber(c: char)
    requires IsDigit(c)
    ensures Numeral([c]) && Value([c]) == DigitValue(c)
  {
    assert [c][..0] == "" && Value("") == 0;
  }

  lemma NoRun()
    ensures AddFlags(NO_FLAGS, "") == NO_FLAGS && Value("") == 0
  {
  }

  /** The field of zero with precision zero and no width. */
  lemma ZeroField(d: Directive, sep: string)
    requires d == Directive(NO_FLAGS, 0, 0, NoModifier, 'd') || d == Directive(ALTERNATIVE, 0, 0, NoModifier, 'o')
    ensures FieldFor(d, 0, sep).FitsInt() && FieldFor(d, 0, sep).Text() == "0"
    ensures d.conversion == 'd' ==>
      FieldFor(d, 0, sep) == SignedField(d, 0, sep) && RequiredText(SignedField(d, 0, sep)) == ""
    ensures d.conversion == 'o' ==>
      FieldFor(d, 0, sep) == UnsignedField(d, 0, sep) && RequiredText(UnsignedField(d, 0, sep)) == "0"
  {
    var f := FieldFor(d, 0, sep);
    assert f.Body() == "0" by { OneDigit(f.base, f.up); }
    hide Digits, IntField.Text;
    ZeroText(f);
    assert Repeat(' ', 0) == "";
  }

  lemma TwoDigits(a: char, b: char)
    requires IsDigit(a) && IsDigit(b)
    ensures Value([a, b]) == 10 * DigitValue(a) + DigitValue(b)
  {
    assert [a, b][..1] == [a] && [a][..0] == "";
    assert Value("") == 0;
  }

  lemma FourDigits(n: nat, base: nat, s: string)
    requires (n == 1234 && base == 10 && s == "1234") || (n == 1234 && base == 8 && s == "2322")
    ensures Digits(n, base, false) == s && Group(s, ",") == [s[0], ','] + s[1..]
  {
    if base == 10 {
      assert Digits(1, 10, false) == "1";
      assert Digits(12, 10, false) == "12";
      assert Digits(123, 10, false) == "123";
    } else {
      assert Digits(2, 8, false) == "2";
      assert Digits(19, 8, false) == "23";
      assert Digits(154, 8, false) == "232";
    }
    GroupTail([s[1], s[2], s[3]]);
    assert s[1..] == [s[1], s[2], s[3]];
  }

  lemma GroupTail(s: string)
    requires |s| == 3
    ensures Group(s, ",") == s
  {
    assert s[1..][1..][1..] == "" && s[1..][1..] == [s[2]] && s[1..] == [s[1], s[2]];
    assert Group("", ",") == "";
    assert Group([s[2]], ",") == [s[2]];
    assert Group([s[1], s[2]], ",") == [s[1], s[2]];
  }
}
