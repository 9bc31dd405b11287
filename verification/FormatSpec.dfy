/**
 * What a formatted-output call produces (pub/snprintf.c): the format is read directive by
 * directive, and each directive is rendered as a whole. No buffer, no size, no truncation.
 */
module FormatSpec {
  import opened Numerals
  import opened Options

  const INT_MAX := 0x7FFF_FFFF

  // ---- Arguments ----

  /** What the caller passes. Floating-point values are opaque; cells are what %n stores into. */
  datatype Arg = Integer(v: int) | String(s: Option<string>) | Pointer(address: nat) | Float(id: nat) | Cell(id: nat)

  /** The value n reduced to an unsigned, or a signed, integer type of the given number of values. */
  function Unsigned(range: int, n: int): (r: nat)
    requires range > 0
    ensures r < range
  {
    n % range
  }

  function Signed(range: int, n: int): (r: int)
    requires range > 0 && range % 2 == 0
    ensures -range / 2 <= r < range / 2
  {
    var u := n % range;
    if u < range / 2 then u else u - range
  }

  const RANGE8 := 0x100
  const RANGE16 := 0x1_0000
  const RANGE32 := 0x1_0000_0000
  const RANGE64 := 0x1_0000_0000_0000_0000

  /** Whether v is a value of the integer type with that range, read as signed or as unsigned. */
  predicate InType(range: int, v: int) { -range <= 2 * v && v < range }

  // ---- Directives ----

  datatype Flags = Flags(minus: bool, plus: bool, space: bool, num: bool, zero: bool, quote: bool)

  const NO_FLAGS := Flags(false, false, false, false, false, false)

  predicate IsFlag(c: char) { c == '-' || c == '+' || c == ' ' || c == '#' || c == '0' || c == '\'' }

  /** The flags of a run of flag characters, in any order and number. */
  function AddFlags(f: Flags, run: string): Flags {
    Flags(f.minus || '-' in run, f.plus || '+' in run, f.space || ' ' in run,
          f.num || '#' in run, f.zero || '0' in run, f.quote || '\'' in run)
  }

  datatype Modifier = NoModifier | Char | Short | Long | LongLong | LongDouble | Size | Ptrdiff | Intmax

  /** precision is -1 when none is given. */
  datatype Directive = Directive(flags: Flags, width: nat, precision: int, modifier: Modifier, conversion: char)

  /** Reading a directive: it is complete, the format ends inside it, a number in it exceeds INT_MAX,
      or an argument for a star is not there. */
  datatype Parsed = Parsed(d: Directive, rest: string, args: seq<Arg>) | Unfinished | TooBig | Unsupplied

  predicate HasInt(args: seq<Arg>) { args != [] && args[0].Integer? && InType(RANGE32, args[0].v) }

  function ParseFlags(s: string, flags: Flags, args: seq<Arg>): (p: Parsed)
    ensures p.Parsed? ==> |p.rest| < |s| && p.d.precision >= -1
  {
    var n := Span(s, IsFlag);
    ParseWidth(s[n..], AddFlags(flags, s[..n]), 0, args)
  }

  /** A number, or a star in its place (or after it: then the star counts). A negative star width is a
      minus flag with the width negated; that of INT_MIN cannot be negated. */
  function ParseWidth(s: string, flags: Flags, width: nat, args: seq<Arg>): (p: Parsed)
    ensures p.Parsed? ==> |p.rest| < |s| && p.d.precision >= -1
  {
    var n := Span(s, IsDigit);
    var w := Accumulate(width, s[..n]);
    if w > INT_MAX then TooBig
    else if n < |s| && s[n] == '*' then
      if !HasInt(args) then Unsupplied
      else
        var v := Signed(RANGE32, args[0].v);
        if v == -INT_MAX - 1 then Unsupplied
        else if v < 0 then ParseDot(s[n + 1..], flags.(minus := true), -v, args[1..])
        else ParseDot(s[n + 1..], flags, v, args[1..])
    else ParseDot(s[n..], flags, w, args)
  }

  function ParseDot(s: string, flags: Flags, width: nat, args: seq<Arg>): (p: Parsed)
    ensures p.Parsed? ==> |p.rest| < |s| && p.d.precision >= -1
  {
    if s != "" && s[0] == '.' then ParsePrecision(s[1..], flags, width, 0, args)
    else ParseModifier(s, flags, width, -1, args)
  }

  /** As for the width; a negative star precision counts as none. */
  function ParsePrecision(s: string, flags: Flags, width: nat, precision: nat, args: seq<Arg>): (p: Parsed)
    ensures p.Parsed? ==> |p.rest| < |s| && p.d.precision >= -1
  {
    var n := Span(s, IsDigit);
    var q := Accumulate(precision, s[..n]);
    if q > INT_MAX then TooBig
    else if n < |s| && s[n] == '*' then
      if !HasInt(args) then Unsupplied
      else
        var v := Signed(RANGE32, args[0].v);
        ParseModifier(s[n + 1..], flags, width, if v < 0 then -1 else v, args[1..])
    else ParseModifier(s[n..], flags, width, q, args)
  }

  function ModifierAt(s: string): (Modifier, nat) {
    if s == "" then (NoModifier, 0)
    else if s[0] == 'h' then (if |s| > 1 && s[1] == 'h' then (Char, 2) else (Short, 1))
    else if s[0] == 'l' then (if |s| > 1 && s[1] == 'l' then (LongLong, 2) else (Long, 1))
    else if s[0] == 'L' then (LongDouble, 1)
    else if s[0] == 'j' then (Intmax, 1)
    else if s[0] == 't' then (Ptrdiff, 1)
    else if s[0] == 'z' then (Size, 1)
    else (NoModifier, 0)
  }

  function ParseModifier(s: string, flags: Flags, width: nat, precision: int, args: seq<Arg>): (p: Parsed)
    requires precision >= -1
    ensures p.Parsed? ==> |p.rest| < |s| && p.d.precision >= -1
  {
    var (modifier, n) := ModifierAt(s);
    ParseConversion(s[n..], flags, width, precision, modifier, args)
  }

  function ParseConversion(s: string, flags: Flags, width: nat, precision: int, modifier: Modifier,
                           args: seq<Arg>): (p: Parsed)
    requires precision >= -1
    ensures p.Parsed? ==> |p.rest| < |s| && p.d.precision >= -1
  {
    if s == "" then Unfinished
    else Parsed(Directive(flags, width, precision, modifier, s[0]), s[1..], args)
  }

  // ---- Rendering numbers and strings ----

  function Repeat(c: char, n: nat): (s: string)
    ensures |s| == n
  {
    if n == 0 then "" else [c] + Repeat(c, n - 1)
  }

  function DigitChar(d: nat, up: bool): char
    requires d < 16
  {
    if d < 10 then '0' + d as char else (if up then 'A' else 'a') + (d - 10) as char
  }

  /** The digits of n, most significant first; one digit for zero. */
  function Digits(n: nat, base: nat, up: bool): (s: string)
    requires 2 <= base <= 16
    ensures s != ""
  {
    if n < base then [DigitChar(n, up)] else Digits(n / base, base, up) + [DigitChar(n % base, up)]
  }

  /** Digits with sep after each one that has a positive multiple of three digits behind it. */
  function Group(digits: string, sep: string): string {
    if digits == "" then ""
    else
      var left := |digits| - 1;
      [digits[0]] + (if left > 0 && left % 3 == 0 then sep else "") + Group(digits[1..], sep)
  }

  function Max(x: int, y: int): int { if x >= y then x else y }

  /** How many separators go between n digits. */
  function Separators(n: nat): nat { if n == 0 then 0 else (n - 1) / 3 }

  /** An integer to be written: magnitude, sign character if any, and how to write it. */
  datatype IntField = IntField(magnitude: nat, sign: string, base: nat, up: bool, flags: Flags, width: nat,
                               precision: int, sep: string)
  {
    predicate Valid() { (base == 8 || base == 10 || base == 16) && |sign| <= 1 && precision >= -1 }

    function Body(): (s: string)
      requires Valid()
      ensures s != ""
    {
      Digits(magnitude, base, up)
    }

    /** The alternative form lengthens the precision of octal numbers, and prefixes hexadecimal ones. */
    function EffectivePrecision(): int
      requires Valid()
    {
      if flags.num && magnitude != 0 && base == 8 && precision <= |Body()| then |Body()| + 1 else precision
    }

    function Prefix(): string {
      if flags.num && magnitude != 0 && base == 16 then (if up then "0X" else "0x") else ""
    }

    function Sep(): string { if flags.quote then sep else "" }

    function SepLength(): nat
      requires Valid()
    {
      Separators(|Body()|) * |Sep()|
    }

    /** Blanks asked for by the width, before a zero or minus flag redistributes them. */
    function Room(): int
      requires Valid()
    {
      width - SepLength() - Max(EffectivePrecision(), |Body()|) - |sign| - |Prefix()|
    }

    /** No intermediate result leaves the range of int. */
    predicate FitsInt()
      requires Valid()
    {
      SepLength() <= INT_MAX && Room() >= -INT_MAX - 1
      && EffectivePrecision() - |Body()| - SepLength() >= -INT_MAX - 1
    }

    function Pad(): nat
      requires Valid()
    {
      Max(0, Room())
    }

    predicate ZeroPadded() { flags.zero && !flags.minus && precision == -1 }

    function Zeros(): nat
      requires Valid()
    {
      Max(0, EffectivePrecision() - |Body()| - SepLength()) + if ZeroPadded() then Pad() else 0
    }

    function Text(): string
      requires Valid()
    {
      Repeat(' ', if flags.minus || ZeroPadded() then 0 else Pad())
      + sign + Prefix() + Repeat('0', Zeros()) + Group(Body(), Sep())
      + Repeat(' ', if flags.minus then Pad() else 0)
    }
  }

  /** A string cut to the precision and padded to the width. */
  function StrText(value: Option<string>, width: nat, precision: int, minus: bool): string {
    var shown := Shown(value, precision);
    var pad := Max(0, width - |shown|);
    if minus then shown + Repeat(' ', pad) else Repeat(' ', pad) + shown
  }

  function Shown(value: Option<string>, precision: int): string {
    var s := if value.None? then "(null)" else value.value;
    if 0 <= precision < |s| then s[..precision] else s
  }

  // ---- Conversions ----

  /** The thousands separator, if the locale has one, and the renderer of floating-point values: given
      the value, whether it is a long double, and the directive's parts, it yields a text or overflows. */
  datatype Locale = Locale(thousandsSep: Option<string>,
                           float: (nat, bool, char, Flags, nat, int) -> Option<string>)
  {
    function Sep(): string { if thousandsSep.Some? then thousandsSep.value else "," }
  }

  /** The type an integer argument is passed in, and the type it is then converted to. */
  function PassedRange(m: Modifier): (r: int)
    ensures r == RANGE32 || r == RANGE64
  {
    match m
    case Long => RANGE64
    case LongLong => RANGE64
    case Size => RANGE64
    case Ptrdiff => RANGE64
    case Intmax => RANGE64
    case _ => RANGE32
  }

  function ValueRange(m: Modifier): (r: int)
    ensures r in {RANGE8, RANGE16, RANGE32, RANGE64}
  {
    match m
    case Char => RANGE8
    case Short => RANGE16
    case _ => PassedRange(m)
  }

  predicate HasInteger(args: seq<Arg>, range: int) { args != [] && args[0].Integer? && InType(range, args[0].v) }

  /** The text of one directive, what it stores, and the arguments after its own. Undefined when the
      argument is not of the type the directive names, or an int would overflow on the way. */
  datatype Rendered = Rendered(text: string, stores: seq<(nat, int)>, args: seq<Arg>) | FloatOverflow | NotDefined

  function SignOf(f: Flags, negative: bool): string {
    if negative then "-" else if f.plus then "+" else if f.space then " " else ""
  }

  function BaseOf(c: char): nat { if c == 'o' then 8 else if c == 'u' then 10 else 16 }

  function SignedField(d: Directive, v: int, sep: string): IntField {
    IntField(if v < 0 then -v else v, SignOf(d.flags, v < 0), 10, false, d.flags, d.width, d.precision, sep)
  }

  function UnsignedField(d: Directive, v: nat, sep: string): IntField {
    IntField(v, "", BaseOf(d.conversion), d.conversion == 'X', d.flags, d.width, d.precision, sep)
  }

  function PointerField(d: Directive, address: nat, sep: string): IntField {
    IntField(address, "", 16, false, d.flags.(num := true), d.width, d.precision, sep)
  }

  function RenderInt(f: IntField, args: seq<Arg>): Rendered
    requires f.Valid()
  {
    if f.FitsInt() then Rendered(f.Text(), [], args) else NotDefined
  }

  function StoredCount(m: Modifier, n: nat): int {
    if m == Size then Unsigned(RANGE64, n) else Signed(ValueRange(m), n)
  }

  predicate IsSignedConversion(c: char) { c == 'd' || c == 'i' }

  predicate IsUnsignedConversion(c: char) { c == 'x' || c == 'X' || c == 'o' || c == 'u' }

  predicate IsFloatConversion(c: char) {
    c == 'a' || c == 'A' || c == 'e' || c == 'E' || c == 'f' || c == 'F' || c == 'g' || c == 'G'
  }

  function Convert(d: Directive, args: seq<Arg>, done: nat, loc: Locale): Rendered
    requires d.precision >= -1
  {
    var m := d.modifier;
    if IsSignedConversion(d.conversion) then
      if !HasInteger(args, PassedRange(m)) then NotDefined
      else
        var v := Signed(ValueRange(m), args[0].v);
        if v == -RANGE64 / 2 then NotDefined
        else RenderInt(SignedField(d, v, loc.Sep()), args[1..])
    else if IsUnsignedConversion(d.conversion) then
      if !HasInteger(args, PassedRange(m)) then NotDefined
      else RenderInt(UnsignedField(d, Unsigned(ValueRange(m), args[0].v), loc.Sep()), args[1..])
    else if IsFloatConversion(d.conversion) then
      if args == [] || !args[0].Float? then NotDefined
      else
        var p := if (d.conversion == 'g' || d.conversion == 'G') && d.precision == 0 then 1 else d.precision;
        var t := loc.float(args[0].id, m == LongDouble, d.conversion, d.flags, d.width, p);
        if t.None? then FloatOverflow else Rendered(t.value, [], args[1..])
    else if d.conversion == 'c' then
      if !HasInteger(args, RANGE32) then NotDefined
      else Rendered([Unsigned(RANGE8, args[0].v) as char], [], args[1..])
    else if d.conversion == 's' then
      if args == [] || !args[0].String? || |Shown(args[0].s, d.precision)| > INT_MAX then NotDefined
      else Rendered(StrText(args[0].s, d.width, d.precision, d.flags.minus), [], args[1..])
    else if d.conversion == 'p' then
      if args == [] || !args[0].Pointer? || args[0].address >= RANGE64 then NotDefined
      else if args[0].address == 0 then Rendered(StrText(Some("(nil)"), d.width, -1, d.flags.minus), [], args[1..])
      else RenderInt(PointerField(d, args[0].address, loc.Sep()), args[1..])
    else if d.conversion == 'n' then
      if args == [] || !args[0].Cell? then NotDefined
      else Rendered("", [(args[0].id, StoredCount(m, done))], args[1..])
    else if d.conversion == '%' then Rendered("%", [], args)
    else Rendered("", [], args)
  }

  // ---- Whole formats ----

  datatype Status = Complete | Overflow | Undefined

  /** Everything a format writes, the counts it stores, and how it ended. */
  datatype Outcome = Outcome(text: string, stores: seq<(nat, int)>, status: Status)

  function Prepend(text: string, stores: seq<(nat, int)>, o: Outcome): Outcome {
    Outcome(text + o.text, stores + o.stores, o.status)
  }

  /** done characters have been written before fmt. */
  function Render(fmt: string, args: seq<Arg>, done: nat, loc: Locale): Outcome
    decreases |fmt|, 0
  {
    if fmt == "" then Outcome("", [], Complete)
    else if fmt[0] != '%' then Prepend([fmt[0]], [], Render(fmt[1..], args, done + 1, loc))
    else
      Finish(ParseFlags(fmt[1..], NO_FLAGS, args), done, loc)
  }

  /** The rendering of a directive that has been read, and of the format after it. */
  function Finish(p: Parsed, done: nat, loc: Locale): Outcome
    requires p.Parsed? ==> p.d.precision >= -1
    decreases if p.Parsed? then |p.rest| else 0, 1
  {
    match p
    case Unfinished => Outcome("", [], Complete)
    case TooBig => Outcome("", [], Overflow)
    case Unsupplied => Outcome("", [], Undefined)
    case Parsed(d, rest, args) =>
      match Convert(d, args, done, loc)
      case FloatOverflow => Outcome("", [], Overflow)
      case NotDefined => Outcome("", [], Undefined)
      case Rendered(text, stores, more) => Prepend(text, stores, Render(rest, more, done + |text|, loc))
  }

  // ---- Digits ----

  function Pow(b: nat, e: nat): nat { if e == 0 then 1 else b * Pow(b, e - 1) }

  lemma DigitsTail(n: nat, base: nat, up: bool)
    requires 2 <= base <= 16
    ensures |Digits(n, base, up)| == if n < base then 1 else 1 + |Digits(n / base, base, up)|
  {
  }

  /** A value below base^k has at most k digits. */
  lemma {:induction false} DigitsLength(n: nat, base: nat, up: bool, k: nat)
    requires 2 <= base <= 16 && k >= 1 && n < Pow(base, k)
    ensures |Digits(n, base, up)| <= k
    decreases k
  {
    hide Digits;
    DigitsTail(n, base, up);
    if k == 1 {
      assert Pow(base, 1) == base * Pow(base, 0) == base;
    } else if n >= base {
      QuotientBelow(n, base, Pow(base, k - 1));
      DigitsLength(n / base, base, up, k - 1);
    }
  }

  lemma QuotientBelow(n: nat, b: nat, m: nat)
    requires b > 0 && n < b * m
    ensures n / b < m
  {
    assert b * (n / b) < b * m;
  }

  lemma TimesMonotone(a: nat, b: nat, x: nat, y: nat)
    requires a <= b && x <= y
    ensures a * x <= b * y
  {
    assert a * x <= a * y;
    assert a * y <= b * y;
  }

  lemma {:induction false} PowMonotone(b: nat, c: nat, e: nat)
    requires b <= c
    ensures Pow(b, e) <= Pow(c, e)
  {
    if e > 0 {
      PowMonotone(b, c, e - 1);
      TimesMonotone(b, c, Pow(b, e - 1), Pow(c, e - 1));
    }
  }

  lemma {:induction false} PowSum(b: nat, e: nat, f: nat)
    ensures Pow(b, e + f) == Pow(b, e) * Pow(b, f)
  {
    if e > 0 {
      PowSum(b, e - 1, f);
      calc {
        Pow(b, e + f);
        b * (Pow(b, e - 1) * Pow(b, f));
        (b * Pow(b, e - 1)) * Pow(b, f);
      }
    }
  }

  /** 43 slots hold every value below 2^128 in each base in use. */
  lemma BufferSuffices(n: nat, base: nat, up: bool)
    requires base == 8 || base == 10 || base == 16
    requires n < 0x1_0000_0000_0000_0000_0000_0000_0000_0000
    ensures |Digits(n, base, up)| <= 43
  {
    hide Digits;
    assert Pow(8, 3) == 0x200;
    assert Pow(8, 5) == 0x8000;
    PowSum(8, 5, 5);
    PowSum(8, 10, 10);
    PowSum(8, 20, 20);
    PowSum(8, 40, 3);
    assert Pow(8, 43) == 0x2_0000_0000_0000_0000_0000_0000_0000_0000;
    PowMonotone(8, base, 43);
    DigitsLength(n, base, up, 43);
  }
}
