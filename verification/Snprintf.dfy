/**
 * The formatter of pub/snprintf.c (integer and string part): a state machine over the format that
 * writes through a truncating buffer. Proved against FormatSpec, which knows neither.
 */
module Snprintf {
  import opened CStrings
  import opened FormatSpec
  import opened Numerals
  import opened Options

  /** The destination: str, size and the running length that OUTCHAR threads through every function. */
  class Output {
    const str: array?<char>
    const size: nat
    var len: nat
    ghost var text: string              // every character passed in, cut off or not
    ghost const before: seq<char>       // what the destination held at first

    /** The first size - 1 characters of text have been written, and nothing else has been touched. */
    ghost predicate Valid()
      reads this, str
    {
      && len == |text|
      && (if str == null then size == 0
          else
            && size <= str.Length && |before| == str.Length
            && forall k :: 0 <= k < str.Length ==> str[k] == if k < |text| && k + 1 < size then text[k] else before[k])
    }

    /** A null destination counts as one of size zero. */
    constructor (str: array?<char>, size: nat)
      requires str != null ==> size <= str.Length
      ensures Valid() && text == "" && this.str == str && this.size == (if str == null then 0 else size)
      ensures str != null ==> before == str[..]
    {
      this.str := str;
      this.size := if str == null && size != 0 then 0 else size;
      this.len := 0;
      this.text := "";
      this.before := if str == null then [] else str[..];
    }

    method OutChar(ch: char)
      requires Valid()
      modifies this, str
      ensures Valid() && text == old(text) + [ch]
    {
      if len + 1 < size {
        str[len] := ch;
      }
      len := len + 1;
      text := text + [ch];
    }

    /** The loops that pad: n times the same character. */
    method Pad(ch: char, n: nat)
      requires Valid()
      modifies this, str
      ensures Valid() && text == old(text) + Repeat(ch, n)
    {
      hide Valid;
      ghost var start := text;
      var padlen := n;
      assert start + "" == start;
      while padlen > 0
        invariant 0 <= padlen <= n && Valid() && text == start + Repeat(ch, n - padlen)
      {
        OutChar(ch);
        RepeatSnoc(ch, n - padlen);
        assert start + (Repeat(ch, n - padlen) + [ch]) == start + Repeat(ch, n - padlen) + [ch];
        padlen := padlen - 1;
      }
    }

    /** Character after character of s. */
    method PutAll(s: string)
      requires Valid()
      modifies this, str
      ensures Valid() && text == old(text) + s
    {
      hide Valid;
      ghost var start := text;
      for i := 0 to |s|
        invariant Valid() && text == start + s[..i]
      {
        OutChar(s[i]);
        assert s[..i + 1] == s[..i] + [s[i]];
      }
      assert s[..|s|] == s;
    }
  }

  lemma {:induction false} RepeatSnoc(c: char, n: nat)
    ensures Repeat(c, n + 1) == Repeat(c, n) + [c]
  {
    if n > 0 { RepeatSnoc(c, n - 1); }
  }

  // ---- printsep, getnumsep, convert ----

  method PrintSep(out: Output, loc: Locale)
    requires out.Valid()
    modifies out, out.str
    ensures out.Valid() && out.text == old(out.text) + loc.Sep()
  {
    if loc.thousandsSep.Some? {
      out.PutAll(loc.thousandsSep.value);
    } else {
      out.OutChar(',');
    }
  }

  method GetNumSep(digits: nat, loc: Locale) returns (separators: nat)
    requires digits > 0
    ensures separators == Separators(digits) * |loc.Sep()|
  {
    separators := (digits - if digits % 3 == 0 then 1 else 0) / 3;
    if loc.thousandsSep.Some? {
      separators := separators * |loc.thousandsSep.value|;
    }
  }

  function Reversed(s: string): (r: string)
    ensures |r| == |s|
  {
    if s == "" then "" else Reversed(s[1..]) + [s[0]]
  }

  lemma {:induction false} ReversedAt(s: string, k: nat)
    requires k < |s|
    ensures Reversed(s)[k] == s[|s| - 1 - k]
  {
    if k < |s| - 1 { ReversedAt(s[1..], k); }
  }

  lemma {:induction false} ReversedSnoc(s: string, c: char)
    ensures Reversed(s + [c]) == [c] + Reversed(s)
  {
    if s != "" {
      ReversedSnoc(s[1..], c);
      assert (s + [c])[1..] == s[1..] + [c];
    }
  }

  lemma ReversedNothing()
    ensures Reversed("") == ""
  {
  }

  /** One round of division: what is left of v and the digit that moves to the front of the tail. */
  method DivideOnce(v: nat, base: nat, up: bool, ghost tail: string) returns (q: nat, d: nat)
    requires base == 8 || base == 10 || base == 16
    ensures d < 16 && (q == 0 <==> v < base)
    ensures v < base ==> Digits(v, base, up) + tail == [DigitChar(d, up)] + tail
    ensures v >= base ==> Digits(v, base, up) + tail == Digits(q, base, up) + ([DigitChar(d, up)] + tail)
  {
    q, d := v / base, v % base;
    if v >= base { assert q >= 1; } else { assert q == 0 && d == v; }
  }

  lemma DigitTable(d: nat, up: bool)
    requires d < 16
    ensures (if up then "0123456789ABCDEF" else "0123456789abcdef")[d] == DigitChar(d, up)
  {
  }

  /** Digits least significant first, as many as there are slots. */
  method ConvertInteger(value: nat, buf: array<char>, size: nat, base: nat, caps: bool) returns (pos: nat)
    requires 0 < size <= buf.Length && (base == 8 || base == 10 || base == 16)
    modifies buf
    ensures var digits := Digits(value, base, caps);
            pos == (if |digits| <= size then |digits| else size) && Reversed(buf[..pos]) == digits[|digits| - pos..]
  {
    ReversedNothing();
    hide *;
    var digits := if caps then "0123456789ABCDEF" else "0123456789abcdef";
    ghost var all, tail := Digits(value, base, caps), "";
    assert all + tail == all;
    var v: nat := value;
    pos := 0;
    while true
      invariant pos < size && tail == Reversed(buf[..pos])
      invariant all == Digits(v, base, caps) + tail
      decreases size - pos
    {
      var q, d := DivideOnce(v, base, caps, tail);
      DigitTable(d, caps);
      ReversedSnoc(buf[..pos], digits[d]);
      ghost var done := buf[..pos];
      buf[pos] := digits[d];
      tail := [digits[d]] + tail;
      assert buf[..pos + 1] == done + [digits[d]];
      pos := pos + 1;
      v := q;
      if !(v != 0 && pos < size) {
        assert tail == all[|all| - pos..];
        return;
      }
    }
  }

  // ---- fmtstr, fmtint ----

  /** The characters of value that precision lets through. */
  method PutShown(out: Output, s: string, precision: int)
    requires out.Valid() && precision >= -1
    modifies out, out.str
    ensures out.Valid() && out.text == old(out.text) + Shown(Some(s), precision)
  {
    hide Output.Valid;
    ghost var start := out.text;
    var noprecision := precision == -1;
    var p, i := precision, 0;
    while i < |s| && (noprecision || p > 0)
      invariant 0 <= i <= |s| && (if noprecision then p <= -1 else p == precision - i >= 0)
      invariant out.Valid() && out.text == start + s[..i]
      decreases |s| - i
    {
      out.OutChar(s[i]);
      assert s[..i + 1] == s[..i] + [s[i]];
      i := i + 1;
      p := p - 1;
    }
    assert s[..i] == Shown(Some(s), precision);
  }

  /** How many characters the string conversion shows, counted without reading past the precision. */
  method ShownLength(s: string, precision: int) returns (strln: nat)
    requires precision >= -1
    ensures strln <= |s| && Shown(Some(s), precision) == s[..strln]
  {
    var noprecision := precision == -1;
    strln := 0;
    while strln < |s| && (noprecision || strln < precision)
      invariant 0 <= strln <= |s| && (noprecision || strln <= precision)
    {
      strln := strln + 1;
    }
  }

  lemma StrParts(start: string, value: Option<string>, width: nat, precision: int, minus: bool, padlen: int)
    requires var pad := Max(0, width - |Shown(value, precision)|); padlen == if minus then -pad else pad
    ensures start + Repeat(' ', if padlen > 0 then padlen else 0) + Shown(value, precision)
            + Repeat(' ', if padlen < 0 then -padlen else 0) == start + StrText(value, width, precision, minus)
  {
    hide Shown, Repeat;
    NoRepeat(' ');
    var shown, pad := Shown(value, precision), Repeat(' ', Max(0, width - |Shown(value, precision)|));
    assert start + shown + pad == start + (shown + pad);
    assert start + pad + shown == start + (pad + shown);
  }

  method FmtStr(out: Output, value: Option<string>, width: nat, precision: int, minus: bool)
    requires out.Valid() && precision >= -1
    modifies out, out.str
    ensures out.Valid() && out.text == old(out.text) + StrText(value, width, precision, minus)
  {
    hide Output.Valid, Repeat, StrText;
    ghost var start := out.text;
    var s := if value.None? then "(null)" else value.value;
    assert Shown(value, precision) == Shown(Some(s), precision);
    var strln := ShownLength(s, precision);
    var padlen := width - strln;
    if padlen < 0 { padlen := 0; }
    if minus { padlen := -padlen; }
    hide Shown;
    StrParts(start, value, width, precision, minus, padlen);
    PadIf(out, padlen > 0, padlen);
    PutShown(out, s, precision);
    PadIf(out, padlen < 0, -padlen);
  }

  lemma NoRepeat(c: char)
    ensures Repeat(c, 0) == ""
  {
  }

  function Written(ds: string, sep: string, grouped: bool): string { if grouped then Group(ds, sep) else ds }

  lemma WriteDigit(ds: string, sep: string, grouped: bool)
    requires ds != ""
    ensures var left := |ds| - 1;
            Written(ds, sep, grouped) ==
            (if grouped && left > 0 && left % 3 == 0 then [ds[0]] + sep else [ds[0]]) + Written(ds[1..], sep, grouped)
  {
  }

  /** Where no digit has a positive multiple of three behind it, or separators are empty, grouping does nothing. */
  lemma {:induction false} GroupPlain(ds: string, sep: string)
    requires Separators(|ds|) * |sep| == 0
    ensures Group(ds, sep) == ds
  {
    if ds != "" {
      GroupPlain(ds[1..], sep);
    }
  }

  /** The digits from the last slot down, with a separator wherever a multiple of three is left. */
  method PutDigits(out: Output, buf: array<char>, n: nat, grouped: bool, loc: Locale, ghost ds: string)
    requires out.Valid() && n <= buf.Length && buf != out.str
    requires ds == Reversed(buf[..n])
    modifies out, out.str
    ensures out.Valid() && out.text == old(out.text) + Written(ds, loc.Sep(), grouped)
  {
    hide Output.Valid, Written, Reversed;
    var pos := n;
    ghost var start, put := out.text, "";
    assert ds[0..] == ds && start + put == start;
    while pos > 0
      invariant 0 <= pos <= n && out.Valid() && buf[..n] == old(buf[..n])
      invariant out.text == start + put
      invariant Written(ds, loc.Sep(), grouped) == put + Written(ds[n - pos..], loc.Sep(), grouped)
    {
      WriteDigit(ds[n - pos..], loc.Sep(), grouped);
      assert ds[n - pos..][1..] == ds[n - pos + 1..];
      pos := pos - 1;
      ReversedAt(buf[..n], n - 1 - pos);
      assert buf[pos] == buf[..n][pos];
      out.OutChar(buf[pos]);
      put := put + [buf[pos]];
      if grouped && pos > 0 && pos % 3 == 0 {
        PrintSep(out, loc);
        put := put + loc.Sep();
      }
    }
    assert ds[n..] == "";
    NothingWritten(loc.Sep(), grouped);
  }

  lemma NothingWritten(sep: string, grouped: bool)
    ensures Written("", sep, grouped) == ""
  {
  }

  /** The field that fmtint's parameters describe. */
  function FieldOf(value: int, base: nat, width: nat, precision: int, flags: Flags, up: bool, unsigned: bool,
                   sep: string): IntField {
    IntField(if unsigned then Unsigned(RANGE64, value) else if value >= 0 then value else -value,
             if unsigned then "" else SignOf(flags, value < 0), base, up, flags, width, precision, sep)
  }

  /** How much to pad: blanks (negative when they trail) and zeros. */
  method Padding(f: IntField, precision: int, pos: nat, separators: nat, hexprefix: bool)
    returns (spadlen: int, zpadlen: nat)
    requires f.Valid() && f.FitsInt()
    requires pos == |f.Body()| && precision == f.EffectivePrecision() && separators == f.SepLength()
    requires hexprefix <==> f.Prefix() != ""
    ensures spadlen == (if f.flags.minus then 0 - f.Pad() else if f.ZeroPadded() then 0 else f.Pad())
    ensures zpadlen == f.Zeros()
  {
    hide Digits;
    var zpad := precision - pos - separators;
    spadlen := f.width - separators - Max(precision, pos)
               - (if f.sign != "" then 1 else 0) - (if hexprefix then 2 else 0);
    if zpad < 0 { zpad := 0; }
    if spadlen < 0 { spadlen := 0; }
    if f.flags.minus {
      spadlen := -spadlen;
    } else if f.flags.zero && f.precision == -1 {
      zpad := zpad + spadlen;
      spadlen := 0;
    }
    zpadlen := zpad;
  }

  method FmtInt(out: Output, value: int, base: nat, width: nat, precision: int, flags: Flags, up: bool, unsigned: bool,
                loc: Locale)
    requires out.Valid() && -RANGE64 / 2 <= value < RANGE64 / 2 && (unsigned || value > -RANGE64 / 2)
    requires (base == 8 || base == 10 || base == 16) && precision >= -1
    requires FieldOf(value, base, width, precision, flags, up, unsigned, loc.Sep()).FitsInt()
    modifies out, out.str
    ensures out.Valid()
    ensures out.text == old(out.text) + FieldOf(value, base, width, precision, flags, up, unsigned, loc.Sep()).Text()
  {
    hide Output.Valid, Digits;
    var uvalue, sign := Magnitude(value, flags, unsigned);
    PutInteger(out, IntField(uvalue, sign, base, up, flags, width, precision, loc.Sep()), loc);
  }

  /** fmtint once the sign is settled: the digits, the alternative form, the padding, the output. */
  method PutInteger(out: Output, f: IntField, loc: Locale)
    requires out.Valid() && f.Valid() && f.FitsInt() && f.magnitude < RANGE64 && f.sep == loc.Sep()
    modifies out, out.str
    ensures out.Valid() && out.text == old(out.text) + f.Text()
  {
    hide *;
    var iconvert, pos := MakeDigits(f);
    var prec, hexprefix := Alternative(f.flags.num && f.magnitude != 0, f.base, pos, f.precision, f.up);
    var separators := 0;
    if f.flags.quote { separators := GetNumSep(pos, loc); }
    FieldParts(f, pos, prec, hexprefix, separators, loc);
    var spadlen, zpadlen := Padding(f, prec, pos, separators, hexprefix != "");
    TextParts(f, spadlen, zpadlen, hexprefix, separators > 0);
    PutField(out, spadlen, f.sign, hexprefix, zpadlen, iconvert, pos, separators > 0, loc, f.Body());
  }

  /** The digits of the magnitude in a buffer of 43 slots. */
  method MakeDigits(f: IntField) returns (iconvert: array<char>, pos: nat)
    requires f.Valid() && f.magnitude < RANGE64
    ensures fresh(iconvert) && 0 < pos == |f.Body()| <= iconvert.Length && |f.sign| <= 1
    ensures f.Body() == Reversed(iconvert[..pos])
  {
    hide Digits, Reversed;
    iconvert := new char[43];
    BodyFits(f);
    pos := ConvertInteger(f.magnitude, iconvert, 43, f.base, f.up);
  }

  lemma BodyFits(f: IntField)
    requires f.Valid() && f.magnitude < RANGE64
    ensures f.Body() == Digits(f.magnitude, f.base, f.up) && |f.Body()| <= 43 && |f.sign| <= 1
    ensures f.base == 8 || f.base == 10 || f.base == 16
    ensures f.Body()[0..] == f.Body()
  {
    hide Digits;
    BufferSuffices(f.magnitude, f.base, f.up);
  }

  method Magnitude(value: int, flags: Flags, unsigned: bool) returns (uvalue: nat, sign: string)
    ensures uvalue == if unsigned then Unsigned(RANGE64, value) else if value >= 0 then value else -value
    ensures sign == if unsigned then "" else SignOf(flags, value < 0)
  {
    sign := "";
    if unsigned {
      uvalue := Unsigned(RANGE64, value);
    } else {
      uvalue := if value >= 0 then value else -value;
      if value < 0 { sign := "-"; }
      else if flags.plus { sign := "+"; }
      else if flags.space { sign := " "; }
    }
  }

  method Alternative(num: bool, base: nat, pos: nat, precision: int, up: bool) returns (prec: int, hexprefix: string)
    ensures prec == if num && base == 8 && precision <= pos then pos + 1 else precision
    ensures hexprefix == if num && base == 16 then (if up then "X" else "x") else ""
  {
    prec, hexprefix := precision, "";
    if num {
      if base == 8 {
        if prec <= pos { prec := pos + 1; }
      } else if base == 16 {
        hexprefix := if up then "X" else "x";
      }
    }
  }

  /** What fmtint has computed by the time it pads is what the field prescribes. */
  lemma FieldParts(f: IntField, pos: nat, prec: int, hexprefix: string, separators: nat, loc: Locale)
    requires f.Valid() && pos == |f.Body()| && f.sep == loc.Sep()
    requires prec ==
      if f.flags.num && f.magnitude != 0 && f.base == 8 && f.precision <= pos then pos + 1 else f.precision
    requires hexprefix == if f.flags.num && f.magnitude != 0 && f.base == 16 then (if f.up then "X" else "x") else ""
    requires separators == if f.flags.quote then Separators(pos) * |loc.Sep()| else 0
    ensures prec == f.EffectivePrecision() && separators == f.SepLength()
    ensures f.Prefix() == if hexprefix == "" then "" else "0" + hexprefix
  {
    hide Digits;
  }

  lemma TextParts(f: IntField, spadlen: int, zpadlen: nat, hexprefix: string, grouped: bool)
    requires f.Valid() && (grouped <==> f.SepLength() > 0)
    requires spadlen == (if f.flags.minus then 0 - f.Pad() else if f.ZeroPadded() then 0 else f.Pad())
    requires zpadlen == f.Zeros()
    requires f.Prefix() == if hexprefix == "" then "" else "0" + hexprefix
    ensures f.Text() ==
            Repeat(' ', if spadlen > 0 then spadlen else 0) + f.sign + (if hexprefix == "" then "" else "0" + hexprefix)
            + Repeat('0', zpadlen) + Written(f.Body(), f.sep, grouped)
            + Repeat(' ', if spadlen < 0 then -spadlen else 0)
  {
    hide Digits, Repeat, Group, Written;
    GroupedWhenNeeded(f, grouped);
  }

  lemma GroupedWhenNeeded(f: IntField, grouped: bool)
    requires f.Valid() && (grouped <==> f.SepLength() > 0)
    ensures Written(f.Body(), f.sep, grouped) == Group(f.Body(), f.Sep())
  {
    if !grouped { GroupPlain(f.Body(), f.Sep()); }
  }

  /** The emitting half of fmtint: blanks, sign, prefix, zeros, digits, blanks. */
  method PutField(out: Output, spadlen: int, sign: string, hexprefix: string, zpadlen: nat, buf: array<char>, n: nat,
                  grouped: bool, loc: Locale, ghost digits: string)
    requires out.Valid() && |sign| <= 1 && |hexprefix| <= 1 && n <= buf.Length && buf != out.str
    requires digits == Reversed(buf[..n])
    modifies out, out.str
    ensures out.Valid()
    ensures out.text == old(out.text) + (Repeat(' ', if spadlen > 0 then spadlen else 0) + sign
              + (if hexprefix == "" then "" else "0" + hexprefix) + Repeat('0', zpadlen)
              + Written(digits, loc.Sep(), grouped) + Repeat(' ', if spadlen < 0 then -spadlen else 0))
  {
    hide *;
    ghost var start := out.text;
    PadIf(out, spadlen > 0, spadlen);
    PutSign(out, sign);
    PutPrefix(out, hexprefix);
    out.Pad('0', zpadlen);
    PutDigits(out, buf, n, grouped, loc, digits);
    PadIf(out, spadlen < 0, -spadlen);
    Associate(start, Repeat(' ', if spadlen > 0 then spadlen else 0), sign,
              if hexprefix == "" then "" else "0" + hexprefix,
              Repeat('0', zpadlen), Written(digits, loc.Sep(), grouped),
              Repeat(' ', if spadlen < 0 then -spadlen else 0));
  }

  method PadIf(out: Output, wanted: bool, n: int)
    requires out.Valid() && (wanted ==> n >= 0)
    modifies out, out.str
    ensures out.Valid() && out.text == old(out.text) + Repeat(' ', if wanted then n else 0)
  {
    hide Output.Valid;
    if wanted { out.Pad(' ', n); } else { NoRepeat(' '); }
  }

  method PutSign(out: Output, sign: string)
    requires out.Valid() && |sign| <= 1
    modifies out, out.str
    ensures out.Valid() && out.text == old(out.text) + sign
  {
    hide Output.Valid;
    if sign != "" { out.OutChar(sign[0]); }
  }

  method PutPrefix(out: Output, hexprefix: string)
    requires out.Valid() && |hexprefix| <= 1
    modifies out, out.str
    ensures out.Valid() && out.text == old(out.text) + if hexprefix == "" then "" else "0" + hexprefix
  {
    hide Output.Valid;
    if hexprefix != "" {
      out.OutChar('0');
      out.OutChar(hexprefix[0]);
    }
  }

  lemma Associate(a: string, b: string, c: string, d: string, e: string, f: string, g: string)
    ensures a + b + c + d + e + f + g == a + (b + c + d + e + f + g)
  {
    assert a + b + c + d + e + f + g == a + b + c + d + e + (f + g);
  }

  // ---- The conversion specifiers ----

  /** va_arg in the type the length modifier names, then the narrowing assignment to value. */
  function FetchSigned(cflags: Modifier, v: int): int {
    match cflags
    case Char => Signed(RANGE8, Signed(RANGE32, v))
    case Short => Signed(RANGE16, Signed(RANGE32, v))
    case Long => Signed(RANGE64, v)
    case LongLong => Signed(RANGE64, v)
    case Size => Signed(RANGE64, Unsigned(RANGE64, v))
    case Intmax => Signed(RANGE64, v)
    case Ptrdiff => Signed(RANGE64, v)
    case _ => Signed(RANGE32, v)
  }

  /** As above for the unsigned types; value itself is signed. */
  function FetchUnsigned(cflags: Modifier, v: int): int {
    match cflags
    case Char => Unsigned(RANGE8, Unsigned(RANGE32, v))
    case Short => Unsigned(RANGE16, Unsigned(RANGE32, v))
    case Long => Signed(RANGE64, Unsigned(RANGE64, v))
    case LongLong => Signed(RANGE64, Unsigned(RANGE64, v))
    case Size => Signed(RANGE64, Unsigned(RANGE64, v))
    case Intmax => Signed(RANGE64, Unsigned(RANGE64, v))
    case Ptrdiff => Signed(RANGE64, Unsigned(RANGE64, v))
    case _ => Unsigned(RANGE32, v)
  }

  lemma Below8(q: int, w: int)
    requires 0 <= w < 0x100
    ensures (0x100 * q + w) % 0x100 == w
  {
  }

  lemma Below16(q: int, w: int)
    requires 0 <= w < 0x1_0000
    ensures (0x1_0000 * q + w) % 0x1_0000 == w
  {
  }

  lemma Remainder8(v: int, q: int, u: int, k: int, w: int)
    requires v == 0x1_0000_0000 * q + u && u == 0x100 * k + w && 0 <= w < 0x100
    ensures u % 0x100 == v % 0x100 == (u - 0x1_0000_0000) % 0x100
  {
    Below8(k, w);
    Below8(0x100_0000 * q + k, w);
    Below8(k - 0x100_0000, w);
  }

  lemma Remainder16(v: int, q: int, u: int, k: int, w: int)
    requires v == 0x1_0000_0000 * q + u && u == 0x1_0000 * k + w && 0 <= w < 0x1_0000
    ensures u % 0x1_0000 == v % 0x1_0000 == (u - 0x1_0000_0000) % 0x1_0000
  {
    Below16(k, w);
    Below16(0x1_0000 * q + k, w);
    Below16(k - 0x1_0000, w);
  }

  /** Narrowing twice is narrowing once. */
  lemma Narrow8(v: int)
    ensures Signed(RANGE8, Signed(RANGE32, v)) == Signed(RANGE8, v)
    ensures Unsigned(RANGE8, Unsigned(RANGE32, v)) == Unsigned(RANGE8, v)
  {
    var u := v % RANGE32;
    Remainder8(v, v / RANGE32, u, u / RANGE8, u % RANGE8);
  }

  lemma {:induction false} Narrow16(v: int)
    ensures Signed(RANGE16, Signed(RANGE32, v)) == Signed(RANGE16, v)
    ensures Unsigned(RANGE16, Unsigned(RANGE32, v)) == Unsigned(RANGE16, v)
  {
    var u := v % RANGE32;
    Remainder16(v, v / RANGE32, u, u / RANGE16, u % RANGE16);
  }

  lemma Same64(v: int)
    ensures Signed(RANGE64, Unsigned(RANGE64, v)) == Signed(RANGE64, v)
    ensures Unsigned(RANGE64, Signed(RANGE64, v)) == Unsigned(RANGE64, v)
    ensures Unsigned(RANGE64, Unsigned(RANGE64, v)) == Unsigned(RANGE64, v)
  {
  }

  /** Passing through a wider type, or through the signed one, loses nothing. */
  lemma {:induction false} FetchIsConversion(cflags: Modifier, v: int)
    ensures FetchSigned(cflags, v) == Signed(ValueRange(cflags), v)
    ensures -RANGE64 / 2 <= FetchSigned(cflags, v) < RANGE64 / 2
    ensures Unsigned(RANGE64, FetchUnsigned(cflags, v)) == Unsigned(ValueRange(cflags), v)
    ensures -RANGE64 / 2 <= FetchUnsigned(cflags, v) < RANGE64 / 2
  {
    hide Signed, Unsigned;
    Narrow8(v);
    Narrow16(v);
    Same64(v);
    Same64(Unsigned(RANGE64, v));
    Widen(FetchUnsigned(cflags, v));
  }

  lemma Widen(u: int)
    ensures 0 <= u < RANGE32 ==> Unsigned(RANGE64, u) == u
  {
  }

  /** What the n conversion stores, cut to the type its argument points to. */
  function Stored(cflags: Modifier, len: nat): int {
    match cflags
    case Char => Signed(RANGE8, len)
    case Short => Signed(RANGE16, len)
    case Size => Unsigned(RANGE64, len)
    case Long => Signed(RANGE64, len)
    case LongLong => Signed(RANGE64, len)
    case Intmax => Signed(RANGE64, len)
    case Ptrdiff => Signed(RANGE64, len)
    case _ => Signed(RANGE32, len)
  }

  method IntegerConversion(out: Output, ch: char, cflags: Modifier, flags: Flags, width: nat, precision: int, v: int,
                           loc: Locale) returns (ghost t: string)
    requires out.Valid() && precision >= -1 && InType(PassedRange(cflags), v)
    requires IsSignedConversion(ch) || IsUnsignedConversion(ch)
    requires Convert(Directive(flags, width, precision, cflags, ch), [Integer(v)], 0, loc) != NotDefined
    modifies out, out.str
    ensures out.Valid() && out.text == old(out.text) + t
    ensures Convert(Directive(flags, width, precision, cflags, ch), [Integer(v)], 0, loc) == Rendered(t, [], [])
  {
    hide Output.Valid, Signed, Unsigned, IntField.Text, IntField.FitsInt;
    FetchIsConversion(cflags, v);
    ghost var r := Convert(Directive(flags, width, precision, cflags, ch), [Integer(v)], 0, loc);
    if ch == 'd' || ch == 'i' {
      var value := FetchSigned(cflags, v);
      FmtInt(out, value, 10, width, precision, flags, false, false, loc);
    } else {
      var base := if ch == 'o' then 8 else if ch == 'u' then 10 else 16;
      var value := FetchUnsigned(cflags, v);
      FmtInt(out, value, base, width, precision, flags, ch == 'X', true, loc);
    }
    t := r.text;
  }

  method PointerConversion(out: Output, flags: Flags, width: nat, precision: int, address: nat, loc: Locale)
    returns (ghost t: string)
    requires out.Valid() && precision >= -1 && address < RANGE64
    requires Convert(Directive(flags, width, precision, NoModifier, 'p'), [Pointer(address)], 0, loc) != NotDefined
    modifies out, out.str
    ensures out.Valid() && out.text == old(out.text) + t
    ensures Convert(Directive(flags, width, precision, NoModifier, 'p'), [Pointer(address)], 0, loc) ==
            Rendered(t, [], [])
  {
    hide Output.Valid, Signed, Unsigned, IntField.Text, IntField.FitsInt, StrText;
    t := Convert(Directive(flags, width, precision, NoModifier, 'p'), [Pointer(address)], 0, loc).text;
    if address == 0 {
      FmtStr(out, Some("(nil)"), width, -1, flags.minus);
    } else {
      FetchAddress(address);
      var value := Signed(RANGE64, address);
      FmtInt(out, value, 16, width, precision, flags.(num := true), false, true, loc);
    }
  }

  /** A conversion of a number looks at no argument but its own. */
  lemma ConvertOne(d: Directive, args: seq<Arg>, done: nat, loc: Locale)
    requires d.precision >= -1 && args != []
    requires IsSignedConversion(d.conversion) || IsUnsignedConversion(d.conversion) || d.conversion == 'p'
    ensures Convert(d, args, done, loc) ==
            var r := Convert(if d.conversion == 'p' then d.(modifier := NoModifier) else d, [args[0]], 0, loc);
            if r.Rendered? then r.(args := args[1..]) else r
  {
    hide Signed, Unsigned, IntField.Text, IntField.FitsInt, StrText;
  }

  /** The other conversions, case by case. */
  lemma ConvertOther(d: Directive, args: seq<Arg>, done: nat, loc: Locale)
    requires d.precision >= -1 && Convert(d, args, done, loc) != NotDefined
    requires !IsSignedConversion(d.conversion) && !IsUnsignedConversion(d.conversion)
    ensures IsFloatConversion(d.conversion) ==>
      (&& args != [] && args[0].Float?
       && var t := loc.float(args[0].id, d.modifier == LongDouble, d.conversion, d.flags, d.width,
                             if (d.conversion == 'G' || d.conversion == 'g') && d.precision == 0 then 1
                             else d.precision);
          Convert(d, args, done, loc) == if t.Some? then Rendered(t.value, [], args[1..]) else FloatOverflow)
    ensures d.conversion == 'c' ==>
      (args != [] && args[0].Integer?
       && Convert(d, args, done, loc) == Rendered([Unsigned(RANGE8, args[0].v) as char], [], args[1..]))
    ensures d.conversion == 's' ==>
      (args != [] && args[0].String?
       && Convert(d, args, done, loc) ==
          Rendered(StrText(args[0].s, d.width, d.precision, d.flags.minus), [], args[1..]))
    ensures d.conversion == 'p' ==> args != [] && args[0].Pointer? && args[0].address < RANGE64
    ensures d.conversion == 'n' ==>
      (args != [] && args[0].Cell?
       && Convert(d, args, done, loc) == Rendered("", [(args[0].id, StoredCount(d.modifier, done))], args[1..]))
    ensures !IsFloatConversion(d.conversion) && d.conversion !in "cspn" ==>
      Convert(d, args, done, loc) == Rendered(if d.conversion == '%' then "%" else "", [], args)
  {
    hide Signed, Unsigned, StrText, Shown, IntField.Text, IntField.FitsInt;
  }

  lemma ConvertNumber(d: Directive, args: seq<Arg>, done: nat, loc: Locale)
    requires d.precision >= -1 && Convert(d, args, done, loc) != NotDefined
    requires IsSignedConversion(d.conversion) || IsUnsignedConversion(d.conversion)
    ensures HasInteger(args, PassedRange(d.modifier)) && [args[0]] == [Integer(args[0].v)]
  {
    hide Signed, Unsigned, IntField.Text, IntField.FitsInt;
  }

  method Conversion(out: Output, ch: char, cflags: Modifier, flags: Flags, width: nat, precision: int, args: seq<Arg>,
                    loc: Locale)
    returns (overflow: bool, rest: seq<Arg>, stores: seq<(nat, int)>)
    requires out.Valid() && precision >= -1
    requires Convert(Directive(flags, width, precision, cflags, ch), args, |out.text|, loc) != NotDefined
    modifies out, out.str
    ensures out.Valid()
    ensures match Convert(Directive(flags, width, precision, cflags, ch), args, old(|out.text|), loc)
            case FloatOverflow => overflow && out.text == old(out.text) && stores == []
            case Rendered(t, st, more) => !overflow && out.text == old(out.text) + t && stores == st && rest == more
  {
    overflow, rest, stores := false, args, [];
    assert out.len == |out.text|;
    ghost var d := Directive(flags, width, precision, cflags, ch);
    hide Output.Valid, Signed, Unsigned, StrText, Convert, Stored, StoredCount;
    if IsSignedConversion(ch) || IsUnsignedConversion(ch) {
      ConvertNumber(d, args, |out.text|, loc);
      ConvertOne(d, args, |out.text|, loc);
      ghost var t := IntegerConversion(out, ch, cflags, flags, width, precision, args[0].v, loc);
      return false, args[1..], [];
    }
    ConvertOther(d, args, |out.text|, loc);
    if IsFloatConversion(ch) {
      var prec := if (ch == 'G' || ch == 'g') && precision == 0 then 1 else precision;
      var t := loc.float(args[0].id, cflags == LongDouble, ch, flags, width, prec);
      rest := args[1..];
      if t.Some? { out.PutAll(t.value); } else { overflow := true; }
    } else if ch == 'c' {
      out.OutChar(Unsigned(RANGE8, args[0].v) as char);
      rest := args[1..];
    } else if ch == 's' {
      FmtStr(out, args[0].s, width, precision, flags.minus);
      rest := args[1..];
    } else if ch == 'p' {
      ConvertOne(d, args, |out.text|, loc);
      assert [args[0]] == [Pointer(args[0].address)];
      ghost var t := PointerConversion(out, flags, width, precision, args[0].address, loc);
      rest := args[1..];
    } else if ch == 'n' {
      StoredIs(cflags, out.len);
      stores := [(args[0].id, Stored(cflags, out.len))];
      rest := args[1..];
    } else if ch == '%' {
      out.OutChar(ch);
    }
  }

  lemma StoredIs(cflags: Modifier, len: nat)
    ensures Stored(cflags, len) == StoredCount(cflags, len)
  {
    hide Signed, Unsigned;
  }

  lemma FetchAddress(a: nat)
    requires a < RANGE64
    ensures Unsigned(RANGE64, Signed(RANGE64, a)) == a
  {
  }

  // ---- The state machine ----

  datatype State = Default | InFlags | InWidth | AtDot | InPrecision | AtModifier | AtConversion

  /** Some transitions consume no character: then the state's rank goes down. */
  function Rank(state: State): nat {
    match state
    case Default => 0
    case AtConversion => 0
    case AtModifier => 1
    case InPrecision => 2
    case AtDot => 3
    case InWidth => 4
    case InFlags => 5
  }

  /** The variables the machine keeps about the directive it is in. */
  datatype Spec = Spec(flags: Flags, width: nat, precision: int, cflags: Modifier)

  const NO_SPEC := Spec(NO_FLAGS, 0, -1, NoModifier)

  /** What has been read so far fits the state. */
  predicate Fits(state: State, v: Spec) {
    && v.width <= INT_MAX && -1 <= v.precision <= INT_MAX
    && (state == Default ==> v == NO_SPEC)
    && (state == InFlags ==> v.width == 0)
    && (state in {InFlags, InWidth, AtDot} ==> v.precision == -1)
    && (state != AtConversion ==> v.cflags == NoModifier)
  }

  /** What the rest of the format s means to a machine in this state. */
  function Pending(state: State, s: string, v: Spec, args: seq<Arg>, done: nat, loc: Locale): Outcome
    requires Fits(state, v)
  {
    match state
    case Default => Render(s, args, done, loc)
    case InFlags => Finish(ParseFlags(s, v.flags, args), done, loc)
    case InWidth => Finish(ParseWidth(s, v.flags, v.width, args), done, loc)
    case AtDot => Finish(ParseDot(s, v.flags, v.width, args), done, loc)
    case InPrecision =>
      Finish(ParsePrecision(s, v.flags, v.width, if v.precision == -1 then 0 else v.precision, args), done, loc)
    case AtModifier => Finish(ParseModifier(s, v.flags, v.width, v.precision, args), done, loc)
    case AtConversion => Finish(ParseConversion(s, v.flags, v.width, v.precision, v.cflags, args), done, loc)
  }

  /** A format may end in any state; what it had begun is dropped. */
  lemma PendingEnd(state: State, v: Spec, args: seq<Arg>, done: nat, loc: Locale)
    requires Fits(state, v)
    ensures Pending(state, "", v, args, done, loc) == Outcome("", [], Complete)
  {
  }

  lemma FinishFailures(done: nat, loc: Locale)
    ensures Finish(TooBig, done, loc) == Outcome("", [], Overflow)
    ensures Finish(Unsupplied, done, loc) == Outcome("", [], Undefined)
  {
  }

  lemma StepDefault(s: string, args: seq<Arg>, done: nat, loc: Locale)
    requires s != ""
    ensures Pending(Default, s, NO_SPEC, args, done, loc) ==
            if s[0] == '%' then Pending(InFlags, s[1..], NO_SPEC, args, done, loc)
            else Prepend([s[0]], [], Pending(Default, s[1..], NO_SPEC, args, done + 1, loc))
  {
  }

  lemma SpanCons(s: string, p: char -> bool)
    requires s != "" && p(s[0])
    ensures var n := Span(s[1..], p);
            Span(s, p) == n + 1 && s[..n + 1] == [s[0]] + s[1..][..n] && s[n + 1..] == s[1..][n..]
  {
  }

  lemma SpanNone(s: string, p: char -> bool)
    requires s == "" || !p(s[0])
    ensures Span(s, p) == 0
  {
  }

  lemma StepFlags(s: string, v: Spec, args: seq<Arg>, done: nat, loc: Locale)
    requires s != "" && Fits(InFlags, v)
    ensures Pending(InFlags, s, v, args, done, loc) ==
            if IsFlag(s[0]) then Pending(InFlags, s[1..], v.(flags := AddFlags(v.flags, [s[0]])), args, done, loc)
            else Pending(InWidth, s, v, args, done, loc)
  {
    hide Finish, ParseWidth;
    if IsFlag(s[0]) {
      SpanCons(s, IsFlag);
      var n := Span(s[1..], IsFlag);
      assert AddFlags(AddFlags(v.flags, [s[0]]), s[1..][..n]) == AddFlags(v.flags, s[..n + 1]);
    } else {
      SpanNone(s, IsFlag);
      assert AddFlags(v.flags, s[..0]) == v.flags;
      assert s[0..] == s;
    }
  }

  /** The guard of the width loop, in its own arithmetic. */
  lemma OverflowGuard(total: nat, c: char)
    requires IsDigit(c)
    ensures total > (INT_MAX - DigitValue(c)) / 10 <==> 10 * total + DigitValue(c) > INT_MAX
  {
  }

  lemma {:induction false} StepWidth(s: string, v: Spec, args: seq<Arg>, done: nat, loc: Locale)
    requires s != "" && Fits(InWidth, v)
    ensures IsDigit(s[0]) ==>
      var w := 10 * v.width + DigitValue(s[0]);
      Pending(InWidth, s, v, args, done, loc) ==
      if w > INT_MAX then Outcome("", [], Overflow) else Pending(InWidth, s[1..], v.(width := w), args, done, loc)
    ensures !IsDigit(s[0]) && s[0] != '*' ==>
      Pending(InWidth, s, v, args, done, loc) == Pending(AtDot, s, v, args, done, loc)
    ensures s[0] == '*' && Pending(InWidth, s, v, args, done, loc).status != Undefined ==>
      && HasInt(args) && -INT_MAX <= Signed(RANGE32, args[0].v)
      && var w := Signed(RANGE32, args[0].v);
         var v' := if w < 0 then v.(flags := v.flags.(minus := true), width := -w) else v.(width := w);
         Pending(InWidth, s, v, args, done, loc) == Pending(AtDot, s[1..], v', args[1..], done, loc)
  {
    hide Finish, ParseDot;
    FinishFailures(done, loc);
    if IsDigit(s[0]) {
      SpanCons(s, IsDigit);
      var w := 10 * v.width + DigitValue(s[0]);
      AccumulateGrows(w, s[1..][..Span(s[1..], IsDigit)]);
    } else {
      SpanNone(s, IsDigit);
      assert s[0..] == s;
    }
  }

  lemma StepDot(s: string, v: Spec, args: seq<Arg>, done: nat, loc: Locale)
    requires s != "" && Fits(AtDot, v)
    ensures Pending(AtDot, s, v, args, done, loc) ==
            if s[0] == '.' then Pending(InPrecision, s[1..], v, args, done, loc)
            else Pending(AtModifier, s, v, args, done, loc)
  {
    hide Finish, ParsePrecision, ParseModifier;
  }

  lemma StepPrecision(s: string, v: Spec, args: seq<Arg>, done: nat, loc: Locale)
    requires s != "" && Fits(InPrecision, v) && v.precision >= 0
    ensures IsDigit(s[0]) ==>
      var p := 10 * v.precision + DigitValue(s[0]);
      Pending(InPrecision, s, v, args, done, loc) ==
      if p > INT_MAX then Outcome("", [], Overflow)
      else Pending(InPrecision, s[1..], v.(precision := p), args, done, loc)
    ensures !IsDigit(s[0]) && s[0] != '*' ==>
      Pending(InPrecision, s, v, args, done, loc) == Pending(AtModifier, s, v, args, done, loc)
    ensures s[0] == '*' && Pending(InPrecision, s, v, args, done, loc).status != Undefined ==>
      && HasInt(args)
      && var p := Signed(RANGE32, args[0].v);
         Pending(InPrecision, s, v, args, done, loc) ==
         Pending(AtModifier, s[1..], v.(precision := if p < 0 then -1 else p), args[1..], done, loc)
  {
    hide Finish, ParseModifier;
    FinishFailures(done, loc);
    if IsDigit(s[0]) {
      SpanCons(s, IsDigit);
      var p := 10 * v.precision + DigitValue(s[0]);
      AccumulateGrows(p, s[1..][..Span(s[1..], IsDigit)]);
    } else {
      SpanNone(s, IsDigit);
      assert s[0..] == s;
    }
  }

  lemma StepModifier(s: string, v: Spec, args: seq<Arg>, done: nat, loc: Locale)
    requires s != "" && Fits(AtModifier, v)
    ensures var (m, n) := ModifierAt(s);
            n <= |s| &&
            Pending(AtModifier, s, v, args, done, loc) ==
            Pending(AtConversion, s[n..], v.(cflags := m), args, done, loc)
  {
    hide Finish;
  }

  lemma StepConversion(s: string, v: Spec, args: seq<Arg>, done: nat, loc: Locale)
    requires s != "" && Fits(AtConversion, v)
    ensures Pending(AtConversion, s, v, args, done, loc) ==
      match Convert(Directive(v.flags, v.width, v.precision, v.cflags, s[0]), args, done, loc)
      case FloatOverflow => Outcome("", [], Overflow)
      case NotDefined => Outcome("", [], Undefined)
      case Rendered(text, stores, more) =>
        Prepend(text, stores, Pending(Default, s[1..], NO_SPEC, more, done + |text|, loc))
  {
    hide Convert, Render;
  }

  /** One transition inside a directive. Five of them consume nothing but lower the state's rank. */
  method Transition(format: string, pos: nat, state: State, v: Spec, args: seq<Arg>, ghost done: nat, ghost loc: Locale)
    returns (overflow: bool, pos': nat, state': State, v': Spec, args': seq<Arg>)
    requires pos < |format| && Fits(state, v) && state != Default && state != AtConversion
    requires Pending(state, format[pos..], v, args, done, loc).status != Undefined
    ensures overflow ==> Pending(state, format[pos..], v, args, done, loc) == Outcome("", [], Overflow)
    ensures !overflow ==>
      (&& Fits(state', v') && pos <= pos' <= |format| && (pos == pos' ==> Rank(state') < Rank(state))
       && Pending(state', format[pos'..], v', args', done, loc) == Pending(state, format[pos..], v, args, done, loc))
  {
    hide Pending, ModifierAt, Signed;
    overflow, pos', state', v', args' := false, pos, state, v, args;
    var ch := format[pos];
    ghost var s := format[pos..];
    assert s[1..] == format[pos + 1..] && s[0] == ch;
    match state {
      case InFlags =>
        StepFlags(s, v, args, done, loc);
        v' := v.(flags := FlagBit(v.flags, ch));
        if IsFlag(ch) { pos' := pos + 1; } else { v', state' := v, InWidth; }
      case InWidth =>
        StepWidth(s, v, args, done, loc);
        if IsDigit(ch) {
          OverflowGuard(v.width, ch);
          if v.width > (INT_MAX - DigitValue(ch)) / 10 { overflow := true; return; }
          v' := v.(width := 10 * v.width + DigitValue(ch));
          pos' := pos + 1;
        } else if ch == '*' {
          var width := Signed(RANGE32, args[0].v);
          if width < 0 {
            v' := v.(flags := v.flags.(minus := true), width := -width);
          } else {
            v' := v.(width := width);
          }
          pos', state', args' := pos + 1, AtDot, args[1..];
        } else {
          state' := AtDot;
        }
      case AtDot =>
        StepDot(s, v, args, done, loc);
        if ch == '.' { pos', state' := pos + 1, InPrecision; } else { state' := AtModifier; }
      case InPrecision =>
        var w := if v.precision == -1 then v.(precision := 0) else v;
        PrecisionStarts(s, v, args, done, loc);
        StepPrecision(s, w, args, done, loc);
        v' := w;
        if IsDigit(ch) {
          OverflowGuard(w.precision, ch);
          if w.precision > (INT_MAX - DigitValue(ch)) / 10 { overflow := true; return; }
          v' := w.(precision := 10 * w.precision + DigitValue(ch));
          pos' := pos + 1;
        } else if ch == '*' {
          var precision := Signed(RANGE32, args[0].v);
          v' := w.(precision := if precision < 0 then -1 else precision);
          pos', state', args' := pos + 1, AtModifier, args[1..];
        } else {
          state' := AtModifier;
        }
      case AtModifier =>
        StepModifier(s, v, args, done, loc);
        var cflags, n := ReadModifier(format, pos);
        assert s[n..] == format[pos + n..];
        v' := v.(cflags := cflags);
        pos', state' := pos + n, AtConversion;
    }
  }

  /** Before its first character the precision counts as zero. */
  lemma PrecisionStarts(s: string, v: Spec, args: seq<Arg>, done: nat, loc: Locale)
    requires Fits(InPrecision, v)
    ensures v.precision == -1 ==>
      Pending(InPrecision, s, v, args, done, loc) == Pending(InPrecision, s, v.(precision := 0), args, done, loc)
  {
    hide Finish, ParsePrecision;
  }

  function FlagBit(f: Flags, ch: char): (r: Flags)
    ensures r == AddFlags(f, [ch])
  {
    match ch
    case '-' => f.(minus := true)
    case '+' => f.(plus := true)
    case ' ' => f.(space := true)
    case '#' => f.(num := true)
    case '0' => f.(zero := true)
    case '\'' => f.(quote := true)
    case _ => f
  }

  method ReadModifier(format: string, pos: nat) returns (cflags: Modifier, n: nat)
    requires pos < |format|
    ensures (cflags, n) == ModifierAt(format[pos..])
  {
    n := 1;
    match format[pos] {
      case 'h' =>
        if pos + 1 < |format| && format[pos + 1] == 'h' { cflags, n := Char, 2; } else { cflags := Short; }
      case 'l' =>
        if pos + 1 < |format| && format[pos + 1] == 'l' { cflags, n := LongLong, 2; } else { cflags := Long; }
      case 'L' => cflags := LongDouble;
      case 'j' => cflags := Intmax;
      case 't' => cflags := Ptrdiff;
      case 'z' => cflags := Size;
      case _ => cflags, n := NoModifier, 0;
    }
  }

  /** What a destination of the given size holds after text is written to it: the first size - 1
      characters, a NUL after them, and behind that what was there before. */
  function Truncate(text: string, size: nat, before: seq<char>): (after: seq<char>)
    requires size <= |before|
    ensures |after| == |before|
  {
    if size == 0 then before
    else
      var n := if |text| < size - 1 then |text| else size - 1;
      text[..n] + [NUL] + before[n + 1..]
  }

  function ReturnValue(o: Outcome): int {
    if o.status == Overflow || |o.text| >= INT_MAX then -1 else |o.text|
  }

  /** The first characters of the text, as many as leave room for a NUL; the NUL; and nothing else changed. */
  lemma TruncateMeans(text: string, size: nat, before: seq<char>, k: nat)
    requires size <= |before| && k < |before|
    ensures var after := Truncate(text, size, before);
            && (k < |text| && k + 1 < size ==> after[k] == text[k])
            && (size > 0 && k == (if |text| < size then |text| else size - 1) ==> after[k] == '\0')
            && ((size == 0 || k >= size || k > |text|) ==> after[k] == before[k])
  {
  }

  /** The length of the whole text, or -1 on overflow or when an int cannot hold one more than it. */
  lemma ReturnMeans(o: Outcome)
    ensures o.status != Overflow && |o.text| < 0x7FFF_FFFF ==> ReturnValue(o) == |o.text|
    ensures o.status == Overflow || |o.text| >= 0x7FFF_FFFF ==> ReturnValue(o) == -1
  {
  }

  lemma PrependTwice(t: string, st: seq<(nat, int)>, t': string, st': seq<(nat, int)>, o: Outcome)
    ensures Prepend(t, st, Prepend(t', st', o)) == Prepend(t + t', st + st', o)
  {
    assert t + (t' + o.text) == t + t' + o.text;
    assert st + (st' + o.stores) == st + st' + o.stores;
  }

  /** Terminates what has been written, within the size. */
  method Terminate(out: Output)
    requires out.Valid()
    modifies out.str
    ensures out.str != null ==> out.str[..] == Truncate(out.text, out.size, out.before)
  {
    hide Truncate;
    if out.len < out.size {
      out.str[out.len] := NUL;
    } else if out.size > 0 {
      out.str[out.size - 1] := NUL;
    }
    if out.str != null { TruncateIs(out.text, out.size, out.before, out.str[..]); }
  }

  lemma TruncateIs(text: string, size: nat, before: seq<char>, after: seq<char>)
    requires size <= |before| == |after|
    requires forall k :: 0 <= k < |after| ==>
      after[k] == if k < |text| && k + 1 < size then text[k]
                  else if size > 0 && k == (if |text| < size then |text| else size - 1) then NUL else before[k]
    ensures after == Truncate(text, size, before)
  {
  }

  /** The loop of the machine: reads the whole format, writing as it goes. */
  method RunMachine(out: Output, format: string, args0: seq<Arg>, loc: Locale)
    returns (overflow: bool, stores: seq<(nat, int)>)
    requires out.Valid() && out.text == "" && NulFree(format)
    requires Render(format, args0, 0, loc).status != Undefined
    modifies out, out.str
    ensures out.Valid()
    ensures Render(format, args0, 0, loc) == Outcome(out.text, stores, if overflow then Overflow else Complete)
  {
    hide Pending, Render, Convert, Output.Valid;
    ghost var whole := Render(format, args0, 0, loc);
    var state, v, args, pos: nat := Default, NO_SPEC, args0, 0;
    overflow, stores := false, [];
    StartOf(format, args0, loc);
    var ch := if pos < |format| then format[pos] else NUL;
    while ch != NUL
      invariant out.Valid() && Fits(state, v) && pos <= |format|
      invariant ch == if pos < |format| then format[pos] else NUL
      invariant whole == Prepend(out.text, stores, Pending(state, format[pos..], v, args, |out.text|, loc))
      decreases |format| - pos, Rank(state)
    {
      ghost var s, text, st := format[pos..], out.text, stores;
      assert s[1..] == format[pos + 1..] && s[0] == ch;
      if state == Default {
        StepDefault(s, args, |text|, loc);
        if ch == '%' {
          state := InFlags;
        } else {
          out.OutChar(ch);
          PrependTwice(text, st, [ch], [], Pending(Default, s[1..], NO_SPEC, args, |text| + 1, loc));
        }
        pos := pos + 1;
      } else if state == AtConversion {
        StepConversion(s, v, args, |text|, loc);
        var rest, more;
        overflow, rest, more := Conversion(out, ch, v.cflags, v.flags, v.width, v.precision, args, loc);
        if overflow {
          NothingMore(text, st, Overflow);
          return;
        }
        stores := stores + more;
        PrependTwice(text, st, out.text[|text|..], more, Pending(Default, s[1..], NO_SPEC, rest, |out.text|, loc));
        pos, state, v, args := pos + 1, Default, NO_SPEC, rest;
      } else {
        overflow, pos, state, v, args := Transition(format, pos, state, v, args, |text|, loc);
        if overflow {
          NothingMore(text, st, Overflow);
          return;
        }
      }
      ch := if pos < |format| then format[pos] else NUL;
    }
    assert forall k :: 0 <= k < |format| ==> format[k] != NUL;
    assert format[pos..] == "";
    PendingEnd(state, v, args, |out.text|, loc);
    NothingMore(out.text, stores, Complete);
  }

  lemma NothingMore(t: string, st: seq<(nat, int)>, status: Status)
    ensures Prepend(t, st, Outcome("", [], status)) == Outcome(t, st, status)
  {
  }

  lemma StartOf(format: string, args: seq<Arg>, loc: Locale)
    ensures Fits(Default, NO_SPEC) && format[0..] == format
    ensures Prepend("", [], Pending(Default, format[0..], NO_SPEC, args, 0, loc)) == Render(format, args, 0, loc)
  {
    hide Render;
    assert format[0..] == format;
  }

  /**
   * vsnprintf: whatever the size, the result and the counts stored are those of the whole text; the
   * destination receives as much of it as fits.
   */
  method Vsnprintf(str: array?<char>, size: nat, format: string, args: seq<Arg>, loc: Locale)
    returns (r: int, stores: seq<(nat, int)>)
    requires NulFree(format) && (str != null ==> size <= str.Length)
    requires Render(format, args, 0, loc).status != Undefined
    modifies str
    ensures var o := Render(format, args, 0, loc);
            && r == ReturnValue(o) && stores == o.stores
            && (str != null ==> str[..] == Truncate(o.text, size, old(str[..])))
  {
    hide Render;
    var out := new Output(str, size);
    var overflow;
    overflow, stores := RunMachine(out, format, args, loc);
    Terminate(out);
    r := if overflow || out.len >= INT_MAX then -1 else out.len;
  }

  /** vasprintf: a first pass measures, a second one fills a buffer of exactly the size needed. */
  method Vasprintf(format: string, args: seq<Arg>, loc: Locale, granted: bool)
    returns (r: int, ret: array?<char>, stores: seq<(nat, int)>)
    requires NulFree(format) && Render(format, args, 0, loc).status != Undefined
    ensures var o := Render(format, args, 0, loc);
            if ReturnValue(o) < 0 || !granted then r == -1 && ret == null
            else r == |o.text| && ret != null && fresh(ret) && ret[..] == o.text + [NUL]
    ensures var o := Render(format, args, 0, loc);
            stores == if ReturnValue(o) < 0 || !granted then o.stores else o.stores + o.stores
  {
    hide Render;
    ret := null;
    var len;
    len, stores := Vsnprintf(null, 0, format, args, loc);
    if len < 0 || !granted { return -1, null, stores; }
    var size := len + 1;
    ret := new char[size];
    var again;
    r, again := Vsnprintf(ret, size, format, args, loc);
    stores := stores + again;
  }
}
