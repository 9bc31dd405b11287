/** The CSV writer (src/csv_writer.c), against a reader of the format in section 2 of RFC 4180. */
module CsvWriter {
  import opened Options

  const CRLF := "\r\n"

  type Record = seq<string>

  // ---- Reading: section 2 of RFC 4180 ----

  /** The characters a field must be quoted for. */
  predicate IsSpecial(c: char) { c == '"' || c == ',' || c == '\r' || c == '\n' }

  /** The rest of a quoted field: doubled quotes stand for one, a single quote ends it. */
  function ReadQuoted(s: string): Option<(string, string)>
    decreases |s|
  {
    if s == "" then None
    else if s[0] != '"' then
      var r := ReadQuoted(s[1..]);
      if r.None? then None else Some(([s[0]] + r.value.0, r.value.1))
    else if |s| > 1 && s[1] == '"' then
      var r := ReadQuoted(s[2..]);
      if r.None? then None else Some((['"'] + r.value.0, r.value.1))
    else Some(("", s[1..]))
  }

  function ReadPlain(s: string): (string, string)
    decreases |s|
  {
    if s == "" || IsSpecial(s[0]) then ("", s)
    else var r := ReadPlain(s[1..]); ([s[0]] + r.0, r.1)
  }

  function ReadField(s: string): Option<(string, string)> {
    if s != "" && s[0] == '"' then ReadQuoted(s[1..]) else Some(ReadPlain(s))
  }

  lemma {:induction false} QuotedShrinks(s: string)
    ensures var r := ReadQuoted(s); r.Some? ==> |r.value.1| < |s|
    decreases |s|
  {
    if s != "" {
      QuotedShrinks(s[1..]);
      if |s| > 1 { QuotedShrinks(s[2..]); }
    }
  }

  lemma {:induction false} PlainShrinks(s: string)
    ensures |ReadPlain(s).1| <= |s|
    decreases |s|
  {
    if s != "" { PlainShrinks(s[1..]); }
  }

  lemma FieldShrinks(s: string)
    ensures var r := ReadField(s); r.Some? ==> |r.value.1| <= |s|
  {
    PlainShrinks(s);
    if s != "" { QuotedShrinks(s[1..]); }
  }

  /** Fields separated by commas. */
  function ReadRecord(s: string): (r: Option<(Record, string)>)
    ensures r.Some? ==> |r.value.1| <= |s|
    decreases |s|
  {
    FieldShrinks(s);
    var f := ReadField(s);
    if f.None? then None
    else
      var (field, rest) := f.value;
      if rest != "" && rest[0] == ',' then
        var r := ReadRecord(rest[1..]);
        if r.None? then None else Some(([field] + r.value.0, r.value.1))
      else Some(([field], rest))
  }

  /** Records separated by line breaks; the last one may or may not have one after it. */
  function Read(s: string): Option<seq<Record>>
    decreases |s|
  {
    if s == "" then Some([])
    else
      var r := ReadRecord(s);
      if r.None? then None
      else
        var (record, rest) := r.value;
        if rest == "" then Some([record])
        else if CRLF <= rest then
          var more := Read(rest[2..]);
          if more.None? then None else Some([record] + more.value)
        else None
  }

  // ---- What the writer prints ----

  predicate NeedsQuotes(s: string) { exists i :: 0 <= i < |s| && IsSpecial(s[i]) }

  function DoubleQuotes(s: string): string {
    if s == "" then "" else (if s[0] == '"' then "\"\"" else [s[0]]) + DoubleQuotes(s[1..])
  }

  function PrintField(s: string): string {
    if NeedsQuotes(s) then "\"" + DoubleQuotes(s) + "\"" else s
  }

  function PrintFields(r: Record): string {
    if r == [] then ""
    else if |r| == 1 then PrintField(r[0])
    else PrintFields(r[..|r| - 1]) + "," + PrintField(r[|r| - 1])
  }

  function Print(rs: seq<Record>): string {
    if rs == [] then "" else Print(rs[..|rs| - 1]) + PrintFields(rs[|rs| - 1]) + CRLF
  }

  /** A writer over an output that takes all it is given. */
  class Writer {
    var output: string
    var beginningOfLine: bool
    ghost var records: seq<Record>
    ghost var current: Record

    ghost predicate Valid()
      reads this
    {
      output == Print(records) + PrintFields(current) && (beginningOfLine <==> current == [])
    }

    constructor ()
      ensures Valid() && records == [] && current == []
    {
      output, beginningOfLine := "", true;
      records, current := [], [];
    }

    method WriteEscaped(s: string)
      modifies this`output
      ensures output == old(output) + "\"" + DoubleQuotes(s) + "\""
    {
      output := output + "\"";
      var i := 0;
      assert s[0..] == s;
      while i < |s|
        invariant i <= |s| && output + DoubleQuotes(s[i..]) == old(output) + "\"" + DoubleQuotes(s)
      {
        assert s[i..][1..] == s[i + 1..];
        ghost var before := output;
        if s[i] == '"' { output := output + "\""; }
        output := output + [s[i]];
        assert output == before + if s[i] == '"' then "\"\"" else [s[i]];
        i := i + 1;
      }
      assert DoubleQuotes(s[i..]) == "";
      output := output + "\"";
    }

    method WriteField(s: string)
      modifies this`output
      ensures output == old(output) + PrintField(s)
    {
      ghost var before := output;
      if exists i :: 0 <= i < |s| && IsSpecial(s[i]) {
        WriteEscaped(s);
        assert before + "\"" + DoubleQuotes(s) + "\"" == before + ("\"" + DoubleQuotes(s) + "\"");
      } else {
        output := output + s;
      }
    }

    method Field(s: string)
      requires Valid()
      modifies this
      ensures Valid() && records == old(records) && current == old(current) + [s]
    {
      hide PrintField, Print;
      ghost var done := Print(records);
      if beginningOfLine {
        beginningOfLine := false;
      } else {
        output := output + ",";
      }
      WriteField(s);
      current := current + [s];
      assert current[..|current| - 1] == old(current);
      assert done + PrintFields(old(current)) + "," + PrintField(s)
        == done + (PrintFields(old(current)) + "," + PrintField(s));
    }

    method NewRecord()
      requires Valid()
      modifies this
      ensures Valid() && records == old(records) + [old(current)] && current == []
    {
      output := output + CRLF;
      beginningOfLine := true;
      records, current := records + [current], [];
      assert records[..|records| - 1] == old(records);
    }

    /** Ends the last record unless it has been ended already. */
    method Close() returns (text: string)
      requires Valid()
      modifies this`output
      ensures text == Print(old(records) + if old(current) == [] then [] else [old(current)])
    {
      if !beginningOfLine { output := output + CRLF; }
      text := output;
      ghost var all := records + [current];
      assert all[..|all| - 1] == records;
      assert records + [] == records;
    }
  }

  // ---- Reading back ----

  /** A record without fields prints, and reads back, as one with a single empty field. */
  function AsRead(r: Record): Record { if r == [] then [""] else r }

  predicate Stops(t: string) { t == "" || IsSpecial(t[0]) }

  lemma {:induction false} ReadDoubled(s: string, t: string)
    requires t == "" || t[0] != '"'
    ensures ReadQuoted(DoubleQuotes(s) + "\"" + t) == Some((s, t))
    decreases |s|
  {
    var text := DoubleQuotes(s) + "\"" + t;
    if s == "" {
      assert text[1..] == t;
    } else {
      ReadDoubled(s[1..], t);
      var k := if s[0] == '"' then 2 else 1;
      assert text[k..] == DoubleQuotes(s[1..]) + "\"" + t;
      assert s == [s[0]] + s[1..];
    }
  }

  lemma {:induction false} ReadUnquoted(s: string, t: string)
    requires !NeedsQuotes(s) && Stops(t)
    ensures ReadPlain(s + t) == (s, t)
    decreases |s|
  {
    if s == "" {
      assert s + t == t;
    } else {
      assert (s + t)[1..] == s[1..] + t;
      assert forall i :: 0 <= i < |s| - 1 ==> s[1..][i] == s[i + 1];
      ReadUnquoted(s[1..], t);
      assert s == [s[0]] + s[1..];
    }
  }

  lemma ReadPrintedField(s: string, t: string)
    requires Stops(t) && (t == "" || t[0] != '"')
    ensures ReadField(PrintField(s) + t) == Some((s, t))
  {
    hide ReadQuoted, ReadPlain, DoubleQuotes;
    var text := PrintField(s) + t;
    if NeedsQuotes(s) {
      ReadDoubled(s, t);
      assert text[1..] == DoubleQuotes(s) + "\"" + t;
    } else {
      ReadUnquoted(s, t);
      if s == "" { assert text == t; } else { assert !IsSpecial(s[0]); }
    }
  }

  lemma PrintFieldsLast(r: Record)
    ensures |r| == 1 ==> PrintFields(r) == PrintField(r[0])
    ensures |r| > 1 ==> PrintFields(r) == PrintFields(r[..|r| - 1]) + "," + PrintField(r[|r| - 1])
  {
    hide PrintField;
  }

  lemma {:induction false} PrintFieldsHead(r: Record)
    requires |r| > 1
    ensures PrintFields(r) == PrintField(r[0]) + "," + PrintFields(r[1..])
    decreases |r|
  {
    hide PrintField, PrintFields;
    var n := |r| - 1;
    PrintFieldsLast(r);
    PrintFieldsLast(r[1..]);
    if n > 1 {
      PrintFieldsHead(r[..n]);
      assert r[..n][1..] == r[1..][..n - 1];
      var x, y, z := PrintField(r[0]), PrintFields(r[..n][1..]), PrintField(r[n]);
      assert x + "," + y + "," + z == x + "," + (y + "," + z);
    } else {
      PrintFieldsLast(r[..1]);
    }
  }

  lemma {:induction false} ReadPrintedRecord(r: Record, t: string)
    requires t == "" || t[0] == '\r'
    ensures ReadRecord(PrintFields(r) + t) == Some((AsRead(r), t))
    decreases |r|
  {
    hide ReadField, PrintField;
    if |r| <= 1 {
      var f := if r == [] then "" else r[0];
      EmptyField();
      assert PrintFields(r) == PrintField(f);
      ReadPrintedField(f, t);
      assert [f] == AsRead(r);
    } else {
      PrintFieldsHead(r);
      var tail := "," + (PrintFields(r[1..]) + t);
      assert PrintFields(r) + t == PrintField(r[0]) + tail;
      ReadPrintedField(r[0], tail);
      ReadPrintedRecord(r[1..], t);
      assert tail[1..] == PrintFields(r[1..]) + t;
      assert r == [r[0]] + r[1..];
    }
  }

  lemma EmptyField()
    ensures PrintField("") == ""
  {
  }

  function AllAsRead(rs: seq<Record>): seq<Record> { seq(|rs|, i requires 0 <= i < |rs| => AsRead(rs[i])) }

  lemma {:induction false} PrintHead(rs: seq<Record>)
    requires rs != []
    ensures Print(rs) == PrintFields(rs[0]) + (CRLF + Print(rs[1..]))
    decreases |rs|
  {
    hide PrintFields;
    var n := |rs| - 1;
    if n > 0 {
      PrintHead(rs[..n]);
      assert rs[..n][1..] == rs[1..n] == rs[1..][..n - 1];
      var x, y, z := PrintFields(rs[0]), Print(rs[1..n]), PrintFields(rs[n]);
      assert x + (CRLF + y) + z + CRLF == x + (CRLF + (y + z + CRLF));
    } else {
      assert rs[..0] == [];
    }
  }

  /** What the writer prints reads back as what was written, empty records as one empty field. */
  lemma {:induction false} ReadPrinted(rs: seq<Record>)
    ensures Read(Print(rs)) == Some(AllAsRead(rs))
    decreases |rs|
  {
    hide PrintFields, ReadRecord;
    if rs != [] {
      PrintHead(rs);
      var tail := CRLF + Print(rs[1..]);
      ReadPrintedRecord(rs[0], tail);
      ReadPrinted(rs[1..]);
      assert tail[2..] == Print(rs[1..]) && tail[0] == '\r' && CRLF <= tail;
      assert AllAsRead(rs) == [AsRead(rs[0])] + AllAsRead(rs[1..]);
      assert Print(rs) == PrintFields(rs[0]) + tail && |Print(rs)| >= 2;
      assert ReadRecord(Print(rs)) == Some((AsRead(rs[0]), tail));
    } else {
      assert AllAsRead(rs) == [];
    }
  }

  /** The round trip is exact precisely when no record is without fields. */
  lemma {:induction false} RoundTrip(rs: seq<Record>)
    ensures Read(Print(rs)) == Some(rs) <==> forall i :: 0 <= i < |rs| ==> rs[i] != []
  {
    hide Read, Print;
    ReadPrinted(rs);
    assert AllAsRead(rs) == rs ==> forall i :: 0 <= i < |rs| ==> rs[i] == AllAsRead(rs)[i];
  }

  /** The output for one record without fields, and what it reads back as. */
  lemma EmptyRecord()
    ensures Print([[]]) == "\r\n" && Read("\r\n") == Some([[""]])
  {
    var rs: seq<Record> := [[]];
    ReadPrinted(rs);
    assert Print([]) == "" && rs[..0] == [];
    assert Print(rs) == "" + "" + CRLF == "\r\n";
    assert AllAsRead(rs) == [[""]];
  }

  // ---- What stands in the output, character by character ----

  /** A field is printed as it is, unless it holds a quote, a comma, a carriage return or a line feed: then it
      stands in quotes with its own quotes doubled. */
  lemma FieldIsPrinted(s: string)
    ensures '"' !in s && ',' !in s && '\r' !in s && '\n' !in s ==> PrintField(s) == s
    ensures '"' in s || ',' in s || '\r' in s || '\n' in s ==> PrintField(s) == "\"" + DoubleQuotes(s) + "\""
  {
    hide DoubleQuotes;
    if NeedsQuotes(s) {
      var i :| 0 <= i < |s| && IsSpecial(s[i]);
      assert s[i] in s;
    }
    if '"' in s || ',' in s || '\r' in s || '\n' in s {
      var c :| c in s && (c == '"' || c == ',' || c == '\r' || c == '\n');
      var i :| 0 <= i < |s| && s[i] == c;
      assert IsSpecial(s[i]);
    }
  }

  /** Quotes are doubled, everything else stays. */
  lemma {:induction false} QuotesAreDoubled(x: string, y: string)
    requires '"' !in x
    ensures DoubleQuotes(x) == x && DoubleQuotes(x + "\"" + y) == x + "\"\"" + DoubleQuotes(y)
  {
    var s := x + "\"" + y;
    if x == "" {
      assert s[0] == '"' && s[1..] == y;
    } else {
      assert s[0] == x[0] && s[1..] == x[1..] + "\"" + y && x == [x[0]] + x[1..];
      QuotesAreDoubled(x[1..], y);
      assert [x[0]] + (x[1..] + "\"\"" + DoubleQuotes(y)) == x + "\"\"" + DoubleQuotes(y);
    }
  }

  /** Commas stand between fields, and a carriage return and a line feed behind each record. */
  lemma RecordsArePrinted(rs: seq<Record>, r: Record, s: string)
    ensures Print([]) == "" && PrintFields([]) == "" && PrintFields([s]) == PrintField(s)
    ensures r != [] ==> PrintFields(r + [s]) == PrintFields(r) + "," + PrintField(s)
    ensures Print(rs + [r]) == Print(rs) + PrintFields(r) + "\r\n"
  {
    hide PrintField;
    assert (r + [s])[..|r|] == r && (rs + [r])[..|rs|] == rs;
  }
}
