/** Version comparison in the manner of RPM (ext/rpmvercmp.c). */
module RpmVersion {
  import opened CStrings
  import opened Numerals
  import opened Options

  predicate IsAlpha(c: char) { 'a' <= c <= 'z' || 'A' <= c <= 'Z' }

  /** Neither alphanumeric nor a tilde: such characters only separate segments. */
  predicate IsSeparator(c: char) { !IsDigit(c) && !IsAlpha(c) && c != '~' }

  // ---- The order, stated on token sequences ----

  /** What a version string is made of once separators are dropped. */
  datatype Token = Tilde | Word(word: string) | Number(value: nat)

  function Tokens(s: string): seq<Token>
    decreases |s|
  {
    if s == "" then []
    else if s[0] == '~' then [Tilde] + Tokens(s[1..])
    else if IsDigit(s[0]) then
      var n := Span(s, IsDigit);
      [Number(Value(s[..n]))] + Tokens(s[n..])
    else if IsAlpha(s[0]) then
      var n := Span(s, IsAlpha);
      [Word(s[..n])] + Tokens(s[n..])
    else Tokens(s[1..])
  }

  /** One step of the tokenizer at an alphanumeric character. */
  lemma SegmentToken(s: string, n: nat)
    requires s != "" && n <= |s|
    ensures IsDigit(s[0]) && n == Span(s, IsDigit) ==>
      0 < n && Numeral(s[..n]) && Tokens(s) == [Number(Value(s[..n]))] + Tokens(s[n..])
    ensures IsAlpha(s[0]) && n == Span(s, IsAlpha) ==>
      0 < n && Tokens(s) == [Word(s[..n])] + Tokens(s[n..])
  {
  }

  /** One step of the tokenizer at any other character. */
  lemma PunctuationToken(s: string)
    requires s != ""
    ensures s[0] == '~' ==> Tokens(s) == [Tilde] + Tokens(s[1..])
    ensures IsSeparator(s[0]) ==> Tokens(s) == Tokens(s[1..])
  {
  }

  function Sign(n: int): int { if n < 0 then -1 else if n > 0 then 1 else 0 }

  /** The sign of strcmp on NUL-free strings. */
  function CompareWords(x: string, y: string): int {
    if x == "" && y == "" then 0
    else if x == "" then -1
    else if y == "" then 1
    else if x[0] != y[0] then Sign(x[0] as int - y[0] as int)
    else CompareWords(x[1..], y[1..])
  }

  /** Tilde before the end of the version, then words, then numbers. */
  function Rank(t: Option<Token>): int {
    match t
    case None => 1
    case Some(Tilde) => 0
    case Some(Word(_)) => 2
    case Some(Number(_)) => 3
  }

  function CompareHeads(x: Option<Token>, y: Option<Token>): int {
    if Rank(x) != Rank(y) then Sign(Rank(x) - Rank(y))
    else match x
      case Some(Word(w)) => CompareWords(w, y.value.word)
      case Some(Number(n)) => Sign(n - y.value.value)
      case _ => 0
  }

  function Head(x: seq<Token>): Option<Token> {
    if x == [] then None else Some(x[0])
  }

  /** Lexicographic comparison of token sequences. */
  function Compare(x: seq<Token>, y: seq<Token>): int {
    var c := CompareHeads(Head(x), Head(y));
    if c != 0 then c
    else if x == [] || y == [] then 0
    else Compare(x[1..], y[1..])
  }

  // ---- It is a total order on token sequences, hence a total preorder on versions ----

  lemma {:induction false} WordsOrder(x: string, y: string, z: string)
    ensures CompareWords(x, y) == 0 <==> x == y
    ensures CompareWords(x, y) == -CompareWords(y, x)
    ensures CompareWords(x, y) <= 0 && CompareWords(y, z) <= 0 ==> CompareWords(x, z) <= 0
  {
    if x != "" && y != "" && x[0] == y[0] {
      assert x == [x[0]] + x[1..] && y == [y[0]] + y[1..];
      WordsOrder(x[1..], y[1..], if z == "" then "" else z[1..]);
    } else if x != "" && z != "" && x[0] == z[0] && y == "" {
    }
  }

  lemma HeadsOrder(x: Option<Token>, y: Option<Token>, z: Option<Token>)
    ensures CompareHeads(x, y) == 0 <==> x == y
    ensures CompareHeads(x, y) == -CompareHeads(y, x)
    ensures CompareHeads(x, y) <= 0 && CompareHeads(y, z) <= 0 ==> CompareHeads(x, z) <= 0
    ensures CompareHeads(x, y) <= 0 && CompareHeads(y, z) < 0 ==> CompareHeads(x, z) < 0
    ensures CompareHeads(x, y) < 0 && CompareHeads(y, z) <= 0 ==> CompareHeads(x, z) < 0
  {
    if x.Some? && y.Some? && x.value.Word? && y.value.Word? {
      var w := if z.Some? && z.value.Word? then z.value.word else "";
      WordsOrder(x.value.word, y.value.word, w);
      WordsOrder(x.value.word, w, y.value.word);
      WordsOrder(y.value.word, w, x.value.word);
      WordsOrder(w, x.value.word, y.value.word);
    }
  }

  /** Comparison yields 0 exactly on equal token sequences, is antisymmetric in sign and transitive. */
  lemma {:induction false} CompareIsTotalOrder(x: seq<Token>, y: seq<Token>, z: seq<Token>)
    ensures -1 <= Compare(x, y) <= 1
    ensures Compare(x, y) == 0 <==> x == y
    ensures Compare(x, y) == -Compare(y, x)
    ensures Compare(x, y) <= 0 && Compare(y, z) <= 0 ==> Compare(x, z) <= 0
    decreases |x|
  {
    CompareHeadsSign(Head(x), Head(y));
    HeadsOrder(Head(x), Head(y), Head(z));
    HeadsOrder(Head(y), Head(x), Head(z));
    HeadsOrder(Head(x), Head(z), Head(y));
    if x != [] && y != [] {
      CompareIsTotalOrder(x[1..], y[1..], if z == [] then [] else z[1..]);
      assert x == [x[0]] + x[1..] && y == [y[0]] + y[1..];
    }
  }

  lemma CompareHeadsSign(x: Option<Token>, y: Option<Token>)
    ensures -1 <= CompareHeads(x, y) <= 1
  {
    if x.Some? && y.Some? && x.value.Word? && y.value.Word? {
      CompareWordsSign(x.value.word, y.value.word);
    }
  }

  lemma {:induction false} CompareWordsSign(x: string, y: string)
    ensures -1 <= CompareWords(x, y) <= 1
  {
    if x != "" && y != "" { CompareWordsSign(x[1..], y[1..]); }
  }

  // ---- What the order says, case by case ----

  /** A proper prefix sorts first. */
  lemma {:induction false} PrefixFirst(x: string, y: string)
    requires y != ""
    ensures CompareWords(x, x + y) == -1 && CompareWords(x + y, x) == 1
  {
    if x == "" {
      assert x + y == y;
    } else {
      assert (x + y)[1..] == x[1..] + y;
      PrefixFirst(x[1..], y);
    }
  }

  /** Otherwise the first character that differs decides, by its code. */
  lemma {:induction false} FirstDifference(p: string, c: char, x: string, d: char, y: string)
    requires c as int < d as int
    ensures CompareWords(p + [c] + x, p + [d] + y) == -1 && CompareWords(p + [d] + y, p + [c] + x) == 1
  {
    var s, t := p + [c] + x, p + [d] + y;
    if p != "" {
      assert s[1..] == p[1..] + [c] + x && t[1..] == p[1..] + [d] + y;
      FirstDifference(p[1..], c, x, d, y);
    }
  }

  /** What two sequences have in common in front does not matter. */
  lemma {:induction false} CommonPrefix(p: seq<Token>, x: seq<Token>, y: seq<Token>)
    ensures Compare(p + x, p + y) == Compare(x, y)
  {
    if p == [] {
      assert p + x == x && p + y == y;
    } else {
      hide CompareWords;
      CommonPrefix(p[1..], x, y);
      assert (p + x)[1..] == p[1..] + x && (p + y)[1..] == p[1..] + y;
      HeadsOrder(Some(p[0]), Some(p[0]), Some(p[0]));
      HeadDecides(p + x, p + y);
    }
  }

  /** A tilde sorts before the end, the end before a word, a word before a number; words sort by their
      characters and numbers by their values. */
  lemma TokenOrder(p: seq<Token>, x: seq<Token>, y: seq<Token>, v: string, w: string, m: nat, n: nat)
    ensures Compare(p + ([Tilde] + x), p + []) == -1
    ensures Compare(p + ([Tilde] + x), p + ([Word(w)] + y)) == -1
    ensures Compare(p + ([Tilde] + x), p + ([Number(n)] + y)) == -1
    ensures Compare(p + [], p + ([Word(w)] + y)) == -1
    ensures Compare(p + [], p + ([Number(n)] + y)) == -1
    ensures Compare(p + ([Word(w)] + x), p + ([Number(n)] + y)) == -1
    ensures CompareWords(v, w) != 0 ==> Compare(p + ([Word(v)] + x), p + ([Word(w)] + y)) == CompareWords(v, w)
    ensures m < n ==> Compare(p + ([Number(m)] + x), p + ([Number(n)] + y)) == -1
  {
    hide CompareWords;
    CommonPrefix(p, [Tilde] + x, []);
    CommonPrefix(p, [Tilde] + x, [Word(w)] + y);
    CommonPrefix(p, [Tilde] + x, [Number(n)] + y);
    CommonPrefix(p, [], [Word(w)] + y);
    CommonPrefix(p, [], [Number(n)] + y);
    CommonPrefix(p, [Word(w)] + x, [Number(n)] + y);
    CommonPrefix(p, [Word(v)] + x, [Word(w)] + y);
    CommonPrefix(p, [Number(m)] + x, [Number(n)] + y);
  }

  lemma HeadDecides(x: seq<Token>, y: seq<Token>)
    requires x != [] && y != []
    ensures CompareHeads(Some(x[0]), Some(y[0])) != 0 ==> Compare(x, y) == CompareHeads(Some(x[0]), Some(y[0]))
    ensures CompareHeads(Some(x[0]), Some(y[0])) == 0 ==> Compare(x, y) == Compare(x[1..], y[1..])
  {
  }

  predicate Letters(s: string) {
    forall i :: 0 <= i < |s| ==> 'a' <= s[i] <= 'z' || 'A' <= s[i] <= 'Z'
  }

  predicate Figures(s: string) { forall i :: 0 <= i < |s| ==> '0' <= s[i] <= '9' }

  /** A run of letters is one word, a run of digits one number, whatever else follows. */
  lemma TokensOfRuns(s: string, t: string)
    requires s != ""
    ensures Letters(s) && (t != "" ==> !Letters([t[0]])) ==> Tokens(s + t) == [Word(s)] + Tokens(t)
    ensures Figures(s) && (t != "" ==> !Figures([t[0]])) ==>
      Numeral(s) && Tokens(s + t) == [Number(Value(s))] + Tokens(t)
  {
    hide Value;
    var u := s + t;
    assert u[..|s|] == s && u[|s|..] == t && (t != "" ==> u[|s|] == t[0] == [t[0]][0]);
    if Letters(s) && (t != "" ==> !Letters([t[0]])) { SpanUnique(u, IsAlpha, |s|); }
    if Figures(s) && (t != "" ==> !Figures([t[0]])) { SpanUnique(u, IsDigit, |s|); }
  }

  /** A tilde stands for itself, and any other character for nothing. */
  lemma TokensOfOthers(c: char, t: string)
    ensures Tokens("") == []
    ensures c == '~' ==> Tokens([c] + t) == [Tilde] + Tokens(t)
    ensures !Letters([c]) && !Figures([c]) && c != '~' ==> Tokens([c] + t) == Tokens(t)
  {
    assert ([c] + t)[1..] == t && [c][0] == c;
  }

  // ---- Separators only separate ----

  lemma {:induction false} SpanStopsAt(x: string, c: char, y: string, p: char -> bool)
    requires !p(c)
    ensures Span(x + [c] + y, p) == Span(x, p)
  {
    var s := x + [c] + y;
    var n := Span(x, p);
    assert s[n] == if n < |x| then x[n] else c;
    SpanUnique(s, p, n);
  }

  /** A separator splits the tokens; nothing of it remains. */
  lemma {:induction false} SeparatorSplits(x: string, c: char, y: string)
    requires IsSeparator(c)
    ensures Tokens(x + [c] + y) == Tokens(x) + Tokens(y)
    decreases |x|
  {
    hide Tokens, Value, Span;
    var s := x + [c] + y;
    if x == "" {
      assert s[1..] == y;
      PunctuationToken(s);
      TokensOfEmpty();
    } else if IsDigit(x[0]) || IsAlpha(x[0]) {
      var p := if IsDigit(x[0]) then IsDigit else IsAlpha;
      SpanStopsAt(x, c, y, p);
      var n := Span(x, p);
      SegmentToken(x, n);
      SegmentToken(s, n);
      assert s[..n] == x[..n] && s[n..] == x[n..] + [c] + y;
      SeparatorSplits(x[n..], c, y);
    } else {
      assert s[1..] == x[1..] + [c] + y;
      PunctuationToken(s);
      PunctuationToken(x);
      SeparatorSplits(x[1..], c, y);
    }
  }

  lemma TokensOfEmpty()
    ensures Tokens("") == []
  {
  }

  lemma {:induction false} SeparatorRunSplits(x: string, s: string, y: string)
    requires s != "" && forall i :: 0 <= i < |s| ==> IsSeparator(s[i])
    ensures Tokens(x + s + y) == Tokens(x) + Tokens(y)
    decreases |s|
  {
    var last := s[|s| - 1];
    assert x + s + y == (x + s[..|s| - 1]) + [last] + y;
    SeparatorSplits(x + s[..|s| - 1], last, y);
    if |s| > 1 {
      assert x + s[..|s| - 1] == x + s[..|s| - 1] + "";
      SeparatorRunSplits(x, s[..|s| - 1], "");
    } else {
      assert x + s[..|s| - 1] == x;
    }
  }

  /** Which separators stand between two segments, and how many, makes no difference. */
  lemma {:induction false} SeparatorsIrrelevant(x: string, s: string, t: string, y: string, other: string)
    requires s != "" && forall i :: 0 <= i < |s| ==> IsSeparator(s[i])
    requires t != "" && forall i :: 0 <= i < |t| ==> IsSeparator(t[i])
    ensures Compare(Tokens(x + s + y), Tokens(x + t + y)) == 0
    ensures Compare(Tokens(x + s + y), Tokens(other)) == Compare(Tokens(x + t + y), Tokens(other))
  {
    SeparatorRunSplits(x, s, y);
    SeparatorRunSplits(x, t, y);
    CompareIsTotalOrder(Tokens(x + s + y), Tokens(x + t + y), []);
  }

  // ---- Numeric segments: length then strcmp is the order of the naturals ----

  lemma {:induction false} CompareWordsSnoc(x: string, c: char, y: string, d: char)
    requires |x| == |y|
    ensures CompareWords(x + [c], y + [d]) ==
            if CompareWords(x, y) != 0 then CompareWords(x, y) else Sign(c as int - d as int)
  {
    if x != "" {
      CompareWordsSnoc(x[1..], c, y[1..], d);
      assert (x + [c])[1..] == x[1..] + [c] && (y + [d])[1..] == y[1..] + [d];
    }
  }

  lemma {:induction false} EqualLengthNumerals(x: string, y: string)
    requires Numeral(x) && Numeral(y) && |x| == |y|
    ensures CompareWords(x, y) == Sign(Value(x) - Value(y))
  {
    if x != "" {
      var n := |x| - 1;
      assert x == x[..n] + [x[n]] && y == y[..n] + [y[n]];
      EqualLengthNumerals(x[..n], y[..n]);
      CompareWordsSnoc(x[..n], x[n], y[..n], y[n]);
    }
  }

  lemma {:induction false} LongerNumeral(x: string, y: string)
    requires Numeral(x) && Numeral(y) && |x| > |y| && x[0] != '0'
    ensures Value(x) > Value(y)
  {
    var n := |x| - 1;
    if y != "" {
      LongerNumeral(x[..n], y[..|y| - 1]);
    } else if n > 0 {
      LongerNumeral(x[..n], y);
    }
  }

  lemma {:induction false} LeadingZero(x: string)
    requires Numeral(x) && x != "" && x[0] == '0'
    ensures Value(x) == Value(x[1..])
  {
    var n := |x| - 1;
    if n > 0 {
      LeadingZero(x[..n]);
      assert x[..n][1..] == x[1..][..n - 1];
    }
  }

  /** The two-step rule of the program, on numerals without leading zeros. */
  function CompareStripped(x: string, y: string): int {
    if |x| > |y| then 1 else if |y| > |x| then -1 else CompareWords(x, y)
  }

  lemma StrippedIsNumericOrder(x: string, y: string)
    requires Numeral(x) && Numeral(y)
    requires x != "" ==> x[0] != '0'
    requires y != "" ==> y[0] != '0'
    ensures CompareStripped(x, y) == Sign(Value(x) - Value(y))
  {
    if |x| > |y| { LongerNumeral(x, y); }
    else if |y| > |x| { LongerNumeral(y, x); }
    else { EqualLengthNumerals(x, y); }
  }

  // ---- The comparison itself, on buffers cut and restored in place ----

  /** Walks past separators; the tokens ahead do not change. */
  method SkipSeparators(buf: array<char>, start: nat, ghost s: string) returns (pos: nat)
    requires NulFree(s) && buf[..] == s + [NUL] && start <= |s|
    ensures start <= pos <= |s|
    ensures pos < |s| ==> !IsSeparator(s[pos])
    ensures Tokens(s[start..]) == Tokens(s[pos..])
  {
    pos := start;
    while buf[pos] != NUL && !IsDigit(buf[pos]) && !IsAlpha(buf[pos]) && buf[pos] != '~'
      invariant start <= pos <= |s|
      invariant Tokens(s[start..]) == Tokens(s[pos..])
      decreases |s| - pos
    {
      assert buf[pos] == (s + [NUL])[pos];
      PunctuationToken(s[pos..]);
      assert s[pos..][1..] == s[pos + 1..];
      pos := pos + 1;
    }
    assert buf[pos] == (s + [NUL])[pos];
  }

  /** Walks over characters satisfying p. */
  method ScanWhile(buf: array<char>, start: nat, p: char -> bool, ghost s: string) returns (pos: nat)
    requires NulFree(s) && buf[..] == s + [NUL] && start <= |s| && !p(NUL)
    ensures pos == start + Span(s[start..], p)
  {
    pos := start;
    while buf[pos] != NUL && p(buf[pos])
      invariant start <= pos <= |s|
      invariant forall i :: start <= i < pos ==> p(s[i])
      decreases |s| - pos
    {
      assert buf[pos] == (s + [NUL])[pos];
      pos := pos + 1;
    }
    assert buf[pos] == (s + [NUL])[pos];
    SpanUnique(s[start..], p, pos - start);
  }

  /** Walks over leading zeros of a numeral that ends at a NUL. */
  method SkipZeros(buf: array<char>, start: nat, end: nat) returns (pos: nat)
    requires start <= end < buf.Length && buf[end] == NUL && Numeral(buf[start..end])
    ensures start <= pos <= end
    ensures Numeral(buf[pos..end]) && (pos < end ==> buf[pos] != '0')
    ensures Value(buf[pos..end]) == Value(buf[start..end])
  {
    pos := start;
    while buf[pos] == '0'
      invariant start <= pos <= end
      invariant Numeral(buf[pos..end])
      invariant Value(buf[pos..end]) == Value(buf[start..end])
      decreases end - pos
    {
      ghost var x := buf[pos..end];
      assert pos < end && x[0] == '0';
      LeadingZero(x);
      assert x[1..] == buf[pos + 1..end];
      pos := pos + 1;
    }
  }

  /** Compares two non-empty segments of one kind, each cut off by a NUL in its buffer. */
  method CompareSegments(abuf: array<char>, start1: nat, end1: nat, bbuf: array<char>, start2: nat, end2: nat,
                         isNum: bool) returns (r: int)
    requires start1 <= end1 < abuf.Length && abuf[end1] == NUL && NulFree(abuf[start1..end1])
    requires start2 <= end2 < bbuf.Length && bbuf[end2] == NUL && NulFree(bbuf[start2..end2])
    requires isNum ==> Numeral(abuf[start1..end1]) && Numeral(bbuf[start2..end2])
    ensures isNum ==> r == Sign(Value(abuf[start1..end1]) - Value(bbuf[start2..end2]))
    ensures !isNum ==> r == CompareWords(abuf[start1..end1], bbuf[start2..end2])
  {
    hide Value, CompareWords, StringAt;
    var one, two := start1, start2;
    if isNum {
      one := SkipZeros(abuf, one, end1);
      two := SkipZeros(bbuf, two, end2);
    }
    assert forall k :: one <= k < end1 ==> abuf[k] == abuf[start1..end1][k - start1];
    assert forall k :: two <= k < end2 ==> bbuf[k] == bbuf[start2..end2][k - start2];
    StringAtIs(abuf[..], one, end1);
    StringAtIs(bbuf[..], two, end2);
    var x, y := StringAt(abuf[..], one), StringAt(bbuf[..], two);
    assert x == abuf[one..end1] && y == bbuf[two..end2];
    if isNum {
      StrippedIsNumericOrder(x, y);
      if |x| > |y| { return 1; }
      if |y| > |x| { return -1; }
    }
    var rc := CompareWords(x, y);
    CompareWordsSign(x, y);
    if rc != 0 { return if rc < 1 then -1 else 1; }
    return 0;
  }

  predicate IsAlnum(c: char) { IsDigit(c) || IsAlpha(c) }

  /** The order of two segments: unlike kinds decide at once, like kinds by value or by spelling. */
  function CompareCut(x: string, y: string, isNum: bool): int
    requires isNum ==> Numeral(x) && Numeral(y)
  {
    if y == "" then (if isNum then 1 else -1)
    else if isNum then Sign(Value(x) - Value(y))
    else CompareWords(x, y)
  }

  /** Two versions at segment starts are ordered by their segments, then by what follows. */
  lemma SegmentsDecide(a: string, one: nat, str1: nat, b: string, two: nat, str2: nat)
    requires one < |a| && two < |b| && IsAlnum(a[one]) && IsAlnum(b[two])
    requires var p := if IsDigit(a[one]) then IsDigit else IsAlpha;
             str1 == one + Span(a[one..], p) && str2 == two + Span(b[two..], p)
    ensures one < str1 && (IsDigit(a[one]) ==> Numeral(a[one..str1]) && Numeral(b[two..str2]))
    ensures var c := CompareCut(a[one..str1], b[two..str2], IsDigit(a[one]));
            if c != 0 then Compare(Tokens(a[one..]), Tokens(b[two..])) == c
            else two < str2 &&
                 Compare(Tokens(a[one..]), Tokens(b[two..])) == Compare(Tokens(a[str1..]), Tokens(b[str2..]))
  {
    hide Tokens, Value, Compare, CompareWords, Span;
    var q := if IsDigit(b[two]) then IsDigit else IsAlpha;
    var end2 := two + Span(b[two..], q);
    SegmentToken(a[one..], str1 - one);
    SegmentToken(b[two..], end2 - two);
    assert a[one..][..str1 - one] == a[one..str1] && a[one..][str1 - one..] == a[str1..];
    assert b[two..][..end2 - two] == b[two..end2] && b[two..][end2 - two..] == b[end2..];
    HeadDecides(Tokens(a[one..]), Tokens(b[two..]));
  }

  /** The segment at start of a NUL-terminated copy of s, as a token. */
  method CutSegment(buf: array<char>, start: nat, p: char -> bool, ghost s: string) returns (end: nat, oldch: char)
    requires NulFree(s) && buf[..] == s + [NUL] && start <= |s| && !p(NUL)
    modifies buf
    ensures end == start + Span(s[start..], p) && oldch == (s + [NUL])[end]
    ensures buf[..] == (s + [NUL])[end := NUL]
    ensures buf[start..end] == s[start..end] && NulFree(buf[start..end])
  {
    end := ScanWhile(buf, start, p, s);
    oldch := buf[end];
    buf[end] := NUL;
  }

  /**
   * Compares the alphanumeric segments that start at one and two. A nonzero result is final and
   * leaves the NULs in place; after a zero result both buffers are restored.
   */
  method CompareNext(abuf: array<char>, one: nat, ghost a: string, bbuf: array<char>, two: nat, ghost b: string)
    returns (rc: int, str1: nat, str2: nat)
    requires abuf != bbuf && NulFree(a) && NulFree(b)
    requires abuf[..] == a + [NUL] && bbuf[..] == b + [NUL]
    requires one < |a| && two < |b| && IsAlnum(a[one]) && IsAlnum(b[two])
    modifies abuf, bbuf
    ensures rc != 0 ==> rc == Compare(Tokens(a[one..]), Tokens(b[two..]))
    ensures rc == 0 ==> abuf[..] == a + [NUL] && bbuf[..] == b + [NUL]
    ensures rc == 0 ==> one < str1 <= |a| && two < str2 <= |b|
    ensures rc == 0 ==>
      Compare(Tokens(a[one..]), Tokens(b[two..])) == Compare(Tokens(a[str1..]), Tokens(b[str2..]))
  {
    hide Tokens, Compare, Value, CompareWords, Span;
    var isNum := IsDigit(abuf[one]);
    assert isNum == IsDigit(a[one]) by { assert abuf[one] == (a + [NUL])[one]; }
    var p := if isNum then IsDigit else IsAlpha;
    var oldch1, oldch2;
    str1, oldch1 := CutSegment(abuf, one, p, a);
    str2, oldch2 := CutSegment(bbuf, two, p, b);
    SegmentsDecide(a, one, str1, b, two, str2);
    if two == str2 { return if isNum then 1 else -1, str1, str2; }
    rc := CompareSegments(abuf, one, str1, bbuf, two, str2, isNum);
    if rc == 0 {
      abuf[str1] := oldch1;
      bbuf[str2] := oldch2;
      assert abuf[..] == a + [NUL] && bbuf[..] == b + [NUL];
    }
  }

  /** A tilde sorts before everything, the end of the version included. */
  lemma TildeDecides(x: string, y: string)
    requires x != "" ==> !IsSeparator(x[0])
    requires y != "" ==> !IsSeparator(y[0])
    requires (x != "" && x[0] == '~') || (y != "" && y[0] == '~')
    ensures x == "" || x[0] != '~' ==> Compare(Tokens(x), Tokens(y)) == 1
    ensures y == "" || y[0] != '~' ==> Compare(Tokens(x), Tokens(y)) == -1
    ensures x != "" && y != "" && x[0] == y[0] == '~' ==>
      Compare(Tokens(x), Tokens(y)) == Compare(Tokens(x[1..]), Tokens(y[1..]))
  {
    hide Value, CompareWords, Span;
  }

  /** A version that has ended sorts before one that goes on with a segment. */
  lemma EndDecides(x: string, y: string)
    requires x == "" || y == ""
    requires x != "" ==> IsAlnum(x[0])
    requires y != "" ==> IsAlnum(y[0])
    ensures Compare(Tokens(x), Tokens(y)) == if x == y then 0 else if x == "" then -1 else 1
  {
    hide Value, CompareWords, Span;
  }

  method RpmVerCmp(a: string, b: string) returns (r: int)
    requires NulFree(a) && NulFree(b)
    ensures r == Compare(Tokens(a), Tokens(b))
  {
    hide Tokens, Compare, Value, CompareWords, Span;
    if a == b {
      CompareIsTotalOrder(Tokens(a), Tokens(b), []);
      return 0;
    }
    var abuf := new char[|a| + 1](i requires 0 <= i => if i < |a| then a[i] else NUL);
    var bbuf := new char[|b| + 1](i requires 0 <= i => if i < |b| then b[i] else NUL);
    assert abuf[..] == a + [NUL] && bbuf[..] == b + [NUL];
    var one: nat, two: nat := 0, 0;
    assert a[0..] == a && b[0..] == b;
    while abuf[one] != NUL || bbuf[two] != NUL
      invariant one <= |a| && two <= |b|
      invariant abuf[..] == a + [NUL] && bbuf[..] == b + [NUL]
      invariant Compare(Tokens(a[one..]), Tokens(b[two..])) == Compare(Tokens(a), Tokens(b))
      decreases |a| - one + |b| - two
    {
      one := SkipSeparators(abuf, one, a);
      two := SkipSeparators(bbuf, two, b);
      assert abuf[one] == (a + [NUL])[one] && bbuf[two] == (b + [NUL])[two];
      if abuf[one] == '~' || bbuf[two] == '~' {
        TildeDecides(a[one..], b[two..]);
        if abuf[one] != '~' { return 1; }
        if bbuf[two] != '~' { return -1; }
        one, two := one + 1, two + 1;
        continue;
      }
      if !(abuf[one] != NUL && bbuf[two] != NUL) { break; }
      var rc, str1, str2 := CompareNext(abuf, one, a, bbuf, two, b);
      if rc != 0 { return rc; }
      one, two := str1, str2;
    }
    assert abuf[one] == (a + [NUL])[one] && bbuf[two] == (b + [NUL])[two];
    EndDecides(a[one..], b[two..]);
    if abuf[one] == NUL && bbuf[two] == NUL { return 0; }
    if abuf[one] == NUL { return -1; } else { return 1; }
  }

  // ---- Epoch, version, release ----

  datatype Parts = Parts(epoch: Option<string>, version: string, release: Option<string>)

  /** The index of the last occurrence of c, as strrchr finds it. */
  function LastIndex(s: string, c: char): (r: Option<nat>)
    ensures r.Some? ==> r.value < |s| && s[r.value] == c && forall i :: r.value < i < |s| ==> s[i] != c
    ensures r.None? ==> forall i :: 0 <= i < |s| ==> s[i] != c
  {
    if s == "" then None
    else if s[|s| - 1] == c then Some(|s| - 1)
    else LastIndex(s[..|s| - 1], c)
  }

  predicate HasEpoch(s: string) {
    var n := Span(s, IsDigit);
    n < |s| && s[n] == ':'
  }

  /** Where the version starts: past the epoch and its colon, if any. */
  function Body(s: string): (r: nat)
    ensures r <= |s|
  {
    if HasEpoch(s) then Span(s, IsDigit) + 1 else 0
  }

  /** An empty epoch reads as zero. */
  function EpochOf(s: string): Option<string> {
    var n := Span(s, IsDigit);
    if !HasEpoch(s) then None else if n == 0 then Some("0") else Some(s[..n])
  }

  /** version-release, cut at the last dash. */
  function SplitRelease(body: string): (string, Option<string>) {
    var dash := LastIndex(body, '-');
    if dash.None? then (body, None) else (body[..dash.value], Some(body[dash.value + 1..]))
  }

  /** epoch:version-release, read from a whole string; digits and a colon in front make an epoch. */
  function Split(s: string): Parts {
    var (version, release) := SplitRelease(s[Body(s)..]);
    Parts(EpochOf(s), version, release)
  }

  function JoinRelease(version: string, release: Option<string>): string {
    if release.Some? then version + "-" + release.value else version
  }

  function Join(p: Parts): string {
    if p.epoch.Some? then p.epoch.value + ":" + JoinRelease(p.version, p.release)
    else JoinRelease(p.version, p.release)
  }

  lemma JoinSplitRelease(body: string)
    ensures var t := SplitRelease(body); JoinRelease(t.0, t.1) == body
  {
    hide LastIndex;
    var dash := LastIndex(body, '-');
    if dash.Some? { assert body == body[..dash.value] + "-" + body[dash.value + 1..]; }
  }

  /** Splitting loses nothing but the spelling of an empty epoch. */
  lemma {:induction false} JoinSplit(s: string)
    ensures Join(Split(s)) == if s != "" && s[0] == ':' then "0" + s else s
  {
    hide SplitRelease, JoinRelease, Span;
    JoinSplitRelease(s[Body(s)..]);
    var n := Span(s, IsDigit);
    if HasEpoch(s) { assert s == s[..n] + ":" + s[n + 1..]; }
  }

  lemma AbsentFrom(s: string, c: char, i: nat)
    requires i <= |s| && c !in s[i..]
    ensures forall k :: i <= k < |s| ==> s[k] != c
  {
    assert forall k :: i <= k < |s| ==> s[k] == s[i..][k - i];
  }

  lemma LastIndexUnique(s: string, c: char, i: nat)
    requires i < |s| && s[i] == c && c !in s[i + 1..]
    ensures LastIndex(s, c) == Some(i)
  {
    hide LastIndex;
    var r := LastIndex(s, c);
    assert c in s;
    AbsentFrom(s, c, i + 1);
  }

  lemma SplitJoinRelease(version: string, release: Option<string>)
    ensures SplitRelease(JoinRelease(version, release)) == (version, release) <==>
            '-' !in (if release.Some? then release.value else version)
  {
    hide LastIndex;
    var body := JoinRelease(version, release);
    var (v, r) := SplitRelease(body);
    if release.None? {
      if '-' !in version { LastIndexAbsent(version, '-'); }
    } else {
      assert body[|version| + 1..] == release.value && body[..|version|] == version;
      if '-' !in release.value { LastIndexUnique(body, '-', |version|); }
    }
  }

  /** What the notation can express: the release has no dash, nor has a version without a release, and
      a version without an epoch does not itself look like one with an epoch. */
  predicate Expressible(p: Parts) {
    && (p.epoch.Some? ==> p.epoch.value != "" && Numeral(p.epoch.value))
    && '-' !in (if p.release.Some? then p.release.value else p.version)
    && (p.epoch.None? ==> !HasEpoch(Join(p)))
  }

  /** Reading back what was written returns exactly the parts the notation can express. */
  lemma SplitJoin(p: Parts)
    ensures Split(Join(p)) == p <==> Expressible(p)
  {
    hide SplitRelease, JoinRelease, Span;
    var s := Join(p);
    var tail := JoinRelease(p.version, p.release);
    SplitJoinRelease(p.version, p.release);
    if p.epoch.Some? && p.epoch.value != "" && Numeral(p.epoch.value) {
      SpanUnique(s, IsDigit, |p.epoch.value|);
      assert s[|p.epoch.value| + 1..] == tail && s[..|p.epoch.value|] == p.epoch.value;
    }
    assert s[0..] == s;
    assert Numeral(s[..Span(s, IsDigit)]);
  }

  /** Where the parsed parts lie: offsets into the buffer, or the constant "0" for an empty epoch. */
  datatype Evr = Evr(epoch: Option<Epoch>, version: nat, release: Option<nat>)
  datatype Epoch = AtStart | ConstantZero

  function PartsAt(mem: seq<char>, p: Evr): Parts
    requires p.version <= |mem| && (p.release.Some? ==> p.release.value <= |mem|)
  {
    Parts(match p.epoch
          case None => None
          case Some(ConstantZero) => Some("0")
          case Some(AtStart) => Some(StringAt(mem, 0)),
          StringAt(mem, p.version),
          if p.release.Some? then Some(StringAt(mem, p.release.value)) else None)
  }

  lemma LastIndexAbsent(s: string, c: char)
    requires c !in s
    ensures LastIndex(s, c) == None
  {
    assert forall k :: 0 <= k < |s| ==> s[k] in s;
  }

  /** Searching from the epoch's terminator finds the same dash as searching the body. */
  lemma DashInBody(s: string, dash: Option<nat>)
    requires dash == LastIndex(s[Span(s, IsDigit)..], '-')
    ensures LastIndex(s[Body(s)..], '-') ==
            if dash.None? then None else Some(Span(s, IsDigit) + dash.value - Body(s))
  {
    hide LastIndex, Span;
    var n := Span(s, IsDigit);
    var body := s[Body(s)..];
    if dash.Some? {
      var i := n + dash.value - Body(s);
      assert body[i] == s[n..][dash.value] == '-';
      assert body[i + 1..] == s[n..][dash.value + 1..];
      LastIndexUnique(body, '-', i);
    } else {
      AbsentFrom(s, '-', n);
      LastIndexAbsent(body, '-');
    }
  }

  /** The buffer with the epoch's colon and the chosen dash overwritten. */
  function Cut(s: string, dash: Option<nat>): (mem: seq<char>)
    requires dash.Some? ==> Body(s) + dash.value < |s|
    ensures |mem| == |s| + 1
  {
    var n := Span(s, IsDigit);
    var m := if HasEpoch(s) then (s + [NUL])[n := NUL] else s + [NUL];
    if dash.Some? then m[Body(s) + dash.value := NUL] else m
  }

  lemma CutGivesRelease(s: string, dash: Option<nat>)
    requires NulFree(s) && dash == LastIndex(s[Body(s)..], '-')
    ensures SplitRelease(s[Body(s)..]) == (StringAt(Cut(s, dash), Body(s)),
              if dash.Some? then Some(StringAt(Cut(s, dash), Body(s) + dash.value + 1)) else None)
  {
    hide StringAt, LastIndex, Span;
    var b, mem := Body(s), Cut(s, dash);
    var end := if dash.Some? then b + dash.value else |s|;
    StringAtIs(mem, b, end);
    assert mem[b..end] == s[b..end];
    if dash.Some? {
      StringAtIs(mem, end + 1, |s|);
      assert mem[end + 1..|s|] == s[b..][dash.value + 1..];
      assert s[b..end] == s[b..][..dash.value];
    }
  }

  lemma CutGivesEpoch(s: string, dash: Option<nat>)
    requires NulFree(s) && dash == LastIndex(s[Body(s)..], '-')
    ensures HasEpoch(s) && s[0] != ':' ==> EpochOf(s) == Some(StringAt(Cut(s, dash), 0))
  {
    hide StringAt, LastIndex, Span;
    var n, mem := Span(s, IsDigit), Cut(s, dash);
    if HasEpoch(s) {
      StringAtIs(mem, 0, n);
      assert mem[0..n] == s[..n];
    }
  }

  /** Where the epoch's digits end, and the last dash behind them. */
  method FindMarks(evr: array<char>, ghost s: string) returns (i: nat, se: Option<nat>)
    requires NulFree(s) && evr[..] == s + [NUL]
    ensures i == Span(s, IsDigit)
    ensures se == var dash := LastIndex(s[Body(s)..], '-');
                  if dash.None? then None else Some(Body(s) + dash.value)
  {
    hide StringAt, LastIndex, Span;
    i := ScanWhile(evr, 0, IsDigit, s);
    assert s[0..] == s;
    StringAtIs(evr[..], i, |s|);
    assert evr[..][i..|s|] == s[i..];
    var dash := LastIndex(StringAt(evr[..], i), '-');
    DashInBody(s, dash);
    se := if dash.Some? then Some(i + dash.value) else None;
  }

  method ParseEVR(evr: array<char>, ghost s: string) returns (p: Evr)
    requires NulFree(s) && evr[..] == s + [NUL]
    modifies evr
    ensures p.version < evr.Length && (p.release.Some? ==> p.release.value < evr.Length)
    ensures PartsAt(evr[..], p) == Split(s)
  {
    hide SplitRelease, StringAt, LastIndex, Span, EpochOf, PartsAt, Split;
    ghost var dashInBody := LastIndex(s[Body(s)..], '-');
    var i, se := FindMarks(evr, s);
    assert evr[i] == (s + [NUL])[i];
    var epoch, version := None, 0;
    if evr[i] == ':' {
      epoch := Some(AtStart);
      evr[i] := NUL;
      version := i + 1;
      if evr[0] == NUL { epoch := Some(ConstantZero); }
    }
    var release := None;
    if se.Some? {
      evr[se.value] := NUL;
      release := Some(se.value + 1);
    }
    p := Evr(epoch, version, release);
    assert evr[..] == Cut(s, dashInBody);
    PartsOfCut(s, dashInBody, p);
  }

  /** The offsets that parsing settles on name the parts of the string. */
  lemma PartsOfCut(s: string, dash: Option<nat>, p: Evr)
    requires NulFree(s) && dash == LastIndex(s[Body(s)..], '-')
    requires p == Evr(if !HasEpoch(s) then None else if s[0] == ':' then Some(ConstantZero) else Some(AtStart),
                      Body(s), if dash.Some? then Some(Body(s) + dash.value + 1) else None)
    ensures p.version <= |s| && (p.release.Some? ==> p.release.value <= |s|)
    ensures PartsAt(Cut(s, dash), p) == Split(s)
  {
    hide SplitRelease, StringAt, LastIndex, Span, Cut;
    CutGivesRelease(s, dash);
    CutGivesEpoch(s, dash);
  }

  /** What an EVR is compared by; a missing epoch counts as 0, a missing release as empty. */
  datatype Key = Key(epoch: nat, version: seq<Token>, release: seq<Token>)

  predicate ValidEpoch(p: Parts) {
    p.epoch.Some? ==> Numeral(p.epoch.value) && Value(p.epoch.value) <= 0x7FFF_FFFF
  }

  function KeyOf(p: Parts): Key
    requires ValidEpoch(p)
  {
    Key(if p.epoch.Some? then Value(p.epoch.value) else 0, Tokens(p.version),
        if p.release.Some? then Tokens(p.release.value) else [])
  }

  function CompareKeys(x: Key, y: Key): int {
    if x.epoch != y.epoch then Sign(x.epoch - y.epoch)
    else if x.version != y.version then Compare(x.version, y.version)
    else Compare(x.release, y.release)
  }

  function EpochValue(p: Parts): nat
    requires ValidEpoch(p)
  {
    if p.epoch.Some? then Value(p.epoch.value) else 0
  }

  function ReleaseText(p: Parts): string { if p.release.Some? then p.release.value else "" }

  /** The epochs decide if they differ; then the versions do; the releases only break ties. */
  predicate Decided(p: Parts, q: Parts, r: int)
    requires ValidEpoch(p) && ValidEpoch(q)
  {
    && (EpochValue(p) < EpochValue(q) ==> r == -1)
    && (EpochValue(p) > EpochValue(q) ==> r == 1)
    && (EpochValue(p) == EpochValue(q) && Compare(Tokens(p.version), Tokens(q.version)) != 0 ==>
          r == Compare(Tokens(p.version), Tokens(q.version)))
    && (EpochValue(p) == EpochValue(q) && Compare(Tokens(p.version), Tokens(q.version)) == 0 ==>
          r == Compare(Tokens(ReleaseText(p)), Tokens(ReleaseText(q))))
  }

  lemma KeysDecide(p: Parts, q: Parts)
    requires ValidEpoch(p) && ValidEpoch(q)
    ensures Decided(p, q, CompareKeys(KeyOf(p), KeyOf(q)))
  {
    hide Compare, Tokens, Value;
    TokensOfEmpty();
    CompareIsTotalOrder(Tokens(p.version), Tokens(q.version), []);
  }

  lemma CompareKeysIsTotalOrder(x: Key, y: Key, z: Key)
    ensures -1 <= CompareKeys(x, y) <= 1
    ensures CompareKeys(x, y) == 0 <==> x == y
    ensures CompareKeys(x, y) == -CompareKeys(y, x)
    ensures CompareKeys(x, y) <= 0 && CompareKeys(y, z) <= 0 ==> CompareKeys(x, z) <= 0
  {
    hide Compare;
    CompareIsTotalOrder(x.version, y.version, z.version);
    CompareIsTotalOrder(y.version, z.version, x.version);
    CompareIsTotalOrder(x.version, z.version, y.version);
    CompareIsTotalOrder(x.release, y.release, z.release);
    CompareIsTotalOrder(y.release, z.release, x.release);
    CompareIsTotalOrder(x.release, z.release, y.release);
  }

  /** Compares parsed versions; atoi on an epoch is defined only while its value fits an int. */
  method RpmVersionCompare(first: Parts, second: Parts) returns (r: int)
    requires ValidEpoch(first) && ValidEpoch(second)
    requires NulFree(first.version) && (first.release.Some? ==> NulFree(first.release.value))
    requires NulFree(second.version) && (second.release.Some? ==> NulFree(second.release.value))
    ensures r == CompareKeys(KeyOf(first), KeyOf(second))
    ensures Decided(first, second, r)
  {
    hide Compare, Tokens, Value, Decided;
    KeysDecide(first, second);
    var epochOne := if first.epoch.Some? then Value(first.epoch.value) else 0;
    var epochTwo := if second.epoch.Some? then Value(second.epoch.value) else 0;
    if epochOne < epochTwo { return -1; }
    if epochOne > epochTwo { return 1; }
    CompareIsTotalOrder(Tokens(first.version), Tokens(second.version), []);
    r := RpmVerCmp(first.version, second.version);
    if r != 0 { return; }
    TokensOfEmpty();
    r := RpmVerCmp(if first.release.Some? then first.release.value else "",
                   if second.release.Some? then second.release.value else "");
  }

  // ---- Version strings ----

  lemma PartsNulFree(s: string)
    requires NulFree(s)
    ensures var p := Split(s); NulFree(p.version) && (p.release.Some? ==> NulFree(p.release.value))
  {
    hide LastIndex, Span;
  }

  /** What a version string is compared by. */
  function VersionKey(s: string): Key
    requires ValidEpoch(Split(s))
  {
    KeyOf(Split(s))
  }

  /** Two argument strings, cut up in place and compared. */
  method CompareVersions(ver1: array<char>, ghost a: string, ver2: array<char>, ghost b: string) returns (rc: int)
    requires ver1 != ver2 && ver1[..] == a + [NUL] && ver2[..] == b + [NUL]
    requires NulFree(a) && NulFree(b) && ValidEpoch(Split(a)) && ValidEpoch(Split(b))
    modifies ver1, ver2
    ensures rc == CompareKeys(VersionKey(a), VersionKey(b))
    ensures Decided(Split(a), Split(b), rc)
  {
    PartsNulFree(a);
    PartsNulFree(b);
    hide Split, KeyOf, ValidEpoch, CompareKeys, Decided;
    var first := ParseEVR(ver1, a);
    var second := ParseEVR(ver2, b);
    rc := RpmVersionCompare(PartsAt(ver1[..], first), PartsAt(ver2[..], second));
  }

  /** The command: exit status 0 exactly when the comparison asked for holds. */
  method Command(ver1: array<char>, ghost a: string, op: string, ver2: array<char>, ghost b: string)
    returns (status: nat)
    requires ver1 != ver2 && ver1[..] == a + [NUL] && ver2[..] == b + [NUL]
    requires NulFree(a) && NulFree(b) && ValidEpoch(Split(a)) && ValidEpoch(Split(b))
    modifies ver1, ver2
    ensures op != "lt" && op != "eq" ==> status == 255
    ensures op == "lt" ==> status == if CompareKeys(VersionKey(a), VersionKey(b)) < 0 then 0 else 1
    ensures op == "eq" ==> status == if VersionKey(a) == VersionKey(b) then 0 else 1
  {
    hide Split, KeyOf, ValidEpoch, CompareKeys;
    if op != "lt" && op != "eq" { return 255; }
    CompareKeysIsTotalOrder(VersionKey(a), VersionKey(b), VersionKey(a));
    var rc := CompareVersions(ver1, a, ver2, b);
    if op == "lt" { return if rc == -1 then 0 else 1; } else { return if rc == 0 then 0 else 1; }
  }

  /** On version strings that is a total preorder; equivalent strings differ in spelling only. */
  lemma {:induction false} VersionsTotalPreorder(a: string, b: string, c: string)
    ensures ValidEpoch(Split(a)) && ValidEpoch(Split(b)) && ValidEpoch(Split(c)) ==>
      (var x, y, z := VersionKey(a), VersionKey(b), VersionKey(c);
       && CompareKeys(x, x) == 0
       && CompareKeys(x, y) == -CompareKeys(y, x)
       && (CompareKeys(x, y) <= 0 && CompareKeys(y, z) <= 0 ==> CompareKeys(x, z) <= 0)
       && (CompareKeys(x, y) == 0 <==> x == y))
  {
    hide Split, KeyOf, ValidEpoch, CompareKeys;
    if ValidEpoch(Split(a)) && ValidEpoch(Split(b)) && ValidEpoch(Split(c)) {
      CompareKeysIsTotalOrder(VersionKey(a), VersionKey(b), VersionKey(c));
      CompareKeysIsTotalOrder(VersionKey(a), VersionKey(a), VersionKey(c));
    }
  }

  /** What the parts of a spelt version are: no digits and colon in front of it without an epoch, and no
      dash in the release. */
  lemma PartsOfSpelling(epoch: string, version: string, release: string)
    requires Figures(epoch) && '-' !in release
    ensures !HasEpoch(version + "-" + release) ==>
      Split(version + "-" + release) == Parts(None, version, Some(release))
    ensures !HasEpoch(version) && '-' !in version ==> Split(version) == Parts(None, version, None)
    ensures epoch != "" ==>
      Split(epoch + ":" + (version + "-" + release)) == Parts(Some(epoch), version, Some(release))
    ensures epoch != "" && '-' !in version ==>
      Split(epoch + ":" + version) == Parts(Some(epoch), version, None)
  {
    hide Split, HasEpoch;
    SplitJoin(Parts(None, version, Some(release)));
    SplitJoin(Parts(None, version, None));
    SplitJoin(Parts(Some(epoch), version, Some(release)));
    SplitJoin(Parts(Some(epoch), version, None));
  }

  /** The version decides, not the release: 1.0-2 is older than 1.1-1. */
  lemma VersionBeforeRelease()
    ensures ValidEpoch(Split("1.0-2")) && ValidEpoch(Split("1.1-1"))
    ensures forall r :: Decided(Split("1.0-2"), Split("1.1-1"), r) ==> r == -1
  {
    PartsOfOneDot("0", "2", "1.0-2");
    PartsOfOneDot("1", "1", "1.1-1");
    hide Split, Tokens, Compare, Value;
    OneBeforeTwo();
  }

  lemma PartsOfOneDot(s: string, r: string, all: string)
    requires (s == "0" && r == "2" && all == "1.0-2") || (s == "1" && r == "1" && all == "1.1-1")
    ensures Split(all) == Parts(None, "1." + s, Some(r))
  {
    assert all == ("1." + s) + "-" + r && all[0] == '1' && all[1] == '.';
    SpanUnique(all, IsDigit, 1);
    hide Split;
    PartsOfSpelling("", "1." + s, r);
  }

  lemma OneBeforeTwo()
    ensures Compare(Tokens("1." + "0"), Tokens("1." + "1")) == -1
  {
    hide *;
    NumberDotNumber("0", 0);
    NumberDotNumber("1", 1);
    TokenOrder([Number(1)], [], [], "", "", 0, 1);
    assert [Number(1), Number(0)] == [Number(1)] + ([Number(0)] + []);
    assert [Number(1), Number(1)] == [Number(1)] + ([Number(1)] + []);
  }

  lemma OneFigure(c: char)
    requires IsDigit(c)
    ensures Numeral([c]) && Value([c]) == c as int - '0' as int
  {
    assert [c][..0] == "" && Value("") == 0;
  }

  lemma NumberDotNumber(s: string, n: nat)
    requires (s == "0" && n == 0) || (s == "1" && n == 1)
    ensures Tokens("1." + s) == [Number(1), Number(n)]
  {
    OneFigure('1');
    OneFigure(s[0]);
    hide Tokens, Value;
    assert "1." + s == "1" + ("." + s) && ("." + s)[0] == '.' && "." + s == ['.'] + s && s + "" == s;
    TokensOfRuns("1", "." + s);
    TokensOfOthers('.', s);
    TokensOfRuns(s, "");
  }
}
