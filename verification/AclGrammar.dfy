/** The grammar of mode strings: the syntax check accepts its sentences and nothing else. */
module AclGrammar {
  import opened AclMode
  import opened AclSyntax
  import opened Numerals
  import opened Options

  /** Operators, generic letters, and native letters in parentheses. */
  datatype Spelt = Spelt(ops: string, letters: string, native: Option<string>)

  predicate Operators(run: string) {
    forall i :: 0 <= i < |run| ==> run[i] == '=' || run[i] == '+' || run[i] == '-'
  }

  predicate Letters(run: string) { forall i :: 0 <= i < |run| ==> run[i] == 'r' || run[i] == 'w' || run[i] == 'x' }

  predicate AllIn(run: string, chars: string) { forall i :: 0 <= i < |run| ==> run[i] in chars }

  predicate Sentence(part: Spelt, nperms: string) {
    && Operators(part.ops) && Letters(part.letters)
    && (part.native.Some? ==> AllIn(part.native.value, nperms))
  }

  function Bracketed(native: Option<string>, t: string): string {
    if native.Some? then "(" + (native.value + (")" + t)) else t
  }

  /** A part, and t behind it. */
  function Spell(part: Spelt, t: string): string { part.ops + (part.letters + Bracketed(part.native, t)) }

  function Length(part: Spelt): nat {
    |part.ops| + |part.letters| + if part.native.Some? then |part.native.value| + 2 else 0
  }

  /** Parts separated by commas, and t behind them. */
  function SpellAll(parts: seq<Spelt>, t: string): string
    requires parts != []
  {
    if |parts| == 1 then Spell(parts[0], t) else Spell(parts[0], "," + SpellAll(parts[1..], t))
  }

  function LengthAll(parts: seq<Spelt>): nat {
    if parts == [] then 0 else if |parts| == 1 then Length(parts[0]) else Length(parts[0]) + 1 + LengthAll(parts[1..])
  }

  predicate Sentences(parts: seq<Spelt>, nperms: string) {
    forall i :: 0 <= i < |parts| ==> Sentence(parts[i], nperms)
  }

  lemma RunRead(run: string, t: string, p: char -> bool)
    requires (forall i :: 0 <= i < |run| ==> p(run[i])) && (t != "" ==> !p(t[0]))
    ensures Span(run + t, p) == |run| && (run + t)[|run|..] == t && |run + t| == |run| + |t|
  {
    assert t != "" ==> (run + t)[|run|] == t[0];
    SpanUnique(run + t, p, |run|);
  }

  lemma NativeRead(s: string, n: nat, native: Option<string>, t: string, nperms: string)
    requires n <= |s| && s[n..] == Bracketed(native, t) && (t != "" ==> t[0] != '(')
    requires native.Some? ==> ')' !in nperms && AllIn(native.value, nperms)
    ensures NativeSyntax(s, nperms, n) == Some(n + if native.Some? then |native.value| + 2 else 0)
  {
    var u := s[n..];
    assert n < |s| ==> s[n] == u[0];
    if native.Some? {
      var w := native.value + (")" + t);
      assert u[1..] == w && s[n + 1..] == w;
      RunRead(native.value, ")" + t, OneOf(nperms));
      var m := n + 1 + |native.value|;
      assert s[m] == w[|native.value|] == ')';
    }
  }

  lemma BracketedStarts(part: Spelt, t: string)
    requires t == "" || t[0] == ',' || t[0] == ':'
    ensures var u := Bracketed(part.native, t); u == "" || u[0] == '(' || u[0] == ',' || u[0] == ':'
  {
  }

  lemma LettersStart(letters: string, u: string)
    requires Letters(letters) && (u == "" || u[0] == '(' || u[0] == ',' || u[0] == ':')
    ensures var v := letters + u; v != "" ==> !IsOp(v[0])
  {
    if letters != "" { assert (letters + u)[0] == letters[0]; } else { assert letters + u == u; }
  }

  lemma LettersRead(letters: string, u: string)
    requires Letters(letters) && (u == "" || u[0] == '(' || u[0] == ',' || u[0] == ':')
    ensures Span(letters + u, IsPerm) == |letters|
  {
    RunRead(letters, u, IsPerm);
  }

  lemma OpsRead(ops: string, v: string)
    requires Operators(ops) && (v != "" ==> !IsOp(v[0]))
    ensures Span(ops + v, IsOp) == |ops|
  {
    RunRead(ops, v, IsOp);
  }

  lemma Tails(x: string, y: string, u: string)
    ensures var s := x + (y + u); s[|x|..] == y + u && s[|x| + |y|..] == u && |s| == |x| + |y| + |u|
  {
    assert x + (y + u) == (x + y) + u;
  }

  lemma PartSyntaxFrom(s: string, nperms: string, ops: nat, letters: nat)
    requires Span(s, IsOp) == ops && Span(s[ops..], IsPerm) == letters && ops + letters <= |s|
    ensures PartSyntax(s, nperms) == NativeSyntax(s, nperms, ops + letters)
  {
    hide Span, NativeSyntax;
  }

  lemma BracketedLength(native: Option<string>, t: string)
    ensures var u, n := Bracketed(native, t), if native.Some? then |native.value| + 2 else 0;
            |u| == n + |t| && u[n..] == t
  {
    if native.Some? {
      Tails("(" + native.value, ")", t);
      assert Bracketed(native, t) == ("(" + native.value) + (")" + t);
    }
  }

  lemma SpellIs(part: Spelt, t: string, nperms: string)
    ensures Spell(part, t) == part.ops + (part.letters + Bracketed(part.native, t))
    ensures Length(part) == |part.ops| + |part.letters| + if part.native.Some? then |part.native.value| + 2 else 0
    ensures Sentence(part, nperms) <==>
      Operators(part.ops) && Letters(part.letters) && (part.native.Some? ==> AllIn(part.native.value, nperms))
  {
    hide Bracketed, Operators, Letters, AllIn;
  }

  lemma OpsAndLetters(ops: string, letters: string, u: string)
    requires Operators(ops) && Letters(letters) && (u == "" || u[0] == '(' || u[0] == ',' || u[0] == ':')
    ensures var s := ops + (letters + u);
            && Span(s, IsOp) == |ops| && Span(s[|ops|..], IsPerm) == |letters|
            && s[|ops| + |letters|..] == u && |s| == |ops| + |letters| + |u|
  {
    hide *;
    LettersStart(letters, u);
    LettersRead(letters, u);
    OpsRead(ops, letters + u);
    Tails(ops, letters, u);
  }

  lemma PartLies(part: Spelt, t: string)
    ensures var s, n := Spell(part, t), |part.ops| + |part.letters|;
            && s == part.ops + (part.letters + Bracketed(part.native, t)) && n <= |s|
            && s[n..] == Bracketed(part.native, t)
            && |s| == Length(part) + |t| && s[Length(part)..] == t
  {
    hide *;
    SpellIs(part, t, "");
    BracketedLength(part.native, t);
    EndOf(part.ops, part.letters, Bracketed(part.native, t), Length(part) - |part.ops| - |part.letters|, t);
  }

  lemma EndOf(x: string, y: string, u: string, k: nat, t: string)
    requires k <= |u| && u[k..] == t
    ensures var s, n := x + (y + u), |x| + |y|;
            n <= |s| && s[n..] == u && |s| == n + k + |t| && s[n + k..] == t
  {
    Tails(x, y, u);
    TailOfTail(x + (y + u), |x| + |y|, k);
  }

  /** A part is read to its end. */
  lemma PartRead(part: Spelt, t: string, nperms: string)
    requires Sentence(part, nperms) && ')' !in nperms && (t == "" || t[0] == ',' || t[0] == ':')
    ensures PartSyntax(Spell(part, t), nperms) == Some(Length(part)) && |Spell(part, t)| == Length(part) + |t|
    ensures Spell(part, t)[Length(part)..] == t
  {
    hide *;
    PartLies(part, t);
    SpellIs(part, t, nperms);
    BracketedStarts(part, t);
    OpsAndLetters(part.ops, part.letters, Bracketed(part.native, t));
    PartSyntaxFrom(Spell(part, t), nperms, |part.ops|, |part.letters|);
    NativeRead(Spell(part, t), |part.ops| + |part.letters|, part.native, t, nperms);
  }

  lemma PartsSyntaxStep(s: string, nperms: string, n: nat)
    requires PartSyntax(s, nperms) == Some(n) && n <= |s|
    ensures n == |s| || s[n] == ':' ==> PartsSyntax(s, nperms) == Some(n)
    ensures n < |s| && s[n] == ',' ==>
      (var r := PartsSyntax(s[n + 1..], nperms);
       PartsSyntax(s, nperms) == if r.None? then None else Some(n + 1 + r.value))
  {
    hide PartSyntax;
  }

  lemma HeadOfTail(s: string, n: nat, t: string)
    requires n <= |s| && s[n..] == t
    ensures |s| == n + |t| && (t != "" ==> s[n] == t[0] && s[n + 1..] == t[1..])
  {
  }

  /** The check accepts every sequence of parts separated by commas, up to the colon or the end behind it. */
  lemma {:induction false} AllRead(parts: seq<Spelt>, t: string, nperms: string)
    requires parts != [] && Sentences(parts, nperms) && ')' !in nperms && (t == "" || t[0] == ':')
    ensures PartsSyntax(SpellAll(parts, t), nperms) == Some(LengthAll(parts))
    decreases |parts|
  {
    hide PartsSyntax, PartSyntax, Spell, Sentence, Length;
    var s, n := SpellAll(parts, t), Length(parts[0]);
    if |parts| == 1 {
      PartRead(parts[0], t, nperms);
      HeadOfTail(s, n, t);
    } else {
      var rest := SpellAll(parts[1..], t);
      PartRead(parts[0], "," + rest, nperms);
      AllRead(parts[1..], t, nperms);
      HeadOfTail(s, n, "," + rest);
      assert ("," + rest)[1..] == rest;
    }
    PartsSyntaxStep(s, nperms, n);
  }

  // ---- Nothing else is accepted ----

  lemma RunSpelt(s: string, from: nat, p: char -> bool) returns (run: string)
    requires from <= |s|
    ensures |run| == Span(s[from..], p) && from + |run| <= |s|
    ensures s[from..] == run + s[from + |run|..] && forall i :: 0 <= i < |run| ==> p(run[i])
  {
    var n := Span(s[from..], p);
    run := s[from..][..n];
    TailOfTail(s, from, n);
    assert s[from..] == run + s[from..][n..];
  }

  lemma NativeSpelt(s: string, nperms: string, n: nat, end: nat) returns (native: Option<string>)
    requires n <= |s| && NativeSyntax(s, nperms, n) == Some(end)
    ensures n <= end <= |s| && s[n..] == Bracketed(native, s[end..])
    ensures end == n + (if native.Some? then |native.value| + 2 else 0)
    ensures native.Some? ==> AllIn(native.value, nperms)
  {
    if n < |s| && s[n] == '(' {
      var run := RunSpelt(s, n + 1, OneOf(nperms));
      native := Some(run);
      var m := n + 1 + |run|;
      assert s[n..] == "(" + s[n + 1..] && s[m..] == ")" + s[m + 1..];
    } else {
      native := None;
    }
  }

  lemma SpeltOps(ops: string)
    requires forall i :: 0 <= i < |ops| ==> IsOp(ops[i])
    ensures Operators(ops)
  {
  }

  lemma SpeltLetters(letters: string)
    requires forall i :: 0 <= i < |letters| ==> IsPerm(letters[i])
    ensures Letters(letters)
  {
  }

  /** A part that is accepted is a sentence. */
  lemma PartSpelt(s: string, nperms: string, n: nat) returns (part: Spelt)
    requires PartSyntax(s, nperms) == Some(n)
    ensures Sentence(part, nperms) && n == Length(part) <= |s| && s == Spell(part, s[n..])
  {
    hide *;
    assert s[0..] == s;
    var ops := RunSpelt(s, 0, IsOp);
    var letters := RunSpelt(s, |ops|, IsPerm);
    SpeltOps(ops);
    SpeltLetters(letters);
    PartSyntaxFrom(s, nperms, |ops|, |letters|);
    var native := NativeSpelt(s, nperms, |ops| + |letters|, n);
    part := Spelt(ops, letters, native);
    SpellIs(part, s[n..], nperms);
  }

  lemma SpellAllOne(part: Spelt, t: string)
    ensures SpellAll([part], t) == Spell(part, t) && LengthAll([part]) == Length(part)
  {
  }

  lemma SpellAllMore(part: Spelt, parts: seq<Spelt>, t: string, nperms: string)
    requires parts != []
    ensures SpellAll([part] + parts, t) == Spell(part, "," + SpellAll(parts, t))
    ensures LengthAll([part] + parts) == Length(part) + 1 + LengthAll(parts)
    ensures Sentence(part, nperms) && Sentences(parts, nperms) ==> Sentences([part] + parts, nperms)
  {
    hide Spell, Length, Sentence;
    assert ([part] + parts)[1..] == parts;
  }

  lemma OneSentence(part: Spelt, nperms: string)
    requires Sentence(part, nperms)
    ensures Sentences([part], nperms)
  {
  }

  /** What the check accepts is a sequence of such parts separated by commas. */
  lemma {:induction false} AllSpelt(s: string, nperms: string, n: nat) returns (parts: seq<Spelt>)
    requires PartsSyntax(s, nperms) == Some(n)
    ensures parts != [] && Sentences(parts, nperms) && n == LengthAll(parts) <= |s| && s == SpellAll(parts, s[n..])
    ensures n == |s| || s[n] == ':'
    decreases |s|
  {
    hide *;
    SyntaxStep(s, nperms);
    var m := PartSyntax(s, nperms).value;
    var part := PartSpelt(s, nperms, m);
    if m == |s| || s[m] == ':' {
      parts := [part];
      SpellAllOne(part, s[n..]);
      OneSentence(part, nperms);
    } else {
      var rest := AllSpelt(s[m + 1..], nperms, n - m - 1);
      parts := [part] + rest;
      SpellAllMore(part, rest, s[n..], nperms);
      TailOfTail(s, m + 1, n - m - 1);
      CommaBehind(s, m);
    }
  }

  lemma CommaBehind(s: string, m: nat)
    requires m < |s| && s[m] == ','
    ensures s[m..] == "," + s[m + 1..]
  {
  }

  // ---- Whole entries ----

  lemma ColonBehind(front: string, id: string, t: string)
    requires ':' !in id && t != "" && t[0] == ':'
    ensures var s := front + (id + t); ColonFrom(s, |front|) == |front| + |id| && s[|front| + |id|] == ':'
    ensures id != "" ==> (front + (id + t))[|front|] == id[0] && id[0] != ':'
    ensures |front + (id + t)| == |front| + |id| + |t|
  {
    var s := front + (id + t);
    assert forall k :: |front| <= k < |front| + |id| ==> s[k] == id[k - |front|] && id[k - |front|] in id;
    ColonUnique(s, |front|, |front| + |id|);
  }

  /** An id must not be empty; a mask entry needs the support of the type; the mode follows the colon. */
  lemma TagsMean(id: string, t: string, maskSupport: bool)
    requires ':' !in id && t != "" && t[0] == ':'
    ensures id != "" ==> ModeStartOf("user:" + (id + t), maskSupport) == Some(6 + |id|)
    ensures id != "" ==> ModeStartOf("group:" + (id + t), maskSupport) == Some(7 + |id|)
    ensures id == "" ==> ModeStartOf("user:" + (id + t), maskSupport) == None
    ensures id == "" ==> ModeStartOf("group:" + (id + t), maskSupport) == None
  {
    var u, g := "user:" + (id + t), "group:" + (id + t);
    ColonBehind("user:", id, t);
    ColonBehind("group:", id, t);
    assert u[0] == 'u' && g[0] == 'g' && USER[0] == 'u' && GROUP[0] == 'g';
    assert USER == u[..5] && GROUP == g[..6];
  }

  lemma OtherTagsMean(t: string, maskSupport: bool)
    ensures ModeStartOf("all:" + t, maskSupport) == Some(4)
    ensures ModeStartOf("mask:" + t, maskSupport) == if maskSupport then Some(5) else None
  {
    var a, m := "all:" + t, "mask:" + t;
    assert a[0] == 'a' && m[0] == 'm' && USER[0] == 'u' && GROUP[0] == 'g' && ALL[0] == 'a';
    assert ALL == a[..4] && MASK == m[..5];
  }

  /** Behind a well-formed mode there is nothing, or a permission type: allow, or deny where it is supported. */
  lemma EntryAccepted(ace: string, start: nat, mode: string, suffix: string, nperms: string, denySupport: bool,
                      maskSupport: bool)
    requires ModeStartOf(ace, maskSupport) == Some(start) && ace[start..] == mode + suffix
    requires ModeSyntax(mode + suffix, nperms) == Some(|mode|) && (suffix == "" || suffix[0] == ':')
    ensures AceSyntax(ace, nperms, denySupport, maskSupport) ==
            if suffix == "" || suffix == ":allow" || (suffix == ":deny" && denySupport)
            then Some((start, start + |mode|)) else None
  {
    hide ModeStartOf, ModeSyntax;
    if suffix != "" {
      var permt := ace[start + |mode| + 1..];
      assert suffix == ":" + permt;
      assert ":allow" == ":" + "allow" && ":deny" == ":" + "deny";
      assert suffix[1..] == permt && ":allow"[1..] == "allow" && ":deny"[1..] == "deny";
    }
  }
}
