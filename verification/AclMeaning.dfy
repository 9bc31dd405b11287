/**
 * What access-control entries say, over the strings they are spelt with: which permissions an operator gives or
 * takes, whom an entry is about, what the mask covers, and what the two methods leave of the existing list.
 */
module AclMeaning {
  import opened AclMode
  import opened AclRepair
  import opened AclSpec
  import opened AclSyntax
  import opened Numerals
  import opened Options

  // ---- Mode strings ----

  predicate PermLetters(run: string) { forall i :: 0 <= i < |run| ==> run[i] == 'r' || run[i] == 'w' || run[i] == 'x' }

  /** The permissions that letters name, and no other. */
  function Named(run: string): Perms { Perms('r' in run, 'w' in run, 'x' in run) }

  function Plus(p: Perms, q: Perms): Perms { Perms(p.read || q.read, p.write || q.write, p.execute || q.execute) }

  function Minus(p: Perms, q: Perms): Perms { Perms(p.read && !q.read, p.write && !q.write, p.execute && !q.execute) }

  predicate Operator(op: string) { op == "" || op == "+" || op == "-" || op == "=" }

  lemma OperatorRead(op: string, u: string)
    requires Operator(op) && (op == "" && u != "" ==> u[0] != '+' && u[0] != '-' && u[0] != '=')
    ensures OpAt(op + u) == (op == "" || op == "=", op != "-", |op|) && (op + u)[|op|..] == u
  {
    var s := op + u;
    if op == "" { assert s == u; } else { assert s[0] == op[0]; }
  }

  lemma LettersRead(run: string, t: string)
    requires PermLetters(run) && (t != "" ==> !PermLetters([t[0]]))
    ensures Span(run + t, IsPerm) == |run| && (run + t)[..|run|] == run && (run + t)[|run|..] == t
  {
    assert t != "" ==> (run + t)[|run|] == t[0] == [t[0]][0];
    SpanUnique(run + t, IsPerm, |run|);
  }

  lemma PartWithoutNative(s: string, clear: bool, add: bool, op: nat, n: nat)
    requires OpAt(s) == (clear, add, op) && op <= n <= |s| && (n < |s| ==> s[n] != '(')
    requires Span(s[op..], IsPerm) == n - op
    ensures PartAt(s) == Some(Part(clear, add, s[op..n], "", n))
  {
    hide OpAt, Span;
  }

  lemma PlainText(op: string, run: string, t: string)
    ensures var s, n := op + (run + t), |op| + |run|;
            n <= |s| && (n < |s| ==> t != "" && s[n] == t[0]) && s[|op|..n] == run
  {
    var s, n := op + (run + t), |op| + |run|;
    assert s == (op + run) + t;
  }

  lemma NoOperatorIn(run: string, t: string)
    requires PermLetters(run)
    requires run == "" && t != "" ==> t[0] != '+' && t[0] != '-' && t[0] != '='
    ensures var u := run + t; u != "" ==> u[0] != '+' && u[0] != '-' && u[0] != '='
  {
    if run != "" { assert (run + t)[0] == run[0]; } else { assert run + t == t; }
  }

  /** A part without native letters, whatever else follows. */
  lemma PlainPart(op: string, run: string, t: string)
    requires Operator(op) && PermLetters(run) && (t != "" ==> !PermLetters([t[0]]) && t[0] != '(')
    requires op == "" && run == "" && t != "" ==> t[0] != '+' && t[0] != '-' && t[0] != '='
    ensures PartAt(op + (run + t)) == Some(Part(op == "" || op == "=", op != "-", run, "", |op| + |run|))
  {
    hide *;
    if op == "" { NoOperatorIn(run, t); }
    OperatorRead(op, run + t);
    LettersRead(run, t);
    PlainText(op, run, t);
    PartWithoutNative(op + (run + t), op == "" || op == "=", op != "-", |op|, |op| + |run|);
  }

  lemma PartWithNative(s: string, clear: bool, add: bool, op: nat, n: nat, m: nat)
    requires OpAt(s) == (clear, add, op) && op <= n < m < |s| && s[n] == '('
    requires Span(s[op..], IsPerm) == n - op && Span(s[n + 1..], IsPerm) == m - n - 1
    ensures PartAt(s) == Some(Part(clear, add, s[op..n], s[n + 1..m], m + 1))
  {
    hide OpAt, Span;
  }

  /** Where things stand in a part with native letters. */
  lemma NativeText(op: string, run: string, native: string, t: string)
    ensures var w := native + (")" + t);
            var s, n := op + (run + ("(" + w)), |op| + |run|;
            && |s| > n + 1 + |native| && s[n] == '(' && s[|op|..n] == run && s[n + 1..] == w
            && s[n + 1..n + 1 + |native|] == native
  {
    var w := native + (")" + t);
    var s, n := op + (run + ("(" + w)), |op| + |run|;
    assert s == (op + run) + ("(" + w);
    assert s[n + 1..] == w && w[..|native|] == native;
  }

  lemma BracketStops(c: char, t: string)
    requires c == '(' || c == ')'
    ensures var u := [c] + t; u != "" && u[0] == c && !PermLetters([u[0]])
  {
    var u := [c] + t;
    assert [u[0]][0] == c;
  }

  lemma FirstOf(run: string, v: string)
    requires PermLetters(run) && v != "" && v[0] == '('
    ensures var u := run + v; u != "" && u[0] != '+' && u[0] != '-' && u[0] != '='
  {
    if run != "" { assert (run + v)[0] == run[0]; }
  }

  /** A part with native letters in parentheses. */
  lemma NativePart(op: string, run: string, native: string, t: string)
    requires Operator(op) && PermLetters(run) && PermLetters(native)
    ensures PartAt(op + (run + ("(" + (native + (")" + t))))) ==
            Some(Part(op == "" || op == "=", op != "-", run, native, |op| + |run| + |native| + 2))
  {
    hide *;
    var w := native + (")" + t);
    var v := "(" + w;
    BracketStops('(', w);
    BracketStops(')', t);
    FirstOf(run, v);
    OperatorRead(op, run + v);
    LettersRead(run, v);
    LettersRead(native, ")" + t);
    NativeText(op, run, native, t);
    var n := |op| + |run|;
    PartWithNative(op + (run + v), op == "" || op == "=", op != "-", |op|, n, n + 1 + |native|);
  }

  /** What one part makes of the permissions. */
  function Outcome(op: string, named: Perms, p: Perms): Perms {
    if op == "+" then Plus(p, named) else if op == "-" then Minus(p, named) else named
  }

  lemma PartApplied(op: string, run: string, native: string, length: nat, p: Perms)
    requires Operator(op)
    ensures ApplyPart(Part(op == "" || op == "=", op != "-", run, native, length), p) ==
            Outcome(op, Plus(Named(run), Named(native)), p)
  {
  }

  lemma NothingNamed(p: Perms)
    ensures Plus(p, Named("")) == p
  {
  }

  /** Reading a mode string: the first part, and the rest behind a comma. */
  lemma FirstPart(s: string, p: Perms)
    requires PartAt(s).Some?
    ensures var part := PartAt(s).value;
            RunParts(s, p) ==
            if part.length < |s| && s[part.length] == ',' then
              var r := RunParts(s[part.length + 1..], ApplyPart(part, p));
              if r.None? then None else Some((r.value.0, part.length + 1 + r.value.1))
            else Some((ApplyPart(part, p), part.length))
  {
    hide PartAt, ApplyPart;
  }

  /** An empty mode is a part that names nothing. */
  lemma EmptyIsPart(s: string, p: Perms)
    ensures RunMode(s, p) == RunParts(s, p)
  {
    if AtEnd(s) {
      assert OpAt(s) == (true, true, 0) && s[0..] == s;
      SpanUnique(s, IsPerm, 0);
    }
  }

  lemma OneOperator(op: string, run: string, p: Perms)
    requires PermLetters(run) && Operator(op)
    ensures RunMode(op + run, p) == Some((Outcome(op, Named(run), p), |op| + |run|))
  {
    hide *;
    var s := op + run;
    assert op + (run + "") == s;
    PlainPart(op, run, "");
    PartApplied(op, run, "", |s|, p);
    NothingNamed(Named(run));
    EmptyIsPart(s, p);
    FirstPart(s, p);
  }

  /** A plus sign gives exactly the permissions named and keeps the others. */
  lemma PlusGives(run: string, p: Perms)
    requires PermLetters(run)
    ensures RunMode("+" + run, p) == Some((Plus(p, Named(run)), 1 + |run|))
  {
    OneOperator("+", run, p);
    hide RunMode, Plus, Named;
  }

  /** A minus sign takes exactly the permissions named and keeps the others. */
  lemma MinusTakes(run: string, p: Perms)
    requires PermLetters(run)
    ensures RunMode("-" + run, p) == Some((Minus(p, Named(run)), 1 + |run|))
  {
    OneOperator("-", run, p);
    hide RunMode, Minus, Named;
  }

  /** An equals sign, or no sign, leaves exactly the permissions named. */
  lemma EqualsLeaves(run: string, p: Perms)
    requires PermLetters(run)
    ensures RunMode("=" + run, p) == Some((Named(run), 1 + |run|)) && RunMode(run, p) == Some((Named(run), |run|))
  {
    OneOperator("=", run, p);
    OneOperator("", run, p);
    hide RunMode, Named;
    assert "" + run == run;
  }

  /** Parts separated by commas apply one after the other, from the left. */
  lemma CommaMeans(op: string, run: string, rest: string, p: Perms)
    requires PermLetters(run) && Operator(op)
    ensures var r := RunMode(rest, Outcome(op, Named(run), p));
            RunMode(op + (run + ("," + rest)), p) ==
            if r.None? then None else Some((r.value.0, |op| + |run| + 1 + r.value.1))
  {
    hide *;
    var t, n := "," + rest, |op| + |run|;
    CommaText(op, run, rest);
    PlainPart(op, run, t);
    PartApplied(op, run, "", n, p);
    NothingNamed(Named(run));
    EmptyIsPart(op + (run + t), p);
    EmptyIsPart(rest, Outcome(op, Named(run), p));
    FirstPart(op + (run + t), p);
  }

  lemma CommaText(op: string, run: string, rest: string)
    ensures var t := "," + rest;
            var s, n := op + (run + t), |op| + |run|;
            t[0] == ',' && !PermLetters([t[0]]) && n < |s| && s[n] == ',' && s[n + 1..] == rest
  {
    var t := "," + rest;
    assert [t[0]][0] == ',';
    assert op + (run + t) == (op + run) + t && t[1..] == rest;
  }

  /** Native letters in parentheses count as letters of the part. */
  lemma NativeMeans(op: string, run: string, native: string, p: Perms)
    requires PermLetters(run) && PermLetters(native) && Operator(op)
    ensures RunMode(op + (run + ("(" + (native + ")"))), p) ==
            Some((Outcome(op, Plus(Named(run), Named(native)), p), |op| + |run| + |native| + 2))
  {
    hide *;
    var s := op + (run + ("(" + (native + ")")));
    assert op + (run + ("(" + (native + (")" + "")))) == s;
    NativePart(op, run, native, "");
    PartApplied(op, run, native, |s|, p);
    EmptyIsPart(s, p);
    FirstPart(s, p);
  }

  // ---- Whom an entry is about ----

  lemma ColonAfter(front: string, name: string, t: string)
    requires ':' !in name && (t == "" || t[0] == ':')
    ensures var s := front + name + t;
            ColonFrom(s, |front|) == |front| + |name| && s[|front|..|front| + |name|] == name
  {
    var s := front + name + t;
    forall k | |front| <= k < |front| + |name| ensures s[k] != ':' {
      assert s[k] == name[k - |front|] && name[k - |front|] in name;
    }
    ColonUnique(s, |front|, |front| + |name|);
  }

  /** Entries spelt with their tags, and the entities they are about. */
  lemma EntitiesMean(name: string, t: string, names: Names)
    requires ':' !in name && (t == "" || t[0] == ':')
    ensures name == "*" ==> EntityAt("user:" + name + t, names) == Some((UserObj, 5 + |name|))
    ensures name == "*" ==> EntityAt("group:" + name + t, names) == Some((GroupObj, 6 + |name|))
    ensures name != "*" && name in names.users ==>
      EntityAt("user:" + name + t, names) == Some((User(names.users[name]), 5 + |name|))
    ensures name != "*" && name in names.groups ==>
      EntityAt("group:" + name + t, names) == Some((Group(names.groups[name]), 6 + |name|))
    ensures name != "*" && name !in names.users ==> EntityAt("user:" + name + t, names) == None
    ensures name != "*" && name !in names.groups ==> EntityAt("group:" + name + t, names) == None
  {
    var u, g := "user:" + name + t, "group:" + name + t;
    ColonAfter("user:", name, t);
    ColonAfter("group:", name, t);
    assert u[0] == 'u' && g[0] == 'g' && GROUP[0] == 'g' && USER[0] == 'u';
    assert USER == u[..5] && GROUP == g[..6];
  }

  lemma OtherEntities(t: string, names: Names)
    ensures EntityAt("all:" + t, names) == Some((Other, 3))
    ensures EntityAt("mask:" + t, names) == Some((Mask, 4))
  {
    var a, m := "all:" + t, "mask:" + t;
    assert a[0] == 'a' && m[0] == 'm' && GROUP[0] == 'g' && USER[0] == 'u' && ALL[0] == 'a';
    assert ALL == a[..4] && MASK == m[..5];
  }

  /** A whole entry: its entity, and the mode string behind it. */
  lemma EntryMeans(front: string, mode: string, names: Names)
    requires var e := EntityAt(front + (":" + mode), names); e.None? || e.value.1 == |front|
    ensures var e := EntityAt(front + (":" + mode), names);
            Parsed(front + (":" + mode), names) == if e.None? then None else Some((e.value.0, mode))
  {
    hide EntityAt;
    ModeBehind(front, mode);
  }

  lemma ModeBehind(front: string, mode: string)
    ensures var s := front + (":" + mode); s[|front|] == ':' && s[|front| + 1..] == mode
  {
    var s := front + (":" + mode);
    assert s[|front|..] == ":" + mode && (":" + mode)[1..] == mode;
  }

  // ---- The mask ----

  predicate NamedOrGroup(k: Key) { k.User? || k.Group? || k == GroupObj }

  /** A permission is in the mask worked out if and only if a named user, the owning group or a named group has it. */
  lemma {:induction false} MaskCovers(acl: Acl)
    ensures GroupClass(acl).read <==> exists i :: 0 <= i < |acl| && NamedOrGroup(acl[i].key) && acl[i].perms.read
    ensures GroupClass(acl).write <==> exists i :: 0 <= i < |acl| && NamedOrGroup(acl[i].key) && acl[i].perms.write
    ensures GroupClass(acl).execute <==> exists i :: 0 <= i < |acl| && NamedOrGroup(acl[i].key) && acl[i].perms.execute
  {
    if acl != [] {
      var tail := acl[1..];
      MaskCovers(tail);
      assert forall i :: 0 <= i < |tail| ==> tail[i] == acl[i + 1];
      assert forall i :: 0 < i < |acl| ==> acl[i] == tail[i - 1];
    }
  }

  // ---- The two methods ----

  /** Appending keeps every entity that no entry names; overwriting keeps none. Only a mask may be added, when none is
      named. */
  lemma MethodsMean(existing: Acl, aces: seq<string>, names: Names, k: Key)
    requires k != Mask && !Touches(aces, names, k)
    ensures Repaired(Append, existing, aces, names).Some? ==>
      Lookup(Repaired(Append, existing, aces, names).value, k) == Lookup(existing, k)
    ensures Repaired(Overwrite, existing, aces, names).Some? ==>
      Lookup(Repaired(Overwrite, existing, aces, names).value, k) == None
  {
    hide RunAces, HasMask, Lookup, GroupClass, Repaired;
    if Repaired(Append, existing, aces, names).Some? {
      RepairedLookup(Append, existing, aces, names, k);
      RunLookup(existing, aces, names, k);
    }
    if Repaired(Overwrite, existing, aces, names).Some? {
      RepairedLookup(Overwrite, existing, aces, names, k);
      RunLookup([], aces, names, k);
      NothingThere(k);
    }
  }

  lemma NothingThere(k: Key)
    ensures Lookup([], k) == None
  {
  }

  /** Only a fix that is no dry run and that the kernel accepts changes a list, and then to what was asked for. */
  lemma FixesMean(access: Acl, before: Acl, inherit: Inherit, how: Method, aces: seq<string>, names: Names,
                  action: AclRepair.Action, dontDo: bool, accepts: (bool, Acl) -> bool)
    ensures var o := InheritOutcome(access, before, inherit, how, aces, names, action, dontDo, accepts);
            && (action == Warn || dontDo || inherit == NoChange || inherit == Unset ==> o.after == before)
            && (inherit == Parent && action == Fix && !dontDo ==>
                  o.after == if SameAcl(access, before) || !accepts(true, access) then before else access)
            && (inherit == Clear && action == Fix && !dontDo ==>
                  o.after == if !accepts(true, []) then before else [])
            && (inherit == Specify && action == Fix && !dontDo ==>
                  var r := Repaired(how, before, aces, names);
                  o.after == if r.None? || SameAcl(before, r.value) || !accepts(true, r.value) then before else r.value)
            && (o.after != before ==> o.ok && o.report == Changed)
            && (o.report == Failed ==> !o.ok && o.after == before)
  {
    hide Repaired, SameAcl;
  }
}
