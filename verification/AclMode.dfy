/**
 * Mode strings of access-control entries: the syntax check (src/acl.c) and the parser that applies
 * them to a set of permissions (src/acl_posix.c).
 */
module AclMode {
  import opened Numerals
  import opened Options

  datatype Perms = Perms(read: bool, write: bool, execute: bool)

  const NO_PERMS := Perms(false, false, false)

  predicate IsPerm(c: char) { c == 'r' || c == 'w' || c == 'x' }

  predicate IsOp(c: char) { c == '=' || c == '+' || c == '-' }

  /** At the end of a mode string: the end of the entry or a colon. */
  predicate AtEnd(s: string) { s == "" || s[0] == ':' }

  // ---- What a mode string means ----

  /** Adds or deletes the permissions named in a run of letters. */
  function ApplyRun(add: bool, run: string, p: Perms): Perms {
    Perms(if 'r' in run then add else p.read,
          if 'w' in run then add else p.write,
          if 'x' in run then add else p.execute)
  }

  /** One comma-separated part: an operator, letters, and native letters in parentheses. */
  datatype Part = Part(clear: bool, add: bool, generic: string, native: string, length: nat)

  /** Whether the operator in front of s clears first, whether it adds, and its length: without one, and
      with an equals sign, the permissions start from none. */
  function OpAt(s: string): (r: (bool, bool, nat))
    ensures r.2 <= 1 && r.2 <= |s|
  {
    if s == "" || !IsOp(s[0]) then (true, true, 0)
    else (s[0] == '=', s[0] != '-', 1)
  }

  /** The part in front of s; None when an opening parenthesis is the last thing before letters that run
      to the end of the string, so that the character after them does not exist. */
  function PartAt(s: string): (r: Option<Part>)
    ensures r.Some? ==> r.value.length <= |s|
  {
    var (clear, add, op) := OpAt(s);
    var n := op + Span(s[op..], IsPerm);
    if n < |s| && s[n] == '(' then
      var m := n + 1 + Span(s[n + 1..], IsPerm);
      if m == |s| then None else Some(Part(clear, add, s[op..n], s[n + 1..m], m + 1))
    else Some(Part(clear, add, s[op..n], "", n))
  }

  function ApplyPart(part: Part, p: Perms): Perms {
    ApplyRun(part.add, part.native, ApplyRun(part.add, part.generic, if part.clear then NO_PERMS else p))
  }

  /** The permissions after a mode string, and how far it was read; None when reading runs past its end. */
  function RunParts(s: string, p: Perms): (r: Option<(Perms, nat)>)
    ensures r.Some? ==> r.value.1 <= |s|
    decreases |s|
  {
    var part := PartAt(s);
    if part.None? then None
    else
      var n := part.value.length;
      if n < |s| && s[n] == ',' then
        var r := RunParts(s[n + 1..], ApplyPart(part.value, p));
        if r.None? then None else Some((r.value.0, n + 1 + r.value.1))
      else Some((ApplyPart(part.value, p), n))
  }

  function RunMode(s: string, p: Perms): (r: Option<(Perms, nat)>)
    ensures r.Some? ==> r.value.1 <= |s|
  {
    if AtEnd(s) then Some((NO_PERMS, 0)) else RunParts(s, p)
  }

  // ---- Every mode string acts on each permission as a constant or as the identity ----

  datatype Action = Keep | Give | Take

  function Act(a: Action, b: bool): bool {
    match a
    case Keep => b
    case Give => true
    case Take => false
  }

  datatype Effect = Effect(read: Action, write: Action, execute: Action)

  const KEEP_ALL := Effect(Keep, Keep, Keep)
  const TAKE_ALL := Effect(Take, Take, Take)

  function Apply(e: Effect, p: Perms): Perms {
    Perms(Act(e.read, p.read), Act(e.write, p.write), Act(e.execute, p.execute))
  }

  function Then(a: Action, b: Action): Action { if b == Keep then a else b }

  function Compose(e: Effect, f: Effect): Effect {
    Effect(Then(e.read, f.read), Then(e.write, f.write), Then(e.execute, f.execute))
  }

  lemma ComposeApplies(e: Effect, f: Effect, p: Perms)
    ensures Apply(Compose(e, f), p) == Apply(f, Apply(e, p))
  {
  }

  lemma ApplyIdempotent(e: Effect, p: Perms)
    ensures Apply(e, Apply(e, p)) == Apply(e, p)
  {
  }

  function RunAction(add: bool, run: string, c: char): Action {
    if c in run then (if add then Give else Take) else Keep
  }

  function RunEffect(add: bool, run: string): Effect {
    Effect(RunAction(add, run, 'r'), RunAction(add, run, 'w'), RunAction(add, run, 'x'))
  }

  function PartEffect(part: Part): Effect {
    Compose(Compose(if part.clear then TAKE_ALL else KEEP_ALL, RunEffect(part.add, part.generic)),
            RunEffect(part.add, part.native))
  }

  function PartsEffect(s: string): Effect
    decreases |s|
  {
    var part := PartAt(s);
    if part.None? then KEEP_ALL
    else
      var n := part.value.length;
      if n < |s| && s[n] == ',' then Compose(PartEffect(part.value), PartsEffect(s[n + 1..]))
      else PartEffect(part.value)
  }

  function EffectOf(s: string): Effect { if AtEnd(s) then TAKE_ALL else PartsEffect(s) }

  /** How far the parts of s reach; None when reading runs past the end. */
  function Extent(s: string): (r: Option<nat>)
    ensures r.Some? ==> r.value <= |s|
    decreases |s|
  {
    var part := PartAt(s);
    if part.None? then None
    else
      var n := part.value.length;
      if n < |s| && s[n] == ',' then
        var r := Extent(s[n + 1..]);
        if r.None? then None else Some(n + 1 + r.value)
      else Some(n)
  }

  lemma PartActs(part: Part, p: Perms)
    ensures ApplyPart(part, p) == Apply(PartEffect(part), p)
  {
  }

  lemma {:induction false} PartsAct(s: string, p: Perms)
    ensures RunParts(s, p) == if Extent(s).None? then None else Some((Apply(PartsEffect(s), p), Extent(s).value))
    decreases |s|
  {
    hide PartAt, ApplyPart, PartEffect, Apply;
    var part := PartAt(s);
    if part.Some? {
      var n := part.value.length;
      PartActs(part.value, p);
      if n < |s| && s[n] == ',' {
        PartsAct(s[n + 1..], ApplyPart(part.value, p));
        ComposeApplies(PartEffect(part.value), PartsEffect(s[n + 1..]), p);
      }
    }
  }

  /** How far a mode string is read; None when reading runs past its end. */
  function ModeExtent(s: string): (r: Option<nat>)
    ensures r.Some? ==> r.value <= |s|
  {
    if AtEnd(s) then Some(0) else Extent(s)
  }

  /**
   * A mode string gives, takes or keeps each permission, the same way whatever the permissions were;
   * nor do they matter for how far the string is read.
   */
  lemma ModeActs(s: string, p: Perms)
    ensures RunMode(s, p) == if ModeExtent(s).None? then None else Some((Apply(EffectOf(s), p), ModeExtent(s).value))
  {
    hide RunParts, Extent, PartsEffect;
    PartsAct(s, p);
  }

  // ---- The parser ----

  /** Applies the letters from pos on, one by one. */
  method ApplyLetters(mode: string, pos: nat, add: bool, perms: Perms) returns (end: nat, after: Perms)
    requires pos <= |mode|
    ensures end == pos + Span(mode[pos..], IsPerm) && after == ApplyRun(add, mode[pos..end], perms)
  {
    end, after := pos, perms;
    while end < |mode| && IsPerm(mode[end])
      invariant pos <= end <= |mode|
      invariant forall i :: pos <= i < end ==> IsPerm(mode[i])
      invariant after == ApplyRun(add, mode[pos..end], perms)
    {
      assert mode[pos..end + 1] == mode[pos..end] + [mode[end]];
      match mode[end] {
        case 'r' => after := after.(read := add);
        case 'w' => after := after.(write := add);
        case 'x' => after := after.(execute := add);
      }
      end := end + 1;
    }
    SpanUnique(mode[pos..], IsPerm, end - pos);
  }

  /** Applies a mode string; stop is where reading it stopped. */
  method ParseMode(mode: string, perms: Perms) returns (after: Perms, stop: nat)
    requires RunMode(mode, perms).Some?
    ensures RunMode(mode, perms) == Some((after, stop))
  {
    hide *;
    ModeStart(mode, perms);
    if mode == "" || mode[0] == ':' { return NO_PERMS, 0; }
    ghost var goal := RunMode(mode, perms).value;
    after, stop := perms, 0;
    while true
      invariant stop <= |mode| && Ahead(mode, stop, after, goal)
      decreases |mode| - stop
    {
      AheadStep(mode, stop, after, goal);
      after, stop := ParsePart(mode, stop, after);
      if stop == |mode| || mode[stop] != ',' { return; }
      stop := stop + 1;
    }
  }

  /** The parts from pos on lead from perms to the goal. */
  ghost predicate Ahead(mode: string, pos: nat, perms: Perms, goal: (Perms, nat)) {
    pos <= |mode| && pos <= goal.1 && RunParts(mode[pos..], perms) == Some((goal.0, goal.1 - pos))
  }

  lemma AheadStep(mode: string, pos: nat, perms: Perms, goal: (Perms, nat))
    requires Ahead(mode, pos, perms, goal)
    ensures PartAt(mode[pos..]).Some?
    ensures var part := PartAt(mode[pos..]).value;
            var n := pos + part.length;
            n <= |mode| &&
            if n < |mode| && mode[n] == ',' then Ahead(mode, n + 1, ApplyPart(part, perms), goal)
            else goal == (ApplyPart(part, perms), n)
  {
    hide PartAt, ApplyPart;
    var n := PartAt(mode[pos..]).value.length;
    if pos + n < |mode| { assert mode[pos..][n + 1..] == mode[pos + n + 1..]; }
  }

  lemma ModeStart(mode: string, perms: Perms)
    requires RunMode(mode, perms).Some?
    ensures if mode == "" || mode[0] == ':' then RunMode(mode, perms) == Some((NO_PERMS, 0))
            else Ahead(mode, 0, perms, RunMode(mode, perms).value)
  {
    hide PartAt, ApplyPart;
    assert mode[0..] == mode;
  }

  /** The operator of a part. */
  method ReadOp(mode: string, pos: nat, perms: Perms) returns (add: bool, end: nat, after: Perms)
    requires pos <= |mode|
    ensures var (clear, a, op) := OpAt(mode[pos..]);
            add == a && end == pos + op && after == if clear then NO_PERMS else perms
  {
    add, after, end := true, perms, pos;
    var ch := if pos < |mode| then mode[pos] else '\0';
    match ch {
      case '+' => end := end + 1;
      case '-' => add, end := false, end + 1;
      case _ =>
        if ch == '=' { end := end + 1; }
        after := NO_PERMS;
    }
  }

  /** One round of the parser: an operator, letters, native letters. */
  method ParsePart(mode: string, pos: nat, perms: Perms) returns (after: Perms, end: nat)
    requires pos <= |mode| && PartAt(mode[pos..]).Some?
    ensures end == pos + PartAt(mode[pos..]).value.length <= |mode|
    ensures after == ApplyPart(PartAt(mode[pos..]).value, perms)
  {
    hide *;
    PartInPlace(mode, pos, perms);
    var add;
    add, end, after := ReadOp(mode, pos, perms);
    end, after := ApplyLetters(mode, end, add, after);
    if end < |mode| && mode[end] == '(' {
      end, after := ApplyLetters(mode, end + 1, add, after);
      end := end + 1;
    }
  }

  /** The part at pos, by its bounds in the whole string. */
  lemma PartInPlace(mode: string, pos: nat, perms: Perms)
    requires pos <= |mode| && PartAt(mode[pos..]).Some?
    ensures var (clear, add, op) := OpAt(mode[pos..]);
            var part, start := PartAt(mode[pos..]).value, pos + op;
            var n := start + Span(mode[start..], IsPerm);
            var q := ApplyRun(add, mode[start..n], if clear then NO_PERMS else perms);
            if n < |mode| && mode[n] == '(' then
              var m := n + 1 + Span(mode[n + 1..], IsPerm);
              m < |mode| && pos + part.length == m + 1 && ApplyPart(part, perms) == ApplyRun(add, mode[n + 1..m], q)
            else pos + part.length == n && ApplyPart(part, perms) == q
  {
    hide Span, ApplyRun, OpAt;
    var s := mode[pos..];
    var (clear, add, op) := OpAt(s);
    var n := op + Span(s[op..], IsPerm);
    assert s[op..] == mode[pos + op..] && s[op..n] == mode[pos + op..pos + n];
    ApplyNothing(add, ApplyRun(add, s[op..n], if clear then NO_PERMS else perms));
    if n < |s| && s[n] == '(' {
      var m := n + 1 + Span(s[n + 1..], IsPerm);
      assert s[n + 1..] == mode[pos + n + 1..] && s[n + 1..m] == mode[pos + n + 1..pos + m];
    }
  }

  lemma ApplyNothing(add: bool, p: Perms)
    ensures ApplyRun(add, "", p) == p
  {
  }
}
