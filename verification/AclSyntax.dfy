/**
 * Access-control entries as strings: the syntax check (src/acl.c) and the parser of the entity they
 * are about (src/acl_posix.c), and how far the two agree.
 */
module AclSyntax {
  import opened AclMode
  import opened Numerals
  import opened Options

  // ---- The check of mode strings ----

  function OneOf(chars: string): char -> bool { c => c in chars }

  /** Where a part ends whose letters end at n: behind native letters, if an opening parenthesis is there. */
  function NativeSyntax(s: string, nperms: string, n: nat): (r: Option<nat>)
    requires n <= |s|
    ensures r.Some? ==> n <= r.value <= |s|
  {
    if n < |s| && s[n] == '(' then
      var m := n + 1 + Span(s[n + 1..], OneOf(nperms));
      if m < |s| && s[m] == ')' then Some(m + 1) else None
    else Some(n)
  }

  /** The length of the part in front of s if it is well-formed: any operators, letters, and native
      letters between parentheses. */
  function PartSyntax(s: string, nperms: string): (r: Option<nat>)
    ensures r.Some? ==> r.value <= |s|
  {
    NativeSyntax(s, nperms, Span(s, IsOp) + Span(s[Span(s, IsOp)..], IsPerm))
  }

  function PartsSyntax(s: string, nperms: string): (r: Option<nat>)
    ensures r.Some? ==> r.value <= |s|
    decreases |s|
  {
    var part := PartSyntax(s, nperms);
    if part.None? then None
    else
      var n := part.value;
      if AtEnd(s[n..]) then Some(n)
      else if s[n] == ',' then
        var r := PartsSyntax(s[n + 1..], nperms);
        if r.None? then None else Some(n + 1 + r.value)
      else None
  }

  /** Where a well-formed mode string ends. */
  function ModeSyntax(s: string, nperms: string): (r: Option<nat>)
    ensures r.Some? ==> r.value <= |s|
  {
    if AtEnd(s) then Some(0) else PartsSyntax(s, nperms)
  }

  method ScanPast(s: string, pos: nat, p: char -> bool) returns (end: nat)
    requires pos <= |s|
    ensures end == pos + Span(s[pos..], p)
  {
    end := pos;
    while end < |s| && p(s[end])
      invariant pos <= end <= |s| && forall i :: pos <= i < end ==> p(s[i])
    {
      end := end + 1;
    }
    SpanUnique(s[pos..], p, end - pos);
  }

  /** The end of a part at pos of a whole string, given the end n of its letters. */
  lemma NativeInPlace(s: string, pos: nat, nperms: string, n: nat)
    requires pos + n <= |s|
    ensures NativeSyntax(s[pos..], nperms, n) ==
            if pos + n < |s| && s[pos + n] == '(' then
              var m := pos + n + 1 + Span(s[pos + n + 1..], OneOf(nperms));
              if m < |s| && s[m] == ')' then Some(m + 1 - pos) else None
            else Some(n)
  {
    hide Span, OneOf;
    if pos + n < |s| { TailOfTail(s, pos, n + 1); }
  }

  /** The part at pos, by its bounds in the whole string. */
  lemma PartSyntaxInPlace(s: string, pos: nat, nperms: string)
    requires pos <= |s|
    ensures var ops := pos + Span(s[pos..], IsOp);
            var n := ops + Span(s[ops..], IsPerm);
            if n < |s| && s[n] == '(' then
              var m := n + 1 + Span(s[n + 1..], OneOf(nperms));
              PartSyntax(s[pos..], nperms) == if m < |s| && s[m] == ')' then Some(m + 1 - pos) else None
            else PartSyntax(s[pos..], nperms) == Some(n - pos)
  {
    hide Span, OneOf, NativeSyntax;
    var ops := Span(s[pos..], IsOp);
    TailOfTail(s, pos, ops);
    NativeInPlace(s, pos, nperms, ops + Span(s[pos + ops..], IsPerm));
  }

  lemma TailOfTail(s: string, pos: nat, k: nat)
    requires pos + k <= |s|
    ensures s[pos..][k..] == s[pos + k..]
  {
  }

  /** One round of the check. */
  method CheckPart(s: string, pos: nat, nperms: string) returns (valid: bool, end: nat)
    requires pos <= |s|
    ensures valid <==> PartSyntax(s[pos..], nperms).Some?
    ensures valid ==> end == pos + PartSyntax(s[pos..], nperms).value
  {
    hide *;
    PartSyntaxInPlace(s, pos, nperms);
    valid := true;
    end := ScanPast(s, pos, IsOp);
    end := ScanPast(s, end, IsPerm);
    if end < |s| && s[end] == '(' {
      end := ScanPast(s, end + 1, OneOf(nperms));
      if end < |s| && s[end] == ')' { end := end + 1; } else { valid := false; }
    }
  }

  /** Checks a mode string from pos on; stop is the end of the string or the colon after it. */
  method CheckModeSyntax(s: string, pos: nat, nperms: string) returns (valid: bool, stop: nat)
    requires pos <= |s|
    ensures valid <==> ModeSyntax(s[pos..], nperms).Some?
    ensures valid ==> stop == pos + ModeSyntax(s[pos..], nperms).value
  {
    hide *;
    CheckStart(s, pos, nperms);
    valid, stop := true, pos;
    if pos == |s| || s[pos] == ':' { return; }
    ghost var goal := ModeSyntax(s[pos..], nperms);
    while true
      invariant Checking(s, pos, stop, nperms, goal)
      invariant stop <= |s|
      decreases |s| - stop
    {
      CheckStep(s, pos, stop, nperms, goal);
      valid, stop := CheckPart(s, stop, nperms);
      if !valid || stop == |s| || s[stop] == ':' { return; }
      if s[stop] != ',' { return false, stop; }
      stop := stop + 1;
    }
  }

  /** What is left from stop on decides the check that began at pos. */
  ghost predicate Checking(s: string, pos: nat, stop: nat, nperms: string, goal: Option<nat>) {
    pos <= stop <= |s| &&
    var r := PartsSyntax(s[stop..], nperms);
    goal == if r.Some? then Some(stop - pos + r.value) else None
  }

  lemma CheckStart(s: string, pos: nat, nperms: string)
    requires pos <= |s|
    ensures if pos == |s| || s[pos] == ':' then ModeSyntax(s[pos..], nperms) == Some(0)
            else Checking(s, pos, pos, nperms, ModeSyntax(s[pos..], nperms))
  {
    hide PartSyntax;
  }

  lemma {:induction false} CheckStep(s: string, pos: nat, stop: nat, nperms: string, goal: Option<nat>)
    requires Checking(s, pos, stop, nperms, goal)
    ensures var part := PartSyntax(s[stop..], nperms);
            if part.None? then goal.None?
            else
              var n := stop + part.value;
              n <= |s| &&
              if n == |s| || s[n] == ':' then goal == Some(n - pos)
              else if s[n] == ',' then Checking(s, pos, n + 1, nperms, goal)
              else goal.None?
  {
    hide PartSyntax;
    var part := PartSyntax(s[stop..], nperms);
    if part.Some? && stop + part.value < |s| {
      assert s[stop..][part.value + 1..] == s[stop + part.value + 1..];
    }
  }

  // ---- Agreement on mode strings ----

  /** No operator directly after another one. */
  predicate SingleOps(s: string) { forall i :: 0 <= i && i + 1 < |s| ==> !(IsOp(s[i]) && IsOp(s[i + 1])) }

  /** A well-formed part with at most one operator is read to its end; with more, reading stops at the second. */
  lemma {:induction false} PartsAgree(s: string, nperms: string)
    requires nperms == "" || nperms == "rwx"
    requires PartSyntax(s, nperms).Some?
    ensures PartAt(s).Some?
    ensures Span(s, IsOp) <= 1 ==> PartAt(s).value.length == PartSyntax(s, nperms).value
    ensures Span(s, IsOp) >= 2 ==> PartAt(s).value.length == 1 && s[1] != ',' && PartSyntax(s, nperms).value >= 2
  {
    hide Span;
    var ops := Span(s, IsOp);
    if ops >= 2 {
      assert !IsPerm(s[1]) && IsOp(s[1]);
      SpanUnique(s[1..], IsPerm, 0);
    } else {
      assert OpAt(s).2 == ops;
      var n := ops + Span(s[ops..], IsPerm);
      if n < |s| && s[n] == '(' {
        NativeAgrees(s[n + 1..], nperms);
      }
    }
  }

  lemma NativeAgrees(s: string, nperms: string)
    requires nperms == "" || nperms == "rwx"
    requires var m := Span(s, OneOf(nperms)); m < |s| && s[m] == ')'
    ensures Span(s, IsPerm) == Span(s, OneOf(nperms))
  {
    SpanUnique(s, IsPerm, Span(s, OneOf(nperms)));
  }

  lemma SingleOpsSplit(s: string, k: nat)
    requires 0 < k <= |s| && (!IsOp(s[k - 1]) || (k < |s| && !IsOp(s[k])))
    ensures SingleOps(s) <==> SingleOps(s[..k]) && SingleOps(s[k..])
  {
    assert forall i :: 0 <= i < |s| - k ==> s[k..][i] == s[k + i];
    if SingleOps(s[..k]) && SingleOps(s[k..]) {
      forall i | 0 <= i && i + 1 < |s| ensures !(IsOp(s[i]) && IsOp(s[i + 1])) {
        if i >= k { assert s[k..][i - k] == s[i] && s[k..][i - k + 1] == s[i + 1]; }
        else if i + 1 < k { assert s[..k][i] == s[i] && s[..k][i + 1] == s[i + 1]; }
      }
    }
  }

  /** Operators stand only in front of a well-formed part. */
  lemma {:induction false} PartSingleOps(s: string, nperms: string)
    requires nperms == "" || nperms == "rwx"
    requires PartSyntax(s, nperms).Some?
    ensures var n := PartSyntax(s, nperms).value; SingleOps(s[..n]) <==> Span(s, IsOp) <= 1
    ensures var n := PartSyntax(s, nperms).value; forall i :: Span(s, IsOp) <= i < n ==> !IsOp(s[i])
  {
    hide Span;
    var n := PartSyntax(s, nperms).value;
    var ops := Span(s, IsOp);
    var letters := ops + Span(s[ops..], IsPerm);
    forall i | ops <= i < n ensures !IsOp(s[i]) {
      if i < letters { assert IsPerm(s[ops..][i - ops]); }
      else if letters < i < n - 1 { assert s[letters + 1..][i - letters - 1] in nperms; }
    }
    if ops >= 2 { assert IsOp(s[..n][0]) && IsOp(s[..n][1]); }
  }

  /**
   * The parser reads an accepted mode string without running past its end, and stops exactly where
   * the check did if and only if no operator directly follows another one.
   */
  lemma {:induction false} PartsAgreeAll(s: string, nperms: string)
    requires nperms == "" || nperms == "rwx"
    requires PartsSyntax(s, nperms).Some?
    ensures Extent(s).Some?
    ensures Extent(s) == PartsSyntax(s, nperms) <==> SingleOps(s[..PartsSyntax(s, nperms).value])
    decreases |s|
  {
    hide *;
    var part := PartSyntax(s, nperms);
    SyntaxStep(s, nperms);
    PartsAgree(s, nperms);
    ExtentStep(s);
    PartSingleOps(s, nperms);
    var n, stop := part.value, PartsSyntax(s, nperms).value;
    if n < stop {
      PartsAgreeAll(s[n + 1..], nperms);
      var tail := s[n + 1..][..stop - n - 1];
      assert s[..stop] == s[..n] + [','] + tail;
      CommaSplits(s[..n], tail);
    }
  }

  lemma ExtentStep(s: string)
    requires PartAt(s).Some?
    ensures var n := PartAt(s).value.length;
            if n < |s| && s[n] == ',' then
              (if Extent(s[n + 1..]).None? then Extent(s) == None
               else Extent(s) == Some(n + 1 + Extent(s[n + 1..]).value))
            else Extent(s) == Some(n)
  {
    hide PartAt;
  }

  lemma SyntaxStep(s: string, nperms: string)
    requires PartsSyntax(s, nperms).Some?
    ensures PartSyntax(s, nperms).Some?
    ensures var n, stop := PartSyntax(s, nperms).value, PartsSyntax(s, nperms).value;
            if n == |s| || s[n] == ':' then stop == n
            else s[n] == ',' && PartsSyntax(s[n + 1..], nperms).Some? &&
                 stop == n + 1 + PartsSyntax(s[n + 1..], nperms).value
  {
    hide PartSyntax;
  }

  lemma CommaSplits(x: string, y: string)
    ensures SingleOps(x + [','] + y) <==> SingleOps(x) && SingleOps(y)
  {
    var s := x + [','] + y;
    SingleOpsSplit(s, |x| + 1);
    assert s[..|x| + 1] == x + [','] && s[|x| + 1..] == y;
    if x != "" {
      SingleOpsSplit(x + [','], |x|);
      assert (x + [','])[..|x|] == x && (x + [','])[|x|..] == [','];
    }
  }

  // ---- Whole entries ----

  /** What an entry is about: a tag, and an id where the tag is that of a named user or group. */
  datatype Key = UserObj | User(id: int) | GroupObj | Group(id: int) | Mask | Other

  /** What the system's name services answer. */
  datatype Names = Names(users: map<string, int>, groups: map<string, int>)

  const USER := "user:"
  const GROUP := "group:"
  const ALL := "all:"
  const MASK := "mask:"

  function ColonFrom(s: string, i: nat): (c: nat)
    requires i <= |s|
    ensures i <= c <= |s| && (c < |s| ==> s[c] == ':') && forall k :: i <= k < c ==> s[k] != ':'
    decreases |s| - i
  {
    if i == |s| || s[i] == ':' then i else ColonFrom(s, i + 1)
  }

  lemma ColonUnique(s: string, i: nat, c: nat)
    requires i <= c <= |s| && (c < |s| ==> s[c] == ':') && forall k :: i <= k < c ==> s[k] != ':'
    ensures ColonFrom(s, i) == c
  {
  }

  function UserKey(id: string, names: Names): Option<Key> {
    if id == "*" then Some(UserObj) else if id in names.users then Some(User(names.users[id])) else None
  }

  function GroupKey(id: string, names: Names): Option<Key> {
    if id == "*" then Some(GroupObj) else if id in names.groups then Some(Group(names.groups[id])) else None
  }

  /** The entity an entry is about, and where its text ends. */
  function EntityAt(ace: string, names: Names): (r: Option<(Key, nat)>)
    ensures r.Some? ==> r.value.1 <= |ace|
  {
    if USER <= ace then
      var end := ColonFrom(ace, 5);
      var k := UserKey(ace[5..end], names);
      if k.None? then None else Some((k.value, end))
    else if GROUP <= ace then
      var end := ColonFrom(ace, 6);
      var k := GroupKey(ace[6..end], names);
      if k.None? then None else Some((k.value, end))
    else if ALL <= ace then Some((Other, 3))
    else if MASK <= ace then Some((Mask, 4))
    else None
  }

  method FindColon(s: string, start: nat) returns (end: nat)
    requires start <= |s|
    ensures end == ColonFrom(s, start)
  {
    end := start;
    while end < |s| && s[end] != ':'
      invariant start <= end <= |s| && forall k :: start <= k < end ==> s[k] != ':'
    {
      end := end + 1;
    }
    ColonUnique(s, start, end);
  }

  method ParseEntity(ace: string, names: Names) returns (ok: bool, key: Key, pos: nat, isMask: bool)
    ensures ok <==> EntityAt(ace, names).Some?
    ensures ok ==> EntityAt(ace, names) == Some((key, pos))
    ensures isMask <==> ok && key == Mask
  {
    ok, key, pos, isMask := true, Other, 0, false;
    if USER <= ace {
      pos := FindColon(ace, 5);
      var ids := ace[5..pos];
      if ids == "*" {
        key := UserObj;
      } else if ids !in names.users {
        ok := false;
      } else {
        key := User(names.users[ids]);
      }
    } else if GROUP <= ace {
      pos := FindColon(ace, 6);
      var ids := ace[6..pos];
      if ids == "*" {
        key := GroupObj;
      } else if ids !in names.groups {
        ok := false;
      } else {
        key := Group(names.groups[ids]);
      }
    } else if ALL <= ace {
      pos := 3;
    } else if MASK <= ace {
      pos, key, isMask := 4, Mask, true;
    } else {
      ok := false;
    }
  }

  /** Where the mode string of an entry starts, if the part in front of it is well-formed. */
  function ModeStartOf(ace: string, maskSupport: bool): (r: Option<nat>)
    ensures r.Some? ==> r.value <= |ace|
  {
    if USER <= ace || GROUP <= ace then
      var id := if USER <= ace then 5 else 6;
      if id == |ace| || ace[id] == ':' || ColonFrom(ace, id) == |ace| then None else Some(ColonFrom(ace, id) + 1)
    else if ALL <= ace then Some(4)
    else if MASK <= ace && maskSupport then Some(5)
    else None
  }

  function PermTypeSyntax(permt: string, denySupport: bool): bool {
    permt == "allow" || (permt == "deny" && denySupport)
  }

  /** Where the mode string of a well-formed entry starts and ends. */
  function AceSyntax(ace: string, nperms: string, denySupport: bool, maskSupport: bool): Option<(nat, nat)> {
    var start := ModeStartOf(ace, maskSupport);
    if start.None? then None
    else
      var mode := ModeSyntax(ace[start.value..], nperms);
      if mode.None? then None
      else
        var stop := start.value + mode.value;
        if stop == |ace| || PermTypeSyntax(ace[stop + 1..], denySupport) then Some((start.value, stop)) else None
  }

  /** Steps over the part in front of the mode string. On a bare "user:" or "group:" the source reads past
      the string's end. */
  method SkipEntity(ace: string, maskSupport: bool) returns (valid: bool, pos: nat)
    requires ace != USER && ace != GROUP
    ensures valid <==> ModeStartOf(ace, maskSupport).Some?
    ensures valid ==> pos == ModeStartOf(ace, maskSupport).value
  {
    hide ColonFrom;
    valid, pos := true, 0;
    var chkid := false;
    if USER <= ace {
      pos, chkid := 5, true;
    } else if GROUP <= ace {
      pos, chkid := 6, true;
    } else if ALL <= ace {
      pos := 4;
    } else if MASK <= ace {
      valid, pos := maskSupport, 5;
    } else {
      valid := false;
    }
    if chkid { valid, pos := SkipId(ace, pos); }
  }

  /** Steps over a non-empty id and the colon after it. */
  method SkipId(ace: string, id: nat) returns (valid: bool, pos: nat)
    requires id < |ace|
    ensures valid <==> ace[id] != ':' && ColonFrom(ace, id) < |ace|
    ensures valid ==> pos == ColonFrom(ace, id) + 1
  {
    hide ColonFrom;
    if ace[id] == ':' { return false, id; }
    pos := id + 1;
    while pos < |ace| && ace[pos] != ':'
      invariant id < pos <= |ace| && forall k :: id <= k < pos ==> ace[k] != ':'
    {
      pos := pos + 1;
    }
    ColonUnique(ace, id, pos);
    if pos == |ace| { return false, pos; }
    return true, pos + 1;
  }

  /** The check of a whole entry. */
  method CheckACESyntax(ace: string, nperms: string, denySupport: bool, maskSupport: bool) returns (valid: bool)
    requires ace != USER && ace != GROUP
    ensures valid <==> AceSyntax(ace, nperms, denySupport, maskSupport).Some?
  {
    hide ModeSyntax, ModeStartOf;
    var pos, stop;
    valid, pos := SkipEntity(ace, maskSupport);
    if !valid { return; }
    valid, stop := CheckModeSyntax(ace, pos, nperms);
    if !valid || stop == |ace| { return; }
    valid := ace[stop + 1..] == "allow" || (ace[stop + 1..] == "deny" && denySupport);
  }

  /** The name in an entry, if it has one, is known. */
  predicate NameResolves(ace: string, names: Names) {
    && (USER <= ace ==> UserKey(ace[5..ColonFrom(ace, 5)], names).Some?)
    && (!(USER <= ace) && GROUP <= ace ==> GroupKey(ace[6..ColonFrom(ace, 6)], names).Some?)
  }

  /**
   * Every entry the check accepts and whose name resolves is parsed: its entity ends at the colon in
   * front of its mode string, the mode string is read without running past the end, and reading stops
   * where the check stopped if and only if no operator directly follows another one.
   */
  lemma {:induction false} AcceptedIsParsed(ace: string, nperms: string, denySupport: bool, maskSupport: bool,
                                            names: Names, p: Perms)
    requires nperms == "" || nperms == "rwx"
    requires AceSyntax(ace, nperms, denySupport, maskSupport).Some? && NameResolves(ace, names)
    ensures var (start, stop) := AceSyntax(ace, nperms, denySupport, maskSupport).value;
            && start <= stop <= |ace|
            && EntityAt(ace, names).Some? && EntityAt(ace, names).value.1 + 1 == start
            && ace[EntityAt(ace, names).value.1] == ':'
            && RunMode(ace[start..], p).Some?
            && (start + RunMode(ace[start..], p).value.1 == stop <==> SingleOps(ace[start..stop]))
  {
    hide PartsSyntax, Extent, RunMode, EffectOf, SingleOps;
    var (start, stop) := AceSyntax(ace, nperms, denySupport, maskSupport).value;
    var mode := ace[start..];
    ModeActs(mode, p);
    assert ace[start..stop] == mode[..stop - start];
    if AtEnd(mode) {
      NoOps(mode[..0]);
    } else {
      PartsAgreeAll(mode, nperms);
    }
  }

  lemma NoOps(s: string)
    requires s == ""
    ensures SingleOps(s)
  {
  }
}
