/** The repair of a file's access-control lists in place (src/acl_posix.c). */
module AclRepair {
  import opened AclMode
  import opened AclSpec
  import opened AclSyntax
  import opened Options

  // ---- Comparing lists ----

  datatype Perm = Read | Write | Execute

  function GetPerm(p: Perms, which: Perm): bool {
    match which
    case Read => p.read
    case Write => p.write
    case Execute => p.execute
  }

  method PermsetEquals(first: Perms, second: Perms) returns (equal: bool)
    ensures equal <==> first == second
  {
    var available := [Read, Write, Execute];
    for i := 0 to 3
      invariant forall k :: 0 <= k < i ==> GetPerm(first, available[k]) == GetPerm(second, available[k])
    {
      if GetPerm(first, available[i]) != GetPerm(second, available[i]) { return false; }
    }
    assert GetPerm(first, available[0]) == GetPerm(second, available[0]);
    assert GetPerm(first, available[1]) == GetPerm(second, available[1]);
    assert GetPerm(first, available[2]) == GetPerm(second, available[2]);
    return true;
  }

  method FindACE(acl: Acl, key: Key) returns (i: nat)
    ensures i == Find(acl, key)
  {
    i := 0;
    while i < |acl| && acl[i].key != key
      invariant i <= |acl| && forall j :: 0 <= j < i ==> acl[j].key != key
    {
      i := i + 1;
    }
    FindUnique(acl, key, i);
  }

  /** Equally many entries, and each of the first list's is in the second with the same permissions. */
  method ACLEquals(first: Acl, second: Acl) returns (equal: bool)
    requires UniqueKeys(first) && UniqueKeys(second)
    ensures equal <==> SameAcl(first, second)
  {
    hide Find;
    SameLength(first, second);
    if |first| != |second| { return false; }
    var i := 0;
    while i < |first|
      invariant i <= |first|
      invariant forall k :: 0 <= k < i ==> Lookup(second, first[k].key) == Some(first[k].perms)
    {
      FindUnique(first, first[i].key, i);
      var j := FindACE(second, first[i].key);
      if j == |second| { assert Lookup(first, first[i].key) != Lookup(second, first[i].key); return false; }
      var same := PermsetEquals(first[i].perms, second[j].perms);
      if !same { assert Lookup(first, first[i].key) != Lookup(second, first[i].key); return false; }
      i := i + 1;
    }
    CoveringIsSame(first, second);
    return true;
  }

  ghost function Keys(acl: Acl): set<Key> { set i | 0 <= i < |acl| :: acl[i].key }

  lemma {:induction false} KeysCount(acl: Acl)
    requires UniqueKeys(acl)
    ensures |Keys(acl)| == |acl|
  {
    if acl != [] {
      var n := |acl| - 1;
      KeysCount(acl[..n]);
      assert Keys(acl) == Keys(acl[..n]) + {acl[n].key};
      assert acl[n].key !in Keys(acl[..n]);
    }
  }

  lemma KeysLookup(acl: Acl, k: Key)
    ensures k in Keys(acl) <==> Lookup(acl, k).Some?
  {
    hide Find;
    if Find(acl, k) < |acl| { assert acl[Find(acl, k)].key in Keys(acl); }
  }

  lemma SameLength(a: Acl, b: Acl)
    requires UniqueKeys(a) && UniqueKeys(b)
    ensures SameAcl(a, b) ==> |a| == |b|
  {
    hide Lookup;
    if SameAcl(a, b) {
      forall k ensures k in Keys(a) <==> k in Keys(b) {
        KeysLookup(a, k);
        KeysLookup(b, k);
      }
      KeysCount(a);
      KeysCount(b);
      assert Keys(a) == Keys(b);
    }
  }

  lemma SubsetOfEqualSize(x: set<Key>, y: set<Key>)
    requires x <= y && |x| == |y|
    ensures x == y
  {
    assert |y - x| == |y| - |x|;
    assert y == x + (y - x);
  }

  lemma CoveringIsSame(a: Acl, b: Acl)
    requires UniqueKeys(a) && UniqueKeys(b) && |a| == |b|
    requires forall i :: 0 <= i < |a| ==> Lookup(b, a[i].key) == Some(a[i].perms)
    ensures SameAcl(a, b)
  {
    hide Find;
    KeysCount(a);
    KeysCount(b);
    forall k | k in Keys(a) ensures k in Keys(b) { KeysLookup(b, k); }
    SubsetOfEqualSize(Keys(a), Keys(b));
    forall k ensures Lookup(a, k) == Lookup(b, k) {
      KeysLookup(a, k);
      KeysLookup(b, k);
    }
  }

  // ---- Building the new list ----

  /** The loop over a promise's entries. */
  method ApplyAces(start: Acl, aces: seq<string>, names: Names) returns (ok: bool, aclNew: Acl, hasMask: bool)
    requires forall i :: 0 <= i < |aces| ==> InBounds(aces[i], names)
    ensures ok <==> RunAces(start, aces, names).Some?
    ensures ok ==> aclNew == RunAces(start, aces, names).value && hasMask == HasMask(aces, names)
  {
    hide RunAces, Parsed, RunMode, Lookup, Store, EntityAt;
    ok, aclNew, hasMask := true, start, false;
    ghost var goal := RunAces(start, aces, names);
    assert aces[0..] == aces;
    for n := 0 to |aces|
      invariant ok && goal == RunAces(aclNew, aces[n..], names)
      invariant hasMask <==> exists i :: 0 <= i < n && NamesMask(aces[i], names)
    {
      var now := aclNew;
      RunAcesStep(now, aces, n, names);
      var isMask;
      ok, aclNew, isMask := ApplyAce(now, aces[n], names);
      if !ok { return; }
      hasMask := hasMask || isMask;
    }
    RunAcesEnd(aclNew, aces[|aces|..], names);
  }

  lemma RunAcesEnd(acl: Acl, aces: seq<string>, names: Names)
    requires aces == []
    ensures RunAces(acl, aces, names) == Some(acl)
  {
  }

  lemma RunAcesStep(acl: Acl, aces: seq<string>, n: nat, names: Names)
    requires n < |aces| && InBounds(aces[n], names)
    ensures var e := Parsed(aces[n], names);
            if e.None? then RunAces(acl, aces[n..], names) == None
            else
              var r := RunMode(e.value.1, OrNone(Lookup(acl, e.value.0)));
              r.Some? &&
              RunAces(acl, aces[n..], names) == RunAces(Store(acl, e.value.0, r.value.0), aces[n + 1..], names)
  {
    hide Parsed, RunMode, Lookup, Store;
    assert aces[n..][0] == aces[n] && aces[n..][1..] == aces[n + 1..];
    var e := Parsed(aces[n], names);
    if e.Some? { ModeActs(e.value.1, OrNone(Lookup(acl, e.value.0))); }
  }

  /** One entry: finds or creates the entry it is about and applies the mode string to its permissions. */
  method ApplyAce(acl: Acl, ace: string, names: Names) returns (ok: bool, aclNew: Acl, isMask: bool)
    requires InBounds(ace, names)
    ensures ok <==> Parsed(ace, names).Some?
    ensures ok ==> RunMode(Parsed(ace, names).value.1, OrNone(Lookup(acl, Parsed(ace, names).value.0))).Some?
    ensures ok ==> aclNew == Store(acl, Parsed(ace, names).value.0,
                     RunMode(Parsed(ace, names).value.1, OrNone(Lookup(acl, Parsed(ace, names).value.0))).value.0)
    ensures ok ==> isMask == NamesMask(ace, names)
  {
    hide RunMode, EntityAt, ModeExtent;
    aclNew := acl;
    var key, pos;
    ok, key, pos, isMask := ParseEntity(ace, names);
    if !ok { return; }
    var current := FindACE(aclNew, key);
    if current == |aclNew| {
      aclNew := aclNew + [Entry(key, NO_PERMS)];
    }
    if pos == |ace| || ace[pos] != ':' { return false, acl, isMask; }
    var mode := ace[pos + 1..];
    ghost var base := OrNone(Lookup(acl, key));
    assert aclNew[current].perms == base;
    ModeActs(mode, base);
    var perms, stop := ParseMode(mode, aclNew[current].perms);
    aclNew := aclNew[current := Entry(key, perms)];
  }

  // ---- The file ----

  datatype Action = Warn | Fix

  datatype Inherit = NoChange | Specify | Parent | Clear | Unset

  datatype Report = Failed | Fine | Warned | Changed

  class File {
    const isDir: bool
    var access: Acl
    var deflt: Acl

    constructor (isDir: bool, access: Acl, deflt: Acl)
      ensures this.isDir == isDir && this.access == access && this.deflt == deflt
    {
      this.isDir, this.access, this.deflt := isDir, access, deflt;
    }

    /** The kernel keeps no list with two entries about one entity. */
    ghost predicate Valid()
      reads this
    {
      UniqueKeys(access) && UniqueKeys(deflt)
    }

    function Get(isDefault: bool): Acl
      reads this
    {
      if isDefault then deflt else access
    }

    /** acl_set_file: the kernel takes the list or refuses it; what was set is what is read back. */
    method Set(isDefault: bool, acl: Acl, accepts: (bool, Acl) -> bool) returns (ok: bool)
      requires Valid() && UniqueKeys(acl)
      modifies this
      ensures Valid() && ok == accepts(isDefault, acl)
      ensures Get(isDefault) == (if ok then acl else old(Get(isDefault))) && Get(!isDefault) == old(Get(!isDefault))
    {
      ok := accepts(isDefault, acl);
      if ok {
        if isDefault { deflt := acl; } else { access := acl; }
      }
    }
  }

  /** A list that a promise leaves as it is. */
  ghost predicate Settled(acl: Acl, how: Method, aces: seq<string>, names: Names) {
    var r := Repaired(how, acl, aces, names);
    r.Some? && SameAcl(acl, r.value)
  }

  /** What a check reports, and the list it leaves behind. */
  datatype Outcome = Outcome(ok: bool, report: Report, after: Acl)

  /** A list that is not as wanted is warned about, or written where that is allowed. */
  function Written(before: Acl, wanted: Acl, asWanted: bool, warnOk: bool, action: Action, dontDo: bool,
                   accepted: bool): Outcome {
    if asWanted then Outcome(true, Fine, before)
    else if action == Warn then Outcome(warnOk, Warned, before)
    else if dontDo then Outcome(true, Changed, before)
    else if accepted then Outcome(true, Changed, wanted)
    else Outcome(false, Failed, before)
  }

  ghost function AcesOutcome(before: Acl, isDefault: bool, how: Method, aces: seq<string>, names: Names, action: Action,
                             dontDo: bool, accepts: (bool, Acl) -> bool): Outcome {
    var r := Repaired(how, before, aces, names);
    if r.None? then Outcome(false, Failed, before)
    else Written(before, r.value, SameAcl(before, r.value), true, action, dontDo, accepts(isDefault, r.value))
  }

  /** What becomes of the default list; the source fails where the policy is unset. */
  ghost function InheritOutcome(access: Acl, before: Acl, inherit: Inherit, how: Method, aces: seq<string>,
                                names: Names, action: Action, dontDo: bool, accepts: (bool, Acl) -> bool): Outcome {
    match inherit
    case NoChange => Outcome(true, Fine, before)
    case Specify => AcesOutcome(before, true, how, aces, names, action, dontDo, accepts)
    case Parent => Written(before, access, SameAcl(access, before), false, action, dontDo, accepts(true, access))
    case Clear => Written(before, [], before == [], false, action, dontDo, accepts(true, []))
    case Unset => Outcome(false, Failed, before)
  }

  method CheckPosixLinuxACEs(file: File, isDefault: bool, how: Method, aces: seq<string>, names: Names, action: Action,
                             dontDo: bool, accepts: (bool, Acl) -> bool)
    returns (ok: bool, report: Report)
    requires file.Valid() && forall i :: 0 <= i < |aces| ==> InBounds(aces[i], names)
    modifies file
    ensures file.Valid() && file.Get(!isDefault) == old(file.Get(!isDefault))
    ensures Outcome(ok, report, file.Get(isDefault)) ==
            AcesOutcome(old(file.Get(isDefault)), isDefault, how, aces, names, action, dontDo, accepts)
    ensures ok && action == Fix && !dontDo ==> Settled(file.Get(isDefault), how, aces, names)
  {
    hide RunAces, HasMask, Lookup, InBounds, UniqueKeys, SameAcl, CalcMask;
    var existing := file.Get(isDefault);
    NothingUnique();
    var aclNew, hasMask;
    ok, aclNew, hasMask := ApplyAces(if how == Append then existing else [], aces, names);
    if !ok { return false, Failed; }
    if !hasMask { aclNew := CalcMask(aclNew); }
    assert Repaired(how, existing, aces, names) == Some(aclNew);
    RepairedUnique(how, existing, aces, names);
    Reflexive(aclNew);
    RepairConverges(how, existing, aclNew, aces, names);
    var equal := ACLEquals(existing, aclNew);
    if equal { return true, Fine; }
    if action == Warn { return true, Warned; }
    if !dontDo {
      var done := file.Set(isDefault, aclNew, accepts);
      if !done { return false, Failed; }
    }
    return true, Changed;
  }

  lemma Reflexive(acl: Acl)
    ensures SameAcl(acl, acl)
  {
  }

  /** The default list is made equal to the access list. */
  method CheckDefaultEqualsAccessACL(file: File, action: Action, dontDo: bool, accepts: (bool, Acl) -> bool)
    returns (ok: bool, report: Report)
    requires file.Valid()
    modifies file
    ensures file.Valid() && file.access == old(file.access)
    ensures Outcome(ok, report, file.deflt) ==
            Written(old(file.deflt), file.access, SameAcl(file.access, old(file.deflt)), false, action, dontDo,
                    accepts(true, file.access))
  {
    hide SameAcl;
    var equal := ACLEquals(file.access, file.deflt);
    if equal { return true, Fine; }
    if action == Warn { return false, Warned; }
    if !dontDo {
      var done := file.Set(true, file.access, accepts);
      if !done { return false, Failed; }
    }
    return true, Changed;
  }

  /** The default list is made empty. */
  method CheckDefaultClearACL(file: File, action: Action, dontDo: bool, accepts: (bool, Acl) -> bool)
    returns (ok: bool, report: Report)
    requires file.Valid()
    modifies file
    ensures file.Valid() && file.access == old(file.access)
    ensures Outcome(ok, report, file.deflt) ==
            Written(old(file.deflt), [], old(file.deflt) == [], false, action, dontDo, accepts(true, []))
  {
    if file.deflt == [] { return true, Fine; }
    if action == Warn { return false, Warned; }
    if !dontDo {
      var done := file.Set(true, [], accepts);
      if !done { return false, Failed; }
    }
    return true, Changed;
  }

  /** What the inheritance part of a promise asks of a file. */
  ghost predicate InheritSettled(file: File, inherit: Inherit, how: Method, aces: seq<string>, names: Names)
    reads file
  {
    match inherit
    case NoChange => true
    case Specify => Settled(file.deflt, how, aces, names)
    case Parent => SameAcl(file.access, file.deflt)
    case Clear => file.deflt == []
    case Unset => false
  }

  method CheckPosixLinuxInheritACEs(file: File, inherit: Inherit, how: Method, aces: seq<string>, names: Names,
                                    action: Action, dontDo: bool, accepts: (bool, Acl) -> bool)
    returns (ok: bool, report: Report)
    requires file.Valid() && forall i :: 0 <= i < |aces| ==> InBounds(aces[i], names)
    modifies file
    ensures file.Valid() && file.access == old(file.access)
    ensures Outcome(ok, report, file.deflt) ==
            InheritOutcome(file.access, old(file.deflt), inherit, how, aces, names, action, dontDo, accepts)
    ensures ok && action == Fix && !dontDo ==> InheritSettled(file, inherit, how, aces, names)
    ensures old(InheritSettled(file, inherit, how, aces, names)) ==>
      ok && report == Fine && file.deflt == old(file.deflt)
  {
    hide SameAcl, Repaired, InBounds, UniqueKeys;
    match inherit {
      case NoChange => ok, report := true, Fine;
      case Specify => ok, report := CheckPosixLinuxACEs(file, true, how, aces, names, action, dontDo, accepts);
      case Parent =>
        Reflexive(file.access);
        ok, report := CheckDefaultEqualsAccessACL(file, action, dontDo, accepts);
      case Clear => ok, report := CheckDefaultClearACL(file, action, dontDo, accepts);
      case Unset => ok, report := false, Failed;
    }
  }

  datatype Promise = Promise(how: Method, aces: seq<string>, inherit: Inherit, inheritAces: seq<string>)

  predicate PromiseInBounds(p: Promise, names: Names) {
    && (forall i :: 0 <= i < |p.aces| ==> InBounds(p.aces[i], names))
    && (forall i :: 0 <= i < |p.inheritAces| ==> InBounds(p.inheritAces[i], names))
  }

  /** The file is as the promise wants it. */
  ghost predicate Kept(file: File, p: Promise, names: Names)
    reads file
  {
    && Settled(file.access, p.how, p.aces, names)
    && (file.isDir ==> InheritSettled(file, p.inherit, p.how, p.inheritAces, names))
  }

  /** The access list first, then, on directories, the default list. */
  method CheckPosixLinuxACL(file: File, p: Promise, names: Names, action: Action, dontDo: bool,
                            accepts: (bool, Acl) -> bool)
    returns (ok: bool, access: Report, inherit: Report)
    requires file.Valid() && PromiseInBounds(p, names)
    modifies file
    ensures file.Valid()
    ensures var a := AcesOutcome(old(file.access), false, p.how, p.aces, names, action, dontDo, accepts);
            && access == a.report && file.access == a.after
            && if a.ok && file.isDir then
                 Outcome(ok, inherit, file.deflt) ==
                 InheritOutcome(a.after, old(file.deflt), p.inherit, p.how, p.inheritAces, names, action, dontDo,
                                accepts)
               else ok == a.ok && inherit == Fine && file.deflt == old(file.deflt)
    ensures ok && action == Fix && !dontDo ==> Kept(file, p, names)
    ensures old(Kept(file, p, names)) ==>
      (&& ok && access == inherit == Fine && Kept(file, p, names)
       && file.access == old(file.access) && file.deflt == old(file.deflt))
  {
    hide SameAcl, Repaired, InBounds, UniqueKeys;
    inherit := Fine;
    ok, access := CheckPosixLinuxACEs(file, false, p.how, p.aces, names, action, dontDo, accepts);
    if !ok { return; }
    if file.isDir {
      ok, inherit := CheckPosixLinuxInheritACEs(file, p.inherit, p.how, p.inheritAces, names, action, dontDo, accepts);
    }
  }

  /** The lists after a fix. */
  ghost function Fixed(isDir: bool, access: Acl, deflt: Acl, p: Promise, names: Names,
                       accepts: (bool, Acl) -> bool): (Acl, Acl) {
    var a := AcesOutcome(access, false, p.how, p.aces, names, Fix, false, accepts);
    (a.after,
     if a.ok && isDir
     then InheritOutcome(a.after, deflt, p.inherit, p.how, p.inheritAces, names, Fix, false, accepts).after
     else deflt)
  }

  /** Two runs in a row: once the first has succeeded, the second, whatever it is asked to do, finds nothing
      to change and leaves the lists as they were between the runs. */
  method RunTwice(file: File, p: Promise, names: Names, action: Action, dontDo: bool, accepts: (bool, Acl) -> bool)
    returns (first: bool, between: (Acl, Acl), second: bool, access: Report, inherit: Report)
    requires file.Valid() && PromiseInBounds(p, names)
    modifies file
    ensures file.Valid() && between == Fixed(file.isDir, old(file.access), old(file.deflt), p, names, accepts)
    ensures first ==>
      (&& second && access == inherit == Fine && Kept(file, p, names)
       && (file.access, file.deflt) == between)
  {
    hide Kept, PromiseInBounds, UniqueKeys;
    var a, i;
    first, a, i := CheckPosixLinuxACL(file, p, names, Fix, false, accepts);
    between := (file.access, file.deflt);
    second, access, inherit := CheckPosixLinuxACL(file, p, names, action, dontDo, accepts);
  }

  /** Whether a warning lets the check of the default list succeed. */
  lemma WarnVerdict(access: Acl, before: Acl, inherit: Inherit, how: Method, aces: seq<string>, names: Names,
                    dontDo: bool, accepts: (bool, Acl) -> bool)
    ensures InheritOutcome(access, before, inherit, how, aces, names, Warn, dontDo, accepts).ok <==>
      match inherit
      case NoChange => true
      case Specify => Repaired(how, before, aces, names).Some?
      case Parent => SameAcl(access, before)
      case Clear => before == []
      case Unset => false
  {
    hide Repaired, SameAcl;
  }

  /** The entries that the syntax check accepts are read within their bounds. */
  lemma {:induction false} AcceptedInBounds(ace: string, nperms: string, denySupport: bool, maskSupport: bool,
                                            names: Names)
    requires nperms == "" || nperms == "rwx"
    requires AceSyntax(ace, nperms, denySupport, maskSupport).Some?
    ensures InBounds(ace, names)
  {
    hide ModeExtent, RunMode, SingleOps, AceSyntax;
    if Parsed(ace, names).Some? {
      ResolvedName(ace, names);
      AcceptedIsParsed(ace, nperms, denySupport, maskSupport, names, NO_PERMS);
      ModeActs(Parsed(ace, names).value.1, NO_PERMS);
    }
  }

  predicate AllAccepted(aces: seq<string>, nperms: string, denySupport: bool, maskSupport: bool) {
    forall i :: 0 <= i < |aces| ==> AceSyntax(aces[i], nperms, denySupport, maskSupport).Some?
  }

  lemma AcceptedPromise(p: Promise, nperms: string, denySupport: bool, maskSupport: bool, names: Names)
    requires nperms == "" || nperms == "rwx"
    requires AllAccepted(p.aces, nperms, denySupport, maskSupport)
    requires AllAccepted(p.inheritAces, nperms, denySupport, maskSupport)
    ensures PromiseInBounds(p, names)
  {
    hide InBounds, AceSyntax;
    forall i | 0 <= i < |p.aces| ensures InBounds(p.aces[i], names) {
      AcceptedInBounds(p.aces[i], nperms, denySupport, maskSupport, names);
    }
    forall i | 0 <= i < |p.inheritAces| ensures InBounds(p.inheritAces[i], names) {
      AcceptedInBounds(p.inheritAces[i], nperms, denySupport, maskSupport, names);
    }
  }

  /** A promise whose entries the syntax check accepts converges in one run. */
  method RunAcceptedTwice(file: File, p: Promise, ghost nperms: string, ghost denySupport: bool,
                          ghost maskSupport: bool, names: Names, action: Action, dontDo: bool,
                          accepts: (bool, Acl) -> bool)
    returns (first: bool, between: (Acl, Acl), second: bool, access: Report, inherit: Report)
    requires file.Valid() && (nperms == "" || nperms == "rwx")
    requires AllAccepted(p.aces, nperms, denySupport, maskSupport)
    requires AllAccepted(p.inheritAces, nperms, denySupport, maskSupport)
    modifies file
    ensures between == Fixed(file.isDir, old(file.access), old(file.deflt), p, names, accepts)
    ensures first ==>
      (&& second && access == inherit == Fine && Kept(file, p, names)
       && (file.access, file.deflt) == between)
  {
    hide *;
    AcceptedPromise(p, nperms, denySupport, maskSupport, names);
    first, between, second, access, inherit := RunTwice(file, p, names, action, dontDo, accepts);
  }

  lemma ResolvedName(ace: string, names: Names)
    requires EntityAt(ace, names).Some?
    ensures NameResolves(ace, names)
  {
  }
}
