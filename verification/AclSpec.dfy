/**
 * What repairing an access-control list means (src/acl_posix.c): the entries a promise names are
 * applied to the list, one after the other, and a mask is worked out unless one was given.
 */
module AclSpec {
  import opened AclMode
  import opened AclSyntax
  import opened Options

  datatype Entry = Entry(key: Key, perms: Perms)

  type Acl = seq<Entry>

  /** No two entries are about the same entity. */
  predicate UniqueKeys(acl: Acl) { forall i, j :: 0 <= i < j < |acl| ==> acl[i].key != acl[j].key }

  /** The place of the entry about k, or the end. */
  function Find(acl: Acl, k: Key): (i: nat)
    ensures i <= |acl| && (i < |acl| ==> acl[i].key == k)
    ensures forall j :: 0 <= j < i ==> acl[j].key != k
  {
    if acl == [] || acl[0].key == k then 0 else 1 + Find(acl[1..], k)
  }

  function Lookup(acl: Acl, k: Key): Option<Perms> {
    var i := Find(acl, k);
    if i < |acl| then Some(acl[i].perms) else None
  }

  /** The same permissions for the same entities, in whatever order. */
  ghost predicate SameAcl(a: Acl, b: Acl) { forall k :: Lookup(a, k) == Lookup(b, k) }

  /** Gives k the permissions p, in place or in a new entry at the end. */
  function Store(acl: Acl, k: Key, p: Perms): (r: Acl) {
    var i := Find(acl, k);
    if i < |acl| then acl[i := Entry(k, p)] else acl + [Entry(k, p)]
  }

  lemma FindUnique(acl: Acl, k: Key, i: nat)
    requires i <= |acl| && (i < |acl| ==> acl[i].key == k) && forall j :: 0 <= j < i ==> acl[j].key != k
    ensures Find(acl, k) == i
  {
  }

  lemma StoreLookup(acl: Acl, k: Key, p: Perms, l: Key)
    ensures Lookup(Store(acl, k, p), l) == if l == k then Some(p) else Lookup(acl, l)
  {
    hide Find;
    var r, i, m := Store(acl, k, p), Find(acl, k), Find(acl, l);
    if l == k { FindUnique(r, l, i); }
    else if m < |acl| { FindUnique(r, l, m); }
    else { FindUnique(r, l, |r|); }
  }

  lemma StoreUnique(acl: Acl, k: Key, p: Perms)
    requires UniqueKeys(acl)
    ensures UniqueKeys(Store(acl, k, p))
  {
    hide Find;
    var i := Find(acl, k);
    assert i == |acl| ==> forall j :: 0 <= j < |acl| ==> acl[j].key != k;
  }

  // ---- The entries of a promise ----

  /** An entry as the parser takes it: its entity, and the mode string behind the colon. */
  function Parsed(ace: string, names: Names): Option<(Key, string)> {
    var e := EntityAt(ace, names);
    if e.None? then None
    else
      var pos := e.value.1;
      if pos < |ace| && ace[pos] == ':' then Some((e.value.0, ace[pos + 1..])) else None
  }

  /** Reading the mode string does not run past its end; every entry the syntax check accepts is such. */
  predicate InBounds(ace: string, names: Names) {
    var e := Parsed(ace, names);
    e.Some? ==> ModeExtent(e.value.1).Some?
  }

  function OrNone(p: Option<Perms>): Perms { if p.Some? then p.value else NO_PERMS }

  /** The list after all entries; None when one of them does not parse. */
  function RunAces(acl: Acl, aces: seq<string>, names: Names): Option<Acl>
    decreases |aces|
  {
    if aces == [] then Some(acl)
    else
      var e := Parsed(aces[0], names);
      if e.None? then None
      else
        var (k, mode) := e.value;
        var r := RunMode(mode, OrNone(Lookup(acl, k)));
        if r.None? then None else RunAces(Store(acl, k, r.value.0), aces[1..], names)
  }

  predicate NamesMask(ace: string, names: Names) {
    var e := EntityAt(ace, names);
    e.Some? && e.value.0 == Mask
  }

  predicate HasMask(aces: seq<string>, names: Names) { exists i :: 0 <= i < |aces| && NamesMask(aces[i], names) }

  /** The entities whose permissions the mask bounds. */
  predicate InGroupClass(k: Key) { k.User? || k == GroupObj || k.Group? }

  function Union(p: Perms, q: Perms): Perms { Perms(p.read || q.read, p.write || q.write, p.execute || q.execute) }

  function GroupClass(acl: Acl): Perms {
    if acl == [] then NO_PERMS
    else if InGroupClass(acl[0].key) then Union(acl[0].perms, GroupClass(acl[1..]))
    else GroupClass(acl[1..])
  }

  /** acl_calc_mask, section 23.4.2 of POSIX.1e draft 17: the mask entry, created if it is missing, gets
      the union of the permissions of the file group class. */
  function CalcMask(acl: Acl): Acl { Store(acl, Mask, GroupClass(acl)) }

  datatype Method = Append | Overwrite

  /** The list a promise asks for, given the one that is there. */
  function Repaired(how: Method, existing: Acl, aces: seq<string>, names: Names): Option<Acl> {
    var r := RunAces(if how == Append then existing else [], aces, names);
    if r.None? || HasMask(aces, names) then r else Some(CalcMask(r.value))
  }

  // ---- What applying the entries does to each entity ----

  predicate Touches(aces: seq<string>, names: Names, k: Key) {
    aces != [] && (Touches(aces[1..], names, k) ||
                   (Parsed(aces[0], names).Some? && Parsed(aces[0], names).value.0 == k))
  }

  function EffectFor(aces: seq<string>, names: Names, k: Key): Effect {
    if aces == [] then KEEP_ALL
    else
      var e := Parsed(aces[0], names);
      if e.Some? && e.value.0 == k then Compose(EffectOf(e.value.1), EffectFor(aces[1..], names, k))
      else EffectFor(aces[1..], names, k)
  }

  lemma {:induction false} RunUnique(acl: Acl, aces: seq<string>, names: Names)
    requires UniqueKeys(acl) && RunAces(acl, aces, names).Some?
    ensures UniqueKeys(RunAces(acl, aces, names).value)
    decreases |aces|
  {
    hide Store, UniqueKeys, RunMode, Parsed, Lookup;
    if aces != [] {
      var (k, mode) := Parsed(aces[0], names).value;
      var p := RunMode(mode, OrNone(Lookup(acl, k))).value.0;
      StoreUnique(acl, k, p);
      RunUnique(Store(acl, k, p), aces[1..], names);
    }
  }

  /** Each entity named ends with the composed effect of its entries; the others are left alone. */
  lemma {:induction false} RunLookup(acl: Acl, aces: seq<string>, names: Names, k: Key)
    requires RunAces(acl, aces, names).Some?
    ensures Lookup(RunAces(acl, aces, names).value, k) ==
            if Touches(aces, names, k) then Some(Apply(EffectFor(aces, names, k), OrNone(Lookup(acl, k))))
            else Lookup(acl, k)
    ensures !Touches(aces, names, k) ==> EffectFor(aces, names, k) == KEEP_ALL
    decreases |aces|
  {
    hide Store, RunMode, Parsed, Lookup, Apply, EffectOf, Compose;
    if aces != [] {
      var (l, mode) := Parsed(aces[0], names).value;
      var base := OrNone(Lookup(acl, l));
      var p := RunMode(mode, base).value.0;
      StoreLookup(acl, l, p, k);
      RunLookup(Store(acl, l, p), aces[1..], names, k);
      if k == l {
        ModeActs(mode, base);
        ComposeApplies(EffectOf(mode), EffectFor(aces[1..], names, k), base);
        KeepAll(p);
      }
    }
  }

  lemma KeepAll(p: Perms)
    ensures Apply(KEEP_ALL, p) == p
  {
  }

  /** Whether all entries parse does not depend on the list they are applied to. */
  lemma {:induction false} RunSucceeds(a: Acl, b: Acl, aces: seq<string>, names: Names)
    ensures RunAces(a, aces, names).Some? <==> RunAces(b, aces, names).Some?
    decreases |aces|
  {
    hide Store, RunMode, Parsed, Lookup;
    if aces != [] && Parsed(aces[0], names).Some? {
      var (k, mode) := Parsed(aces[0], names).value;
      var p, q := OrNone(Lookup(a, k)), OrNone(Lookup(b, k));
      ModeActs(mode, p);
      ModeActs(mode, q);
      if RunMode(mode, p).Some? {
        RunSucceeds(Store(a, k, RunMode(mode, p).value.0), Store(b, k, RunMode(mode, q).value.0), aces[1..], names);
      }
    }
  }

  lemma {:induction false} MaskTouched(aces: seq<string>, names: Names)
    requires Touches(aces, names, Mask)
    ensures HasMask(aces, names)
    decreases |aces|
  {
    if Touches(aces[1..], names, Mask) {
      MaskTouched(aces[1..], names);
      var i :| 0 <= i < |aces| - 1 && NamesMask(aces[1..][i], names);
      assert NamesMask(aces[i + 1], names);
    } else {
      assert NamesMask(aces[0], names);
    }
  }

  // ---- The mask depends on the list as a map ----

  predicate Below(p: Perms, q: Perms) {
    (p.read ==> q.read) && (p.write ==> q.write) && (p.execute ==> q.execute)
  }

  lemma {:induction false} GroupClassBounds(acl: Acl, i: nat)
    requires i < |acl| && InGroupClass(acl[i].key)
    ensures Below(acl[i].perms, GroupClass(acl))
  {
    if i > 0 { GroupClassBounds(acl[1..], i - 1); }
  }

  lemma {:induction false} GroupClassLeast(acl: Acl, q: Perms)
    requires forall i :: 0 <= i < |acl| && InGroupClass(acl[i].key) ==> Below(acl[i].perms, q)
    ensures Below(GroupClass(acl), q)
  {
    if acl != [] {
      forall i | 0 <= i < |acl| - 1 && InGroupClass(acl[1..][i].key) ensures Below(acl[1..][i].perms, q) {
        assert acl[1..][i] == acl[i + 1];
      }
      GroupClassLeast(acl[1..], q);
    }
  }

  lemma GroupClassBelow(a: Acl, b: Acl)
    requires UniqueKeys(a)
    requires forall k :: InGroupClass(k) ==> Lookup(a, k) == Lookup(b, k)
    ensures Below(GroupClass(a), GroupClass(b))
  {
    hide Find, GroupClass;
    forall i | 0 <= i < |a| && InGroupClass(a[i].key) ensures Below(a[i].perms, GroupClass(b)) {
      FindUnique(a, a[i].key, i);
      assert Lookup(a, a[i].key) == Lookup(b, a[i].key);
      GroupClassBounds(b, Find(b, a[i].key));
    }
    GroupClassLeast(a, GroupClass(b));
  }

  lemma SameGroupClass(a: Acl, b: Acl)
    requires UniqueKeys(a) && UniqueKeys(b)
    requires forall k :: InGroupClass(k) ==> Lookup(a, k) == Lookup(b, k)
    ensures GroupClass(a) == GroupClass(b)
  {
    GroupClassBelow(a, b);
    GroupClassBelow(b, a);
  }

  // ---- Convergence ----

  lemma RepairedUnique(how: Method, existing: Acl, aces: seq<string>, names: Names)
    requires UniqueKeys(existing) && Repaired(how, existing, aces, names).Some?
    ensures UniqueKeys(Repaired(how, existing, aces, names).value)
  {
    hide RunAces, UniqueKeys, Store, HasMask;
    NothingUnique();
    var start := if how == Append then existing else [];
    RunUnique(start, aces, names);
    var r := RunAces(start, aces, names).value;
    StoreUnique(r, Mask, GroupClass(r));
  }

  lemma NothingUnique()
    ensures UniqueKeys([])
  {
  }

  /** What a repaired list holds for k. */
  lemma RepairedLookup(how: Method, existing: Acl, aces: seq<string>, names: Names, k: Key)
    requires Repaired(how, existing, aces, names).Some?
    ensures var start := if how == Append then existing else [];
            var r := RunAces(start, aces, names);
            && r.Some?
            && Lookup(Repaired(how, existing, aces, names).value, k) ==
               if k == Mask && !HasMask(aces, names) then Some(GroupClass(r.value)) else Lookup(r.value, k)
  {
    hide RunAces, Store, HasMask, Lookup, GroupClass;
    var start := if how == Append then existing else [];
    var r := RunAces(start, aces, names).value;
    StoreLookup(r, Mask, GroupClass(r), k);
  }

  /** Applying the entries to a list they have already been applied to changes nothing for any entity. */
  lemma RunAgain(how: Method, existing: Acl, again: Acl, aces: seq<string>, names: Names, k: Key)
    requires Repaired(how, existing, aces, names).Some? && (k != Mask || HasMask(aces, names))
    requires Lookup(again, k) == Lookup(Repaired(how, existing, aces, names).value, k)
    ensures var r := RunAces(if how == Append then again else [], aces, names);
            r.Some? && Lookup(r.value, k) == Lookup(again, k)
  {
    hide RunAces, HasMask, Lookup, GroupClass, Touches, EffectFor, Apply, Repaired;
    var before, start := if how == Append then existing else [], if how == Append then again else [];
    RepairedLookup(how, existing, aces, names, k);
    RunSucceeds(before, start, aces, names);
    RunLookup(before, aces, names, k);
    RunLookup(start, aces, names, k);
    ApplyIdempotent(EffectFor(aces, names, k), OrNone(Lookup(before, k)));
  }

  /** Without a mask entry, the mask worked out the first time is the one worked out again. */
  lemma {:induction false} MaskAgain(how: Method, existing: Acl, again: Acl, aces: seq<string>, names: Names)
    requires UniqueKeys(existing) && UniqueKeys(again) && !HasMask(aces, names)
    requires Repaired(how, existing, aces, names).Some? && SameAcl(again, Repaired(how, existing, aces, names).value)
    ensures var r, r' := RunAces(if how == Append then existing else [], aces, names),
                         RunAces(if how == Append then again else [], aces, names);
            r.Some? && r'.Some? && GroupClass(r.value) == GroupClass(r'.value)
  {
    hide RunAces, HasMask, Lookup, GroupClass, Repaired, UniqueKeys;
    NothingUnique();
    var before, start := if how == Append then existing else [], if how == Append then again else [];
    RunAgain(how, existing, again, aces, names, Other);
    RepairedLookup(how, existing, aces, names, Other);
    RunUnique(before, aces, names);
    RunUnique(start, aces, names);
    var r, r' := RunAces(before, aces, names).value, RunAces(start, aces, names).value;
    forall k | InGroupClass(k) ensures Lookup(r, k) == Lookup(r', k) {
      RunAgain(how, existing, again, aces, names, k);
      RepairedLookup(how, existing, aces, names, k);
    }
    SameGroupClass(r, r');
  }

  /**
   * Repair converges: a list that holds what a repair has produced, in whatever order, is what
   * repairing it once more asks for.
   */
  lemma RepairConverges(how: Method, existing: Acl, again: Acl, aces: seq<string>, names: Names)
    requires UniqueKeys(existing) && UniqueKeys(again)
    requires Repaired(how, existing, aces, names).Some? && SameAcl(again, Repaired(how, existing, aces, names).value)
    ensures var r := Repaired(how, again, aces, names);
            r.Some? && UniqueKeys(r.value) && SameAcl(again, r.value)
  {
    hide RunAces, HasMask, Lookup, GroupClass, UniqueKeys, Repaired;
    RunAgain(how, existing, again, aces, names, Other);
    RepairedSome(how, again, aces, names);
    RepairedUnique(how, again, aces, names);
    var r, r' := Repaired(how, existing, aces, names).value, Repaired(how, again, aces, names).value;
    forall k ensures Lookup(again, k) == Lookup(r', k) {
      RepairedLookup(how, existing, aces, names, k);
      RepairedLookup(how, again, aces, names, k);
      if k != Mask || HasMask(aces, names) {
        RunAgain(how, existing, again, aces, names, k);
      } else {
        MaskAgain(how, existing, again, aces, names);
      }
    }
  }

  lemma RepairedSome(how: Method, existing: Acl, aces: seq<string>, names: Names)
    requires RunAces(if how == Append then existing else [], aces, names).Some?
    ensures Repaired(how, existing, aces, names).Some?
  {
  }
}
