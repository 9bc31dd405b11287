/**
 * The small map of src/array_map.c: a bounded array of entries that owns the keys and values it has
 * accepted, and destroys each of them once.
 */
module ArrayMap {
  import opened Options

  const TINY_LIMIT := 14

  /** Keys and values are objects, named by their identities. */
  datatype Pair = Pair(key: int, value: int)

  ghost predicate Equivalence(eq: (int, int) -> bool) {
    && (forall x :: eq(x, x))
    && (forall x, y :: eq(x, y) ==> eq(y, x))
    && (forall x, y, z :: eq(x, y) && eq(y, z) ==> eq(x, z))
  }

  // ---- Entries as a map over the classes of eq ----

  function Find(s: seq<Pair>, eq: (int, int) -> bool, k: int): (i: nat)
    ensures i <= |s| && (i < |s| ==> eq(s[i].key, k)) && forall j :: 0 <= j < i ==> !eq(s[j].key, k)
  {
    if s == [] || eq(s[0].key, k) then 0 else 1 + Find(s[1..], eq, k)
  }

  function Lookup(s: seq<Pair>, eq: (int, int) -> bool, k: int): Option<int> {
    var i := Find(s, eq, k);
    if i < |s| then Some(s[i].value) else None
  }

  /** No two entries have equal keys. */
  predicate DistinctKeys(s: seq<Pair>, eq: (int, int) -> bool) {
    forall i, j :: 0 <= i < j < |s| ==> !eq(s[i].key, s[j].key)
  }

  function Inserted(s: seq<Pair>, eq: (int, int) -> bool, k: int, v: int): seq<Pair> {
    var i := Find(s, eq, k);
    if i < |s| then s[i := Pair(s[i].key, v)] else s + [Pair(k, v)]
  }

  function Removed(s: seq<Pair>, eq: (int, int) -> bool, k: int): seq<Pair> {
    var i := Find(s, eq, k);
    if i < |s| then s[..i] + s[i + 1..] else s
  }

  lemma FindUnique(s: seq<Pair>, eq: (int, int) -> bool, k: int, i: nat)
    requires i <= |s| && (i < |s| ==> eq(s[i].key, k)) && forall j :: 0 <= j < i ==> !eq(s[j].key, k)
    ensures Find(s, eq, k) == i
  {
  }

  /** Classes are equal or disjoint. */
  lemma Classes(eq: (int, int) -> bool, k: int, l: int)
    requires Equivalence(eq)
    ensures eq(k, l) ==> forall x :: eq(x, k) <==> eq(x, l)
    ensures !eq(k, l) ==> forall x :: eq(x, k) ==> !eq(x, l)
  {
    forall x ensures eq(x, k) ==> (eq(x, l) <==> eq(k, l)) {
      if eq(x, k) { assert eq(k, x); }
    }
    if eq(k, l) { assert eq(l, k); }
  }

  /** At most one entry answers to a key. */
  lemma OnlyOne(s: seq<Pair>, eq: (int, int) -> bool, k: int, i: nat)
    requires Equivalence(eq) && DistinctKeys(s, eq) && i < |s| && eq(s[i].key, k)
    ensures forall j :: 0 <= j < |s| && eq(s[j].key, k) ==> j == i
    ensures Find(s, eq, k) == i
  {
    hide Find;
    forall j | 0 <= j < |s| && eq(s[j].key, k) ensures j == i {
      assert eq(k, s[j].key) && eq(k, s[i].key);
    }
    FindUnique(s, eq, k, i);
  }

  /** Insertion sets one class of keys and leaves the others; keys stay distinct. */
  lemma InsertedRefines(s: seq<Pair>, eq: (int, int) -> bool, k: int, v: int, l: int)
    requires Equivalence(eq) && DistinctKeys(s, eq)
    ensures Lookup(Inserted(s, eq, k, v), eq, l) == if eq(k, l) then Some(v) else Lookup(s, eq, l)
    ensures DistinctKeys(Inserted(s, eq, k, v), eq)
  {
    hide Find;
    var r, i, m := Inserted(s, eq, k, v), Find(s, eq, k), Find(s, eq, l);
    Classes(eq, k, l);
    if i < |s| {
      assert forall j :: 0 <= j < |s| ==> r[j].key == s[j].key;
      FindUnique(r, eq, l, m);
      if eq(k, l) { OnlyOne(s, eq, l, i); }
    } else if eq(k, l) {
      FindUnique(r, eq, l, |s|);
    } else {
      FindUnique(r, eq, l, if m < |s| then m else |r|);
    }
  }

  /** Removal clears one class of keys, keeps the others and the order of the entries that stay. */
  lemma RemovedRefines(s: seq<Pair>, eq: (int, int) -> bool, k: int, l: int)
    requires Equivalence(eq) && DistinctKeys(s, eq)
    ensures Lookup(Removed(s, eq, k), eq, l) == if eq(k, l) then None else Lookup(s, eq, l)
    ensures DistinctKeys(Removed(s, eq, k), eq)
  {
    hide Find;
    var r, i, m := Removed(s, eq, k), Find(s, eq, k), Find(s, eq, l);
    Classes(eq, k, l);
    assert forall j :: 0 <= j < |r| ==> r[j] == s[if j < i then j else j + 1];
    if eq(k, l) {
      if i < |s| { OnlyOne(s, eq, k, i); }
      FindUnique(r, eq, l, |r|);
    } else if i < |s| {
      FindUnique(r, eq, l, if m < i then m else m - 1);
    }
  }

  /** The entries of other classes, in their order. */
  function Others(s: seq<Pair>, eq: (int, int) -> bool, k: int): seq<Pair> {
    if s == [] then []
    else (if eq(s[0].key, k) then [] else [s[0]]) + Others(s[1..], eq, k)
  }

  lemma {:induction false} NoneOf(s: seq<Pair>, eq: (int, int) -> bool, k: int)
    requires forall i :: 0 <= i < |s| ==> !eq(s[i].key, k)
    ensures Others(s, eq, k) == s
  {
    if s != [] { NoneOf(s[1..], eq, k); }
  }

  lemma RemovedHead(s: seq<Pair>, eq: (int, int) -> bool, k: int)
    requires s != []
    ensures eq(s[0].key, k) ==> Removed(s, eq, k) == s[1..]
    ensures !eq(s[0].key, k) ==> Removed(s, eq, k) == [s[0]] + Removed(s[1..], eq, k)
  {
    var i := Find(s[1..], eq, k);
    if !eq(s[0].key, k) {
      assert Find(s, eq, k) == 1 + i && s == [s[0]] + s[1..];
      if i < |s| - 1 { assert s[..i + 1] == [s[0]] + s[1..][..i] && s[1..][i + 1..] == s[i + 2..]; }
    }
  }

  /** Removal takes out the class of the key and keeps the order of the rest. */
  lemma {:induction false} RemovedInOrder(s: seq<Pair>, eq: (int, int) -> bool, k: int)
    requires Equivalence(eq) && DistinctKeys(s, eq)
    ensures Removed(s, eq, k) == Others(s, eq, k)
  {
    hide Removed, Find, Equivalence;
    if s == [] {
      NothingRemoved(eq, k);
    } else {
      RemovedHead(s, eq, k);
      assert forall i :: 0 <= i < |s| - 1 ==> s[1..][i] == s[i + 1];
      if eq(s[0].key, k) {
        OnlyOne(s, eq, k, 0);
        NoneOf(s[1..], eq, k);
      } else {
        RemovedInOrder(s[1..], eq, k);
      }
    }
  }

  lemma NothingRemoved(eq: (int, int) -> bool, k: int)
    ensures Removed([], eq, k) == []
  {
  }

  /** A new class of keys goes behind the others; for one that is there, the key stays and the value changes. */
  lemma InsertedInPlace(s: seq<Pair>, eq: (int, int) -> bool, k: int, v: int, i: nat)
    requires Equivalence(eq) && DistinctKeys(s, eq)
    ensures (forall j :: 0 <= j < |s| ==> !eq(s[j].key, k)) ==> Inserted(s, eq, k, v) == s + [Pair(k, v)]
    ensures i < |s| && eq(s[i].key, k) ==> Inserted(s, eq, k, v) == s[i := Pair(s[i].key, v)]
  {
    hide Find;
    if i < |s| && eq(s[i].key, k) { OnlyOne(s, eq, k, i); }
  }

  // ---- The map itself ----

  function KeysOf(s: seq<Pair>): seq<int> { seq(|s|, i requires 0 <= i < |s| => s[i].key) }

  function ValuesOf(s: seq<Pair>): seq<int> { seq(|s|, i requires 0 <= i < |s| => s[i].value) }

  /** What the map has taken over, and what it has passed to the destructors, in order. */
  datatype Ledger = Ledger(keysIn: seq<int>, valuesIn: seq<int>, keysOut: seq<int>, valuesOut: seq<int>)
  {
    function Take(k: int, v: int): Ledger { this.(keysIn := keysIn + [k], valuesIn := valuesIn + [v]) }

    function Destroy(k: int, v: int): Ledger { this.(keysOut := keysOut + [k], valuesOut := valuesOut + [v]) }
  }

  /** Every key and value taken over is either live or destroyed: nothing is lost, nothing destroyed twice. */
  predicate Balanced(live: seq<Pair>, l: Ledger) {
    && multiset(l.keysIn) == multiset(KeysOf(live)) + multiset(l.keysOut)
    && multiset(l.valuesIn) == multiset(ValuesOf(live)) + multiset(l.valuesOut)
  }

  lemma BalancedAdd(live: seq<Pair>, l: Ledger, k: int, v: int)
    requires Balanced(live, l)
    ensures Balanced(live + [Pair(k, v)], l.Take(k, v))
  {
    assert KeysOf(live + [Pair(k, v)]) == KeysOf(live) + [k];
    assert ValuesOf(live + [Pair(k, v)]) == ValuesOf(live) + [v];
  }

  lemma BalancedReplace(live: seq<Pair>, l: Ledger, i: nat, k: int, v: int)
    requires Balanced(live, l) && i < |live|
    ensures Balanced(live[i := Pair(live[i].key, v)], l.Take(k, v).Destroy(k, live[i].value))
  {
    var s := live[i := Pair(live[i].key, v)];
    assert KeysOf(s) == KeysOf(live);
    assert ValuesOf(s) == ValuesOf(live)[i := v];
    assert multiset(ValuesOf(s)) + multiset{live[i].value} == multiset(ValuesOf(live)) + multiset{v};
  }

  lemma BalancedDrop(live: seq<Pair>, l: Ledger, i: nat)
    requires Balanced(live, l) && i < |live|
    ensures Balanced(live[..i] + live[i + 1..], l.Destroy(live[i].key, live[i].value))
  {
    var r := live[..i] + live[i + 1..];
    assert KeysOf(live) == KeysOf(live)[..i] + [live[i].key] + KeysOf(live)[i + 1..];
    assert KeysOf(r) == KeysOf(live)[..i] + KeysOf(live)[i + 1..];
    assert ValuesOf(live) == ValuesOf(live)[..i] + [live[i].value] + ValuesOf(live)[i + 1..];
    assert ValuesOf(r) == ValuesOf(live)[..i] + ValuesOf(live)[i + 1..];
  }

  lemma BalancedEmpty(l: Ledger)
    ensures Balanced([], l) <==>
      multiset(l.keysIn) == multiset(l.keysOut) && multiset(l.valuesIn) == multiset(l.valuesOut)
  {
    assert KeysOf([]) == [] && ValuesOf([]) == [];
  }

  /** What an accepted insertion does to the ledger. */
  function AfterInsert(s: seq<Pair>, eq: (int, int) -> bool, k: int, v: int, l: Ledger): Ledger {
    var previous := Lookup(s, eq, k);
    if previous.Some? then l.Take(k, v).Destroy(k, previous.value) else l.Take(k, v)
  }

  lemma {:induction false} InsertParts(s: seq<Pair>, eq: (int, int) -> bool, k: int, v: int, l: Ledger)
    requires Equivalence(eq) && DistinctKeys(s, eq) && Balanced(s, l)
    ensures var i, r, l' := Find(s, eq, k), Inserted(s, eq, k, v), AfterInsert(s, eq, k, v, l);
            && DistinctKeys(r, eq) && Balanced(r, l')
            && r == (if i < |s| then s[i := Pair(s[i].key, v)] else s + [Pair(k, v)])
            && l' == if i < |s| then l.Take(k, v).Destroy(k, s[i].value) else l.Take(k, v)
  {
    hide Balanced, Equivalence, DistinctKeys, Find;
    InsertedRefines(s, eq, k, v, k);
    var i := Find(s, eq, k);
    if i < |s| { BalancedReplace(s, l, i, k, v); } else { BalancedAdd(s, l, k, v); }
  }

  /** What is handed to the destructors: nothing for a new class of keys; else the key handed in, as the one in
      the map stays, and the value replaced. */
  lemma InsertDestroys(s: seq<Pair>, eq: (int, int) -> bool, k: int, v: int, l: Ledger, i: nat)
    requires Equivalence(eq) && DistinctKeys(s, eq)
    ensures var l' := AfterInsert(s, eq, k, v, l);
            && l'.keysIn == l.keysIn + [k] && l'.valuesIn == l.valuesIn + [v]
            && (i < |s| && eq(s[i].key, k) ==>
                  l'.keysOut == l.keysOut + [k] && l'.valuesOut == l.valuesOut + [s[i].value])
            && ((forall j :: 0 <= j < |s| ==> !eq(s[j].key, k)) ==>
                  l'.keysOut == l.keysOut && l'.valuesOut == l.valuesOut)
  {
    hide Find;
    if i < |s| && eq(s[i].key, k) { OnlyOne(s, eq, k, i); }
  }

  /** What a removal does to the ledger. */
  function AfterRemove(s: seq<Pair>, eq: (int, int) -> bool, k: int, l: Ledger): Ledger {
    var i := Find(s, eq, k);
    if i < |s| then l.Destroy(s[i].key, s[i].value) else l
  }

  /** A removal destroys the entry's own key and its value. */
  lemma RemoveDestroys(s: seq<Pair>, eq: (int, int) -> bool, k: int, l: Ledger, i: nat)
    requires Equivalence(eq) && DistinctKeys(s, eq)
    ensures var l' := AfterRemove(s, eq, k, l);
            && l'.keysIn == l.keysIn && l'.valuesIn == l.valuesIn
            && (i < |s| && eq(s[i].key, k) ==>
                  l'.keysOut == l.keysOut + [s[i].key] && l'.valuesOut == l.valuesOut + [s[i].value])
            && ((forall j :: 0 <= j < |s| ==> !eq(s[j].key, k)) ==> l' == l)
  {
    hide Find;
    if i < |s| && eq(s[i].key, k) { OnlyOne(s, eq, k, i); }
  }

  lemma RemoveParts(s: seq<Pair>, eq: (int, int) -> bool, k: int, l: Ledger)
    requires Equivalence(eq) && DistinctKeys(s, eq) && Balanced(s, l)
    ensures var i, r, l' := Find(s, eq, k), Removed(s, eq, k), AfterRemove(s, eq, k, l);
            && DistinctKeys(r, eq) && Balanced(r, l')
            && r == (if i < |s| then s[..i] + s[i + 1..] else s)
            && l' == if i < |s| then l.Destroy(s[i].key, s[i].value) else l
  {
    hide Balanced, Equivalence, DistinctKeys, Find;
    RemovedRefines(s, eq, k, k);
    var i := Find(s, eq, k);
    if i < |s| { BalancedDrop(s, l, i); }
  }

  /** What clearing the map does to the ledger. */
  function AfterClear(s: seq<Pair>, l: Ledger): Ledger {
    l.(keysOut := l.keysOut + KeysOf(s), valuesOut := l.valuesOut + ValuesOf(s))
  }

  lemma AllDestroyed(live: seq<Pair>, l: Ledger)
    requires Balanced(live, l)
    ensures Balanced([], AfterClear(live, l))
  {
    BalancedEmpty(AfterClear(live, l));
  }

  class Map {
    const equal: (int, int) -> bool
    const values: array<Pair>
    var size: nat
    ghost var ledger: Ledger

    function Live(): seq<Pair>
      requires size <= values.Length
      reads this, values
    {
      values[..size]
    }

    ghost predicate Valid()
      reads this, values
    {
      && values.Length == TINY_LIMIT && size <= TINY_LIMIT
      && Equivalence(equal) && DistinctKeys(Live(), equal) && Balanced(Live(), ledger)
    }

    constructor (equal: (int, int) -> bool)
      requires Equivalence(equal)
      ensures Valid() && fresh(values) && Live() == [] && this.equal == equal && ledger == Ledger([], [], [], [])
    {
      this.equal := equal;
      this.values := new Pair[TINY_LIMIT](_ => Pair(0, 0));
      this.size := 0;
      this.ledger := Ledger([], [], [], []);
      new;
      BalancedEmpty(ledger);
    }

    method Search(key: int) returns (i: nat)
      requires size <= values.Length
      ensures i == Find(Live(), equal, key)
    {
      i := 0;
      while i < size && !equal(values[i].key, key)
        invariant i <= size && forall j :: 0 <= j < i ==> !equal(values[j].key, key)
      {
        i := i + 1;
      }
      FindUnique(Live(), equal, key, i);
    }

    /** A full map refuses, whatever the key. Otherwise the map takes over key and value; a key it has
        already got is destroyed at once, with the value it replaces. */
    method Insert(key: int, value: int) returns (ok: bool)
      requires Valid()
      modifies this, values
      ensures Valid() && ok == (old(size) != TINY_LIMIT)
      ensures !ok ==> Live() == old(Live()) && ledger == old(ledger)
      ensures ok ==> Live() == Inserted(old(Live()), equal, key, value)
      ensures ok ==> ledger == AfterInsert(old(Live()), equal, key, value, old(ledger))
    {
      hide Balanced, Equivalence, DistinctKeys, Find, Inserted, AfterInsert;
      if size == TINY_LIMIT { return false; }
      ghost var s := Live();
      InsertParts(s, equal, key, value, ledger);
      var i := Search(key);
      if i < size {
        ledger := ledger.Take(key, value).Destroy(key, values[i].value);
        values[i] := values[i].(value := value);
        assert Live() == s[i := Pair(s[i].key, value)];
      } else {
        ledger := ledger.Take(key, value);
        values[size] := Pair(key, value);
        size := size + 1;
        assert Live() == s + [Pair(key, value)];
      }
      return true;
    }

    /** Moves the entries behind slot i one slot down. */
    method CloseGap(i: nat)
      requires i < size <= values.Length
      modifies values
      ensures values[..size - 1] == old(values[..i]) + old(values[i + 1..size])
    {
      forall j | i <= j < size - 1 { values[j] := values[j + 1]; }
      assert |old(values[..i])| == i;
    }

    /** Destroys the entry that answers to the key and closes the gap. */
    method Remove(key: int) returns (found: bool)
      requires Valid()
      modifies this, values
      ensures Valid() && found == old(Find(Live(), equal, key) < size)
      ensures Live() == Removed(old(Live()), equal, key)
      ensures ledger == AfterRemove(old(Live()), equal, key, old(ledger))
    {
      hide Balanced, Equivalence, DistinctKeys, Find, Removed, AfterRemove;
      ghost var s := Live();
      RemoveParts(s, equal, key, ledger);
      var i := Search(key);
      if i == size { return false; }
      ledger := ledger.Destroy(values[i].key, values[i].value);
      assert values[..i] == s[..i] && values[i + 1..size] == s[i + 1..];
      CloseGap(i);
      size := size - 1;
      assert Live() == s[..i] + s[i + 1..];
      return true;
    }

    /** The slot of the entry that answers to the key, so that the caller holds the entry itself. */
    method Get(key: int) returns (slot: Option<nat>)
      requires Valid()
      ensures slot.Some? ==> slot.value < size && equal(values[slot.value].key, key)
      ensures Lookup(Live(), equal, key) == if slot.Some? then Some(values[slot.value].value) else None
    {
      var i := Search(key);
      slot := if i < size then Some(i) else None;
    }

    /** Destroys every entry, first to last. */
    method Clear()
      requires Valid()
      modifies this
      ensures Valid() && Live() == []
      ensures ledger == AfterClear(old(Live()), old(ledger))
    {
      hide Balanced, Equivalence;
      ghost var s, l := Live(), ledger;
      for i := 0 to size
        invariant size == |s| && Live() == s
        invariant ledger == l.(keysOut := l.keysOut + KeysOf(s)[..i], valuesOut := l.valuesOut + ValuesOf(s)[..i])
      {
        ledger := ledger.Destroy(values[i].key, values[i].value);
        assert KeysOf(s)[..i + 1] == KeysOf(s)[..i] + [s[i].key];
        assert ValuesOf(s)[..i + 1] == ValuesOf(s)[..i] + [s[i].value];
      }
      assert KeysOf(s)[..|s|] == KeysOf(s) && ValuesOf(s)[..|s|] == ValuesOf(s);
      size := 0;
      AllDestroyed(s, l);
    }

    /** After this, everything the map ever took over has been destroyed, each thing once. */
    method Destroy()
      requires Valid()
      modifies this
      ensures multiset(ledger.keysOut) == multiset(old(ledger).keysIn)
      ensures multiset(ledger.valuesOut) == multiset(old(ledger).valuesIn)
    {
      Clear();
      BalancedEmpty(ledger);
    }

    /** A walk from the first entry to the last, one call of the iterator after the other. */
    method Iterate() returns (visited: seq<Pair>)
      requires Valid()
      ensures visited == Live()
    {
      visited := [];
      var pos := 0;
      while true
        invariant pos <= size && visited == Live()[..pos]
        decreases size - pos
      {
        if pos >= size { return; }
        visited := visited + [values[pos]];
        pos := pos + 1;
      }
    }
  }

  // ---- Runs ----

  datatype Op = Insert(key: int, value: int) | Remove(gone: int) | Clear

  datatype State = State(live: seq<Pair>, ledger: Ledger)

  /** The states that Map.Insert, Map.Remove and Map.Clear go through, by their contracts. */
  function After(ops: seq<Op>, eq: (int, int) -> bool): State {
    if ops == [] then State([], Ledger([], [], [], []))
    else
      var before := After(ops[..|ops| - 1], eq);
      match ops[|ops| - 1]
      case Insert(k, v) =>
        if |before.live| == TINY_LIMIT then before
        else State(Inserted(before.live, eq, k, v), AfterInsert(before.live, eq, k, v, before.ledger))
      case Remove(k) => State(Removed(before.live, eq, k), AfterRemove(before.live, eq, k, before.ledger))
      case Clear => State([], AfterClear(before.live, before.ledger))
  }

  /** Whether the last call of a run is an insertion that finds room. */
  predicate Accepted(ops: seq<Op>, eq: (int, int) -> bool) {
    ops != [] && ops[|ops| - 1].Insert? && |After(ops[..|ops| - 1], eq).live| < TINY_LIMIT
  }

  /** The value a key should have after a run: the last accepted insertion of its class decides, unless
      a removal of the class or a clearing came later. */
  function Expected(ops: seq<Op>, eq: (int, int) -> bool, k: int): Option<int> {
    if ops == [] then None
    else
      var op, earlier := ops[|ops| - 1], Expected(ops[..|ops| - 1], eq, k);
      match op
      case Insert(l, v) => if Accepted(ops, eq) && eq(l, k) then Some(v) else earlier
      case Remove(l) => if eq(l, k) then None else earlier
      case Clear => None
  }

  lemma {:induction false} RunRefines(ops: seq<Op>, eq: (int, int) -> bool, k: int)
    requires Equivalence(eq)
    ensures var s := After(ops, eq);
            && |s.live| <= TINY_LIMIT && DistinctKeys(s.live, eq) && Balanced(s.live, s.ledger)
            && Lookup(s.live, eq, k) == Expected(ops, eq, k)
  {
    hide Balanced, Equivalence, DistinctKeys, Find;
    if ops == [] {
      RunStarts(eq, k);
    } else {
      var earlier := ops[..|ops| - 1];
      RunRefines(earlier, eq, k);
      var before := After(earlier, eq);
      match ops[|ops| - 1]
      case Insert(l, v) =>
        InsertedRefines(before.live, eq, l, v, k);
        InsertParts(before.live, eq, l, v, before.ledger);
      case Remove(l) =>
        RemovedRefines(before.live, eq, l, k);
        RemoveParts(before.live, eq, l, before.ledger);
      case Clear =>
        RunStarts(eq, k);
        AllDestroyed(before.live, before.ledger);
    }
  }

  lemma RunStarts(eq: (int, int) -> bool, k: int)
    ensures DistinctKeys([], eq) && Balanced([], Ledger([], [], [], [])) && Lookup([], eq, k) == None
  {
    BalancedEmpty(Ledger([], [], [], []));
  }

  /** When no object is handed over twice, none is destroyed twice and none is destroyed while live. */
  lemma DestroyedOnce(ops: seq<Op>, eq: (int, int) -> bool, x: int)
    requires Equivalence(eq)
    ensures var s := After(ops, eq);
            && (multiset(s.ledger.keysIn)[x] <= 1 ==>
                  multiset(s.ledger.keysOut)[x] <= 1 && !(x in s.ledger.keysOut && x in KeysOf(s.live)))
            && (multiset(s.ledger.valuesIn)[x] <= 1 ==>
                  multiset(s.ledger.valuesOut)[x] <= 1 && !(x in s.ledger.valuesOut && x in ValuesOf(s.live)))
  {
    hide After, Equivalence, DistinctKeys;
    RunRefines(ops, eq, x);
    var s := After(ops, eq);
    assert x in KeysOf(s.live) ==> multiset(KeysOf(s.live))[x] >= 1;
    assert x in s.ledger.keysOut ==> multiset(s.ledger.keysOut)[x] >= 1;
    assert x in ValuesOf(s.live) ==> multiset(ValuesOf(s.live))[x] >= 1;
    assert x in s.ledger.valuesOut ==> multiset(s.ledger.valuesOut)[x] >= 1;
  }

  /** An insertion takes effect if and only if there is room, or the key had that value already. */
  lemma InsertTakesEffect(ops: seq<Op>, eq: (int, int) -> bool, k: int, v: int)
    requires Equivalence(eq)
    ensures var s, s' := After(ops, eq), After(ops + [Insert(k, v)], eq);
            Lookup(s'.live, eq, k) == Some(v) <==> |s.live| < 14 || Lookup(s.live, eq, k) == Some(v)
  {
    hide Balanced, DistinctKeys, Lookup, Inserted, AfterInsert;
    RunRefines(ops, eq, k);
    RunRefines(ops + [Insert(k, v)], eq, k);
    assert (ops + [Insert(k, v)])[..|ops|] == ops;
    InsertedRefines(After(ops, eq).live, eq, k, v, k);
  }

  /** The entries that insertions of the keys 0, 1, 2, … with themselves as values leave. */
  function FirstEntries(n: nat): seq<Pair> { seq(n, i => Pair(i, i)) }

  function SameKey(): (int, int) -> bool { (x, y) => x == y }

  lemma OneMoreEntry(ops: seq<Op>, n: nat)
    requires After(ops, SameKey()).live == FirstEntries(n) && n < 14
    ensures After(ops + [Insert(n, n)], SameKey()).live == FirstEntries(n + 1)
  {
    hide Find, Lookup, AfterInsert;
    var all := ops + [Insert(n, n)];
    assert all[..|all| - 1] == ops;
    FindUnique(FirstEntries(n), SameKey(), n, n);
    assert FirstEntries(n + 1) == FirstEntries(n) + [Pair(n, n)];
  }

  lemma FullRefuses(ops: seq<Op>, k: int, v: int)
    requires |After(ops, SameKey()).live| == 14
    ensures After(ops + [Insert(k, v)], SameKey()) == After(ops, SameKey())
  {
    hide Inserted, AfterInsert;
    var all := ops + [Insert(k, v)];
    assert all[..|all| - 1] == ops;
  }

  /** Fourteen keys fill the map; then even the value of a key in it cannot be replaced. */
  lemma {:induction false} FullMap(n: nat) returns (ops: seq<Op>)
    requires n <= 14
    ensures After(ops, SameKey()).live == FirstEntries(n)
    ensures n == 14 ==> After(ops + [Insert(0, 1)], SameKey()) == After(ops, SameKey())
  {
    if n == 0 {
      ops := [];
    } else {
      hide After, SameKey;
      var earlier := FullMap(n - 1);
      ops := earlier + [Insert(n - 1, n - 1)];
      OneMoreEntry(earlier, n - 1);
      if n == 14 { FullRefuses(ops, 0, 1); }
    }
  }
}
