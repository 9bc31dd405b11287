/**
 * The list of src/alphalist.c that is indexed by first character, and the iterator over it.
 */
module AlphaList {
  import opened Options

  const ALPHABET_SIZE := 256

  /** Characters that are not negative as a C char, so that they can index the buckets. */
  predicate Ascii(s: string) { forall i :: 0 <= i < |s| ==> s[i] as int < 128 }

  /** The bucket of a string; the empty string starts with its terminating NUL. */
  function Bucket(s: string): (i: nat)
    requires Ascii(s)
    ensures i < ALPHABET_SIZE
  {
    if s == [] then 0 else s[0] as int
  }

  predicate IsAlnum(c: char) { '0' <= c <= '9' || 'A' <= c <= 'Z' || 'a' <= c <= 'z' }

  /** The items of the buckets, first bucket first. */
  function Flat(buckets: seq<seq<string>>): seq<string> {
    if buckets == [] then [] else buckets[0] + Flat(buckets[1..])
  }

  ghost predicate Placed(buckets: seq<seq<string>>) {
    && |buckets| == ALPHABET_SIZE
    && forall i, s :: 0 <= i < |buckets| && s in buckets[i] ==> Ascii(s) && Bucket(s) == i
  }

  lemma {:induction false} FlatAt(buckets: seq<seq<string>>, s: string)
    ensures s in Flat(buckets) <==> exists i :: 0 <= i < |buckets| && s in buckets[i]
  {
    if buckets != [] {
      FlatAt(buckets[1..], s);
      if s in Flat(buckets[1..]) {
        var i :| 0 <= i < |buckets[1..]| && s in buckets[1..][i];
        assert s in buckets[i + 1];
      }
      if i :| 0 < i < |buckets| && s in buckets[i] { assert s in buckets[1..][i - 1]; }
    }
  }

  lemma {:induction false} FlatPrepend(buckets: seq<seq<string>>, i: nat, s: string)
    requires i < |buckets|
    ensures multiset(Flat(buckets[i := [s] + buckets[i]])) == multiset(Flat(buckets)) + multiset{s}
  {
    var b := buckets[i := [s] + buckets[i]];
    if i == 0 {
      assert b[1..] == buckets[1..];
      assert Flat(b) == [s] + Flat(buckets);
    } else {
      FlatPrepend(buckets[1..], i - 1, s);
      assert b[1..] == buckets[1..][i - 1 := [s] + buckets[1..][i - 1]];
    }
  }

  lemma {:induction false} FlatEmpty(buckets: seq<seq<string>>)
    requires forall i :: 0 <= i < |buckets| ==> buckets[i] == []
    ensures Flat(buckets) == []
  {
    if buckets != [] { FlatEmpty(buckets[1..]); }
  }

  lemma PlacedPrepend(buckets: seq<seq<string>>, s: string)
    requires Placed(buckets) && Ascii(s)
    ensures var i := Bucket(s);
            var after := buckets[i := [s] + buckets[i]];
            Placed(after) && multiset(Flat(after)) == multiset(Flat(buckets)) + multiset{s}
  {
    hide Flat, Ascii, Bucket;
    FlatPrepend(buckets, Bucket(s), s);
  }

  // ---- Membership ----

  /** What InAlphaList answers. */
  predicate IsFound(buckets: seq<seq<string>>, s: string)
    requires |buckets| == ALPHABET_SIZE && Ascii(s)
  {
    s == "" || s in buckets[Bucket(s)]
  }

  /** The answer is that of the flat list if and only if the string is not empty or is really there. */
  lemma FoundWhen(buckets: seq<seq<string>>, s: string)
    requires Placed(buckets) && Ascii(s)
    ensures IsFound(buckets, s) <==> s == "" || s in Flat(buckets)
    ensures (IsFound(buckets, s) <==> s in Flat(buckets)) <==> s != "" || s in Flat(buckets)
  {
    FlatAt(buckets, s);
  }

  // ---- Matching ----

  /** What MatchInAlphaList looks at: one bucket when the pattern starts with a literal, else all. */
  function Candidates(buckets: seq<seq<string>>, pattern: string): seq<string>
    requires |buckets| == ALPHABET_SIZE && Ascii(pattern)
  {
    if pattern != [] && (IsAlnum(pattern[0]) || pattern[0] == '_') then buckets[Bucket(pattern)] else Flat(buckets)
  }

  /** One bucket is looked at exactly for a letter, a digit or an underscore in front. */
  lemma LooksIn(buckets: seq<seq<string>>, pattern: string)
    requires |buckets| == 256 && Placed(buckets) && Ascii(pattern)
    ensures pattern != [] && ('0' <= pattern[0] <= '9' || 'A' <= pattern[0] <= 'Z' || 'a' <= pattern[0] <= 'z'
                              || pattern[0] == '_') ==>
      Candidates(buckets, pattern) == buckets[pattern[0] as int]
      && forall s :: s in Candidates(buckets, pattern) <==> s in Flat(buckets) && s != [] && s[0] == pattern[0]
    ensures pattern == [] || !('0' <= pattern[0] <= '9' || 'A' <= pattern[0] <= 'Z' || 'a' <= pattern[0] <= 'z'
                               || pattern[0] == '_') ==>
      Candidates(buckets, pattern) == Flat(buckets)
  {
    hide Flat;
    if pattern != [] && (IsAlnum(pattern[0]) || pattern[0] == '_') {
      var here := buckets[pattern[0] as int];
      assert Candidates(buckets, pattern) == here;
      forall s ensures s in here <==> s in Flat(buckets) && s != [] && s[0] == pattern[0] {
        FlatAt(buckets, s);
        if i :| 0 <= i < |buckets| && s in buckets[i] { assert Ascii(s) && Bucket(s) == i; }
      }
    }
  }

  ghost predicate AnyMatch(items: seq<string>, m: (string, string) -> bool, pattern: string) {
    exists s :: s in items && m(pattern, s)
  }

  /** Whether looking in the candidates is as good as a full scan, whatever the list holds. */
  ghost predicate IndexSuffices(m: (string, string) -> bool, pattern: string)
    requires Ascii(pattern)
  {
    forall buckets :: Placed(buckets) ==>
      (AnyMatch(Candidates(buckets, pattern), m, pattern) <==> AnyMatch(Flat(buckets), m, pattern))
  }

  /** The index is as good as a scan exactly for patterns that start vaguely, and for those whose every
      match starts with the pattern's own first character. */
  lemma IndexSufficesWhen(m: (string, string) -> bool, pattern: string)
    requires Ascii(pattern)
    ensures IndexSuffices(m, pattern) <==>
      || pattern == []
      || !('0' <= pattern[0] <= '9' || 'A' <= pattern[0] <= 'Z' || 'a' <= pattern[0] <= 'z' || pattern[0] == '_')
      || forall s :: Ascii(s) && m(pattern, s) ==> s != [] && s[0] == pattern[0]
  {
    if pattern != [] && (IsAlnum(pattern[0]) || pattern[0] == '_') {
      forall s | Ascii(s) && m(pattern, s) && IndexSuffices(m, pattern) ensures s != [] && s[0] == pattern[0] {
        var buckets := seq(ALPHABET_SIZE, i requires 0 <= i < ALPHABET_SIZE => if i == Bucket(s) then [s] else []);
        assert Placed(buckets);
        assert s in buckets[Bucket(s)];
        FlatAt(buckets, s);
        assert AnyMatch(Flat(buckets), m, pattern);
      }
      forall buckets | Placed(buckets) && forall s :: Ascii(s) && m(pattern, s) ==> s != [] && s[0] == pattern[0]
        ensures AnyMatch(Candidates(buckets, pattern), m, pattern) <==> AnyMatch(Flat(buckets), m, pattern)
      {
        var here := buckets[Bucket(pattern)];
        forall s | m(pattern, s) ensures s in Flat(buckets) <==> s in here {
          FlatAt(buckets, s);
          if i :| 0 <= i < |buckets| && s in buckets[i] { assert Ascii(s) && Bucket(s) == i; }
        }
      }
    }
  }

  // ---- The list ----

  class AlphaList {
    const list: array<seq<string>>
    /** What has been prepended so far. */
    ghost var items: multiset<string>

    ghost predicate Valid()
      reads this, list
    {
      list.Length == ALPHABET_SIZE && Placed(list[..]) && multiset(Flat(list[..])) == items
    }

    constructor ()
      ensures Valid() && fresh(list) && items == multiset{}
    {
      list := new seq<string>[ALPHABET_SIZE](_ => []);
      items := multiset{};
      new;
      FlatEmpty(list[..]);
    }

    /** IsItemIn of src/item_lib.c: the empty string is in every list. */
    static method IsItemIn(list: seq<string>, item: string) returns (found: bool)
      ensures found <==> item == "" || item in list
    {
      if item == "" { return true; }
      for i := 0 to |list|
        invariant item !in list[..i]
      {
        if list[i] == item { return true; }
        assert list[..i + 1] == list[..i] + [list[i]];
      }
      assert list[..|list|] == list;
      return false;
    }

    /** Looking in one bucket decides membership, but for the empty string, which is always found. */
    method Contains(s: string) returns (found: bool)
      requires Valid() && Ascii(s)
      ensures found == IsFound(list[..], s)
      ensures found <==> s == "" || s in items
      ensures (found <==> s in items) <==> s != "" || s in items
    {
      FoundWhen(list[..], s);
      assert s in items <==> s in Flat(list[..]);
      found := IsItemIn(list[Bucket(s)], s);
    }

    method Prepend(s: string)
      requires Valid() && Ascii(s)
      modifies this, list
      ensures Valid() && items == old(items) + multiset{s}
      ensures list[..] == old(list[..])[Bucket(s) := [s] + old(list[..])[Bucket(s)]]
    {
      hide Flat, Placed, Bucket;
      PlacedPrepend(list[..], s);
      list[Bucket(s)] := [s] + list[Bucket(s)];
      items := items + multiset{s};
    }

    /** The empty string is never added. */
    method IdempPrepend(s: string)
      requires Valid() && Ascii(s)
      modifies this, list
      ensures Valid() && items == if s == "" || s in old(items) then old(items) else old(items) + multiset{s}
    {
      var found := Contains(s);
      if !found { Prepend(s); }
    }

    method Match(m: (string, string) -> bool, pattern: string) returns (found: bool)
      requires Valid() && Ascii(pattern)
      ensures found == AnyMatch(Candidates(list[..], pattern), m, pattern)
    {
      if pattern != [] && (IsAlnum(pattern[0]) || pattern[0] == '_') {
        found := MatchIn(list[Bucket(pattern)], m, pattern);
      } else {
        assert list[..][0..] == list[..];
        for i := 0 to ALPHABET_SIZE
          invariant AnyMatch(Flat(list[..]), m, pattern) <==> AnyMatch(Flat(list[..][i..]), m, pattern)
        {
          found := MatchIn(list[i], m, pattern);
          assert list[..][i..][0] == list[i] && list[..][i..][1..] == list[..][i + 1..];
          assert Flat(list[..][i..]) == list[i] + Flat(list[..][i + 1..]);
          if found { return; }
        }
        found := false;
      }
    }

    static method MatchIn(items: seq<string>, m: (string, string) -> bool, pattern: string) returns (found: bool)
      ensures found == AnyMatch(items, m, pattern)
    {
      for i := 0 to |items|
        invariant !AnyMatch(items[..i], m, pattern)
      {
        if m(pattern, items[i]) {
          assert items[i] in items;
          return true;
        }
        assert items[..i + 1] == items[..i] + [items[i]];
      }
      assert items[..|items|] == items;
      return false;
    }
  }

  // ---- The iterator ----

  class Iterator {
    const al: AlphaList
    var pos: int
    /** The item about to be returned and those behind it; empty where the source has NULL. */
    var curitem: seq<string>

    predicate Valid()
      reads this, al.list
    {
      al.list.Length == ALPHABET_SIZE && -1 <= pos < ALPHABET_SIZE
    }

    ghost function Remaining(): seq<string>
      requires Valid()
      reads this, al.list
    {
      curitem + Flat(al.list[..][pos + 1..])
    }

    constructor (al: AlphaList)
      requires al.Valid()
      ensures Valid() && this.al == al && Remaining() == Flat(al.list[..])
    {
      this.al := al;
      pos := -1;
      curitem := [];
      new;
      assert al.list[..][0..] == al.list[..];
    }

    /** The next item, or None when there is no more; after that the iterator must not be used. */
    method Next() returns (item: Option<string>)
      requires Valid()
      modifies this
      ensures item.None? <==> old(Remaining()) == []
      ensures item.Some? ==> Valid() && old(Remaining()) == [item.value] + Remaining()
    {
      while curitem == []
        invariant Valid() && Remaining() == old(Remaining())
        decreases ALPHABET_SIZE - pos
      {
        pos := pos + 1;
        if pos == ALPHABET_SIZE { return None; }
        assert al.list[..][pos..][1..] == al.list[..][pos + 1..];
        if al.list[pos] != [] { curitem := al.list[pos]; }
      }
      item := Some(curitem[0]);
      curitem := curitem[1..];
    }
  }

  /** A walk to the first NULL meets every item once. */
  method Walk(al: AlphaList) returns (visited: seq<string>)
    requires al.Valid()
    ensures multiset(visited) == al.items
  {
    hide Flat, Placed, Ascii, Bucket;
    var it := new Iterator(al);
    visited := [];
    ghost var rest := it.Remaining();
    while true
      invariant it.al == al && it.Valid() && rest == it.Remaining() && visited + rest == Flat(al.list[..])
      decreases |rest|
    {
      var item := it.Next();
      if item.None? {
        assert visited + rest == visited;
        return;
      }
      ghost var before := rest;
      rest := it.Remaining();
      assert visited + before == visited + [item.value] + rest;
      visited := visited + [item.value];
    }
  }

  /** On a new list the empty string is found, and so is not added. */
  method EmptyString() returns (found: bool, visited: seq<string>)
    ensures found && visited == []
  {
    var al := new AlphaList();
    found := al.Contains("");
    al.IdempPrepend("");
    visited := Walk(al);
    assert |visited| == |multiset(visited)|;
  }
}
