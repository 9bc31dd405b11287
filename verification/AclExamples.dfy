/** Entries that show where the syntax check and the parser of access-control entries part. */
module AclExamples {
  import opened AclMode
  import opened AclRepair
  import opened AclSpec
  import opened AclSyntax
  import opened Numerals
  import opened Options

  /** An accepted entry whose mode is lost: reading stops at the second operator and nothing is deleted. */
  lemma SecondOperatorStops(names: Names, p: Perms)
    ensures AceSyntax("all:+-r", "rwx", false, true) == Some((4, 7))
    ensures EntityAt("all:+-r", names) == Some((Other, 3)) && RunMode("+-r", p) == Some((p, 1))
  {
    hide ModeSyntax, RunMode, UserKey, GroupKey;
    AllInFront();
    assert "all:+-r"[4..] == "+-r";
    TwoOperatorsChecked();
    TwoOperatorsParsed(p);
  }

  lemma AllInFront()
    ensures var ace := "all:+-r"; !(USER <= ace) && !(GROUP <= ace) && ALL <= ace
  {
    assert "all:+-r"[0] == 'a';
    assert USER[0] == 'u' && GROUP[0] == 'g';
    assert ALL == "all:+-r"[..4];
  }

  lemma TwoOperatorsChecked()
    ensures ModeSyntax("+-r", "rwx") == Some(3)
  {
    assert "+-r"[1..] == "-r" && "-r"[1..] == "r" && "+-r"[2..] == "r" && "+-r"[3..] == "";
    assert Span("+-r", IsOp) == 2 && Span("r", IsPerm) == 1;
    hide Span;
    assert PartSyntax("+-r", "rwx") == Some(3);
    hide PartSyntax;
  }

  lemma TwoOperatorsParsed(p: Perms)
    ensures RunMode("+-r", p) == Some((p, 1))
  {
    assert "+-r"[1..] == "-r" && "+-r"[1..1] == "" && Span("-r", IsPerm) == 0;
    hide Span;
    assert PartAt("+-r") == Some(Part(false, true, "", "", 1));
    hide PartAt;
  }

  /** A mode string that the check refuses, and that the parser would read past its end. */
  lemma UnclosedParenthesis(nperms: string)
    ensures ModeSyntax("(r", nperms).None? && ModeExtent("(r").None?
  {
    assert "(r"[0..] == "(r" && "(r"[1..] == "r";
    assert Span("(r", IsOp) == 0 && Span("(r", IsPerm) == 0 && Span("r", IsPerm) == 1;
  }

  /** Asked to clear a default list of one entry, a check that may only warn fails. */
  lemma WarningFails(how: Method, names: Names, dontDo: bool, accepts: (bool, Acl) -> bool)
    ensures var before := [Entry(Other, NO_PERMS)];
            InheritOutcome([], before, Clear, how, [], names, Warn, dontDo, accepts) == Outcome(false, Warned, before)
  {
  }

  /** Asked for the same by an entry of its own, it succeeds. */
  lemma WarningPasses(names: Names, dontDo: bool, accepts: (bool, Acl) -> bool)
    ensures var before := [Entry(Other, NO_PERMS)];
            InheritOutcome([], before, Specify, Overwrite, [], names, Warn, dontDo, accepts) ==
            Outcome(true, Warned, before)
  {
    var before, wanted := [Entry(Other, NO_PERMS)], CalcMask([]);
    assert wanted == [Entry(Mask, NO_PERMS)] by { assert Find([], Mask) == 0; }
    assert Repaired(Overwrite, before, [], names) == Some(wanted);
    FindUnique(before, Mask, 1);
    FindUnique(wanted, Mask, 0);
    assert Lookup(before, Mask) != Lookup(wanted, Mask);
  }
}
