/** Scans whose events show where the scanner differs from what is said of it. */
module GetoptExamples {
  import opened Getopt
  import opened GetoptPrefix
  import opened GetoptSpec
  import opened GetoptTheorems
  import opened Options

  /** Scanning an element of one option letter. */
  lemma OneLetter(mode: Ordering, first: Config, later: Config, c: char, rest: seq<string>)
    requires first.longs.None? && later.longs.None? && c != '-'
    ensures var args := [['-', c]] + rest;
            var step := ShortStep(first.shorts, [c], args);
            && 1 <= step.used <= 2 && step.used <= |args| && step.next == ""
            && var r := Scan(mode, later, later, "", args[step.used..]);
               Scan(mode, first, later, "", args) ==
               Run([step.event] + r.events, args[..step.used] + r.options, r.operands)
  {
    hide ArityOf;
    var args := [['-', c]] + rest;
    assert args[0] == ['-', c] && args[0][1..] == [c];
    ScanOption(mode, first, later, "", args);
    assert [c][1..] == "";
  }

  lemma NothingLeft(mode: Ordering, cfg: Config)
    ensures Scan(mode, cfg, cfg, "", []) == Run([], [], [])
  {
    ScanPlain(mode, cfg, cfg, []);
  }

  /** Two elements of one letter each, whose options take no argument from the list. */
  lemma TwoLetters(mode: Ordering, first: Config, later: Config, c: char, d: char)
    requires first.longs.None? && later.longs.None? && c != '-' && d != '-'
    requires ArityOf(first.shorts, c) != RequiredArgument
    ensures Scan(mode, first, later, "", [['-', c], ['-', d]]).events ==
            [ShortStep(first.shorts, [c], [['-', c], ['-', d]]).event, ShortStep(later.shorts, [d], [['-', d]]).event]
  {
    hide ArityOf;
    var x, y := ['-', c], ['-', d];
    assert [x] + [y] == [x, y] && [y] + [] == [y] && [x, y][1..] == [y] && [y][1..] == [];
    OneLetter(mode, first, later, c, [y]);
    OneLetter(mode, later, later, d, []);
    NothingLeft(mode, later);
  }

  /** Option string "+:a:b", arguments -b -a: the absent argument should be reported with a colon. */
  lemma PrefixHidesColon(posix: bool)
    ensures var cfg := Config(Strip("+:a:b"), None);
            var actual, ideal := Scan(RequireOrder, cfg, Config("+:a:b", None), "", ["-b", "-a"]),
                                 Scan(RequireOrder, cfg, cfg, "", ["-b", "-a"]);
            && ModeOf("+:a:b", posix) == RequireOrder
            && Answers(ideal.events) == [('b' as int, None), (':' as int, None)]
            && Answers(actual.events) == [('b' as int, None), ('?' as int, None)]
  {
    var os := Strip("+:a:b");
    assert os == ":a:b" && "+:a:b" == ['+'] + os;
    ArityB();
    OtherLetters('+', os, 'a');
    TwoAnswers(RequireOrder, Config(os, None), Config("+:a:b", None), 'b', 'a');
    TwoAnswers(RequireOrder, Config(os, None), Config(os, None), 'b', 'a');
  }

  lemma ArityB()
    ensures ArityOf(":a:b", 'b') == NoArgument && ArityOf(":a:b", 'a') == RequiredArgument
  {
    assert ":a:b"[1..] == "a:b" && "a:b"[1..] == ":b" && ":b"[1..] == "b";
    assert IndexOf(":a:b", 'b') == 3 && IndexOf(":a:b", 'a') == 1;
  }

  lemma TwoAnswers(mode: Ordering, first: Config, later: Config, c: char, d: char)
    requires first.longs.None? && later.longs.None? && c != '-' && d != '-'
    requires ArityOf(first.shorts, c) == NoArgument
    ensures Answers(Scan(mode, first, later, "", [['-', c], ['-', d]]).events) ==
            [(c as int, None),
             (match ArityOf(later.shorts, d)
              case Unknown => '?' as int
              case RequiredArgument => MissingCode(later.shorts)
              case _ => d as int, None)]
  {
    hide ArityOf;
    TwoLetters(mode, first, later, c, d);
    var x, y := ShortStep(first.shorts, [c], [['-', c], ['-', d]]).event,
                ShortStep(later.shorts, [d], [['-', d]]).event;
    assert [x, y][1..] == [y] && [y][1..] == [];
    assert [d][1..] == "" && [c][1..] == "";
    assert Answers([]) == [];
    assert Answers([y]) == [(y.code, y.optarg)];
  }

  /** Option string "+ab", arguments -a -+: the plus sign is not listed as a letter, and is taken for one. */
  lemma PrefixIsLetter(posix: bool)
    ensures var cfg := Config(Strip("+ab"), None);
            var actual, ideal := Scan(RequireOrder, cfg, Config("+ab", None), "", ["-a", "-+"]),
                                 Scan(RequireOrder, cfg, cfg, "", ["-a", "-+"]);
            && ModeOf("+ab", posix) == RequireOrder
            && Answers(ideal.events) == [('a' as int, None), ('?' as int, None)]
            && Answers(actual.events) == [('a' as int, None), ('+' as int, None)]
  {
    var os := Strip("+ab");
    assert os == "ab" && "+ab" == ['+'] + os;
    ArityPlus();
    OtherLetters('+', os, '+');
    TwoAnswers(RequireOrder, Config(os, None), Config("+ab", None), 'a', '+');
    TwoAnswers(RequireOrder, Config(os, None), Config(os, None), 'a', '+');
  }

  lemma ArityPlus()
    ensures ArityOf("ab", 'a') == NoArgument && ArityOf("ab", '+') == Unknown
  {
    assert "ab"[1..] == "b" && "b"[1..] == "";
    assert IndexOf("ab", '+') == 2 && IndexOf("ab", 'a') == 0;
  }

  /** Option string "a:", arguments x -a: the argument is absent; scanned again as -a x, it is x. */
  lemma RescanTakesOperand()
    ensures var cfg := Config("a:", None);
            var r := Scan(Permute, cfg, cfg, "", ["x", "-a"]);
            && r.options == ["-a"] && r.operands == ["x"] && Answers(r.events) == [('?' as int, None)]
            && Answers(Scan(Permute, cfg, cfg, "", ["-a", "x"]).events) == [('a' as int, Some("x"))]
  {
    var cfg := Config("a:", None);
    assert ArityOf("a:", 'a') == RequiredArgument;
    assert ["x", "-a"][1..] == ["-a"] && ["-a"] + [] == ["-a"] && ["-a"] + ["x"] == ["-a", "x"];
    assert ["-a"][1..] == [] && ["-a", "x"][2..] == [] && ["-a"][..1] == ["-a"];
    assert "-a" == ['-', 'a'] && ['a'][1..] == "";
    hide ArityOf;
    ScanPlain(Permute, cfg, cfg, ["x", "-a"]);
    OneLetter(Permute, cfg, cfg, 'a', []);
    OneLetter(Permute, cfg, cfg, 'a', ["x"]);
    NothingLeft(Permute, cfg);
    hide Scan;
    var e, e' := Scan(Permute, cfg, cfg, "", ["x", "-a"]).events, Scan(Permute, cfg, cfg, "", ["-a", "x"]).events;
    assert |e| == 1 && |e'| == 1 && e[1..] == [] && e'[1..] == [];
    assert Answers([]) == [];
  }
}
