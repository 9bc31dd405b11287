/**
 * The first character of an option string: it selects an ordering and is skipped, but by the first call
 * only (pub/getopt.c). Later calls see it as a letter, and in front of a colon that has lost its place.
 */
module GetoptPrefix {
  import opened Getopt
  import opened GetoptSpec
  import opened GetoptTheorems
  import opened Options

  predicate LeadingColon(os: string) { os != "" && os[0] == ':' }

  /** Whether a letter of arity a, and of arity b for the calls after the first, is answered the same. It
      may be the last character of its element, and that the last of the list. */
  predicate SameAnswer(os: string, a: Arity, b: Arity, last: bool, alone: bool) {
    if a == b then !(a == RequiredArgument && last && alone && LeadingColon(os))
    else
      || (a == Unknown && b == RequiredArgument && last && alone)
      || (a == NoArgument && b == OptionalArgument && last)
      || (a == OptionalArgument && b == NoArgument && last)
      || (a == RequiredArgument && b == OptionalArgument && !last)
      || (a == OptionalArgument && b == RequiredArgument && !last)
  }

  /** Whether the option in front of text is decoded alike with and without the prefix p. */
  ghost predicate Alike(p: char, os: string, longs: Option<seq<LongOption>>, text: string, rest: seq<string>)
    requires text != "" && rest != [] && |rest[0]| >= 2
  {
    if IsLong(Config(os, longs), rest[0])
    then !(LeadingColon(os) && TakesLong(longs.value, text) && |rest| == 1)
    else SameAnswer(os, ArityOf(os, text[0]), ArityOf([p] + os, text[0]), |text| == 1, |rest| == 1)
  }

  /** The prefix changes the arity of no letter but itself. */
  lemma OtherLetters(p: char, os: string, c: char)
    requires p != ':'
    ensures c != p ==> ArityOf([p] + os, c) == ArityOf(os, c)
    ensures ArityOf([p] + os, p) ==
            if !LeadingColon(os) then NoArgument
            else if |os| > 1 && os[1] == ':' then OptionalArgument
            else RequiredArgument
  {
    assert ([p] + os)[1..] == os;
    assert IndexOf([p] + os, c) == if c == p then 0 else 1 + IndexOf(os, c);
    assert IndexOf([p] + os, p) == 0;
  }

  lemma StepCompares(p: char, os: string, longs: Option<seq<LongOption>>, text: string, rest: seq<string>)
    requires (p == '+' || p == '-') && text != "" && rest != [] && |rest[0]| >= 2
    ensures var a, b := Decode(Config(os, longs), text, rest), Decode(Config([p] + os, longs), text, rest);
            if Alike(p, os, longs, text, rest) then a.event == b.event && a.next == b.next && a.used == b.used
            else (a.event.code, a.event.optarg) != (b.event.code, b.event.optarg)
  {
    hide ArityOf, Resolve, IndexOf;
    if IsLong(Config(os, longs), rest[0]) {
      LongCompares(p, os, longs, text, rest);
    } else {
      OtherLetters(p, os, text[0]);
    }
  }

  lemma LongCompares(p: char, os: string, longs: Option<seq<LongOption>>, text: string, rest: seq<string>)
    requires (p == '+' || p == '-') && text != "" && rest != [] && |rest[0]| >= 2
    requires IsLong(Config(os, longs), rest[0])
    ensures var a, b := LongStep(Config(os, longs), longs.value, text, rest),
                        LongStep(Config([p] + os, longs), longs.value, text, rest);
            if Alike(p, os, longs, text, rest) then a == b else a.event.code != b.event.code
  {
    hide ArityOf, Resolve;
    if '=' !in text {
      assert IndexOf(text, '=') == |text|;
      assert NameOf(text) == text;
    } else {
      var i :| 0 <= i < |text| && text[i] == '=';
      assert IndexOf(text, '=') < |text|;
    }
  }

  /** Whether every option from here on is decoded alike. */
  ghost predicate AllAlike(mode: Ordering, p: char, os: string, longs: Option<seq<LongOption>>, text: string,
                           rest: seq<string>)
    requires text != "" ==> AtOption(text, rest)
    decreases |rest|, if text == "" && rest != [] then |rest[0]| + 1 else |text|
  {
    var cfg := Config(os, longs);
    if AtOption(text, rest) then
      var t := Unread(cfg, text, rest);
      DecodeProgress(cfg, t, rest);
      var step := Decode(cfg, t, rest);
      Alike(p, os, longs, t, rest) && AllAlike(mode, p, os, longs, step.next, rest[step.used..])
    else rest == [] || rest[0] == "--" || mode == RequireOrder || AllAlike(mode, p, os, longs, "", rest[1..])
  }

  lemma {:induction false} ScansCompare(mode: Ordering, p: char, os: string, longs: Option<seq<LongOption>>,
                                        text: string, rest: seq<string>)
    requires (p == '+' || p == '-') && (text != "" ==> AtOption(text, rest))
    ensures var cfg, later := Config(os, longs), Config([p] + os, longs);
            var a, b := Scan(mode, cfg, cfg, text, rest), Scan(mode, later, later, text, rest);
            if AllAlike(mode, p, os, longs, text, rest) then a == b else Answers(a.events) != Answers(b.events)
    decreases |rest|, if text == "" && rest != [] then |rest[0]| + 1 else |text|
  {
    hide Decode, Alike, Answers;
    var cfg, later := Config(os, longs), Config([p] + os, longs);
    if AtOption(text, rest) {
      hide Scan;
      var t := Unread(cfg, text, rest);
      SameEntry(cfg, later, text, rest);
      DecodeProgress(cfg, t, rest);
      StepCompares(p, os, longs, t, rest);
      ScanOption(mode, cfg, cfg, text, rest);
      ScanOption(mode, later, later, text, rest);
      var step, other := Decode(cfg, t, rest), Decode(later, t, rest);
      if Alike(p, os, longs, t, rest) { ScansCompare(mode, p, os, longs, step.next, rest[step.used..]); }
      AnswersCompare(step.event, other.event, Scan(mode, cfg, cfg, step.next, rest[step.used..]).events,
                     Scan(mode, later, later, other.next, rest[other.used..]).events);
    } else if rest != [] && rest[0] != "--" && mode != RequireOrder {
      ScansCompare(mode, p, os, longs, "", rest[1..]);
      if mode == ReturnInOrder {
        var e := Report(1, Some(rest[0]));
        AnswersCompare(e, e, Scan(mode, cfg, cfg, "", rest[1..]).events,
                       Scan(mode, later, later, "", rest[1..]).events);
      }
    }
  }

  /** Reports differ if their first answers do, or else what follows. */
  lemma AnswersCompare(e: Event, f: Event, x: seq<Event>, y: seq<Event>)
    ensures (e.code, e.optarg) != (f.code, f.optarg) ==> Answers([e] + x) != Answers([f] + y)
    ensures Answers(x) != Answers(y) ==> Answers([e] + x) != Answers([f] + y)
  {
    hide Answers;
    AnswersHead(e, x);
    AnswersHead(f, y);
  }

  /** Where an option element is entered does not depend on the option string. */
  lemma SameEntry(cfg: Config, later: Config, text: string, rest: seq<string>)
    requires AtOption(text, rest) && cfg.longs == later.longs
    ensures Unread(cfg, text, rest) == Unread(later, text, rest)
  {
  }

  /** Whether every option that the calls after the first decode is decoded alike. */
  ghost predicate LaterAlike(mode: Ordering, p: char, os: string, longs: Option<seq<LongOption>>, args: seq<string>) {
    var cfg := Config(os, longs);
    if AtOption("", args) then
      var t := Unread(cfg, "", args);
      DecodeProgress(cfg, t, args);
      var step := Decode(cfg, t, args);
      AllAlike(mode, p, os, longs, step.next, args[step.used..])
    else args == [] || args[0] == "--" || mode == RequireOrder || AllAlike(mode, p, os, longs, "", args[1..])
  }

  /**
   * A scan goes as if all calls skipped the prefix if and only if there is none, or each option decoded
   * after the first event is answered the same: the prefix itself is no letter of another arity, and no
   * argument is absent under a leading colon.
   */
  lemma {:induction false} PrefixSeenLater(args: seq<string>, shorts: string, longs: Option<seq<LongOption>>,
                                           posix: bool)
    ensures var mode, cfg := ModeOf(shorts, posix), Config(Strip(shorts), longs);
            var actual, ideal := Scan(mode, cfg, Config(shorts, longs), "", args), Scan(mode, cfg, cfg, "", args);
            && (actual == ideal <==> Strip(shorts) == shorts || LaterAlike(mode, shorts[0], Strip(shorts), longs, args))
            && (Answers(actual.events) == Answers(ideal.events) <==> actual == ideal)
  {
    hide Decode, Answers, AllAlike;
    var mode, os, later := ModeOf(shorts, posix), Strip(shorts), Config(shorts, longs);
    var cfg := Config(os, longs);
    if os != shorts {
      var p := shorts[0];
      assert shorts == [p] + os;
      if AtOption("", args) {
        hide Scan;
        var t := Unread(cfg, "", args);
        DecodeProgress(cfg, t, args);
        ScanOption(mode, cfg, cfg, "", args);
        ScanOption(mode, cfg, later, "", args);
        var step := Decode(cfg, t, args);
        ScansCompare(mode, p, os, longs, step.next, args[step.used..]);
        AnswersCompare(step.event, step.event, Scan(mode, cfg, cfg, step.next, args[step.used..]).events,
                       Scan(mode, later, later, step.next, args[step.used..]).events);
      } else if args != [] && args[0] != "--" && mode == ReturnInOrder {
        ScansCompare(mode, p, os, longs, "", args[1..]);
        var e := Report(1, Some(args[0]));
        AnswersCompare(e, e, Scan(mode, cfg, cfg, "", args[1..]).events,
                       Scan(mode, later, later, "", args[1..]).events);
      }
    }
  }
}
