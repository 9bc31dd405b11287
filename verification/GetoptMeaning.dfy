/**
 * What a scan reports of options as they are spelt on the command line: the code, the argument, the elements used
 * up. The option string and the table of long options are spelt out as well.
 */
module GetoptMeaning {
  import opened Getopt
  import opened GetoptSpec
  import opened GetoptTheorems
  import opened Options

  /** Scanning args reports e first, uses up the first elements for it, and goes on behind them. */
  ghost predicate ReportsFirst(mode: Ordering, first: Config, later: Config, args: seq<string>, e: Event, used: nat) {
    && used <= |args|
    && var r := Scan(mode, later, later, "", args[used..]);
       Scan(mode, first, later, "", args) == Run([e] + r.events, args[..used] + r.options, r.operands)
  }

  // ---- Options of one letter ----

  /** The letter c is listed in an option string with that many colons behind it. */
  lemma ListedLetter(pre: string, c: char, post: string)
    requires c !in pre && c != ':'
    ensures post == "" || post[0] != ':' ==> ArityOf(pre + [c] + post, c) == NoArgument
    ensures post == "" || post[0] != ':' ==> ArityOf(pre + [c] + (":" + post), c) == RequiredArgument
    ensures ArityOf(pre + [c] + ("::" + post), c) == OptionalArgument
  {
    LetterAt(pre, c, post);
    LetterAt(pre, c, ":" + post);
    LetterAt(pre, c, "::" + post);
    hide IndexOf;
  }

  lemma LetterAt(pre: string, c: char, post: string)
    requires c !in pre
    ensures var s := pre + [c] + post;
            && IndexOf(s, c) == |pre| && |s| == |pre| + 1 + |post|
            && forall k :: 0 <= k < |post| ==> s[|pre| + 1 + k] == post[k]
  {
    var s := pre + [c] + post;
    assert s[|pre|] == c;
    assert forall k :: 0 <= k < |pre| ==> s[k] == pre[k] && pre[k] in pre;
  }

  lemma UnlistedLetter(shorts: string, c: char)
    requires c !in shorts || c == ':'
    ensures ArityOf(shorts, c) == Unknown
  {
    if c !in shorts { assert IndexOf(shorts, c) == |shorts|; }
  }

  /** Scanning an element of an option letter and more text behind it. */
  lemma LetterScanned(mode: Ordering, first: Config, later: Config, c: char, v: string, rest: seq<string>)
    requires c != '-' || (first.longs.None? && v != "")
    ensures var args := [['-', c] + v] + rest;
            var step := ShortStep(first.shorts, [c] + v, args);
            step.used > 0 ==> step.used <= |args| && ReportsFirst(mode, first, later, args, step.event, step.used)
  {
    hide ArityOf, ShortStep;
    var args := [['-', c] + v] + rest;
    assert args[0] == ['-', c] + v && args[0][1..] == [c] + v && args[0][0] == '-' && args[0][1] == c;
    ScanOption(mode, first, later, "", args);
    DecodeProgress(first, [c] + v, args);
  }

  /** A value behind the letter is its argument, whether one is required or only allowed. */
  lemma AttachedValue(mode: Ordering, first: Config, later: Config, c: char, v: string, rest: seq<string>)
    requires (c != '-' || first.longs.None?) && v != ""
    requires ArityOf(first.shorts, c) == RequiredArgument || ArityOf(first.shorts, c) == OptionalArgument
    ensures ReportsFirst(mode, first, later, [['-', c] + v] + rest, Event(c as int, Some(v), None, None, None), 1)
  {
    hide ArityOf, ReportsFirst;
    assert ([c] + v)[1..] == v;
    LetterScanned(mode, first, later, c, v, rest);
  }

  /** A required argument that is not behind the letter is the next element, whatever that looks like. */
  lemma SeparateValue(mode: Ordering, first: Config, later: Config, c: char, v: string, rest: seq<string>)
    requires c != '-' && ArityOf(first.shorts, c) == RequiredArgument
    ensures ReportsFirst(mode, first, later, [['-', c]] + ([v] + rest), Event(c as int, Some(v), None, None, None), 2)
  {
    hide ArityOf, ReportsFirst;
    assert ['-', c] + "" == ['-', c] && [c] + "" == [c] && [c][1..] == "";
    LetterScanned(mode, first, later, c, "", [v] + rest);
  }

  /** An optional argument is never taken from the next element. */
  lemma AbsentValue(mode: Ordering, first: Config, later: Config, c: char, rest: seq<string>)
    requires c != '-' && (ArityOf(first.shorts, c) == OptionalArgument || ArityOf(first.shorts, c) == NoArgument)
    ensures ReportsFirst(mode, first, later, [['-', c]] + rest, Event(c as int, None, None, None, None), 1)
  {
    hide ArityOf, ReportsFirst;
    assert ['-', c] + "" == ['-', c] && [c] + "" == [c] && [c][1..] == "";
    LetterScanned(mode, first, later, c, "", rest);
  }

  /** A required argument that is not there is reported with a question mark, or with a colon when the option string
      starts with one; the letter is named. */
  lemma MissingValue(mode: Ordering, first: Config, later: Config, c: char)
    requires c != '-' && ArityOf(first.shorts, c) == RequiredArgument
    ensures ReportsFirst(mode, first, later, [['-', c]],
                         Event(if first.shorts != "" && first.shorts[0] == ':' then ':' as int else '?' as int,
                               None, Some(c), None, None), 1)
  {
    hide ArityOf, ReportsFirst;
    assert ['-', c] + "" == ['-', c] && [c] + "" == [c] && [c][1..] == "" && [['-', c]] + [] == [['-', c]];
    LetterScanned(mode, first, later, c, "", []);
  }

  /** A letter that is not listed is reported with a question mark and named. */
  lemma UnlistedReported(mode: Ordering, first: Config, later: Config, c: char, rest: seq<string>)
    requires c != '-' && (c !in first.shorts || c == ':')
    ensures ReportsFirst(mode, first, later, [['-', c]] + rest, Event('?' as int, None, Some(c), None, None), 1)
  {
    UnlistedLetter(first.shorts, c);
    hide ArityOf, ReportsFirst;
    assert ['-', c] + "" == ['-', c] && [c] + "" == [c] && [c][1..] == "";
    LetterScanned(mode, first, later, c, "", rest);
  }

  /** Letters without an argument may share an element: each is reported, and the element is used up by the last. */
  lemma ClusterScanned(mode: Ordering, cfg: Config, c: char, d: char, more: string, rest: seq<string>)
    requires (c != '-' || cfg.longs.None?) && ArityOf(cfg.shorts, c) == NoArgument
    ensures var args := [['-', c] + ([d] + more)] + rest;
            var r := Scan(mode, cfg, cfg, [d] + more, args);
            AtOption([d] + more, args) &&
            Scan(mode, cfg, cfg, "", args) ==
            Run([Event(c as int, None, None, None, None)] + r.events, r.options, r.operands)
  {
    hide ArityOf;
    var args := [['-', c] + ([d] + more)] + rest;
    assert args[0] == ['-', c] + ([d] + more) && args[0][1..] == [c] + ([d] + more);
    assert args[0][0] == '-' && args[0][1] == c;
    assert ([c] + ([d] + more))[1..] == [d] + more && args[0..] == args && args[..0] == [];
    ScanOption(mode, cfg, cfg, "", args);
  }

  // ---- Long options ----

  /** The name stands for entry i: it is the first of exactly that name, or the only one that starts so. */
  ghost predicate StandsFor(longs: seq<LongOption>, name: string, i: nat) {
    && i < |longs|
    && ((longs[i].name == name && forall k :: 0 <= k < i ==> longs[k].name != name)
        || (name <= longs[i].name && forall k :: 0 <= k < |longs| && k != i ==> !(name <= longs[k].name)))
  }

  lemma StandingResolves(longs: seq<LongOption>, name: string, i: nat)
    requires StandsFor(longs, name, i)
    ensures Resolve(longs, name) == Match(i)
  {
    if longs[i].name != name {
      assert forall k :: 0 <= k < |longs| ==> longs[k].name != name by {
        assert forall k :: 0 <= k < |longs| && longs[k].name == name ==> name <= longs[k].name;
      }
    } else {
      assert ExactAt(longs, name, i);
    }
    ResolveUnique(longs, name, Match(i));
  }

  /** The event of an option found at i: its value, or 0 when it is stored in a variable instead. */
  function Found(o: LongOption, i: nat, optarg: Option<string>): Event {
    if o.flag.Some? then Event(0, optarg, None, Some(i), Some((o.flag.value, o.val)))
    else Event(o.val, optarg, None, Some(i), None)
  }

  lemma LongScanned(mode: Ordering, first: Config, later: Config, text: string, rest: seq<string>)
    requires first.longs.Some? && text != ""
    ensures var args := ["--" + text] + rest;
            var step := LongStep(first, first.longs.value, text, args);
            step.used <= |args| && ReportsFirst(mode, first, later, args, step.event, step.used)
  {
    hide Resolve, LongStep;
    var args := ["--" + text] + rest;
    assert args[0] == "--" + text && args[0][2..] == text && args[0][0] == '-' && args[0][1] == '-';
    ScanOption(mode, first, later, "", args);
    DecodeProgress(first, text, args);
    LongUses(first, first.longs.value, text, args);
  }

  lemma LongUses(cfg: Config, longs: seq<LongOption>, text: string, rest: seq<string>)
    requires rest != []
    ensures LongStep(cfg, longs, text, rest).used > 0
  {
  }

  lemma NameBefore(name: string, v: string)
    requires '=' !in name
    ensures var s := name + ("=" + v);
            IndexOf(s, '=') == |name| && NameOf(s) == name && s[|name| + 1..] == v && |name| < |s|
    ensures IndexOf(name, '=') == |name| && NameOf(name) == name
  {
    var s := name + ("=" + v);
    assert s[|name|] == '=' && s[..|name|] == name && name[..|name|] == name;
    assert forall k :: 0 <= k < |name| ==> s[k] == name[k] && name[k] in name;
  }

  /** A value behind an equals sign is the argument of an option that takes one, and refused by one that does not. */
  lemma LongAttached(mode: Ordering, first: Config, later: Config, name: string, v: string, i: nat, rest: seq<string>)
    requires first.longs.Some? && StandsFor(first.longs.value, name, i) && '=' !in name
    ensures ReportsFirst(mode, first, later, ["--" + (name + ("=" + v))] + rest,
                         if first.longs.value[i].hasArg != 0 then Found(first.longs.value[i], i, Some(v))
                         else Event('?' as int, None, None, None, None), 1)
  {
    hide ReportsFirst, Resolve, IndexOf;
    NameBefore(name, v);
    StandingResolves(first.longs.value, name, i);
    LongScanned(mode, first, later, name + ("=" + v), rest);
  }

  /** A required argument that is not behind an equals sign is the next element. */
  lemma LongSeparate(mode: Ordering, first: Config, later: Config, name: string, v: string, i: nat, rest: seq<string>)
    requires first.longs.Some? && StandsFor(first.longs.value, name, i) && '=' !in name && name != ""
    requires first.longs.value[i].hasArg == 1
    ensures ReportsFirst(mode, first, later, ["--" + name] + ([v] + rest), Found(first.longs.value[i], i, Some(v)), 2)
  {
    hide ReportsFirst, Resolve, IndexOf;
    NameBefore(name, v);
    StandingResolves(first.longs.value, name, i);
    LongScanned(mode, first, later, name, [v] + rest);
  }

  /** An option that requires no argument takes none from the next element. */
  lemma LongAlone(mode: Ordering, first: Config, later: Config, name: string, i: nat, rest: seq<string>)
    requires first.longs.Some? && StandsFor(first.longs.value, name, i) && '=' !in name && name != ""
    requires first.longs.value[i].hasArg != 1
    ensures ReportsFirst(mode, first, later, ["--" + name] + rest, Found(first.longs.value[i], i, None), 1)
  {
    hide ReportsFirst, Resolve, IndexOf;
    NameBefore(name, "");
    StandingResolves(first.longs.value, name, i);
    LongScanned(mode, first, later, name, rest);
  }

  lemma LongMissing(mode: Ordering, first: Config, later: Config, name: string, i: nat)
    requires first.longs.Some? && StandsFor(first.longs.value, name, i) && '=' !in name && name != ""
    requires first.longs.value[i].hasArg == 1
    ensures ReportsFirst(mode, first, later, ["--" + name],
                         Event(if first.shorts != "" && first.shorts[0] == ':' then ':' as int else '?' as int,
                               None, None, None, None), 1)
  {
    hide ReportsFirst, Resolve, IndexOf;
    NameBefore(name, "");
    StandingResolves(first.longs.value, name, i);
    assert ["--" + name] + [] == ["--" + name];
    LongScanned(mode, first, later, name, []);
  }

  /** A name that stands for no entry is an error, whatever is behind it. */
  lemma LongUnknown(mode: Ordering, first: Config, later: Config, name: string, v: string, rest: seq<string>)
    requires first.longs.Some? && '=' !in name && forall i: nat :: !StandsFor(first.longs.value, name, i)
    ensures ReportsFirst(mode, first, later, ["--" + (name + ("=" + v))] + rest,
                         Event('?' as int, None, None, None, None), 1)
    ensures name != "" ==>
      ReportsFirst(mode, first, later, ["--" + name] + rest, Event('?' as int, None, None, None, None), 1)
  {
    NameBefore(name, v);
    var m := Resolve(first.longs.value, name);
    if m.Match? {
      ExactOrPrefix(first.longs.value, name, m.index);
    }
    hide ReportsFirst, Resolve, IndexOf;
    LongScanned(mode, first, later, name + ("=" + v), rest);
    if name != "" { LongScanned(mode, first, later, name, rest); }
  }

  lemma ExactOrPrefix(longs: seq<LongOption>, name: string, i: nat)
    ensures ExactAt(longs, name, i) || OnlyPrefixAt(longs, name, i) ==> StandsFor(longs, name, i)
  {
  }

  // ---- Everything else ----

  /** A first element that is no option: set aside, the end of the scan, or reported with code 1. */
  lemma OperandMeans(first: Config, later: Config, x: string, rest: seq<string>)
    requires |x| < 2 || x[0] != '-'
    ensures var r := Scan(Permute, first, later, "", rest);
            Scan(Permute, first, later, "", [x] + rest) == Run(r.events, r.options, [x] + r.operands)
    ensures Scan(RequireOrder, first, later, "", [x] + rest) == Run([], [], [x] + rest)
    ensures ReportsFirst(ReturnInOrder, first, later, [x] + rest, Event(1, Some(x), None, None, None), 1)
  {
    var args := [x] + rest;
    assert args[0] == x && args[1..] == rest && args[..1] == [x];
    ScanPlain(Permute, first, later, args);
    ScanPlain(RequireOrder, first, later, args);
    ScanPlain(ReturnInOrder, first, later, args);
  }

  /** The terminator ends every scan, and so does the end of the list. */
  lemma TerminatorMeans(mode: Ordering, first: Config, later: Config, rest: seq<string>)
    ensures Scan(mode, first, later, "", ["--"] + rest) == Run([], ["--"], rest)
    ensures Scan(mode, first, later, "", []) == Run([], [], [])
  {
    var args := ["--"] + rest;
    assert args[0] == "--" && args[1..] == rest;
    ScanPlain(mode, first, later, args);
    ScanPlain(mode, first, later, []);
  }

  /** What selects the ordering, and what is left of the option string. */
  lemma OrderingMeans(s: string, posix: bool)
    ensures ModeOf("-" + s, posix) == ReturnInOrder && Strip("-" + s) == s
    ensures ModeOf("+" + s, posix) == RequireOrder && Strip("+" + s) == s
    ensures s == "" || (s[0] != '-' && s[0] != '+') ==>
      ModeOf(s, posix) == (if posix then RequireOrder else Permute) && Strip(s) == s
  {
    assert ("-" + s)[1..] == s && ("+" + s)[1..] == s;
  }
}
