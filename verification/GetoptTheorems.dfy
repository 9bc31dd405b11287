/** Properties of whole scans: stable partition, and what a second scan sees. */
module GetoptTheorems {
  import opened GetoptSpec
  import opened Options

  // ---- The partition, read off the argument list without scanning ----

  datatype Role = OptionElement | Argument | Terminator | Operand

  /** Whether a cluster of option letters ends in one whose argument must come from the next element. */
  predicate TakesShort(shorts: string, text: string) {
    text != "" &&
    match ArityOf(shorts, text[0])
    case RequiredArgument => |text| == 1
    case OptionalArgument => false
    case _ => TakesShort(shorts, text[1..])
  }

  ghost predicate TakesLong(longs: seq<LongOption>, text: string) {
    '=' !in text && var m := Resolve(longs, text); m.Match? && longs[m.index].hasArg == 1
  }

  ghost predicate TakesFrom(cfg: Config, e: string, text: string)
    requires |e| >= 2
  {
    if IsLong(cfg, e) then TakesLong(cfg.longs.value, text) else TakesShort(cfg.shorts, text)
  }

  /** Whether option element e takes the element after it, if there is one. */
  ghost predicate Takes(cfg: Config, e: string) {
    |e| >= 2 && TakesFrom(cfg, e, Enter(cfg, e))
  }

  /** An element's role follows from the element and from what stands before it. */
  ghost function RoleAt(cfg: Config, args: seq<string>, roles: seq<Role>, i: nat): Role
    requires i < |args| == |roles|
  {
    if Terminator in roles[..i] then Operand
    else if i > 0 && roles[i - 1] == OptionElement && Takes(cfg, args[i - 1]) then Argument
    else if args[i] == "--" then Terminator
    else if IsNonOption(args[i]) then Operand
    else OptionElement
  }

  ghost predicate RolesFit(cfg: Config, args: seq<string>, roles: seq<Role>) {
    |roles| == |args| && forall i :: 0 <= i < |args| ==> roles[i] == RoleAt(cfg, args, roles, i)
  }

  lemma RoleIsLocal(cfg: Config, args: seq<string>, roles: seq<Role>, n: nat, i: nat)
    requires |roles| == |args| && i < n <= |args|
    ensures RoleAt(cfg, args, roles, i) == RoleAt(cfg, args[..n], roles[..n], i)
  {
    hide Takes;
    assert roles[..n][..i] == roles[..i];
  }

  /** Every argument list has its roles. */
  ghost function RolesOf(cfg: Config, args: seq<string>): (roles: seq<Role>)
    ensures |roles| == |args|
  {
    if args == [] then []
    else
      var before := RolesOf(cfg, args[..|args| - 1]);
      before + [RoleAt(cfg, args, before + [Operand], |args| - 1)]
  }

  lemma {:induction false} RolesOfFit(cfg: Config, args: seq<string>)
    ensures RolesFit(cfg, args, RolesOf(cfg, args))
  {
    hide RoleAt;
    if args != [] {
      var n, roles := |args| - 1, RolesOf(cfg, args);
      RolesOfFit(cfg, args[..n]);
      assert roles[..n] == RolesOf(cfg, args[..n]) == (RolesOf(cfg, args[..n]) + [Operand])[..n];
      forall i | 0 <= i < |args| ensures roles[i] == RoleAt(cfg, args, roles, i) {
        if i < n {
          RoleIsLocal(cfg, args, roles, n, i);
          assert roles[..n][i] == roles[i];
        } else {
          LastRole(cfg, args, roles, RolesOf(cfg, args[..n]) + [Operand]);
        }
      }
    }
  }

  lemma LastRole(cfg: Config, args: seq<string>, roles: seq<Role>, other: seq<Role>)
    requires args != [] && |roles| == |other| == |args| && roles[..|args| - 1] == other[..|args| - 1]
    ensures RoleAt(cfg, args, roles, |args| - 1) == RoleAt(cfg, args, other, |args| - 1)
  {
    hide Takes;
    var n := |args| - 1;
    if n > 0 { assert roles[n - 1] == roles[..n][n - 1] == other[..n][n - 1]; }
  }

  /** The elements with (or without) the role of an operand, in their order. */
  function Select(args: seq<string>, roles: seq<Role>, operands: bool): seq<string>
    requires |roles| == |args|
  {
    if args == [] then []
    else (if roles[0].Operand? == operands then [args[0]] else []) + Select(args[1..], roles[1..], operands)
  }

  lemma {:induction false} SelectAll(args: seq<string>, roles: seq<Role>, b: bool)
    requires |roles| == |args| && forall i :: 0 <= i < |roles| ==> roles[i].Operand? == b
    ensures Select(args, roles, b) == args && Select(args, roles, !b) == []
  {
    if args != [] {
      SelectAll(args[1..], roles[1..], b);
    }
  }

  lemma {:induction false} SelectSplit(args: seq<string>, roles: seq<Role>, k: nat, b: bool)
    requires |roles| == |args| && k <= |args|
    ensures Select(args, roles, b) == Select(args[..k], roles[..k], b) + Select(args[k..], roles[k..], b)
  {
    if k > 0 {
      SelectSplit(args[1..], roles[1..], k - 1, b);
      assert args[..k][1..] == args[1..][..k - 1] && roles[..k][1..] == roles[1..][..k - 1];
    }
  }

  lemma {:induction false} SelectPermutes(args: seq<string>, roles: seq<Role>)
    requires |roles| == |args|
    ensures multiset(Select(args, roles, false) + Select(args, roles, true)) == multiset(args)
  {
    if args != [] {
      SelectPermutes(args[1..], roles[1..]);
      assert args == [args[0]] + args[1..];
    }
  }

  // ---- One element of a scan ----

  function Width(takes: bool, n: nat): nat { if takes && n > 1 then 2 else 1 }

  lemma TakesDecode(cfg: Config, text: string, rest: seq<string>)
    requires text != "" && rest != [] && |rest[0]| >= 2
    ensures var step := Decode(cfg, text, rest);
            if step.used == 0
            then TakesFrom(cfg, rest[0], text) == TakesFrom(cfg, rest[0], step.next)
            else step.used == Width(TakesFrom(cfg, rest[0], text), |rest|)
  {
    if IsLong(cfg, rest[0]) {
      var eq := IndexOf(text, '=');
      if '=' !in text {
        assert eq == |text|;
        assert NameOf(text) == text;
      } else {
        var i :| 0 <= i < |text| && text[i] == '=';
        assert eq < |text|;
      }
    } else {
      assert TakesFrom(cfg, rest[0], text) == TakesShort(cfg.shorts, text);
      var tail := text[1..];
      if tail == "" { assert !TakesShort(cfg.shorts, tail); }
    }
  }

  /** A scan that is inside an option element finishes it and goes on after it and its argument. */
  lemma {:induction false} ElementScan(mode: Ordering, cfg: Config, text: string, rest: seq<string>)
    requires text != "" && rest != [] && |rest[0]| >= 2
    ensures var k := Width(TakesFrom(cfg, rest[0], text), |rest|);
            var r := Scan(mode, cfg, cfg, text, rest);
            var tail := Scan(mode, cfg, cfg, "", rest[k..]);
            r.options == rest[..k] + tail.options && r.operands == tail.operands
    decreases |text|
  {
    hide TakesFrom, Decode, Scan;
    DecodeProgress(cfg, text, rest);
    TakesDecode(cfg, text, rest);
    ScanOption(mode, cfg, cfg, text, rest);
    var step := Decode(cfg, text, rest);
    if step.used == 0 { ElementScan(mode, cfg, step.next, rest); }
  }

  // ---- Stable partition ----

  lemma FitTail(cfg: Config, args: seq<string>, roles: seq<Role>, k: nat)
    requires RolesFit(cfg, args, roles) && 0 < k <= |args|
    requires Terminator !in roles[..k]
    requires !(roles[k - 1] == OptionElement && Takes(cfg, args[k - 1]))
    ensures RolesFit(cfg, args[k..], roles[k..])
  {
    hide Takes, RoleAt;
    var a, r := args[k..], roles[k..];
    forall i | 0 <= i < |a| ensures r[i] == RoleAt(cfg, a, r, i) {
      assert roles[k + i] == RoleAt(cfg, args, roles, k + i);
      RoleInTail(cfg, args, roles, k, i);
    }
  }

  lemma RoleInTail(cfg: Config, args: seq<string>, roles: seq<Role>, k: nat, i: nat)
    requires |roles| == |args| && 0 < k && k + i < |args|
    requires Terminator !in roles[..k]
    requires !(roles[k - 1] == OptionElement && Takes(cfg, args[k - 1]))
    ensures RoleAt(cfg, args[k..], roles[k..], i) == RoleAt(cfg, args, roles, k + i)
  {
    hide Takes;
    var a, r := args[k..], roles[k..];
    assert roles[..k + i] == roles[..k] + r[..i];
    if i > 0 { assert roles[k + i - 1] == r[i - 1] && args[k + i - 1] == a[i - 1]; }
  }

  /** The role of the first element, and of everything after a terminator in front. */
  lemma FirstRoles(cfg: Config, args: seq<string>, roles: seq<Role>)
    requires RolesFit(cfg, args, roles) && args != []
    ensures |roles| == |args|
    ensures roles[0] == if args[0] == "--" then Terminator else if IsNonOption(args[0]) then Operand else OptionElement
    ensures args[0] == "--" ==> forall i :: 1 <= i < |roles| ==> roles[i] == Operand
    ensures |args| > 1 && roles[0] == OptionElement && Takes(cfg, args[0]) ==> roles[1] == Argument
    ensures args[0] != "--" ==> Terminator !in roles[..1]
    ensures |args| > 1 && roles[0] == OptionElement && Takes(cfg, args[0]) ==> Terminator !in roles[..2]
  {
    hide Takes;
    assert roles[..0] == [] && roles[0] == RoleAt(cfg, args, roles, 0);
    assert roles[..1] == [roles[0]];
    if |args| > 1 { assert roles[1] == RoleAt(cfg, args, roles, 1) && roles[..2] == [roles[0], roles[1]]; }
    if args[0] == "--" {
      forall i | 1 <= i < |roles| ensures roles[i] == Operand {
        assert roles[..i][0] == Terminator;
        assert roles[i] == RoleAt(cfg, args, roles, i);
      }
    }
  }

  /**
   * A permuting scan splits the list into the option elements, their arguments and the terminator,
   * in their order, and the operands, in theirs.
   */
  lemma {:induction false} StablePartition(cfg: Config, args: seq<string>, roles: seq<Role>)
    requires RolesFit(cfg, args, roles)
    ensures var r := Scan(Permute, cfg, cfg, "", args);
            r.options == Select(args, roles, false) && r.operands == Select(args, roles, true)
    decreases |args|
  {
    hide Takes, Decode, RolesFit;
    if args != [] {
      FirstRoles(cfg, args, roles);
      if args[0] == "--" {
        SelectAll(args[1..], roles[1..], true);
      } else if IsNonOption(args[0]) {
        FitTail(cfg, args, roles, 1);
        StablePartition(cfg, args[1..], roles[1..]);
      } else {
        OptionPartition(cfg, args, roles);
        var k := Width(Takes(cfg, args[0]), |args|);
        StablePartition(cfg, args[k..], roles[k..]);
      }
    }
  }

  lemma ScanEnters(mode: Ordering, cfg: Config, args: seq<string>)
    requires AtOption("", args)
    ensures Enter(cfg, args[0]) != ""
    ensures Scan(mode, cfg, cfg, "", args) == Scan(mode, cfg, cfg, Enter(cfg, args[0]), args)
  {
    hide Scan, Decode;
    var text := Unread(cfg, "", args);
    ScanOption(mode, cfg, cfg, "", args);
    ScanOption(mode, cfg, cfg, text, args);
  }

  lemma {:induction false} OptionPartition(cfg: Config, args: seq<string>, roles: seq<Role>)
    requires RolesFit(cfg, args, roles) && args != [] && args[0] != "--" && !IsNonOption(args[0])
    ensures var k := Width(Takes(cfg, args[0]), |args|);
            var r := Scan(Permute, cfg, cfg, "", args);
            var tail := Scan(Permute, cfg, cfg, "", args[k..]);
            && r.options == args[..k] + tail.options && r.operands == tail.operands
            && RolesFit(cfg, args[k..], roles[k..])
            && Select(args, roles, false) == args[..k] + Select(args[k..], roles[k..], false)
            && Select(args, roles, true) == Select(args[k..], roles[k..], true)
  {
    hide TakesFrom, Decode, Scan, Select, RolesFit, RoleAt;
    var k := Width(Takes(cfg, args[0]), |args|);
    ScanEnters(Permute, cfg, args);
    ElementScan(Permute, cfg, Enter(cfg, args[0]), args);
    FirstRoles(cfg, args, roles);
    if k < |args| {
      FitTail(cfg, args, roles, k);
    } else {
      FitNone(cfg, args[k..], roles[k..]);
    }
    SelectSplit(args, roles, k, false);
    SelectSplit(args, roles, k, true);
    SelectAll(args[..k], roles[..k], false);
  }

  lemma FitNone(cfg: Config, args: seq<string>, roles: seq<Role>)
    requires args == [] && roles == []
    ensures RolesFit(cfg, args, roles)
  {
  }

  // ---- Scanning again ----

  /** Without permutation the list stays as it is. */
  lemma {:induction false} OrderKept(mode: Ordering, first: Config, later: Config, text: string, rest: seq<string>)
    requires mode != Permute && (text != "" ==> AtOption(text, rest))
    ensures var r := Scan(mode, first, later, text, rest); r.options + r.operands == rest
    decreases |rest|, if text == "" && rest != [] then |rest[0]| + 1 else |text|
  {
    hide Decode, Unread;
    if AtOption(text, rest) {
      hide Scan;
      ScanOption(mode, first, later, text, rest);
      DecodeProgress(first, Unread(first, text, rest), rest);
      var step := Decode(first, Unread(first, text, rest), rest);
      OrderKept(mode, later, later, step.next, rest[step.used..]);
    } else if rest != [] && rest[0] != "--" && mode == ReturnInOrder {
      OrderKept(mode, later, later, "", rest[1..]);
    }
  }

  /** How a permuting scan ends: at a terminator, for want of elements, or for want of an argument. */
  datatype Ending = Terminated | Exhausted | ArgumentAbsent

  ghost function EndOf(cfg: Config, text: string, rest: seq<string>): Ending
    requires text != "" ==> AtOption(text, rest)
    decreases |rest|, if text == "" && rest != [] then |rest[0]| + 1 else |text|
  {
    if AtOption(text, rest) then
      DecodeProgress(cfg, Unread(cfg, text, rest), rest);
      var step := Decode(cfg, Unread(cfg, text, rest), rest);
      if step.missing then ArgumentAbsent else EndOf(cfg, step.next, rest[step.used..])
    else if rest == [] then Exhausted
    else if rest[0] == "--" then Terminated
    else EndOf(cfg, "", rest[1..])
  }

  predicate AllNonOptions(s: seq<string>) { forall i :: 0 <= i < |s| ==> IsNonOption(s[i]) }

  lemma {:induction false} ScanNonOptions(s: seq<string>, cfg: Config)
    requires AllNonOptions(s)
    ensures Scan(Permute, cfg, cfg, "", s) == Scan(RequireOrder, cfg, cfg, "", s) == Run([], [], s)
  {
    if s != [] { ScanNonOptions(s[1..], cfg); }
  }

  lemma {:induction false} LeftoversAreNonOptions(cfg: Config, text: string, rest: seq<string>)
    requires text != "" ==> AtOption(text, rest)
    requires EndOf(cfg, text, rest) != Terminated
    ensures AllNonOptions(Scan(Permute, cfg, cfg, text, rest).operands)
    decreases |rest|, if text == "" && rest != [] then |rest[0]| + 1 else |text|
  {
    hide Decode;
    if AtOption(text, rest) {
      hide Scan;
      ScanOption(Permute, cfg, cfg, text, rest);
      DecodeProgress(cfg, Unread(cfg, text, rest), rest);
      var step := Decode(cfg, Unread(cfg, text, rest), rest);
      if step.missing { EndOfScan(cfg); } else { LeftoversAreNonOptions(cfg, step.next, rest[step.used..]); }
    } else if rest != [] && rest[0] != "--" {
      LeftoversAreNonOptions(cfg, "", rest[1..]);
    }
  }

  /** Decoding looks at the element in hand and, only for a separate argument, at the next one. */
  lemma DecodeLocal(cfg: Config, text: string, rest: seq<string>, other: seq<string>)
    requires text != "" && rest != [] && |rest[0]| >= 2 && other != [] && other[0] == rest[0]
    requires Decode(cfg, text, rest).used == 2 ==> |rest| >= 2 && |other| >= 2 && other[1] == rest[1]
    requires Decode(cfg, text, rest).missing ==> |other| == 1
    ensures Decode(cfg, text, other) == Decode(cfg, text, rest)
  {
    hide ArityOf, Resolve, IndexOf;
  }

  /** One option decoded again in front of what the rest of the scan collected. */
  lemma {:induction false} RescanOption(mode: Ordering, cfg: Config, text: string, rest: seq<string>,
                                        more: seq<string>, tail: seq<string>)
    requires AtOption(text, rest)
    requires var step := Decode(cfg, Unread(cfg, text, rest), rest);
             && step.used <= |rest| && (step.next != "" ==> more != [] && more[0] == rest[0])
             && (step.missing ==> more + tail == [])
    ensures var step := Decode(cfg, Unread(cfg, text, rest), rest);
            var again := rest[..step.used] + more + tail;
            && again != [] && again[0] == rest[0] && (rest[..step.used] + more) != []
            && (rest[..step.used] + more)[0] == rest[0]
            && AtOption(text, again) && (step.next != "" ==> AtOption(step.next, more + tail))
            && var r := Scan(mode, cfg, cfg, step.next, more + tail);
               Scan(mode, cfg, cfg, text, again) ==
               Run([step.event] + r.events, rest[..step.used] + r.options, r.operands)
  {
    hide Decode, Scan;
    var t := Unread(cfg, text, rest);
    DecodeProgress(cfg, t, rest);
    var step := Decode(cfg, t, rest);
    var again := rest[..step.used] + more + tail;
    assert again[step.used..] == more + tail && again[..step.used] == rest[..step.used];
    DecodeLocal(cfg, t, rest, again);
    ScanOption(mode, cfg, cfg, text, again);
  }

  /** Scanning what a permuting scan has put in front reports the same again. */
  lemma {:induction false} RescanAgrees(mode: Ordering, cfg: Config, text: string, rest: seq<string>, tail: seq<string>)
    requires mode != ReturnInOrder && (text != "" ==> AtOption(text, rest))
    requires EndOf(cfg, text, rest) != Terminated ==> AllNonOptions(tail)
    requires EndOf(cfg, text, rest) == ArgumentAbsent ==> tail == []
    ensures var r := Scan(Permute, cfg, cfg, text, rest);
            && (AtOption(text, rest) ==> r.options != [] && r.options[0] == rest[0])
            && (text != "" ==> AtOption(text, r.options + tail))
            && Scan(mode, cfg, cfg, text, r.options + tail) == Run(r.events, r.options, tail)
    decreases |rest|, if text == "" && rest != [] then |rest[0]| + 1 else |text|
  {
    hide Decode, AllNonOptions;
    if AtOption(text, rest) {
      hide Scan;
      var t := Unread(cfg, text, rest);
      DecodeProgress(cfg, t, rest);
      ScanOption(Permute, cfg, cfg, text, rest);
      var step := Decode(cfg, t, rest);
      if step.missing { EndOfScan(cfg); } else { RescanAgrees(mode, cfg, step.next, rest[step.used..], tail); }
      var more := Scan(Permute, cfg, cfg, step.next, rest[step.used..]).options;
      RescanOption(mode, cfg, text, rest, more, tail);
    } else {
      var r := Scan(Permute, cfg, cfg, text, rest);
      if rest == [] {
        ScanNonOptions(tail, cfg);
        assert r.options + tail == tail;
      } else if rest[0] == "--" {
        assert (r.options + tail)[1..] == tail;
      } else {
        RescanAgrees(mode, cfg, "", rest[1..], tail);
      }
    }
  }

  lemma EndOfScan(cfg: Config)
    ensures Scan(Permute, cfg, cfg, "", []) == Run([], [], [])
  {
  }

  /** What a caller sees of the events: the codes and the arguments. */
  function Answers(events: seq<Event>): seq<(int, Option<string>)> {
    if events == [] then [] else [(events[0].code, events[0].optarg)] + Answers(events[1..])
  }

  lemma AnswersHead(e: Event, events: seq<Event>)
    ensures Answers([e] + events) == [(e.code, e.optarg)] + Answers(events)
    ensures Answers([e] + events)[0] == (e.code, e.optarg) && Answers([e] + events)[1..] == Answers(events)
  {
    assert ([e] + events)[1..] == events;
  }

  /** An option that lacked its argument takes the operand that permutation has put behind it. */
  lemma {:induction false} RescanDiffers(mode: Ordering, cfg: Config, text: string, rest: seq<string>,
                                         tail: seq<string>)
    requires mode != ReturnInOrder && (text != "" ==> AtOption(text, rest))
    requires EndOf(cfg, text, rest) == ArgumentAbsent && tail != [] && AllNonOptions(tail)
    ensures var r := Scan(Permute, cfg, cfg, text, rest);
            && (AtOption(text, rest) ==> r.options != [] && r.options[0] == rest[0])
            && (text != "" ==> AtOption(text, r.options + tail))
            && var r' := Scan(mode, cfg, cfg, text, r.options + tail);
               Answers(r'.events) != Answers(r.events) &&
               r'.options == r.options + [tail[0]] && r'.operands == tail[1..]
    decreases |rest|, if text == "" && rest != [] then |rest[0]| + 1 else |text|
  {
    hide Decode, Unread;
    if AtOption(text, rest) {
      hide Scan, AllNonOptions;
      var t := Unread(cfg, text, rest);
      DecodeProgress(cfg, t, rest);
      var step := Decode(cfg, t, rest);
      ScanOption(Permute, cfg, cfg, text, rest);
      if step.missing {
        RescanMissing(mode, cfg, text, rest, tail);
      } else {
        RescanDiffers(mode, cfg, step.next, rest[step.used..], tail);
        var more := Scan(Permute, cfg, cfg, step.next, rest[step.used..]).options;
        RescanOption(mode, cfg, text, rest, more, tail);
        var r, r' := Scan(Permute, cfg, cfg, text, rest), Scan(mode, cfg, cfg, step.next, more + tail);
        AnswersHead(step.event, r'.events);
        AnswersHead(step.event, Scan(Permute, cfg, cfg, step.next, rest[step.used..]).events);
        assert rest[..step.used] + (more + [tail[0]]) == r.options + [tail[0]];
      }
    } else {
      RescanDiffers(mode, cfg, "", rest[1..], tail);
    }
  }

  lemma RescanMissing(mode: Ordering, cfg: Config, text: string, rest: seq<string>, tail: seq<string>)
    requires mode != ReturnInOrder && AtOption(text, rest) && tail != [] && AllNonOptions(tail)
    requires Decode(cfg, Unread(cfg, text, rest), rest).missing
    ensures var r := Scan(Permute, cfg, cfg, text, rest);
            && r.options == rest && AtOption(text, rest + tail)
            && var r' := Scan(mode, cfg, cfg, text, rest + tail);
               Answers(r'.events) != Answers(r.events) && r'.options == rest + [tail[0]] && r'.operands == tail[1..]
  {
    hide Decode, Scan, AllNonOptions;
    var t := Unread(cfg, text, rest);
    DecodeProgress(cfg, t, rest);
    EndOfScan(cfg);
    ScanOption(Permute, cfg, cfg, text, rest);
    var again := rest + tail;
    MissingDiffers(cfg, t, rest, again);
    TailOfNonOptions(mode, cfg, tail);
    ScanOption(mode, cfg, cfg, text, again);
    assert rest[1..] == [] && rest[..1] == rest;
    assert again[2..] == tail[1..] && again[..2] == rest + [tail[0]];
    var r, r' := Scan(Permute, cfg, cfg, text, rest), Scan(mode, cfg, cfg, text, again);
    AnswersHead(Decode(cfg, t, rest).event, []);
    AnswersHead(Decode(cfg, t, again).event, []);
    assert Answers(r.events)[0] != Answers(r'.events)[0];
  }

  lemma TailOfNonOptions(mode: Ordering, cfg: Config, tail: seq<string>)
    requires mode != ReturnInOrder && tail != [] && AllNonOptions(tail)
    ensures Scan(mode, cfg, cfg, "", tail[1..]) == Run([], [], tail[1..])
  {
    hide Scan;
    ScanNonOptions(tail[1..], cfg);
  }

  lemma MissingDiffers(cfg: Config, text: string, rest: seq<string>, other: seq<string>)
    requires text != "" && rest != [] && |rest[0]| >= 2 && |other| >= 2 && other[0] == rest[0]
    requires Decode(cfg, text, rest).missing
    ensures var step := Decode(cfg, text, other);
            step.used == 2 && step.next == "" && step.event.optarg != Decode(cfg, text, rest).event.optarg
  {
    hide ArityOf, Resolve, IndexOf;
  }

  /**
   * A scan of the permuted list, permuting or not, finds the same events and the same boundary,
   * unless the last option lacked its argument and operands were put behind it. Either way it
   * leaves the list as it stands.
   */
  lemma {:induction false} Rescan(mode: Ordering, cfg: Config, args: seq<string>)
    requires mode != ReturnInOrder
    ensures var r := Scan(Permute, cfg, cfg, "", args);
            var r' := Scan(mode, cfg, cfg, "", r.options + r.operands);
            && (r' == r <==> !(EndOf(cfg, "", args) == ArgumentAbsent && r.operands != []))
            && (Answers(r'.events) == Answers(r.events) <==> r' == r)
            && r'.options + r'.operands == r.options + r.operands
  {
    hide Scan, AllNonOptions, EndOf;
    var r := Scan(Permute, cfg, cfg, "", args);
    if EndOf(cfg, "", args) != Terminated { LeftoversAreNonOptions(cfg, "", args); }
    if EndOf(cfg, "", args) == ArgumentAbsent && r.operands != [] {
      RescanDiffers(mode, cfg, "", args, r.operands);
    } else {
      RescanAgrees(mode, cfg, "", args, r.operands);
    }
  }
}
