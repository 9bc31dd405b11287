/**
 * What a whole option scan means (pub/getopt.c): a walk over the argument list that never moves
 * an element, and the partition of the list it induces.
 */
module GetoptSpec {
  import opened Options

  /** Long options: hasArg is 0, 1 or 2; flag identifies the variable to store val in, if any. */
  datatype LongOption = LongOption(name: string, hasArg: int, flag: Option<int>, val: int)

  datatype Config = Config(shorts: string, longs: Option<seq<LongOption>>)

  datatype Ordering = RequireOrder | Permute | ReturnInOrder

  /** What one call reports: the return code, and the variables the call assigned. */
  datatype Event = Event(code: int, optarg: Option<string>, optopt: Option<char>,
                         longind: Option<nat>, store: Option<(int, int)>)

  function Report(code: int, optarg: Option<string>): Event { Event(code, optarg, None, None, None) }

  predicate IsNonOption(e: string) { |e| < 2 || e[0] != '-' }

  // ---- One option character, or one long option ----

  datatype Arity = Unknown | NoArgument | RequiredArgument | OptionalArgument

  function IndexOf(s: string, c: char): (i: nat)
    ensures i <= |s| && (i < |s| ==> s[i] == c)
    ensures forall k :: 0 <= k < i ==> s[k] != c
  {
    if s == "" || s[0] == c then 0 else 1 + IndexOf(s[1..], c)
  }

  /** A letter is known if listed; one colon after it demands an argument, two allow one. */
  function ArityOf(shorts: string, c: char): Arity {
    var i := IndexOf(shorts, c);
    if i == |shorts| || c == ':' then Unknown
    else if i + 1 == |shorts| || shorts[i + 1] != ':' then NoArgument
    else if i + 2 == |shorts| || shorts[i + 2] != ':' then RequiredArgument
    else OptionalArgument
  }

  /** The code for an absent argument: a leading colon in the option string asks for a colon. */
  function MissingCode(shorts: string): int {
    if shorts != "" && shorts[0] == ':' then ':' as int else '?' as int
  }

  /** What decoding does: its report, the text left in the element, the elements used up, and
      whether a required argument was absent. */
  datatype Step = Step(event: Event, next: string, used: nat, missing: bool)

  /** Decodes the first character of text, the unread part of rest[0]. */
  function ShortStep(shorts: string, text: string, rest: seq<string>): Step
    requires text != "" && rest != []
  {
    var c, tail := text[0], text[1..];
    var used := if tail == "" then 1 else 0;
    match ArityOf(shorts, c)
    case Unknown => Step(Event('?' as int, None, Some(c), None, None), tail, used, false)
    case NoArgument => Step(Report(c as int, None), tail, used, false)
    case OptionalArgument => Step(Report(c as int, if tail == "" then None else Some(tail)), "", 1, false)
    case RequiredArgument =>
      if tail != "" then Step(Report(c as int, Some(tail)), "", 1, false)
      else if |rest| == 1 then Step(Event(MissingCode(shorts), None, Some(c), None, None), "", 1, true)
      else Step(Report(c as int, Some(rest[1])), "", 2, false)
  }

  datatype LongMatch = NoMatch | Ambiguous | Match(index: nat)

  ghost predicate ExactAt(longs: seq<LongOption>, name: string, i: nat) {
    i < |longs| && longs[i].name == name && forall k :: 0 <= k < i ==> longs[k].name != name
  }

  ghost predicate OnlyPrefixAt(longs: seq<LongOption>, name: string, i: nat) {
    i < |longs| && name <= longs[i].name && forall k :: 0 <= k < |longs| && k != i ==> !(name <= longs[k].name)
  }

  function FirstNamed(longs: seq<LongOption>, name: string): (i: nat)
    ensures i <= |longs| && (i < |longs| ==> longs[i].name == name)
    ensures forall k :: 0 <= k < i ==> longs[k].name != name
  {
    if longs == [] || longs[0].name == name then 0 else 1 + FirstNamed(longs[1..], name)
  }

  /** The entry that name stands for: an exact entry, or the only one it abbreviates. */
  ghost function Resolve(longs: seq<LongOption>, name: string): (m: LongMatch)
    ensures m.Match? ==> ExactAt(longs, name, m.index) || OnlyPrefixAt(longs, name, m.index)
    ensures m.NoMatch? <==> forall k :: 0 <= k < |longs| ==> !(name <= longs[k].name)
    ensures m.Ambiguous? <==>
      && (forall k :: 0 <= k < |longs| ==> longs[k].name != name)
      && (exists k :: 0 <= k < |longs| && name <= longs[k].name)
      && (forall i :: !OnlyPrefixAt(longs, name, i))
  {
    var e := FirstNamed(longs, name);
    if e < |longs| then Match(e)
    else if i :| 0 <= i < |longs| && OnlyPrefixAt(longs, name, i) then Match(i)
    else if exists k :: 0 <= k < |longs| && name <= longs[k].name then Ambiguous
    else NoMatch
  }

  /** The three clauses of Resolve leave no choice. */
  lemma ResolveUnique(longs: seq<LongOption>, name: string, m: LongMatch)
    requires m.Match? && !ExactAt(longs, name, m.index) ==>
      OnlyPrefixAt(longs, name, m.index) && forall k :: 0 <= k < |longs| ==> longs[k].name != name
    requires m.NoMatch? ==> forall k :: 0 <= k < |longs| ==> !(name <= longs[k].name)
    requires m.Ambiguous? ==>
      && (forall k :: 0 <= k < |longs| ==> longs[k].name != name)
      && (exists k, l :: 0 <= k < l < |longs| && name <= longs[k].name && name <= longs[l].name)
    ensures Resolve(longs, name) == m
  {
    var r := Resolve(longs, name);
    if m.NoMatch? {
      assert FirstNamed(longs, name) == |longs|;
    } else if m.Ambiguous? {
      var k, l :| 0 <= k < l < |longs| && name <= longs[k].name && name <= longs[l].name;
      forall i ensures !OnlyPrefixAt(longs, name, i) { }
    }
  }

  function NameOf(text: string): string { text[..IndexOf(text, '=')] }

  /** Decodes a long option; text is the element past its dashes. */
  ghost function LongStep(cfg: Config, longs: seq<LongOption>, text: string, rest: seq<string>): Step
    requires rest != []
  {
    var eq := IndexOf(text, '=');
    var m := Resolve(longs, NameOf(text));
    if !m.Match? then Step(Report('?' as int, None), "", 1, false)
    else
      var p := longs[m.index];
      if eq < |text| then
        if p.hasArg != 0 then Step(LongReport(p, m.index, Some(text[eq + 1..])), "", 1, false)
        else Step(Report('?' as int, None), "", 1, false)
      else if p.hasArg == 1 then
        if |rest| == 1 then Step(Report(MissingCode(cfg.shorts), None), "", 1, true)
        else Step(LongReport(p, m.index, Some(rest[1])), "", 2, false)
      else Step(LongReport(p, m.index, None), "", 1, false)
  }

  /** A long option with a flag variable stores its value there and reports 0. */
  function LongReport(p: LongOption, index: nat, optarg: Option<string>): Event {
    match p.flag
    case Some(v) => Event(0, optarg, None, Some(index), Some((v, p.val)))
    case None => Event(p.val, optarg, None, Some(index), None)
  }

  predicate IsLong(cfg: Config, e: string)
    requires |e| >= 2
  {
    cfg.longs.Some? && e[1] == '-'
  }

  /** The text to decode when an option element is entered. */
  function Enter(cfg: Config, e: string): string
    requires |e| >= 2
  {
    if IsLong(cfg, e) then e[2..] else e[1..]
  }

  ghost function Decode(cfg: Config, text: string, rest: seq<string>): Step
    requires text != "" && rest != [] && |rest[0]| >= 2
  {
    if IsLong(cfg, rest[0]) then LongStep(cfg, cfg.longs.value, text, rest)
    else ShortStep(cfg.shorts, text, rest)
  }

  lemma DecodeProgress(cfg: Config, text: string, rest: seq<string>)
    requires text != "" && rest != [] && |rest[0]| >= 2
    ensures var step := Decode(cfg, text, rest);
            && step.used <= 2 && step.used <= |rest|
            && (step.used == 0 ==> step.next == text[1..] && step.next != "" && rest[step.used..] == rest)
            && (step.used != 0 ==> step.next == "")
            && (step.missing ==> |rest| == 1 && step.used == 1)
  {
  }

  // ---- A whole scan ----

  /** The events reported, the elements that were scanned, the elements left to the caller. */
  datatype Run = Run(events: seq<Event>, options: seq<string>, operands: seq<string>)

  /** In the middle of an option element, or in front of one. */
  predicate AtOption(text: string, rest: seq<string>) {
    rest != [] && |rest[0]| >= 2 && (text == "" ==> rest[0] != "--" && !IsNonOption(rest[0]))
  }

  /** The text to decode next. */
  function Unread(cfg: Config, text: string, rest: seq<string>): (t: string)
    requires AtOption(text, rest)
    ensures t != "" && (if text == "" then |t| <= |rest[0]| else t == text)
  {
    if text != "" then text
    else assert rest[0] == [rest[0][0], rest[0][1]] + rest[0][2..]; Enter(cfg, rest[0])
  }

  /** Scanning from the middle: text is what is left of rest[0], or empty between elements.
      The first call may see another option string than the later ones. */
  ghost function Scan(mode: Ordering, first: Config, later: Config, text: string, rest: seq<string>): Run
    requires text != "" ==> AtOption(text, rest)
    decreases |rest|, if text == "" && rest != [] then |rest[0]| + 1 else |text|
  {
    if AtOption(text, rest) then
      var t := Unread(first, text, rest);
      DecodeProgress(first, t, rest);
      var step := Decode(first, t, rest);
      var r := Scan(mode, later, later, step.next, rest[step.used..]);
      Run([step.event] + r.events, rest[..step.used] + r.options, r.operands)
    else if rest == [] then Run([], [], [])
    else if rest[0] == "--" then Run([], ["--"], rest[1..])
    else
      match mode
      case RequireOrder => Run([], [], rest)
      case Permute =>
        var r := Scan(mode, first, later, "", rest[1..]);
        r.(operands := [rest[0]] + r.operands)
      case ReturnInOrder =>
        var r := Scan(mode, later, later, "", rest[1..]);
        Run([Report(1, Some(rest[0]))] + r.events, [rest[0]] + r.options, r.operands)
  }

  /** Scanning one option: its report, the elements it used up, then the rest of the scan. */
  lemma ScanOption(mode: Ordering, first: Config, later: Config, text: string, rest: seq<string>)
    requires AtOption(text, rest)
    ensures var step := Decode(first, Unread(first, text, rest), rest);
            && step.used <= |rest|
            && (step.next != "" ==> AtOption(step.next, rest[step.used..]))
            && var r := Scan(mode, later, later, step.next, rest[step.used..]);
               Scan(mode, first, later, text, rest) ==
               Run([step.event] + r.events, rest[..step.used] + r.options, r.operands)
  {
    hide Decode;
    DecodeProgress(first, Unread(first, text, rest), rest);
  }

  /** Scanning between elements when no option comes next. */
  lemma ScanPlain(mode: Ordering, first: Config, later: Config, rest: seq<string>)
    requires !AtOption("", rest)
    ensures Scan(mode, first, later, "", rest) ==
      if rest == [] then Run([], [], [])
      else if rest[0] == "--" then Run([], ["--"], rest[1..])
      else match mode
        case RequireOrder => Run([], [], rest)
        case Permute =>
          var r := Scan(mode, first, later, "", rest[1..]);
          Run(r.events, r.options, [rest[0]] + r.operands)
        case ReturnInOrder =>
          var r := Scan(mode, later, later, "", rest[1..]);
          Run([Report(1, Some(rest[0]))] + r.events, [rest[0]] + r.options, r.operands)
  {
    hide Decode;
  }
}
