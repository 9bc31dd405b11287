/** The option scanner of pub/getopt.c: static state that persists from call to call. */
module Getopt {
  import opened Options
  import opened GetoptSpec
  import GetoptTheorems

  /** A list with the blocks [i, i + len) and [j, j + len) exchanged. */
  function Swap(s: seq<string>, i: nat, j: nat, len: nat): (t: seq<string>)
    requires i + len <= j && j + len <= |s|
    ensures |t| == |s|
  {
    s[..i] + s[j..j + len] + s[i + len..j] + s[i..i + len] + s[j + len..]
  }

  lemma SwapOneMore(s: seq<string>, i: nat, j: nat, k: nat)
    requires i + k < j && j + k < |s|
    ensures var t := Swap(s, i, j, k);
            && t[i + k] == s[i + k] && t[j + k] == s[j + k]
            && t[i + k := s[j + k]][j + k := s[i + k]] == Swap(s, i, j, k + 1)
  {
    var t, r := Swap(s, i, j, k), Swap(s, i, j, k + 1);
    forall n | 0 <= n < |s| ensures t[i + k := s[j + k]][j + k := s[i + k]][n] == r[n] {
      SwapAt(s, i, j, k, n);
      SwapAt(s, i, j, k + 1, n);
    }
    SwapAt(s, i, j, k, i + k);
    SwapAt(s, i, j, k, j + k);
  }

  lemma SwapAt(s: seq<string>, i: nat, j: nat, len: nat, n: nat)
    requires i + len <= j && j + len <= |s| && n < |s|
    ensures Swap(s, i, j, len)[n] ==
            if i <= n < i + len then s[n + j - i] else if j <= n < j + len then s[n + i - j] else s[n]
  {
  }

  /** Swaps the slots [i, i + len) and [j, j + len), one pair after the other. */
  method SwapSlots(argv: array<string>, i: nat, j: nat, len: nat)
    requires i + len <= j && j + len <= argv.Length
    modifies argv
    ensures argv[..] == Swap(old(argv[..]), i, j, len)
  {
    ghost var s := argv[..];
    assert Swap(s, i, j, 0) == s;
    for k := 0 to len
      invariant argv[..] == Swap(s, i, j, k)
    {
      hide Swap;
      SwapOneMore(s, i, j, k);
      assert argv[i + k] == argv[..][i + k] && argv[j + k] == argv[..][j + k];
      argv[i + k], argv[j + k] := argv[j + k], argv[i + k];
    }
  }

  /** The mode and the option string that the first call settles on. */
  function ModeOf(shorts: string, posix: bool): Ordering {
    if shorts != "" && shorts[0] == '-' then ReturnInOrder
    else if shorts != "" && shorts[0] == '+' then RequireOrder
    else if posix then RequireOrder
    else Permute
  }

  function Strip(shorts: string): string {
    if shorts != "" && (shorts[0] == '-' || shorts[0] == '+') then shorts[1..] else shorts
  }

  /** The two adjacent blocks change places, each keeping its order. */
  function Exchanged(s: seq<string>, bottom: nat, middle: nat, top: nat): (t: seq<string>)
    requires bottom <= middle <= top <= |s|
    ensures |t| == |s|
  {
    s[..bottom] + s[middle..top] + s[bottom..middle] + s[top..]
  }

  /** Where the blocks of an exchanged list lie. */
  lemma {:induction false} BlocksExchange(s: seq<string>, bottom: nat, middle: nat, top: nat)
    requires bottom <= middle <= top <= |s|
    ensures var t, split := Exchanged(s, bottom, middle, top), bottom + top - middle;
            && t[..split] == s[..bottom] + s[middle..top]
            && t[split..top] == s[bottom..middle] && t[top..] == s[top..]
            && multiset(t) == multiset(s)
  {
    var t, split := Exchanged(s, bottom, middle, top), bottom + top - middle;
    var a, b, c, d := s[..bottom], s[bottom..middle], s[middle..top], s[top..];
    assert s == a + b + c + d;
    assert t == (a + c) + (b + d);
    assert t[..split] == a + c;
    assert t[split..] == b + d;
    assert t[split..top] == t[split..][..|b|] && t[top..] == t[split..][|b|..];
    calc {
      multiset(t);
      multiset(a + c) + multiset(b + d);
      multiset(a) + multiset(b) + multiset(c) + multiset(d);
      multiset(a + b) + multiset(c) + multiset(d);
      multiset(a + b + c) + multiset(d);
      multiset(s);
    }
  }

  lemma NothingToExchange(s: seq<string>, bottom: nat, middle: nat, top: nat)
    requires bottom <= middle <= top <= |s| && (bottom == middle || middle == top)
    ensures Exchanged(s, bottom, middle, top) == s
  {
  }

  lemma ExchangedAt(s: seq<string>, bottom: nat, middle: nat, top: nat, n: nat)
    requires bottom <= middle <= top <= |s| && n < |s|
    ensures Exchanged(s, bottom, middle, top)[n] ==
            if bottom <= n < bottom + top - middle then s[n + middle - bottom]
            else if bottom + top - middle <= n < top then s[n + middle - top]
            else s[n]
  {
  }

  /** Swapping a short bottom block with the far end of the top one puts it in its place. */
  lemma BottomShort(s: seq<string>, bottom: nat, middle: nat, top: nat)
    requires bottom <= middle <= top <= |s| && middle - bottom <= top - middle
    ensures var len := middle - bottom;
            Exchanged(Swap(s, bottom, top - len, len), bottom, middle, top - len) == Exchanged(s, bottom, middle, top)
  {
    hide Exchanged, Swap;
    var len := middle - bottom;
    var t := Swap(s, bottom, top - len, len);
    var l, r := Exchanged(t, bottom, middle, top - len), Exchanged(s, bottom, middle, top);
    forall n | 0 <= n < |s| ensures l[n] == r[n] {
      ExchangedAt(t, bottom, middle, top - len, n);
      ExchangedAt(s, bottom, middle, top, n);
      var k := if bottom <= n < bottom + top - len - middle then n + middle - bottom
               else if bottom + top - len - middle <= n < top - len then n + middle - top + len else n;
      SwapAt(s, bottom, top - len, len, k);
    }
  }

  /** Swapping a short top block with the near end of the bottom one puts it in its place. */
  lemma TopShort(s: seq<string>, bottom: nat, middle: nat, top: nat)
    requires bottom <= middle <= top <= |s| && top - middle <= middle - bottom
    ensures var len := top - middle;
            Exchanged(Swap(s, bottom, middle, len), bottom + len, middle, top) == Exchanged(s, bottom, middle, top)
  {
    hide Exchanged, Swap;
    var len := top - middle;
    var t := Swap(s, bottom, middle, len);
    var l, r := Exchanged(t, bottom + len, middle, top), Exchanged(s, bottom, middle, top);
    forall n | 0 <= n < |s| ensures l[n] == r[n] {
      ExchangedAt(t, bottom + len, middle, top, n);
      ExchangedAt(s, bottom, middle, top, n);
      var k := if bottom + len <= n < bottom + len + top - middle then n + middle - bottom - len
               else if bottom + len + top - middle <= n < top then n + middle - top else n;
      SwapAt(s, bottom, middle, len, k);
    }
  }

  lemma TakeFromRest(s: seq<string>, f: nat, l: nat, o: nat, used: nat, more: seq<string>)
    requires 1 <= f <= l <= o && o + used <= |s|
    ensures s[o..][used..] == s[o + used..]
    ensures s[1..f] + s[l..o] + (s[o..][..used] + more) == s[1..f] + s[l..o + used] + more
  {
    assert s[l..o] + s[o..][..used] == s[l..o + used];
  }

  lemma AtEnd(mode: Ordering, first: Config, later: Config, s: seq<string>, f: nat, l: nat)
    requires 1 <= f <= l <= |s| && (f == l == 1 || l == |s|)
    ensures var r := Scan(mode, first, later, "", s[|s|..]);
            && r.events == []
            && s[1..f] + s[l..] + r.options == s[1..if f == l then |s| else f]
            && s[f..l] + r.operands == s[if f == l then |s| else f..]
  {
    hide Scan;
    assert s[|s|..] == [];
    ScanPlain(mode, first, later, []);
    if f == l { assert s[1..f] + s[f..] == s[1..]; }
  }

  lemma AtOperand(mode: Ordering, first: Config, later: Config, s: seq<string>, o: nat)
    requires mode != Permute && 1 <= o < |s| && IsNonOption(s[o])
    ensures var r, r' := Scan(mode, first, later, "", s[o..]), Scan(mode, later, later, "", s[o + 1..]);
            if mode == RequireOrder then
              r.events == [] && s[1..1] + s[1..o] + r.options == s[1..o] && s[1..1] + r.operands == s[o..]
            else
              && r.events == [Report(1, Some(s[o]))] + r'.events
              && s[1..1] + s[1..o] + r.options == s[1..1] + s[1..o + 1] + r'.options
              && r.operands == r'.operands
  {
    hide Scan;
    ScanPlain(mode, first, later, s[o..]);
    assert s[o..][1..] == s[o + 1..];
    assert s[1..o] + [s[o]] == s[1..o + 1];
  }

  lemma ScanEnters(mode: Ordering, first: Config, later: Config, rest: seq<string>)
    requires AtOption("", rest)
    ensures var t := Enter(first, rest[0]);
            AtOption(t, rest) && t != "" && Scan(mode, first, later, t, rest) == Scan(mode, first, later, "", rest)
  {
    hide Scan, Decode;
    ScanOption(mode, first, later, "", rest);
    ScanOption(mode, first, later, Unread(first, "", rest), rest);
  }

  lemma AtTerminator(mode: Ordering, first: Config, later: Config, s: seq<string>, f: nat, l: nat, o: nat)
    requires 1 <= f <= l <= o < |s| && s[o] == "--"
    ensures var r := Scan(mode, first, later, "", s[o..]);
            && r.events == [] && r.operands == s[o + 1..]
            && s[1..f] + s[l..o] + r.options == s[1..f] + s[l..o + 1]
  {
    hide Scan;
    ScanPlain(mode, first, later, s[o..]);
    assert s[l..o] + ["--"] == s[l..o + 1];
    assert s[1..f] + s[l..o] + ["--"] == s[1..f] + (s[l..o] + ["--"]);
  }

  /** A permuting scan sets a run of non-options aside. */
  lemma {:induction false} ScanSkips(first: Config, later: Config, run: seq<string>, rest: seq<string>)
    requires forall i :: 0 <= i < |run| ==> IsNonOption(run[i])
    ensures var r, r' := Scan(Permute, first, later, "", run + rest), Scan(Permute, first, later, "", rest);
            r == Run(r'.events, r'.options, run + r'.operands)
    decreases |run|
  {
    hide Scan;
    if run == [] {
      assert run + rest == rest;
    } else {
      ScanSkips(first, later, run[1..], rest);
      ScanPlain(Permute, first, later, run + rest);
      assert (run + rest)[1..] == run[1..] + rest;
    }
  }

  class Scanner {
    var optind: nat
    var optarg: Option<string>
    var optopt: char
    var nextchar: string  // empty also stands for the null pointer
    var firstNonopt: nat
    var lastNonopt: nat
    var ordering: Ordering

    /**
     * Between calls argv is divided by firstNonopt, lastNonopt and optind: options scanned and moved
     * forward, non-options skipped, options scanned since, and elements yet to be scanned.
     */
    ghost predicate Laid(argv: array<string>)
      reads this
    {
      1 <= firstNonopt <= lastNonopt <= optind <= argv.Length
    }

    ghost predicate Valid(argv: array<string>)
      reads this, argv
    {
      && Laid(argv)
      && (ordering != Permute ==> firstNonopt == lastNonopt == 1)
      && (nextchar != "" ==> AtOption(nextchar, argv[optind..]))
    }

    ghost function Options(argv: array<string>): seq<string>
      requires Laid(argv)
      reads this, argv
    {
      argv[1..firstNonopt] + argv[lastNonopt..optind]
    }

    /** What is still to come, together with what has been collected. */
    ghost function Ahead(argv: array<string>, first: Config, later: Config): Run
      requires Valid(argv)
      reads this, argv
    {
      var r := Scan(ordering, first, later, nextchar, argv[optind..]);
      Run(r.events, Options(argv) + r.options, argv[firstNonopt..lastNonopt] + r.operands)
    }

    constructor ()
      ensures optind == 0
    {
      optind := 0;
      nextchar := "";
    }

    /**
     * Swaps the adjacent blocks [firstNonopt, lastNonopt) and [lastNonopt, optind), each keeping
     * its order, and relocates the bounds of the first to where it now lies.
     */
    method Exchange(argv: array<string>)
      requires firstNonopt <= lastNonopt <= optind <= argv.Length
      modifies this`firstNonopt, this`lastNonopt, argv
      ensures argv[..] == Exchanged(old(argv[..]), old(firstNonopt), old(lastNonopt), optind)
      ensures firstNonopt == old(firstNonopt) + (optind - old(lastNonopt)) && lastNonopt == optind
    {
      hide Swap, Exchanged;
      var bottom, middle, top := firstNonopt, lastNonopt, optind;
      ghost var goal := Exchanged(argv[..], bottom, middle, top);
      while top > middle && middle > bottom
        invariant firstNonopt <= bottom <= middle <= top <= optind
        invariant firstNonopt == old(firstNonopt) && lastNonopt == old(lastNonopt)
        invariant Exchanged(argv[..], bottom, middle, top) == goal
        decreases top - bottom
      {
        if top - middle > middle - bottom {
          var len := middle - bottom;
          BottomShort(argv[..], bottom, middle, top);
          SwapSlots(argv, bottom, top - len, len);
          top := top - len;
        } else {
          var len := top - middle;
          TopShort(argv[..], bottom, middle, top);
          SwapSlots(argv, bottom, middle, len);
          bottom := bottom + len;
        }
      }
      NothingToExchange(argv[..], bottom, middle, top);
      firstNonopt := firstNonopt + (optind - lastNonopt);
      lastNonopt := optind;
    }

    /** Moves the options scanned since the last operands in front of those operands. */
    method MoveOptionsForward(argv: array<string>)
      requires Laid(argv)
      modifies this`firstNonopt, this`lastNonopt, argv
      ensures Laid(argv) && lastNonopt == optind
      ensures argv[1..firstNonopt] == old(Options(argv))
      ensures argv[firstNonopt..optind] == old(argv[firstNonopt..lastNonopt])
      ensures argv[optind..] == old(argv[optind..])
      ensures argv[0] == old(argv[0]) && multiset(argv[..]) == old(multiset(argv[..]))
    {
      hide Exchanged;
      ghost var s, bottom, middle := argv[..], firstNonopt, lastNonopt;
      Exchange(argv);
      BlocksExchange(s, bottom, middle, optind);
      ghost var t := argv[..];
      assert argv[..firstNonopt] == t[..firstNonopt];
      assert argv[1..firstNonopt] == t[..firstNonopt][1..] == s[1..bottom] + s[middle..optind];
      assert t[..firstNonopt][0] == s[0];
    }

    /** Leaves nothing between the operands skipped so far and the element at optind. */
    method CloseGap(argv: array<string>)
      requires Laid(argv)
      modifies this`firstNonopt, this`lastNonopt, argv
      ensures 1 <= firstNonopt <= optind
      ensures argv[1..firstNonopt] == old(Options(argv))
      ensures argv[firstNonopt..optind] == old(argv[firstNonopt..lastNonopt])
      ensures argv[optind..] == old(argv[optind..])
      ensures argv[0] == old(argv[0]) && multiset(argv[..]) == old(multiset(argv[..]))
    {
      ghost var s, f := argv[..], firstNonopt;
      if firstNonopt != lastNonopt && lastNonopt != optind {
        MoveOptionsForward(argv);
      } else if lastNonopt != optind {
        firstNonopt := optind;
        assert s[1..f] + s[f..optind] == s[1..optind];
      }
    }

    /** The permuting advance to the next element that is not an operand. */
    method SkipOperands(argv: array<string>, ghost first: Config, ghost later: Config)
      requires Valid(argv) && nextchar == "" && ordering == Permute
      modifies this`optind, this`firstNonopt, this`lastNonopt, argv
      ensures Valid(argv) && argv[0] == old(argv[0]) && multiset(argv[..]) == old(multiset(argv[..]))
      ensures lastNonopt == optind && (optind < argv.Length ==> !IsNonOption(argv[optind]))
      ensures Ahead(argv, first, later) == old(Ahead(argv, first, later))
    {
      hide Decode, Scan;
      CloseGap(argv);
      ghost var s, f, o := argv[..], firstNonopt, optind;
      SkipRun(argv, first, later);
      assert argv[f..o] + argv[o..optind] == argv[f..optind];
      assert argv[1..f] + argv[optind..optind] == argv[1..f];
    }

    /** Takes the element at optind for a terminator: it joins the options, all the rest the operands. */
    method TakeTerminator(argv: array<string>)
      requires Laid(argv) && optind < argv.Length && (firstNonopt == lastNonopt || lastNonopt == optind)
      modifies this`optind, this`firstNonopt, this`lastNonopt, argv
      ensures Laid(argv) && lastNonopt == optind == argv.Length
      ensures argv[0] == old(argv[0]) && multiset(argv[..]) == old(multiset(argv[..]))
      ensures argv[1..firstNonopt] == old(argv[1..firstNonopt] + argv[lastNonopt..optind + 1])
      ensures argv[firstNonopt..] == old(argv[firstNonopt..lastNonopt] + argv[optind + 1..])
    {
      ghost var s, f := argv[..], firstNonopt;
      optind := optind + 1;
      if firstNonopt != lastNonopt && lastNonopt != optind {
        MoveOptionsForward(argv);
      } else if firstNonopt == lastNonopt {
        firstNonopt := optind;
        assert s[1..f] + s[f..optind] == s[1..optind];
      }
      assert argv[firstNonopt..] == argv[firstNonopt..optind] + argv[optind..];
      lastNonopt := argv.Length;
      optind := argv.Length;
    }

    /** The terminator ends the scan. */
    method EndOptions(argv: array<string>, ghost first: Config, ghost later: Config)
      requires Valid(argv) && nextchar == "" && optind < argv.Length && argv[optind] == "--"
      requires ordering == Permute ==> lastNonopt == optind
      modifies this`optind, this`firstNonopt, this`lastNonopt, argv
      ensures Laid(argv) && lastNonopt == optind == argv.Length
      ensures argv[0] == old(argv[0]) && multiset(argv[..]) == old(multiset(argv[..]))
      ensures old(Ahead(argv, first, later)) == Run([], argv[1..firstNonopt], argv[firstNonopt..])
    {
      hide Scan;
      ghost var s, o, f, l := argv[..], optind, firstNonopt, lastNonopt;
      AtTerminator(ordering, first, later, s, f, l, o);
      assert argv[1..f] == s[1..f] && argv[l..o] == s[l..o] && argv[o..] == s[o..];
      assert argv[l..o + 1] == s[l..o + 1] && argv[o + 1..] == s[o + 1..];
      TakeTerminator(argv);
    }

    /** Steps over a run of non-options; a permuting scan sets them aside. */
    method SkipRun(argv: array<string>, ghost first: Config, ghost later: Config)
      requires 1 <= firstNonopt <= optind <= argv.Length
      modifies this`optind, this`lastNonopt
      ensures firstNonopt <= lastNonopt == optind <= argv.Length
      ensures old(optind) <= optind && (optind < argv.Length ==> !IsNonOption(argv[optind]))
      ensures var r, r' := Scan(Permute, first, later, "", old(argv[optind..])),
                           Scan(Permute, first, later, "", argv[optind..]);
              r == Run(r'.events, r'.options, argv[old(optind)..optind] + r'.operands)
    {
      hide Scan;
      ghost var start := optind;
      while optind < argv.Length && IsNonOption(argv[optind])
        invariant firstNonopt <= start <= optind <= argv.Length
        invariant forall i :: start <= i < optind ==> IsNonOption(argv[i])
        decreases argv.Length - optind
      {
        optind := optind + 1;
      }
      lastNonopt := optind;
      ScanSkips(first, later, argv[start..optind], argv[optind..]);
      assert argv[start..] == argv[start..optind] + argv[optind..];
    }

    /** Looks name up among the long options, as an exact match or an abbreviation. */
    static method FindLong(longs: seq<LongOption>, name: string) returns (m: LongMatch)
      ensures m == Resolve(longs, name)
    {
      var pfound: Option<nat> := None;
      var exact, ambig := false, false;
      var i := 0;
      while i < |longs|
        invariant i <= |longs| && !exact
        invariant forall k :: 0 <= k < i ==> longs[k].name != name
        invariant pfound.None? ==> !ambig && forall k :: 0 <= k < i ==> !(name <= longs[k].name)
        invariant pfound.Some? ==> pfound.value < i && name <= longs[pfound.value].name
        invariant pfound.Some? && !ambig ==> forall k :: 0 <= k < i && k != pfound.value ==> !(name <= longs[k].name)
        invariant pfound.Some? && ambig ==>
          exists k, l :: 0 <= k < l < i && name <= longs[k].name && name <= longs[l].name
      {
        if name <= longs[i].name {
          if |name| == |longs[i].name| {
            pfound, exact := Some(i), true;
            break;
          } else if pfound.None? {
            pfound := Some(i);
          } else {
            ambig := true;
            assert pfound.value < i && name <= longs[pfound.value].name && name <= longs[i].name;
          }
        }
        i := i + 1;
      }
      m := if ambig && !exact then Ambiguous else if pfound.Some? then Match(pfound.value) else NoMatch;
      ResolveUnique(longs, name, m);
    }

    /** Decodes a long option; optind moves past it and past a separate argument. */
    method LongOption(argv: array<string>, shorts: string, longs: seq<LongOption>) returns (e: Event)
      requires optind < argv.Length && |argv[optind]| >= 2
      modifies this`optind, this`optarg, this`nextchar
      ensures var step := LongStep(Config(shorts, Some(longs)), longs, old(nextchar), old(argv[optind..]));
              && e == step.event && nextchar == step.next && optind == old(optind) + step.used
              && optarg == e.optarg && e.optopt.None?
    {
      optarg := None;
      var nameend := IndexOf(nextchar, '=');
      var m := FindLong(longs, nextchar[..nameend]);
      if !m.Match? {
        nextchar := "";
        optind := optind + 1;
        return Report('?' as int, None);
      }
      var p := longs[m.index];
      optind := optind + 1;
      if nameend < |nextchar| {
        if p.hasArg != 0 {
          optarg := Some(nextchar[nameend + 1..]);
        } else {
          nextchar := "";
          return Report('?' as int, None);
        }
      } else if p.hasArg == 1 {
        if optind < argv.Length {
          optarg := Some(argv[optind]);
          optind := optind + 1;
        } else {
          nextchar := "";
          return Report(if shorts != "" && shorts[0] == ':' then ':' as int else '?' as int, None);
        }
      }
      nextchar := "";
      if p.flag.Some? {
        return Event(0, optarg, None, Some(m.index), Some((p.flag.value, p.val)));
      }
      return Event(p.val, optarg, None, Some(m.index), None);
    }

    /** Decodes the next option character. */
    method ShortOption(argv: array<string>, shorts: string) returns (e: Event)
      requires optind < argv.Length && nextchar != ""
      modifies this`optind, this`optarg, this`optopt, this`nextchar
      ensures var step := ShortStep(shorts, old(nextchar), old(argv[optind..]));
              && e == step.event && nextchar == step.next && optind == old(optind) + step.used
              && optarg == e.optarg && optopt == (if e.optopt.Some? then e.optopt.value else old(optopt))
    {
      optarg := None;
      var c := nextchar[0];
      nextchar := nextchar[1..];
      var temp := IndexOf(shorts, c);
      if nextchar == "" { optind := optind + 1; }
      if temp == |shorts| || c == ':' {
        optopt := c;
        return Event('?' as int, None, Some(c), None, None);
      }
      if temp + 1 < |shorts| && shorts[temp + 1] == ':' {
        if temp + 2 < |shorts| && shorts[temp + 2] == ':' {
          if nextchar != "" {
            optarg := Some(nextchar);
            optind := optind + 1;
          } else {
            optarg := None;
          }
          nextchar := "";
        } else {
          if nextchar != "" {
            optarg := Some(nextchar);
            optind := optind + 1;
          } else if optind == argv.Length {
            optopt := c;
            nextchar := "";
            return Event(if shorts[0] == ':' then ':' as int else '?' as int, None, Some(c), None, None);
          } else {
            optarg := Some(argv[optind]);
            optind := optind + 1;
          }
          nextchar := "";
        }
      }
      return Report(c as int, optarg);
    }

    /** Dispatches to one of the two decoders. */
    method DecodeEither(argv: array<string>, cfg: Config) returns (e: Event)
      requires optind < argv.Length && |argv[optind]| >= 2 && nextchar != ""
      modifies this`optind, this`optarg, this`optopt, this`nextchar
      ensures var step := Decode(cfg, old(nextchar), old(argv[optind..]));
              && e == step.event && nextchar == step.next && optind == old(optind) + step.used
              && optarg == e.optarg
      ensures optopt == if e.optopt.Some? then e.optopt.value else old(optopt)
    {
      hide LongStep, ShortStep;
      assert argv[optind] == argv[optind..][0];
      if cfg.longs.Some? && argv[optind][1] == '-' {
        e := LongOption(argv, cfg.shorts, cfg.longs.value);
      } else {
        e := ShortOption(argv, cfg.shorts);
      }
    }

    /** Decodes from the element in hand, whichever kind of option it is. */
    method DecodeOption(argv: array<string>, cfg: Config, ghost later: Config) returns (e: Event)
      requires Valid(argv) && nextchar != ""
      modifies this`optind, this`optarg, this`optopt, this`nextchar
      ensures Valid(argv) && optarg == e.optarg
      ensures optopt == if e.optopt.Some? then e.optopt.value else old(optopt)
      ensures var r, r' := old(Ahead(argv, cfg, later)), Ahead(argv, later, later);
              r.events == [e] + r'.events && r.options == r'.options && r.operands == r'.operands
    {
      hide Scan, Decode;
      ghost var o, text, rest := optind, nextchar, argv[optind..];
      ghost var s, f, l := argv[..], firstNonopt, lastNonopt;
      assert argv[optind] == rest[0];
      DecodeProgress(cfg, text, rest);
      ScanOption(ordering, cfg, later, text, rest);
      ghost var step := Decode(cfg, text, rest);
      e := DecodeEither(argv, cfg);
      TakeFromRest(s, f, l, o, step.used, Scan(ordering, later, later, step.next, s[o + step.used..]).options);
      assert argv[1..f] == s[1..f] && argv[l..o] == s[l..o];
      assert argv[l..optind] == s[l..optind] && argv[optind..] == s[optind..];
    }

    method Initialize(argv: array<string>, shorts: string, posix: bool) returns (os: string)
      requires argv.Length >= 1
      modifies this`optind, this`firstNonopt, this`lastNonopt, this`ordering, this`nextchar
      ensures os == Strip(shorts) && ordering == ModeOf(shorts, posix) && nextchar == "" && optind == 1
      ensures firstNonopt == lastNonopt == 1
    {
      firstNonopt, lastNonopt, optind := 1, 1, 1;
      nextchar := "";
      os := shorts;
      if shorts != "" && shorts[0] == '-' {
        ordering := ReturnInOrder;
        os := shorts[1..];
      } else if shorts != "" && shorts[0] == '+' {
        ordering := RequireOrder;
        os := shorts[1..];
      } else if posix {
        ordering := RequireOrder;
      } else {
        ordering := Permute;
      }
    }

    /** The whole of the scan from here on; before the first call, the scan of the whole list. */
    ghost function Future(argv: array<string>, shorts: string, longs: Option<seq<LongOption>>, posix: bool): Run
      requires argv.Length >= 1 && (optind > 0 ==> Valid(argv))
      reads this, argv
    {
      var cfg := Config(shorts, longs);
      if optind == 0 then Scan(ModeOf(shorts, posix), Config(Strip(shorts), longs), cfg, "", argv[1..])
      else Ahead(argv, cfg, cfg)
    }

    /** Between elements: steps over operands when permuting, and notices the end of the scan. */
    method SkipToElement(argv: array<string>, ghost cfg: Config, ghost later: Config) returns (ended: bool)
      requires Valid(argv) && nextchar == ""
      modifies this`optind, this`firstNonopt, this`lastNonopt, argv
      ensures argv[0] == old(argv[0]) && multiset(argv[..]) == old(multiset(argv[..]))
      ensures !ended ==>
        (&& Valid(argv) && optind < argv.Length && argv[optind] != "--"
         && (ordering == Permute ==> !IsNonOption(argv[optind]))
         && Ahead(argv, cfg, later) == old(Ahead(argv, cfg, later)))
      ensures ended ==>
        (1 <= optind <= argv.Length && old(Ahead(argv, cfg, later)) == Run([], argv[1..optind], argv[optind..]))
    {
      hide Scan, Decode;
      if ordering == Permute { SkipOperands(argv, cfg, later); }
      if optind != argv.Length && argv[optind] == "--" {
        EndOptions(argv, cfg, later);
        if firstNonopt != lastNonopt { optind := firstNonopt; }
        return true;
      }
      if optind == argv.Length {
        ghost var s, f, l := argv[..], firstNonopt, lastNonopt;
        AtEnd(ordering, cfg, later, s, f, l);
        assert argv[1..f] == s[1..f] && argv[f..l] == s[f..l] && argv[l..|s|] == s[l..] && argv[|s|..] == s[|s|..];
        if firstNonopt != lastNonopt { optind := firstNonopt; }
        return true;
      }
      return false;
    }

    /** Between elements: ends the scan, passes by a non-option, or enters the next option element. */
    method NextElement(argv: array<string>, cfg: Config, ghost later: Config)
      returns (entered: bool, r: Option<Event>)
      requires Valid(argv) && nextchar == ""
      modifies this`optind, this`firstNonopt, this`lastNonopt, this`optarg, this`nextchar, argv
      ensures argv[0] == old(argv[0]) && multiset(argv[..]) == old(multiset(argv[..]))
      ensures entered ==> Valid(argv) && nextchar != "" && Ahead(argv, cfg, later) == old(Ahead(argv, cfg, later))
      ensures !entered && r.Some? ==>
        (&& Valid(argv) && optarg == r.value.optarg && r.value.optopt.None?
         && var f, f' := old(Ahead(argv, cfg, later)), Ahead(argv, later, later);
            f == Run([r.value] + f'.events, f'.options, f'.operands))
      ensures !entered && r.None? ==>
        (optarg == old(optarg) && 1 <= optind <= argv.Length
         && old(Ahead(argv, cfg, later)) == Run([], argv[1..optind], argv[optind..]))
    {
      hide Scan, Decode;
      var ended := SkipToElement(argv, cfg, later);
      if ended { return false, None; }
      ghost var s, o := argv[..], optind;
      assert argv[o..] == s[o..];
      if IsNonOption(argv[optind]) {
        AtOperand(ordering, cfg, later, s, o);
        if ordering == RequireOrder { return false, None; }
        optarg := Some(argv[optind]);
        optind := optind + 1;
        return false, Some(Report(1, optarg));
      }
      ScanEnters(ordering, cfg, later, s[o..]);
      nextchar := argv[optind][if cfg.longs.Some? && argv[optind][1] == '-' then 2 else 1..];
      return true, None;
    }

    /**
     * One call. It reports the next event of the scan, or the end of the scan; then argv holds the
     * scanned elements followed by the operands, and optind is the boundary.
     */
    method Next(argv: array<string>, shorts: string, longs: Option<seq<LongOption>>, posix: bool)
      returns (r: Option<Event>)
      requires argv.Length >= 1 && (optind > 0 ==> Valid(argv))
      modifies this, argv
      ensures argv[0] == old(argv[0]) && multiset(argv[..]) == old(multiset(argv[..]))
      ensures r.Some? ==>
        (&& optind > 0 && Valid(argv) && optarg == r.value.optarg
         && var f, f' := old(Future(argv, shorts, longs, posix)), Future(argv, shorts, longs, posix);
            f == Run([r.value] + f'.events, f'.options, f'.operands))
      ensures optopt == if r.Some? && r.value.optopt.Some? then r.value.optopt.value else old(optopt)
      ensures r.None? ==>
        (1 <= optind <= argv.Length && optarg == None
         && old(Future(argv, shorts, longs, posix)) == Run([], argv[1..optind], argv[optind..]))
    {
      hide Scan, Decode;
      optarg := None;
      var os := shorts;
      if optind == 0 {
        os := Initialize(argv, shorts, posix);
        assert Options(argv) == [] && argv[firstNonopt..lastNonopt] == [];
      }
      var cfg, later := Config(os, longs), Config(shorts, longs);
      assert Ahead(argv, cfg, later) == old(Future(argv, shorts, longs, posix));
      if nextchar == "" {
        var entered;
        entered, r := NextElement(argv, cfg, later);
        if !entered { return; }
      }
      var e := DecodeOption(argv, cfg, later);
      return Some(e);
    }
  }

  /** What a whole scan leaves in argv, in the terms of the elements' roles: a stable partition when it
      permutes, the original list when it does not. */
  lemma {:induction false} WholeScan(args: seq<string>, shorts: string, longs: Option<seq<LongOption>>, posix: bool)
    ensures var cfg, mode := Config(shorts, longs), ModeOf(shorts, posix);
            var r, roles := Scan(mode, Config(Strip(shorts), longs), cfg, "", args), GetoptTheorems.RolesOf(cfg, args);
            if mode == Permute then
              && r.options == GetoptTheorems.Select(args, roles, false)
              && r.operands == GetoptTheorems.Select(args, roles, true)
            else r.options + r.operands == args
  {
    hide Scan, GetoptTheorems.Select;
    var cfg, mode := Config(shorts, longs), ModeOf(shorts, posix);
    if mode == Permute {
      assert Strip(shorts) == shorts;
      GetoptTheorems.RolesOfFit(cfg, args);
      GetoptTheorems.StablePartition(cfg, args, GetoptTheorems.RolesOf(cfg, args));
    } else {
      GetoptTheorems.OrderKept(mode, Config(Strip(shorts), longs), cfg, "", args);
    }
  }

  /** A caller's loop: calls until the end of the scan. */
  method ScanAll(argv: array<string>, shorts: string, longs: Option<seq<LongOption>>, posix: bool)
    returns (events: seq<Event>, optind: nat)
    requires argv.Length >= 1
    modifies argv
    ensures argv[0] == old(argv[0]) && multiset(argv[..]) == old(multiset(argv[..]))
    ensures 1 <= optind <= argv.Length
    ensures Run(events, argv[1..optind], argv[optind..]) ==
            Scan(ModeOf(shorts, posix), Config(Strip(shorts), longs), Config(shorts, longs), "", old(argv[1..]))
  {
    hide *;
    var s := Begin(argv, shorts, longs, posix);
    ghost var whole := s.Future(argv, shorts, longs, posix);
    ghost var ahead := whole;
    events := [];
    NothingReported(whole);
    while true
      invariant s.optind > 0 ==> s.Valid(argv)
      invariant argv[0] == old(argv[0]) && multiset(argv[..]) == old(multiset(argv[..]))
      invariant ahead == s.Future(argv, shorts, longs, posix) && Reported(whole, events, ahead)
      decreases |ahead.events|
    {
      var r := s.Next(argv, shorts, longs, posix);
      if r.None? {
        optind := s.optind;
        ReportedAll(whole, events, ahead);
        return;
      }
      ghost var later := s.Future(argv, shorts, longs, posix);
      ReportedNext(whole, events, ahead, r.value, later);
      events, ahead := events + [r.value], later;
    }
  }

  /** The state before the first call. */
  method Begin(argv: array<string>, shorts: string, longs: Option<seq<LongOption>>, posix: bool) returns (s: Scanner)
    requires argv.Length >= 1
    ensures fresh(s) && s.optind == 0
    ensures s.Future(argv, shorts, longs, posix) ==
            Scan(ModeOf(shorts, posix), Config(Strip(shorts), longs), Config(shorts, longs), "", argv[1..])
  {
    hide Scan;
    s := new Scanner();
  }

  /** A run of which some events have been reported and the rest lies ahead. */
  ghost predicate Reported(whole: Run, events: seq<Event>, ahead: Run) {
    whole == Run(events + ahead.events, ahead.options, ahead.operands)
  }

  lemma NothingReported(whole: Run)
    ensures Reported(whole, [], whole)
  {
  }

  lemma ReportedNext(whole: Run, events: seq<Event>, ahead: Run, e: Event, later: Run)
    requires Reported(whole, events, ahead) && ahead == Run([e] + later.events, later.options, later.operands)
    ensures Reported(whole, events + [e], later) && |later.events| < |ahead.events|
  {
    assert events + ([e] + later.events) == events + [e] + later.events;
  }

  lemma ReportedAll(whole: Run, events: seq<Event>, ahead: Run)
    requires Reported(whole, events, ahead) && ahead.events == []
    ensures whole == Run(events, ahead.options, ahead.operands)
  {
  }
}
