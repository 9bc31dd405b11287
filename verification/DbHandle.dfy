/**
 * The shared database handle (src/dbm_api.c) as a state machine: any number of threads run OpenDB and
 * CloseDB on it, step by step, in any interleaving that the two locks allow.
 */
module DbHandle {
  import opened Options

  type Tid = nat

  /** Where a thread is. From its test to its unlock it holds the handle's lock; at the unlock it knows
      whether an open is about to return a handle, and whether a close has given up a reference. */
  datatype Pc =
    | Idle
    | WantTable | InTable           // DBHandleGet, under the lock of the table of handles
    | WantToOpen | OpenTest | OpenPath | OpenBackend | OpenMigrate | OpenCount | OpenUnlock(got: bool)
    | WantToClose | CloseTest | CloseBackend | CloseUnlock(given: bool)

  /** Calls of the backend that took effect; id names what an open returned. */
  datatype Call = Opened(id: nat) | Closed(id: nat)

  datatype State = State(
    tableLock: Option<Tid>, named: bool,
    lock: Option<Tid>, refcount: int, priv: Option<nat>,
    pcs: map<Tid, Pc>,
    calls: seq<Call>)
  {
    function At(t: Tid): Pc { if t in pcs then pcs[t] else Idle }

    function Go(t: Tid, pc: Pc): State { this.(pcs := pcs[t := pc]) }
  }

  /** What the environment decides: which function a thread calls, and how the calls it makes turn out. */
  datatype Action = CallOpen | CallClose | Proceed | PathLockFails | BackendOpens(id: nat) | BackendFails | MigrateFails

  const START := State(None, false, None, 0, None, map[], [])

  /** What thread t, standing at pc, does to the shared state, and where it goes; None when it cannot. */
  function Move(s: State, t: Tid, pc: Pc, a: Action): Option<(Pc, State)> {
    match pc
    case Idle =>
      if a == CallOpen then Some((WantTable, s))
      else if a == CallClose && s.named then Some((WantToClose, s))
      else None
    // DBHandleGet
    case WantTable => if a == Proceed && s.tableLock.None? then Some((InTable, s.(tableLock := Some(t)))) else None
    case InTable => if a == Proceed then Some((WantToOpen, s.(named := true, tableLock := None))) else None
    // OpenDB
    case WantToOpen => if a == Proceed && s.lock.None? then Some((OpenTest, s.(lock := Some(t)))) else None
    case OpenTest => if a == Proceed then Some((if s.refcount == 0 then OpenPath else OpenCount, s)) else None
    case OpenPath =>
      if a == Proceed then Some((OpenBackend, s))
      else if a == PathLockFails then Some((if s.priv.Some? then OpenMigrate else OpenCount, s))
      else None
    case OpenBackend =>
      if a.BackendOpens? then Some((OpenMigrate, s.(priv := Some(a.id), calls := s.calls + [Opened(a.id)])))
      else if a == BackendFails then Some((OpenCount, s.(priv := None)))
      else None
    case OpenMigrate =>
      if a == Proceed then Some((OpenCount, s))
      else if a == MigrateFails && s.priv.Some? then
        Some((OpenCount, s.(priv := None, calls := s.calls + [Closed(s.priv.value)])))
      else None
    case OpenCount =>
      if a != Proceed then None
      else if s.priv.Some? then Some((OpenUnlock(true), s.(refcount := s.refcount + 1)))
      else Some((OpenUnlock(false), s))
    case OpenUnlock(_) => if a == Proceed then Some((Idle, s.(lock := None))) else None
    // CloseDB
    case WantToClose => if a == Proceed && s.lock.None? then Some((CloseTest, s.(lock := Some(t)))) else None
    case CloseTest =>
      if a != Proceed then None
      else if s.refcount < 1 then Some((CloseUnlock(false), s))
      else Some((if s.refcount == 1 then CloseBackend else CloseUnlock(true), s.(refcount := s.refcount - 1)))
    case CloseBackend =>
      if a == Proceed && s.priv.Some? then Some((CloseUnlock(true), s.(calls := s.calls + [Closed(s.priv.value)])))
      else None
    case CloseUnlock(_) => if a == Proceed then Some((Idle, s.(lock := None))) else None
  }

  /** One step of thread t. */
  function Step(s: State, t: Tid, a: Action): Option<State> {
    var m := Move(s, t, s.At(t), a);
    if m.None? then None else Some(m.value.1.Go(t, m.value.0))
  }

  // ---- What every step keeps ----

  /** The steps that run under the handle's lock. */
  predicate Critical(pc: Pc) {
    match pc
    case Idle => false
    case WantTable => false
    case InTable => false
    case WantToOpen => false
    case WantToClose => false
    case _ => true
  }

  /** Calls of the backend alternate between an open and the close of what it returned. */
  predicate Alternating(calls: seq<Call>) {
    && (forall i :: 0 <= i < |calls| ==> (calls[i].Opened? <==> i % 2 == 0))
    && (forall i :: 0 <= i < |calls| && calls[i].Closed? && i > 0 ==> calls[i - 1].id == calls[i].id)
  }

  /** The backend is open: the last call opened it. */
  predicate IsOpen(calls: seq<Call>) { |calls| % 2 == 1 }

  /** The handle points to what is open. */
  predicate Current(s: State) {
    IsOpen(s.calls) && s.priv.Some? && s.calls[|s.calls| - 1] == Opened(s.priv.value)
  }

  /** Open exactly when there are references. */
  predicate Settled(s: State) { if s.refcount > 0 then Current(s) else !IsOpen(s.calls) }

  /** What holds of the handle while the lock's holder is at pc. */
  predicate Data(s: State, pc: Pc) {
    match pc
    case OpenPath => s.refcount == 0 && !IsOpen(s.calls)
    case OpenBackend => s.refcount == 0 && !IsOpen(s.calls)
    case OpenMigrate => s.refcount == 0 && Current(s)
    case OpenCount => if s.priv.Some? then Current(s) else s.refcount == 0 && !IsOpen(s.calls)
    case CloseBackend => s.refcount == 0 && Current(s)
    case _ => Settled(s)
  }

  /** One thread at a time is under each lock. */
  ghost predicate Locked(s: State) {
    && (forall t: Tid :: Critical(s.At(t)) <==> s.lock == Some(t))
    && (forall t: Tid :: s.At(t) == InTable <==> s.tableLock == Some(t))
  }

  ghost predicate Invariant(s: State) {
    && s.refcount >= 0
    && Alternating(s.calls)
    && Locked(s)
    && Data(s, HolderAt(s))
  }

  function HolderAt(s: State): Pc { if s.lock.Some? then s.At(s.lock.value) else Idle }

  /** A failed path lock does no harm unless the handle still points to what has been closed. */
  predicate Harmless(s: State, a: Action) { a == PathLockFails ==> s.priv.None? }

  /** A step moves no thread but its own. */
  lemma StepGoes(s: State, t: Tid, a: Action, s': State)
    requires Step(s, t, a) == Some(s')
    ensures var m := Move(s, t, s.At(t), a);
            m.Some? && s' == m.value.1.Go(t, m.value.0) && s'.At(t) == m.value.0
    ensures forall u: Tid :: u != t ==> s'.At(u) == s.At(u)
  {
    MoveLeavesThreads(s, t, s.At(t), a);
    hide Move;
  }

  lemma MoveLeavesThreads(s: State, t: Tid, pc: Pc, a: Action)
    ensures var m := Move(s, t, pc, a); m.Some? ==> m.value.1.pcs == s.pcs
  {
  }

  /** The locks move with the step: taken when free, freed by their holder. */
  lemma LockMoves(s: State, t: Tid, pc: Pc, a: Action)
    requires Move(s, t, pc, a).Some?
    ensures var (pc', s') := Move(s, t, pc, a).value;
            && s'.lock == (if Critical(pc') == Critical(pc) then s.lock else if Critical(pc') then Some(t) else None)
            && (Critical(pc') && !Critical(pc) ==> s.lock.None?)
            && s'.tableLock == (if pc == InTable then None else if pc' == InTable then Some(t) else s.tableLock)
            && (pc' == InTable ==> s.tableLock.None?)
            && (pc == InTable ==> pc' != InTable)
  {
  }

  lemma LocksKept(s: State, t: Tid, a: Action, s': State)
    requires Locked(s) && Step(s, t, a) == Some(s')
    ensures Locked(s')
  {
    hide Step, Move, Critical, State.At;
    StepGoes(s, t, a, s');
    LockMoves(s, t, s.At(t), a);
    forall u: Tid
      ensures Critical(s'.At(u)) <==> s'.lock == Some(u)
      ensures s'.At(u) == InTable <==> s'.tableLock == Some(u)
    {
      assert Critical(s.At(u)) <==> s.lock == Some(u);
      assert Critical(s.At(t)) <==> s.lock == Some(t);
      assert s.At(u) == InTable <==> s.tableLock == Some(u);
      assert s.At(t) == InTable <==> s.tableLock == Some(t);
    }
  }

  lemma CallAppended(calls: seq<Call>, c: Call)
    requires Alternating(calls)
    requires if c.Opened? then !IsOpen(calls) else IsOpen(calls) && calls[|calls| - 1] == Opened(c.id)
    ensures Alternating(calls + [c]) && (IsOpen(calls + [c]) <==> c.Opened?)
  {
    assert |calls + [c]| == |calls| + 1;
  }

  /** Under the lock each step does to the handle and the backend what its place in the code says. */
  lemma CriticalMove(s: State, t: Tid, pc: Pc, a: Action)
    requires Alternating(s.calls) && s.refcount >= 0
    requires Critical(pc) && Data(s, pc) && Move(s, t, pc, a).Some? && Harmless(s, a)
    ensures var (pc', s') := Move(s, t, pc, a).value;
            && s'.refcount >= 0
            && Alternating(s'.calls) && Data(s', pc')
  {
    hide Alternating;
    match pc
    case OpenBackend => if a.BackendOpens? { CallAppended(s.calls, Opened(a.id)); }
    case OpenMigrate => if a == MigrateFails { CallAppended(s.calls, Closed(s.priv.value)); }
    case CloseBackend => CallAppended(s.calls, Closed(s.priv.value));
    case _ =>
  }

  /** Outside the lock nothing of the handle or the backend changes. */
  lemma OtherMove(s: State, t: Tid, pc: Pc, a: Action)
    requires !Critical(pc) && Move(s, t, pc, a).Some?
    ensures var (pc', s') := Move(s, t, pc, a).value;
            && s'.refcount == s.refcount
            && s'.calls == s.calls && s'.priv == s.priv
            && (Critical(pc') ==> pc' == OpenTest || pc' == CloseTest)
  {
  }

  lemma DataOnlyReads(s: State, r: State, pc: Pc)
    requires s.refcount == r.refcount && s.calls == r.calls && s.priv == r.priv
    ensures Data(s, pc) == Data(r, pc)
  {
  }

  /** Every step keeps the invariant, whoever takes it and however the calls turn out. */
  lemma {:induction false} StepKeeps(s: State, t: Tid, a: Action, s': State)
    requires Invariant(s) && Step(s, t, a) == Some(s') && Harmless(s, a)
    ensures Invariant(s')
  {
    hide Step, Move, Alternating, State.At, Data;
    LocksKept(s, t, a, s');
    StepGoes(s, t, a, s');
    LockMoves(s, t, s.At(t), a);
    assert Critical(s.At(t)) <==> s.lock == Some(t);
    var (pc', r) := Move(s, t, s.At(t), a).value;
    DataOnlyReads(r, s', pc');
    if Critical(s.At(t)) {
      CriticalMove(s, t, s.At(t), a);
      DataOutside(s', pc');
    } else {
      OtherMove(s, t, s.At(t), a);
      DataOnlyReads(s, s', HolderAt(s));
      DataOutside(s, pc');
      DataOnlyReads(s, s', pc');
    }
  }

  /** Outside the lock, and at the first step under it, the handle is settled. */
  lemma DataOutside(s: State, pc: Pc)
    ensures !Critical(pc) || pc == OpenTest || pc == CloseTest ==> Data(s, pc) == Data(s, Idle)
  {
  }

  // ---- Every run ----

  /** A run: who steps, and how the calls made turn out. */
  datatype Event = Event(thread: Tid, action: Action)

  /** The states of a run from s on, one more than there are events. */
  predicate IsRun(s: State, events: seq<Event>, states: seq<State>) {
    && |states| == |events| + 1 && states[0] == s
    && forall i :: 0 <= i < |events| ==> Step(states[i], events[i].thread, events[i].action) == Some(states[i + 1])
  }

  lemma StartHolds()
    ensures Invariant(START)
  {
  }

  /**
   * In every interleaving, as long as the path lock does not fail on a handle that was open before, the
   * invariant holds throughout.
   */
  lemma {:induction false} RunKeeps(events: seq<Event>, states: seq<State>, n: nat)
    requires IsRun(START, events, states) && n < |states|
    requires forall i :: 0 <= i < n ==> Harmless(states[i], events[i].action)
    ensures Invariant(states[n])
  {
    hide Invariant, Step, Harmless;
    if n == 0 {
      StartHolds();
    } else {
      RunKeeps(events, states, n - 1);
      StepKeeps(states[n - 1], events[n - 1].thread, events[n - 1].action, states[n]);
    }
  }

  // ---- References are counted, whatever fails ----

  /** What a return to the caller adds to the references it holds. */
  function Returned(pc: Pc): int {
    match pc
    case OpenUnlock(true) => 1
    case CloseUnlock(true) => -1
    case _ => 0
  }

  /** What the holder of the lock has counted and not yet returned. */
  function InFlight(pc: Pc): int { if pc == CloseBackend then -1 else Returned(pc) }

  /** How many of the first n events return a handle from OpenDB. */
  function Opens(events: seq<Event>, states: seq<State>, n: nat): nat
    requires n <= |events| && n <= |states|
  {
    if n == 0 then 0
    else Opens(events, states, n - 1) + if states[n - 1].At(events[n - 1].thread) == OpenUnlock(true) then 1 else 0
  }

  /** How many of them return from a CloseDB that gave up a reference. */
  function Closes(events: seq<Event>, states: seq<State>, n: nat): nat
    requires n <= |events| && n <= |states|
  {
    if n == 0 then 0
    else Closes(events, states, n - 1) + if states[n - 1].At(events[n - 1].thread) == CloseUnlock(true) then 1 else 0
  }

  lemma MoveCounts(s: State, t: Tid, pc: Pc, a: Action)
    requires Move(s, t, pc, a).Some?
    ensures var (pc', s') := Move(s, t, pc, a).value;
            && s'.refcount - InFlight(pc') == s.refcount - InFlight(pc) + Returned(pc)
            && (!Critical(pc) ==> InFlight(pc) == InFlight(pc') == 0)
            && (!Critical(pc') ==> InFlight(pc') == 0)
  {
  }

  lemma StepCounts(s: State, t: Tid, a: Action, s': State)
    requires Locked(s) && Step(s, t, a) == Some(s')
    ensures Locked(s')
    ensures s'.refcount - InFlight(HolderAt(s')) == s.refcount - InFlight(HolderAt(s)) + Returned(s.At(t))
  {
    hide Step, Move, State.At, Returned, InFlight;
    LocksKept(s, t, a, s');
    StepGoes(s, t, a, s');
    MoveCounts(s, t, s.At(t), a);
    LockMoves(s, t, s.At(t), a);
    IdleCounts();
    assert Critical(s.At(t)) <==> s.lock == Some(t);
    assert Critical(s'.At(t)) <==> s'.lock == Some(t);
  }

  lemma IdleCounts()
    ensures InFlight(Idle) == 0
  {
  }

  /** In every run, also one in which the path lock fails, the references are the handles returned less
      those given back, but for the return that the holder of the lock is about to make. */
  lemma {:induction false} RunCounts(events: seq<Event>, states: seq<State>, n: nat)
    requires IsRun(START, events, states) && n < |states|
    ensures Locked(states[n])
    ensures states[n].refcount == Opens(events, states, n) - Closes(events, states, n) + InFlight(HolderAt(states[n]))
  {
    hide Locked, Step, HolderAt, Critical;
    if n == 0 {
      StartCounts();
    } else {
      RunCounts(events, states, n - 1);
      StepCounts(states[n - 1], events[n - 1].thread, events[n - 1].action, states[n]);
    }
  }

  lemma StartCounts()
    ensures Locked(START) && InFlight(HolderAt(START)) == 0
  {
  }

  /** What callers are promised of the backend when nobody is at work on the handle. */
  predicate Promised(s: State) { Alternating(s.calls) && (IsOpen(s.calls) <==> s.refcount > 0) }

  /** What the invariant means to the callers. */
  lemma RunSafe(events: seq<Event>, states: seq<State>, n: nat)
    requires IsRun(START, events, states) && n < |states|
    requires forall i :: 0 <= i < n ==> Harmless(states[i], events[i].action)
    ensures var s := states[n];
            && Alternating(s.calls)
            && (s.lock.None? ==> s.refcount == Opens(events, states, n) - Closes(events, states, n) && Promised(s))
            && (forall t, u: Tid :: Critical(s.At(t)) && Critical(s.At(u)) ==> t == u)
  {
    hide Alternating, Critical, IsRun, Opens, Closes;
    RunKeeps(events, states, n);
    RunCounts(events, states, n);
  }

  // ---- A path lock that fails ----

  /** Thread t is finishing an open that has found a handle pointing to what was closed. */
  ghost predicate Stale(s: State, t: Tid) {
    && Locked(s) && s.lock == Some(t)
    && match s.At(t)
       case OpenMigrate => s.refcount == 0 && !IsOpen(s.calls) && s.priv.Some?
       case OpenCount => s.refcount == 0 && if s.priv.Some? then !IsOpen(s.calls) else !Alternating(s.calls)
       case OpenUnlock(_) => !Promised(s)
       case _ => false
  }

  /** It is finishing one that has found a handle pointing to nothing. */
  ghost predicate Dry(s: State, t: Tid) {
    Invariant(s) && s.lock == Some(t) && s.priv.None? && (s.At(t) == OpenCount || s.At(t) == OpenUnlock(false))
  }

  lemma ClosedTwice(calls: seq<Call>, id: nat)
    requires !IsOpen(calls)
    ensures !Alternating(calls + [Closed(id)])
  {
    var after := calls + [Closed(id)];
    assert after[|calls|] == Closed(id);
  }

  /** A step of another thread leaves the handle, its lock and the backend to t. */
  lemma OthersWait(s: State, t: Tid, u: Tid, a: Action, s': State)
    requires Locked(s) && s.lock == Some(t) && u != t && Step(s, u, a) == Some(s')
    ensures Locked(s') && s'.lock == Some(t) && s'.At(t) == s.At(t)
    ensures s'.refcount == s.refcount && s'.priv == s.priv && s'.calls == s.calls
  {
    hide Step, Move, State.At, Critical;
    LocksKept(s, u, a, s');
    StepGoes(s, u, a, s');
    assert Critical(s.At(u)) <==> s.lock == Some(u);
    LockMoves(s, u, s.At(u), a);
    OtherMove(s, u, s.At(u), a);
  }

  lemma StaleStays(s: State, t: Tid, u: Tid, a: Action, s': State)
    requires Stale(s, t) && Step(s, u, a) == Some(s')
    ensures if s'.At(t) == Idle then !Promised(s') else Stale(s', t)
  {
    hide Alternating;
    if u != t {
      OthersWait(s, t, u, a, s');
    } else {
      LocksKept(s, t, a, s');
      if s.At(t) == OpenMigrate { ClosedTwice(s.calls, s.priv.value); }
    }
  }

  lemma DryStays(s: State, t: Tid, u: Tid, a: Action, s': State)
    requires Dry(s, t) && Step(s, u, a) == Some(s')
    ensures if s'.At(t) == Idle then Promised(s') else Dry(s', t)
  {
    hide Alternating;
    StepKeeps(s, u, a, s');
    if u != t { OthersWait(s, t, u, a, s'); }
  }

  lemma {:induction false} UntilReturn(t: Tid, start: State, events: seq<Event>, states: seq<State>, n: nat)
    requires (Stale(start, t) || Dry(start, t)) && IsRun(start, events, states) && n < |states|
    requires forall i :: 0 <= i < n ==> states[i].At(t) != Idle
    ensures if Stale(start, t)
            then (if states[n].At(t) == Idle then !Promised(states[n]) else Stale(states[n], t))
            else (if states[n].At(t) == Idle then Promised(states[n]) else Dry(states[n], t))
  {
    hide Promised, Step, Stale, Dry;
    if n == 0 {
      NotIdle(start, t);
    } else {
      UntilReturn(t, start, events, states, n - 1);
      var s, e := states[n - 1], events[n - 1];
      if Stale(start, t) { StaleStays(s, t, e.thread, e.action, states[n]); }
      else { DryStays(s, t, e.thread, e.action, states[n]); }
    }
  }

  lemma NotIdle(s: State, t: Tid)
    requires Stale(s, t) || Dry(s, t)
    ensures s.At(t) != Idle
  {
  }

  /**
   * The path lock of thread t fails. However the other threads move and the calls turn out until t
   * returns, what callers are promised holds at its return if and only if the handle pointed to nothing.
   */
  lemma PathLockFailure(s: State, t: Tid, s': State, events: seq<Event>, states: seq<State>, n: nat)
    requires Invariant(s) && Step(s, t, PathLockFails) == Some(s')
    requires IsRun(s', events, states) && n < |states| && states[n].At(t) == Idle
    requires forall i :: 0 <= i < n ==> states[i].At(t) != Idle
    ensures Promised(states[n]) <==> s.priv.None?
  {
    hide Alternating, IsRun, Promised;
    AfterFailure(s, t, s');
    UntilReturn(t, s', events, states, n);
  }

  lemma AfterFailure(s: State, t: Tid, s': State)
    requires Invariant(s) && Step(s, t, PathLockFails) == Some(s')
    ensures if s.priv.None? then Dry(s', t) else Stale(s', t)
    ensures s.priv.None? ==> !Stale(s', t)
  {
    hide Alternating;
    LocksKept(s, t, PathLockFails, s');
    assert s.At(t) == OpenPath;
    assert Critical(s.At(t)) <==> s.lock == Some(t);
    if s.priv.None? { StepKeeps(s, t, PathLockFails, s'); }
  }

  // ---- What one call returns ----

  /** Whether one of the first n events is a step of t in which the backend opens. */
  function BackendOpened(events: seq<Event>, n: nat, t: Tid): bool
    requires n <= |events|
  {
    n > 0 && (BackendOpened(events, n - 1, t) || (events[n - 1].thread == t && events[n - 1].action.BackendOpens?))
  }

  /** Whether one of them is a step of t in which the migration fails. */
  function Unmigrated(events: seq<Event>, n: nat, t: Tid): bool
    requires n <= |events|
  {
    n > 0 && (Unmigrated(events, n - 1, t) || (events[n - 1].thread == t && events[n - 1].action == MigrateFails))
  }

  /** Thread t, in OpenDB since it found the references of start, is where this much has happened. */
  ghost predicate Opening(start: State, s: State, t: Tid, open: bool, unmigrated: bool) {
    && Locked(s) && s.lock == Some(t)
    && (start.refcount > 0 ==> s.priv == start.priv && s.calls == start.calls && !open && !unmigrated)
    && match s.At(t)
       case OpenTest => s.refcount == start.refcount && !open && !unmigrated
       case OpenPath => s.refcount == start.refcount == 0 && !open && !unmigrated
       case OpenBackend => s.refcount == start.refcount == 0 && !open && !unmigrated
       case OpenMigrate => s.refcount == start.refcount == 0 && s.priv.Some? && open && !unmigrated
       case OpenCount =>
         s.refcount == start.refcount && (start.refcount == 0 ==> (s.priv.Some? <==> open && !unmigrated))
       case OpenUnlock(got) =>
         && (got <==> start.refcount > 0 || (open && !unmigrated))
         && s.refcount == start.refcount + if got then 1 else 0
       case _ => false
  }

  lemma OpeningStep(start: State, s: State, t: Tid, u: Tid, a: Action, s': State, open: bool, unmigrated: bool)
    requires Opening(start, s, t, open, unmigrated) && Step(s, u, a) == Some(s') && Harmless(s, a)
    requires start.refcount > 0 ==> start.priv.Some?
    requires start.refcount >= 0
    ensures var open' := open || (u == t && a.BackendOpens?);
            var unmigrated' := unmigrated || (u == t && a == MigrateFails);
            if s'.At(t) == Idle
            then s.At(t) == OpenUnlock(start.refcount > 0 || (open' && !unmigrated'))
                 && s'.refcount == start.refcount + (if start.refcount > 0 || (open' && !unmigrated') then 1 else 0)
            else Opening(start, s', t, open', unmigrated')
  {
    if u != t { OthersWait(s, t, u, a, s'); } else { LocksKept(s, t, a, s'); }
  }

  lemma {:induction false} OpeningRun(t: Tid, start: State, events: seq<Event>, states: seq<State>, n: nat)
    requires Invariant(start) && start.At(t) == OpenTest && IsRun(start, events, states) && n < |states|
    requires forall i :: 0 <= i < n ==> states[i].At(t) != Idle && Harmless(states[i], events[i].action)
    ensures n <= |events|
    ensures states[n].At(t) != Idle ==>
      Opening(start, states[n], t, BackendOpened(events, n, t), Unmigrated(events, n, t))
    ensures states[n].At(t) == Idle ==>
      (var got := start.refcount > 0 || (BackendOpened(events, n, t) && !Unmigrated(events, n, t));
       n > 0 && states[n - 1].At(t) == OpenUnlock(got) && states[n].refcount == start.refcount + if got then 1 else 0)
  {
    hide Step, Opening, Harmless, Alternating;
    HolderReady(start, t);
    if n == 0 {
      OpeningStarts(start, t);
    } else {
      OpeningRun(t, start, events, states, n - 1);
      OpeningStep(start, states[n - 1], t, events[n - 1].thread, events[n - 1].action, states[n],
                  BackendOpened(events, n - 1, t), Unmigrated(events, n - 1, t));
    }
  }

  /** A handle with references points to the backend. */
  lemma HolderReady(s: State, t: Tid)
    requires Invariant(s) && (s.At(t) == OpenTest || s.At(t) == CloseTest)
    ensures s.refcount > 0 ==> s.priv.Some?
    ensures Locked(s) && s.lock == Some(t) && s.refcount >= 0
  {
    assert Critical(s.At(t)) <==> s.lock == Some(t);
  }

  lemma OpeningStarts(s: State, t: Tid)
    requires Invariant(s) && s.At(t) == OpenTest
    ensures Opening(s, s, t, false, false)
  {
    hide Alternating;
    HolderReady(s, t);
  }

  /**
   * OpenDB finds references: it returns the handle, with one more. It finds none: it returns the handle, with the
   * first, if and only if the backend opens and the migration does not fail. The other threads make no difference.
   */
  lemma OpenReturns(t: Tid, s: State, events: seq<Event>, states: seq<State>, n: nat)
    requires Invariant(s) && s.At(t) == OpenTest && IsRun(s, events, states) && n < |states|
    requires forall i :: 0 <= i < n ==> states[i].At(t) != Idle && Harmless(states[i], events[i].action)
    requires states[n].At(t) == Idle
    ensures 0 < n <= |events|
    ensures s.refcount > 0 ==> states[n - 1].At(t) == OpenUnlock(true) && states[n].refcount == s.refcount + 1
    ensures s.refcount == 0 ==>
      if BackendOpened(events, n, t) && !Unmigrated(events, n, t)
      then states[n - 1].At(t) == OpenUnlock(true) && states[n].refcount == 1
      else states[n - 1].At(t) == OpenUnlock(false) && states[n].refcount == 0
  {
    hide IsRun, BackendOpened, Unmigrated, Invariant;
    OpeningRun(t, s, events, states, n);
  }

  /** Thread t, in CloseDB since it found the references of start. */
  ghost predicate Closing(start: State, s: State, t: Tid) {
    && Locked(s) && s.lock == Some(t) && s.priv == start.priv
    && match s.At(t)
       case CloseTest => s.refcount == start.refcount && s.calls == start.calls
       case CloseBackend => start.refcount == 1 && s.refcount == 0 && s.calls == start.calls
       case CloseUnlock(given) =>
         && (given <==> start.refcount >= 1)
         && s.refcount == (if given then start.refcount - 1 else start.refcount)
         && s.calls == (if start.refcount == 1 && start.priv.Some? then start.calls + [Closed(start.priv.value)]
                        else start.calls)
       case _ => false
  }

  lemma ClosingStep(start: State, s: State, t: Tid, u: Tid, a: Action, s': State)
    requires Closing(start, s, t) && Step(s, u, a) == Some(s') && start.refcount >= 0
    ensures if s'.At(t) == Idle
            then s.At(t).CloseUnlock? && s'.refcount == s.refcount && s'.calls == s.calls && s'.priv == s.priv
            else Closing(start, s', t)
  {
    if u != t { OthersWait(s, t, u, a, s'); } else { LocksKept(s, t, a, s'); }
  }

  lemma {:induction false} ClosingRun(t: Tid, start: State, events: seq<Event>, states: seq<State>, n: nat)
    requires Invariant(start) && start.At(t) == CloseTest && IsRun(start, events, states) && n < |states|
    requires forall i :: 0 <= i < n ==> states[i].At(t) != Idle
    ensures if states[n].At(t) != Idle then Closing(start, states[n], t)
            else n > 0 && states[n - 1].At(t).CloseUnlock? && Closing(start, states[n - 1], t)
                 && states[n].refcount == states[n - 1].refcount && states[n].calls == states[n - 1].calls
                 && states[n].priv == states[n - 1].priv
  {
    hide Step, Closing, Alternating;
    HolderReady(start, t);
    if n == 0 {
      ClosingStarts(start, t);
    } else {
      ClosingRun(t, start, events, states, n - 1);
      ClosingStep(start, states[n - 1], t, events[n - 1].thread, events[n - 1].action, states[n]);
    }
  }

  lemma ClosingStarts(s: State, t: Tid)
    requires Invariant(s) && s.At(t) == CloseTest
    ensures Closing(s, s, t)
  {
    hide Alternating;
    HolderReady(s, t);
  }

  /** CloseDB gives up exactly one reference if it finds any, and closes the backend with the last one; finding none,
      it changes nothing. */
  lemma CloseReturns(t: Tid, s: State, events: seq<Event>, states: seq<State>, n: nat)
    requires Invariant(s) && s.At(t) == CloseTest && IsRun(s, events, states) && n < |states|
    requires forall i :: 0 <= i < n ==> states[i].At(t) != Idle
    requires states[n].At(t) == Idle
    ensures n > 0 && states[n].priv == s.priv
    ensures s.refcount >= 1 ==> states[n - 1].At(t) == CloseUnlock(true) && states[n].refcount == s.refcount - 1
    ensures s.refcount == 1 ==> s.priv.Some? && states[n].calls == s.calls + [Closed(s.priv.value)]
    ensures s.refcount >= 2 ==> states[n].calls == s.calls
    ensures s.refcount == 0 ==>
      states[n - 1].At(t) == CloseUnlock(false) && states[n].refcount == 0 && states[n].calls == s.calls
  {
    hide IsRun, Alternating;
    ClosingRun(t, s, events, states, n);
    HolderReady(s, t);
  }

  // ---- Every call gets somewhere ----

  /** How many steps of its own a thread has before it at most. */
  function StepsLeft(pc: Pc): nat {
    match pc
    case Idle => 0
    case WantTable => 9
    case InTable => 8
    case WantToOpen => 7
    case OpenTest => 6
    case OpenPath => 5
    case OpenBackend => 4
    case OpenMigrate => 3
    case OpenCount => 2
    case OpenUnlock(_) => 1
    case WantToClose => 4
    case CloseTest => 3
    case CloseBackend => 2
    case CloseUnlock(_) => 1
  }

  function InOpen(pc: Pc): bool {
    pc == WantTable || pc == InTable || pc == WantToOpen || (Critical(pc) && !InClose(pc))
  }

  function InClose(pc: Pc): bool { pc == WantToClose || pc == CloseTest || pc == CloseBackend || pc.CloseUnlock? }

  lemma MoveEnabled(s: State, t: Tid, pc: Pc)
    requires pc == OpenMigrate || pc == CloseBackend ==> s.priv.Some?
    ensures pc == Idle ==> Move(s, t, pc, CallOpen).Some? && (s.named <==> Move(s, t, pc, CallClose).Some?)
    ensures pc == WantTable ==> (Move(s, t, pc, Proceed).Some? <==> s.tableLock.None?)
    ensures pc == WantToOpen || pc == WantToClose ==> (Move(s, t, pc, Proceed).Some? <==> s.lock.None?)
    ensures pc == OpenBackend ==>
      Move(s, t, pc, BackendFails).Some? && forall id :: Move(s, t, pc, BackendOpens(id)).Some?
    ensures pc == OpenMigrate ==> Move(s, t, pc, MigrateFails).Some?
    ensures pc == OpenPath ==> Move(s, t, pc, PathLockFails).Some?
    ensures pc == InTable || (Critical(pc) && pc != OpenBackend) ==> Move(s, t, pc, Proceed).Some?
  {
  }

  /** No thread is stuck: one in a call can take a step unless it waits for a lock that is held, and whatever the
      environment may answer, it may answer. */
  lemma NeverStuck(s: State, t: Tid)
    requires Invariant(s)
    ensures var pc := s.At(t);
            && (pc == Idle ==> Step(s, t, CallOpen).Some? && (s.named <==> Step(s, t, CallClose).Some?))
            && (pc == WantTable ==> (Step(s, t, Proceed).Some? <==> s.tableLock.None?))
            && (pc == WantToOpen || pc == WantToClose ==> (Step(s, t, Proceed).Some? <==> s.lock.None?))
            && (pc == OpenBackend ==>
                  Step(s, t, BackendFails).Some? && forall id :: Step(s, t, BackendOpens(id)).Some?)
            && (pc == OpenMigrate ==> Step(s, t, MigrateFails).Some?)
            && (pc == OpenPath ==> Step(s, t, PathLockFails).Some?)
            && (pc == InTable || (Critical(pc) && pc != OpenBackend) ==> Step(s, t, Proceed).Some?)
  {
    hide Alternating, IsOpen, Move;
    assert Critical(s.At(t)) <==> s.lock == Some(t);
    MoveEnabled(s, t, s.At(t));
  }

  lemma MoveForward(s: State, t: Tid, pc: Pc, a: Action)
    requires Move(s, t, pc, a).Some?
    ensures var pc' := Move(s, t, pc, a).value.0;
            && (pc == Idle ==> if a == CallOpen then pc' == WantTable else a == CallClose && pc' == WantToClose)
            && (pc == WantTable ==> pc' == InTable) && (pc == InTable ==> pc' == WantToOpen)
            && (pc == WantToOpen ==> pc' == OpenTest) && (pc == WantToClose ==> pc' == CloseTest)
            && (pc != Idle ==> StepsLeft(pc') < StepsLeft(pc))
            && (InOpen(pc) ==> InOpen(pc') || (pc' == Idle && pc.OpenUnlock?))
            && (InClose(pc) ==> InClose(pc') || (pc' == Idle && pc.CloseUnlock?))
  {
  }

  /** Each step of a call brings it nearer to its return, in the same function and past the test under the lock. */
  lemma CallsProgress(s: State, t: Tid, a: Action, s': State)
    requires Step(s, t, a) == Some(s')
    ensures var pc, pc' := s.At(t), s'.At(t);
            && (pc == Idle ==> if a == CallOpen then pc' == WantTable else a == CallClose && pc' == WantToClose)
            && (pc == WantTable ==> pc' == InTable) && (pc == InTable ==> pc' == WantToOpen)
            && (pc == WantToOpen ==> pc' == OpenTest) && (pc == WantToClose ==> pc' == CloseTest)
            && (pc != Idle ==> StepsLeft(pc') < StepsLeft(pc))
            && (InOpen(pc) ==> InOpen(pc') || (pc' == Idle && pc.OpenUnlock?))
            && (InClose(pc) ==> InClose(pc') || (pc' == Idle && pc.CloseUnlock?))
  {
    hide Step, Move, State.At, StepsLeft, InOpen, InClose;
    StepGoes(s, t, a, s');
    MoveForward(s, t, s.At(t), a);
  }

  /** One more step of thread 0 at the end of a run. */
  lemma Extend(events: seq<Event>, states: seq<State>, a: Action) returns (events': seq<Event>, states': seq<State>)
    requires IsRun(START, events, states) && Step(states[|events|], 0, a).Some?
    ensures IsRun(START, events', states') && |events'| == |events| + 1
    ensures states'[|events'|] == Step(states[|events|], 0, a).value
  {
    hide Step;
    events' := events + [Event(0, a)];
    states' := states + [Step(states[|events|], 0, a).value];
    forall i | 0 <= i < |events'|
      ensures Step(states'[i], events'[i].thread, events'[i].action) == Some(states'[i + 1])
    {
      if i < |events| { assert states'[i] == states[i] && states'[i + 1] == states[i + 1] && events'[i] == events[i]; }
    }
  }

  /** A run by thread 0 alone up to the point where it has asked for the path lock. */
  lemma RunToPath(events: seq<Event>, states: seq<State>) returns (e: seq<Event>, r: seq<State>)
    requires IsRun(START, events, states)
    requires var s := states[|events|]; s.At(0) == Idle && s.tableLock.None? && s.lock.None? && s.refcount == 0
    ensures IsRun(START, e, r)
    ensures var s, s' := states[|events|], r[|e|];
            s'.At(0) == OpenPath && s'.lock == Some(0) && s'.tableLock.None? && s'.named
            && s'.refcount == 0 && s'.priv == s.priv && s'.calls == s.calls
  {
    hide IsRun;
    e, r := Extend(events, states, CallOpen);
    e, r := Extend(e, r, Proceed);
    e, r := Extend(e, r, Proceed);
    e, r := Extend(e, r, Proceed);
    e, r := Extend(e, r, Proceed);
  }

  /** A first open by thread 0 alone. */
  lemma RunOpen() returns (e: seq<Event>, r: seq<State>)
    ensures IsRun(START, e, r)
    ensures var s := r[|e|];
            (s.At(0) == Idle && s.tableLock.None? && s.lock.None? && s.named && s.refcount == 1 && s.priv.Some?
             && |s.calls| == 1)
  {
    assert IsRun(START, [], [START]);
    hide IsRun;
    e, r := RunToPath([], [START]);
    e, r := Extend(e, r, Proceed);
    e, r := Extend(e, r, BackendOpens(0));
    e, r := Extend(e, r, Proceed);
    e, r := Extend(e, r, Proceed);
    e, r := Extend(e, r, Proceed);
  }

  /** A first open and its close, by thread 0 alone. */
  lemma RunOpenClose() returns (e: seq<Event>, r: seq<State>)
    ensures IsRun(START, e, r)
    ensures var s := r[|e|];
            (s.At(0) == Idle && s.tableLock.None? && s.lock.None? && s.refcount == 0 && s.priv.Some?
             && !IsOpen(s.calls))
  {
    hide IsRun;
    e, r := RunOpen();
    e, r := Extend(e, r, CallClose);
    e, r := Extend(e, r, Proceed);
    e, r := Extend(e, r, Proceed);
    e, r := Extend(e, r, Proceed);
    e, r := Extend(e, r, Proceed);
  }

  /** A thread opens, closes, and opens again while the path lock fails: it is given a handle with one
      reference whose backend is closed. */
  lemma StaleHandle() returns (e: seq<Event>, r: seq<State>)
    ensures IsRun(START, e, r)
    ensures var s := r[|e|]; s.At(0) == Idle && s.lock.None? && s.refcount == 1 && !IsOpen(s.calls)
  {
    hide IsRun;
    e, r := RunOpenClose();
    e, r := RunToPath(e, r);
    e, r := Extend(e, r, PathLockFails);
    e, r := Extend(e, r, Proceed);
    e, r := Extend(e, r, Proceed);
    e, r := Extend(e, r, Proceed);
  }

  /** The same, but the migration of the closed backend fails: it is closed a second time. */
  lemma DoubleClose() returns (e: seq<Event>, r: seq<State>)
    ensures IsRun(START, e, r)
    ensures var s := r[|e|]; s.At(0) == Idle && s.lock.None? && s.refcount == 0 && !Alternating(s.calls)
  {
    hide IsRun;
    e, r := RunOpenClose();
    e, r := RunToPath(e, r);
    RunLength(e, r);
    ClosedTwice(r[|e|].calls, r[|e|].priv.value);
    e, r := Extend(e, r, PathLockFails);
    e, r := Extend(e, r, MigrateFails);
    e, r := Extend(e, r, Proceed);
    e, r := Extend(e, r, Proceed);
  }

  lemma RunLength(events: seq<Event>, states: seq<State>)
    requires IsRun(START, events, states)
    ensures |states| == |events| + 1
  {
  }
}
