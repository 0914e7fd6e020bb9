/** The scheduler of one processor as a state machine over the steps of its threads. */
module SchedModel {
  import opened SeqLists
  import opened MemTypes

  type Tid = nat

  datatype ThreadState = Ready | Running | Dead

  datatype Handoff = Handoff(newThread: Tid, toFree: Option<Tid>)

  /** What a thread does next when it runs: complete the switch to it, or anything else. */
  datatype Pc = Completing | Free

  /** `executing` is the thread whose code runs, if threads run yet; `dropped` lists the threads whose owner was dropped. */
  datatype Cpu = Cpu(
    states: map<Tid, ThreadState>,
    pcs: map<Tid, Pc>,
    owners: set<Tid>,
    queue: seq<Tid>,
    current: Option<Tid>,
    idle: Option<Tid>,
    handoff: Option<Handoff>,
    executing: Option<Tid>,
    dropped: seq<Tid>)

  datatype Action = Spawn(t: Tid) | Start(idle: Tid) | Resched | Exit | Complete

  function Initial(): Cpu {
    Cpu(map[], map[], {}, [], None, None, None, None, [])
  }

  // ----- Steps; `None` is a panic -----

  function NewThread(s: Cpu, t: Tid): Cpu {
    s.(states := s.states[t := Ready], pcs := s.pcs[t := Completing])
  }

  function DoSpawn(s: Cpu, t: Tid): Cpu {
    NewThread(s, t).(owners := s.owners + {t}, queue := s.queue + [t])
  }

  /** The next thread to run, and the queue without it. */
  function TakeReady(s: Cpu): Option<(Tid, seq<Tid>)> {
    if s.queue != [] then Some((s.queue[0], s.queue[1..]))
    else if s.idle.Some? then Some((s.idle.value, []))
    else None
  }

  function Begin(s: Cpu, t: Tid, toFree: Option<Tid>): Option<Cpu> {
    if s.handoff.Some? then None else Some(s.(handoff := Some(Handoff(t, toFree)), executing := Some(t)))
  }

  /** Selects a thread and starts the switch to it. */
  function Select(s: Cpu, toFree: Option<Tid>): Option<Cpu> {
    match TakeReady(s)
    case None => None
    case Some((t, rest)) => Begin(s.(queue := rest, states := s.states[t := Running]), t, toFree)
  }

  function DoStart(s: Cpu, idle: Tid): Option<Cpu> {
    match TakeReady(s)
    case None => None
    case Some((t, rest)) =>
      Begin(NewThread(s.(queue := rest, states := s.states[t := Running]), idle).(idle := Some(idle)), t, None)
  }

  /** The thread that is switched away from completes a switch next. */
  function DoResched(s: Cpu): Option<Cpu> {
    if s.current.None? || s.current.value !in s.states || s.states[s.current.value] != Running then None
    else
      var t := s.current.value;
      Select(s.(states := s.states[t := Ready], queue := s.queue + [t], pcs := s.pcs[t := Completing]), None)
  }

  function DoExit(s: Cpu): Option<Cpu> {
    if s.current.None? then None
    else Select(s.(states := s.states[s.current.value := Dead]), s.current)
  }

  function DoComplete(s: Cpu): Option<Cpu> {
    if s.handoff.None? then None
    else
      var h := s.handoff.value;
      var s' := s.(handoff := None, current := Some(h.newThread), pcs := s.pcs[h.newThread := Free]);
      match h.toFree
      case None => Some(s')
      case Some(d) =>
        if d !in s.owners then None else Some(s'.(owners := s.owners - {d}, dropped := s.dropped + [d]))
  }

  function Step(s: Cpu, a: Action): Option<Cpu> {
    match a
    case Spawn(t) => Some(DoSpawn(s, t))
    case Start(idle) => DoStart(s, idle)
    case Resched => DoResched(s)
    case Exit => DoExit(s)
    case Complete => DoComplete(s)
  }

  // ----- What can happen next -----

  predicate ExecutesAt(s: Cpu, pc: Pc) {
    s.executing.Some? && s.executing.value in s.pcs && s.pcs[s.executing.value] == pc
  }

  /** The code that runs next can take this step.  The scheduler is started once and with a thread to run, and the idle
      thread never exits. */
  predicate Enabled(s: Cpu, a: Action) {
    match a
    case Spawn(t) => t !in s.states && (s.executing.None? || ExecutesAt(s, Free))
    case Start(idle) => idle !in s.states && s.executing.None? && s.queue != []
    case Resched => ExecutesAt(s, Free)
    case Exit => ExecutesAt(s, Free) && s.executing != s.idle
    case Complete => ExecutesAt(s, Completing)
  }

  // ----- The invariant -----

  ghost predicate ToFree(s: Cpu, t: Tid) {
    s.handoff.Some? && s.handoff.value.toFree == Some(t)
  }

  ghost predicate ThreadOk(s: Cpu, t: Tid)
    requires t in s.states && t in s.pcs
  {
    && (s.states[t] == Running <==> s.executing == Some(t))
    && (t in s.queue ==> s.states[t] == Ready)
    && (s.states[t] == Ready ==> s.pcs[t] == Completing && (t in s.queue || s.idle == Some(t)))
    && (s.idle != Some(t) ==> (t in s.owners <==> s.states[t] != Dead || ToFree(s, t)))
    && (t in s.dropped <==> s.states[t] == Dead && !ToFree(s, t))
    && (ToFree(s, t) ==> s.states[t] == Dead)
  }

  /** The idle thread, the executing and the current one, and the handoff between them. */
  ghost predicate SwitchOk(s: Cpu) {
    && (s.idle.Some? <==> s.executing.Some?)
    && (s.idle.Some? ==> s.idle.value in s.states && s.states[s.idle.value] != Dead && s.idle.value !in s.owners)
    && (s.executing.Some? ==> s.executing.value in s.states)
    && (s.handoff.Some? <==> ExecutesAt(s, Completing))
    && (s.handoff.Some? ==> s.executing == Some(s.handoff.value.newThread))
    && (ExecutesAt(s, Free) ==> s.current == s.executing)
    && (s.current.Some? ==> s.current.value in s.states)
    && (s.current.Some? && s.states[s.current.value] == Dead ==> ToFree(s, s.current.value))
    && (s.executing.None? ==> s.current.None?)
  }

  ghost predicate Inv(s: Cpu) {
    && s.states.Keys == s.pcs.Keys
    && (forall t {:trigger ThreadOk(s, t)} :: t in s.states ==> ThreadOk(s, t))
    && NoDup(s.queue) && NoDup(s.dropped)
    && (forall t :: t in s.queue || t in s.owners || t in s.dropped || ToFree(s, t) ==> t in s.states)
    && SwitchOk(s)
  }

  lemma {:induction false} InitialOk()
    ensures Inv(Initial())
  {
  }

  lemma {:induction false} SpawnOk(s: Cpu, t: Tid)
    requires Inv(s) && Enabled(s, Spawn(t))
    ensures Inv(DoSpawn(s, t))
  {
    var s' := DoSpawn(s, t);
    forall u | u in s'.states
      ensures ThreadOk(s', u)
    {
      assert u in s.states ==> ThreadOk(s, u);
    }
  }

  lemma {:induction false} CompleteOk(s: Cpu)
    requires Inv(s) && Enabled(s, Complete)
    ensures DoComplete(s).Some? && Inv(DoComplete(s).value)
  {
    var h := s.handoff.value;
    if h.toFree.Some? {
      assert ThreadOk(s, h.toFree.value);
    }
    CompleteSwitch(s);
    forall u | u in DoComplete(s).value.states
      ensures ThreadOk(DoComplete(s).value, u)
    {
      CompleteThread(s, u);
    }
  }

  lemma {:induction false} CompleteSwitch(s: Cpu)
    requires Inv(s) && Enabled(s, Complete) && DoComplete(s).Some?
    ensures SwitchOk(DoComplete(s).value)
  {
    assert ThreadOk(s, s.handoff.value.newThread);
  }

  lemma {:induction false} CompleteThread(s: Cpu, u: Tid)
    requires Inv(s) && Enabled(s, Complete) && DoComplete(s).Some? && u in s.states
    ensures ThreadOk(DoComplete(s).value, u)
  {
    assert ThreadOk(s, u) && ThreadOk(s, s.handoff.value.newThread);
  }

  lemma {:induction false} StartOk(s: Cpu, idle: Tid)
    requires Inv(s) && Enabled(s, Start(idle))
    ensures DoStart(s, idle).Some? && Inv(DoStart(s, idle).value)
  {
    var s' := DoStart(s, idle).value;
    assert s.queue[0] in s.queue && ThreadOk(s, s.queue[0]);
    NoDupRest(s.queue);
    forall u | u in s'.states
      ensures ThreadOk(s', u)
    {
      assert u in s.states ==> ThreadOk(s, u);
    }
  }

  lemma {:induction false} ReschedOk(s: Cpu)
    requires Inv(s) && Enabled(s, Resched)
    ensures DoResched(s).Some? && Inv(DoResched(s).value)
  {
    var t := s.executing.value;
    assert ThreadOk(s, t);
    var q := s.queue + [t];
    NoDupBack(s.queue, t);
    assert q[0] in q && (q[0] in s.states ==> ThreadOk(s, q[0]));
    NoDupRest(q);
    forall u | u in DoResched(s).value.states
      ensures ThreadOk(DoResched(s).value, u)
    {
      ReschedThread(s, u);
    }
  }

  lemma {:induction false} ReschedThread(s: Cpu, u: Tid)
    requires Inv(s) && Enabled(s, Resched) && u in s.states
    ensures DoResched(s).Some? && ThreadOk(DoResched(s).value, u)
  {
    var t := s.executing.value;
    assert ThreadOk(s, t) && ThreadOk(s, u);
    var q := s.queue + [t];
    NoDupBack(s.queue, t);
    assert q[0] in q && (q[0] in s.states ==> ThreadOk(s, q[0]));
    NoDupRest(q);
  }

  lemma {:induction false} ExitToQueued(s: Cpu)
    requires Inv(s) && Enabled(s, Exit) && s.queue != []
    ensures DoExit(s).Some? && Inv(DoExit(s).value)
  {
    assert ThreadOk(s, s.executing.value) && s.queue[0] in s.queue && ThreadOk(s, s.queue[0]);
    NoDupRest(s.queue);
    forall u | u in DoExit(s).value.states
      ensures ThreadOk(DoExit(s).value, u)
    {
      ExitThread(s, u);
    }
  }

  lemma {:induction false} ExitThread(s: Cpu, u: Tid)
    requires Inv(s) && Enabled(s, Exit) && s.queue != [] && u in s.states
    ensures DoExit(s).Some? && ThreadOk(DoExit(s).value, u)
  {
    var t := s.executing.value;
    assert ThreadOk(s, t) && s.queue[0] in s.queue && ThreadOk(s, s.queue[0]) && ThreadOk(s, u);
    NoDupRest(s.queue);
    var s' := DoExit(s).value;
    assert s'.queue == s.queue[1..] && s'.states == s.states[t := Dead][s.queue[0] := Running] && s'.pcs == s.pcs;
  }

  lemma {:induction false} ExitToIdle(s: Cpu)
    requires Inv(s) && Enabled(s, Exit) && s.queue == []
    ensures DoExit(s).Some? && Inv(DoExit(s).value)
  {
    assert ThreadOk(s, s.executing.value) && ThreadOk(s, s.idle.value);
    var s' := DoExit(s).value;
    forall u | u in s'.states
      ensures ThreadOk(s', u)
    {
      assert ThreadOk(s, u);
    }
  }

  /** No step that the running code can take panics, and every one keeps the invariant. */
  lemma {:induction false} StepOk(s: Cpu, a: Action)
    requires Inv(s) && Enabled(s, a)
    ensures Step(s, a).Some? && Inv(Step(s, a).value)
  {
    match a {
      case Spawn(t) => SpawnOk(s, t);
      case Start(idle) => StartOk(s, idle);
      case Resched => ReschedOk(s);
      case Exit =>
        if s.queue != [] {
          ExitToQueued(s);
        } else {
          ExitToIdle(s);
        }
      case Complete => CompleteOk(s);
    }
  }

  // ----- Runs -----

  /** `trace` can happen from `s` on. */
  ghost predicate IsRun(s: Cpu, trace: seq<Action>)
    decreases |trace|
  {
    trace == [] || (Enabled(s, trace[0]) && Step(s, trace[0]).Some? && IsRun(Step(s, trace[0]).value, trace[1..]))
  }

  ghost function After(s: Cpu, trace: seq<Action>): Cpu
    requires IsRun(s, trace)
    decreases |trace|
  {
    if trace == [] then s else After(Step(s, trace[0]).value, trace[1..])
  }

  lemma {:induction false} RunOk(s: Cpu, trace: seq<Action>)
    requires Inv(s) && IsRun(s, trace)
    ensures Inv(After(s, trace))
    decreases |trace|
  {
    if trace != [] {
      StepOk(s, trace[0]);
      RunOk(Step(s, trace[0]).value, trace[1..]);
    }
  }

  predicate IsBegin(a: Action) {
    a.Start? || a.Resched? || a.Exit?
  }

  ghost function Begins(trace: seq<Action>): nat {
    if trace == [] then 0 else (if IsBegin(trace[0]) then 1 else 0) + Begins(trace[1..])
  }

  ghost function Completes(trace: seq<Action>): nat {
    if trace == [] then 0 else (if trace[0].Complete? then 1 else 0) + Completes(trace[1..])
  }

  function Pending(s: Cpu): nat {
    if s.handoff.Some? then 1 else 0
  }

  /** In every run, switches are begun and completed in turn: there is never more than one that is begun and not completed. */
  lemma {:induction false} HandoffsAlternate(s: Cpu, trace: seq<Action>)
    requires Inv(s) && IsRun(s, trace)
    ensures Pending(s) + Begins(trace) == Pending(After(s, trace)) + Completes(trace)
    decreases |trace|
  {
    if trace != [] {
      StepOk(s, trace[0]);
      HandoffsAlternate(Step(s, trace[0]).value, trace[1..]);
    }
  }

  /** Once threads run, exactly one is running, and it is the one that executes. */
  lemma {:induction false} OneRunning(s: Cpu)
    requires Inv(s) && s.executing.Some?
    ensures s.executing.value in s.states && s.states[s.executing.value] == Running
    ensures forall t :: t in s.states && s.states[t] == Running ==> t == s.executing.value
  {
    assert ThreadOk(s, s.executing.value);
    forall t | t in s.states && s.states[t] == Running
      ensures t == s.executing.value
    {
      assert ThreadOk(s, t);
    }
  }

  /** A thread that has exited and whose switch is completed has had its owner dropped once, and some other thread runs. */
  lemma {:induction false} DroppedOnce(s: Cpu, t: Tid)
    requires Inv(s) && t in s.states && s.states[t] == Dead && s.handoff.None?
    ensures multiset(s.dropped)[t] == 1 && t !in s.owners && t !in s.queue && s.executing != Some(t) && s.current != Some(t)
  {
    assert ThreadOk(s, t);
    NoDupCount(s.dropped, t);
    if s.executing.Some? {
      assert ThreadOk(s, s.executing.value);
    }
  }

  /** A thread whose owner is about to be dropped no longer executes, and nothing can make it execute again. */
  lemma {:induction false} FreedElsewhere(s: Cpu, t: Tid)
    requires Inv(s) && ToFree(s, t)
    ensures s.executing.Some? && s.executing != Some(t) && t !in s.queue && s.idle != Some(t) && t !in s.dropped
  {
    assert ThreadOk(s, t);
  }

  /** Every thread the scheduler can still run, except the idle thread, has an owner. */
  lemma {:induction false} ReferencedAreOwned(s: Cpu, t: Tid)
    requires Inv(s) && s.idle != Some(t)
    requires || t in s.queue || s.current == Some(t) || s.executing == Some(t)
             || (s.handoff.Some? && s.handoff.value.newThread == t) || ToFree(s, t)
    ensures t in s.owners
  {
    assert ThreadOk(s, t);
  }

  // ----- What each step does -----

  /** No thread but those in `ts` has changed its state or what it does next. */
  ghost predicate OthersKept(s: Cpu, s': Cpu, ts: set<Tid>) {
    forall u :: u !in ts ==>
      && (u in s'.states <==> u in s.states) && (u in s.states ==> s'.states[u] == s.states[u])
      && (u in s'.pcs <==> u in s.pcs) && (u in s.pcs ==> s'.pcs[u] == s.pcs[u])
  }

  /** Thread `t` is new: ready, owned and last in the queue, with every other thread where it was. */
  ghost predicate Spawned(s: Cpu, t: Tid, s': Cpu) {
    && t in s'.states && s'.states[t] == Ready && t in s'.pcs && s'.pcs[t] == Completing && OthersKept(s, s', {t})
    && |s'.queue| == |s.queue| + 1 && s'.queue[|s.queue|] == t && (forall i :: 0 <= i < |s.queue| ==> s'.queue[i] == s.queue[i])
    && s'.owners == s.owners + {t} && s'.dropped == s.dropped
    && s'.current == s.current && s'.idle == s.idle && s'.handoff == s.handoff && s'.executing == s.executing
  }

  lemma {:induction false} SpawnsLast(s: Cpu, t: Tid)
    requires Inv(s) && Enabled(s, Spawn(t))
    ensures Step(s, Spawn(t)).Some? && Spawned(s, t, Step(s, Spawn(t)).value) && t !in s.queue && t !in s.owners
  {
  }

  /** The threads whose state a switch to `t` changes: `t`, the one that gives way or exits, and a new idle thread. */
  ghost function Switched(s: Cpu, a: Action, t: Tid): set<Tid> {
    {t} + (if s.executing.Some? then {s.executing.value} else {}) + (if a.Start? then {a.idle} else {})
  }

  /** `a` has switched to thread `t`, which was ready, or which gave way with no other waiting. */
  ghost predicate SwitchesTo(s: Cpu, a: Action, s': Cpu, t: Tid) {
    && t in s.states && s'.executing == Some(t) && t in s'.states && s'.states[t] == Running && t !in s'.queue
    && (s.states[t] == Ready || (a.Resched? && s.queue == [] && s.executing == Some(t)))
    && s'.handoff == Some(Handoff(t, if a.Exit? then s.executing else None))
    && (s.queue == [] && a.Exit? ==> s.idle == Some(t))
    && (a.Resched? ==> s.executing.Some?)
    && [t] + s'.queue == (if a.Resched? then s.queue + [s.executing.value] else if s.queue == [] then [t] else s.queue)
    && OthersKept(s, s', Switched(s, a, t))
    && s'.owners == s.owners && s'.dropped == s.dropped && s'.current == s.current
    && s'.idle == (if a.Start? then Some(a.idle) else s.idle)
  }

  /** The thread that was switched away from waits for its next turn, or is dead; a new idle thread is ready but not queued. */
  ghost predicate LeavesBehind(s: Cpu, a: Action, s': Cpu, t: Tid) {
    && (a.Resched? && s.executing.Some? && s.executing.value != t && s.executing.value in s'.states ==>
          s'.states[s.executing.value] == Ready)
    && (a.Exit? && s.executing.Some? ==> s.executing.value in s'.states && s'.states[s.executing.value] == Dead)
    && (a.Start? ==> a.idle in s'.states && s'.states[a.idle] == Ready && a.idle !in s'.queue)
  }

  /** Every switch is to a thread that was ready, or back to the one that gave way if no other waits.  That thread then runs and
      waits no longer, the handoff is to it, and it is the exiting thread that will be freed. */
  lemma {:induction false} SelectsReady(s: Cpu, a: Action)
    requires Inv(s) && Enabled(s, a) && IsBegin(a)
    ensures Step(s, a).Some? && Step(s, a).value.executing.Some?
    ensures SwitchesTo(s, a, Step(s, a).value, Step(s, a).value.executing.value)
    ensures LeavesBehind(s, a, Step(s, a).value, Step(s, a).value.executing.value)
  {
    StepOk(s, a);
    match a {
      case Resched => ReschedSwitches(s);
      case Exit => ExitSwitches(s);
      case Start(idle) => StartSwitches(s, idle);
    }
  }

  lemma {:induction false} StartSwitches(s: Cpu, idle: Tid)
    requires Inv(s) && Enabled(s, Start(idle)) && DoStart(s, idle).Some? && Inv(DoStart(s, idle).value)
    ensures DoStart(s, idle).value.executing.Some?
    ensures SwitchesTo(s, Start(idle), DoStart(s, idle).value, DoStart(s, idle).value.executing.value)
    ensures LeavesBehind(s, Start(idle), DoStart(s, idle).value, DoStart(s, idle).value.executing.value)
  {
    assert s.queue[0] in s.queue && ThreadOk(s, s.queue[0]) && ThreadOk(DoStart(s, idle).value, s.queue[0]);
  }

  lemma {:induction false} ReschedSwitches(s: Cpu)
    requires Inv(s) && Enabled(s, Resched) && DoResched(s).Some? && Inv(DoResched(s).value)
    ensures DoResched(s).value.executing.Some? && SwitchesTo(s, Resched, DoResched(s).value, DoResched(s).value.executing.value)
    ensures LeavesBehind(s, Resched, DoResched(s).value, DoResched(s).value.executing.value)
  {
    var q := s.queue + [s.executing.value];
    assert ThreadOk(s, s.executing.value);
    assert q[0] in q && ThreadOk(s, q[0]) && ThreadOk(DoResched(s).value, q[0]);
  }

  lemma {:induction false} ExitSwitches(s: Cpu)
    requires Inv(s) && Enabled(s, Exit) && DoExit(s).Some? && Inv(DoExit(s).value)
    ensures DoExit(s).value.executing.Some? && SwitchesTo(s, Exit, DoExit(s).value, DoExit(s).value.executing.value)
    ensures LeavesBehind(s, Exit, DoExit(s).value, DoExit(s).value.executing.value)
  {
    var t := DoExit(s).value.executing.value;
    assert s.queue != [] ==> s.queue[0] in s.queue;
    assert ThreadOk(s, s.executing.value) && ThreadOk(s, t) && ThreadOk(DoExit(s).value, t);
  }

  /** A completed switch: the thread it was to is the current one and may do anything, and the exited thread, if there is one, has
      lost its owner; nothing else changes. */
  ghost predicate Completed(s: Cpu, s': Cpu) {
    && s.handoff.Some? && s'.handoff.None? && s'.current == s.executing == Some(s.handoff.value.newThread)
    && s'.executing == s.executing && s'.queue == s.queue && s'.idle == s.idle && s'.states == s.states
    && OthersKept(s, s', {s.handoff.value.newThread})
    && s.handoff.value.newThread in s'.pcs && s'.pcs[s.handoff.value.newThread] == Free
    && match s.handoff.value.toFree
       case None => s'.owners == s.owners && s'.dropped == s.dropped
       case Some(d) =>
         && d in s.owners && d !in s'.owners && (forall u :: u != d ==> (u in s'.owners <==> u in s.owners))
         && |s'.dropped| == |s.dropped| + 1 && s'.dropped[|s.dropped|] == d && s'.dropped[..|s.dropped|] == s.dropped
  }

  lemma {:induction false} CompletesSwitch(s: Cpu)
    requires Inv(s) && Enabled(s, Complete)
    ensures Step(s, Complete).Some? && Completed(s, Step(s, Complete).value)
  {
    StepOk(s, Complete);
    if s.handoff.value.toFree.Some? {
      assert ThreadOk(s, s.handoff.value.toFree.value);
    }
  }

  // ----- Waiting in the queue -----

  predicate AtPlace(s: Cpu, k: int, t: Tid) {
    0 <= k < |s.queue| && s.queue[k] == t
  }

  lemma {:induction false} StepMovesUp(s: Cpu, a: Action, k: nat)
    requires Inv(s) && Enabled(s, a) && Step(s, a).Some? && k < |s.queue| && (IsBegin(a) ==> k > 0)
    ensures AtPlace(Step(s, a).value, if IsBegin(a) then k - 1 else k, s.queue[k])
  {
  }

  /** A thread at place `k` of the queue moves one place forward with every selection, whatever else happens. */
  lemma {:induction false} MovesUp(s: Cpu, trace: seq<Action>, k: nat)
    requires Inv(s) && IsRun(s, trace) && k < |s.queue| && Begins(trace) <= k
    ensures AtPlace(After(s, trace), k - Begins(trace), s.queue[k])
    decreases |trace|
  {
    if trace != [] {
      StepOk(s, trace[0]);
      StepMovesUp(s, trace[0], k);
      var s1, rest := Step(s, trace[0]).value, trace[1..];
      var j := if IsBegin(trace[0]) then k - 1 else k;
      assert Begins(trace) == Begins(rest) + (k - j) && After(s, trace) == After(s1, rest);
      MovesUp(s1, rest, j);
    }
  }

  lemma {:induction false} RunAppend(s: Cpu, trace: seq<Action>, a: Action)
    requires IsRun(s, trace + [a])
    ensures IsRun(s, trace) && Enabled(After(s, trace), a) && Step(After(s, trace), a).Some?
    ensures After(s, trace + [a]) == Step(After(s, trace), a).value
    decreases |trace|
  {
    if trace != [] {
      assert (trace + [a])[1..] == trace[1..] + [a];
      RunAppend(Step(s, trace[0]).value, trace[1..], a);
    } else {
      assert (trace + [a])[1..] == [];
    }
  }

  /** A thread at place `k` of the queue is the one that the selection after `k` others selects; the start selects too. */
  lemma {:induction false} FirstInFirstOut(s: Cpu, trace: seq<Action>, a: Action, k: nat)
    requires Inv(s) && IsRun(s, trace + [a]) && k < |s.queue| && Begins(trace) == k && IsBegin(a)
    ensures After(s, trace + [a]).executing == Some(s.queue[k])
  {
    RunAppend(s, trace, a);
    MovesUp(s, trace, k);
    RunOk(s, trace);
    SelectsReady(After(s, trace), a);
    FirstSelected(After(s, trace), a);
  }

  lemma {:induction false} FirstSelected(s: Cpu, a: Action)
    requires Inv(s) && Enabled(s, a) && IsBegin(a) && s.queue != [] && Step(s, a).Some?
    ensures Step(s, a).value.executing == Some(s.queue[0])
  {
  }

  /** A new thread is first selected after those that were queued before it, and by the next selection then. */
  lemma {:induction false} SpawnedIsSelected(s: Cpu, t: Tid, trace: seq<Action>, a: Action)
    requires Inv(s) && Enabled(s, Spawn(t)) && IsRun(DoSpawn(s, t), trace + [a])
    requires Begins(trace) == |s.queue| && IsBegin(a)
    ensures After(DoSpawn(s, t), trace + [a]).executing == Some(t)
  {
    StepOk(s, Spawn(t));
    SpawnsLast(s, t);
    FirstInFirstOut(DoSpawn(s, t), trace, a, |s.queue|);
  }

  /** Threads wait in the order in which they were spawned: as long as a thread has not been selected, it is before every thread
      spawned after it. */
  lemma {:induction false} SpawnOrder(s: Cpu, t: Tid, trace: seq<Action>, u: Tid)
    requires Inv(s) && Enabled(s, Spawn(t)) && IsRun(DoSpawn(s, t), trace + [Spawn(u)]) && Begins(trace) <= |s.queue|
    ensures exists i: int, j: int :: i < j && AtPlace(After(DoSpawn(s, t), trace + [Spawn(u)]), i, t) &&
                                     AtPlace(After(DoSpawn(s, t), trace + [Spawn(u)]), j, u)
  {
    var s1 := DoSpawn(s, t);
    StepOk(s, Spawn(t));
    SpawnsLast(s, t);
    RunAppend(s1, trace, Spawn(u));
    MovesUp(s1, trace, |s.queue|);
    RunOk(s1, trace);
    var s2 := After(s1, trace);
    SpawnsLast(s2, u);
    var i, j := |s.queue| - Begins(trace), |s2.queue|;
    assert i < j && AtPlace(After(s1, trace + [Spawn(u)]), i, t) && AtPlace(After(s1, trace + [Spawn(u)]), j, u);
  }
}
