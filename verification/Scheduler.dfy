/** The scheduler: run queue, thread states and handoffs, updated in place. */
module Scheduler {
  import opened MemTypes
  import opened SchedModel

  class Scheduler {
    var states: map<Tid, ThreadState>
    var owners: set<Tid>
    var queue: seq<Tid>
    var current: Option<Tid>
    var idle: Option<Tid>
    var handoff: Option<Handoff>
    ghost var pcs: map<Tid, Pc>
    ghost var executing: Option<Tid>
    ghost var dropped: seq<Tid>

    ghost function State(): Cpu
      reads this
    {
      Cpu(states, pcs, owners, queue, current, idle, handoff, executing, dropped)
    }

    ghost predicate Valid()
      reads this
    {
      Inv(State())
    }

    constructor ()
      ensures Valid() && State() == Initial()
    {
      states, owners, queue, current, idle, handoff := map[], {}, [], None, None, None;
      pcs, executing, dropped := map[], None, [];
      new;
      InitialOk();
    }

    method SpawnThread(t: Tid)
      requires Valid() && Enabled(State(), Spawn(t))
      modifies this
      ensures Valid() && Step(old(State()), Spawn(t)) == Some(State()) && Spawned(old(State()), t, State())
    {
      StepOk(State(), Spawn(t));
      SpawnsLast(State(), t);
      states, pcs := states[t := Ready], pcs[t := Completing];
      owners := owners + {t};
      queue := queue + [t];
    }

    method TakeReadyThread() returns (t: Tid)
      requires TakeReady(State()).Some?
      modifies this`queue
      ensures TakeReady(old(State())) == Some((t, queue))
    {
      if queue != [] {
        t := queue[0];
        queue := queue[1..];
      } else {
        t := idle.value;
      }
    }

    method BeginHandoff(t: Tid, toFree: Option<Tid>)
      requires handoff.None?
      modifies this`handoff, this`executing
      ensures Begin(old(State()), t, toFree) == Some(State())
    {
      handoff := Some(Handoff(t, toFree));
      executing := Some(t);
    }

    /** Switches to the first thread. */
    method StartFirst(idleThread: Tid)
      requires Valid() && Enabled(State(), Start(idleThread))
      modifies this
      ensures Valid() && Step(old(State()), Start(idleThread)) == Some(State())
      ensures executing.Some? && SwitchesTo(old(State()), Start(idleThread), State(), executing.value)
      ensures LeavesBehind(old(State()), Start(idleThread), State(), executing.value)
    {
      StepOk(State(), Start(idleThread));
      SelectsReady(State(), Start(idleThread));
      var t := TakeReadyThread();
      states := states[t := Running];
      states, pcs := states[idleThread := Ready], pcs[idleThread := Completing];
      idle := Some(idleThread);
      BeginHandoff(t, None);
    }

    /** Selects a thread and switches to it. */
    method ScheduleCommon(toFree: Option<Tid>)
      requires Select(State(), toFree).Some?
      modifies this
      ensures Select(old(State()), toFree) == Some(State())
    {
      var t := TakeReadyThread();
      states := states[t := Running];
      BeginHandoff(t, toFree);
    }

    /** Puts the running thread at the end of the queue and switches to the first thread there. */
    method ReschedCurrent()
      requires Valid() && Enabled(State(), Resched)
      modifies this
      ensures Valid() && Step(old(State()), Resched) == Some(State())
      ensures executing.Some? && SwitchesTo(old(State()), Resched, State(), executing.value)
      ensures LeavesBehind(old(State()), Resched, State(), executing.value)
    {
      StepOk(State(), Resched);
      SelectsReady(State(), Resched);
      var t := current.value;
      assert states[t] == Running;
      states := states[t := Ready];
      queue := queue + [t];
      pcs := pcs[t := Completing];
      ScheduleCommon(None);
    }

    /** Ends the running thread and switches to another one. */
    method ExitCurrent()
      requires Valid() && Enabled(State(), Exit)
      modifies this
      ensures Valid() && Step(old(State()), Exit) == Some(State())
      ensures executing.Some? && SwitchesTo(old(State()), Exit, State(), executing.value)
      ensures LeavesBehind(old(State()), Exit, State(), executing.value)
    {
      StepOk(State(), Exit);
      SelectsReady(State(), Exit);
      var t := current.value;
      states := states[t := Dead];
      ScheduleCommon(Some(t));
    }

    /** What a thread does first after it was switched to. */
    method CompleteHandoff()
      requires Valid() && Enabled(State(), Complete)
      modifies this
      ensures Valid() && Step(old(State()), Complete) == Some(State()) && Completed(old(State()), State())
    {
      StepOk(State(), Complete);
      CompletesSwitch(State());
      var h := handoff.value;
      handoff := None;
      current := Some(h.newThread);
      pcs := pcs[h.newThread := Free];
      if h.toFree.Some? {
        assert h.toFree.value in owners;
        owners := owners - {h.toFree.value};
        dropped := dropped + [h.toFree.value];
      }
    }
  }
}
