/** One-time initialisation by any number of threads, as interleaved atomic steps. */
module SpinOnce {
  import opened MemTypes

  type Tid = nat

  datatype CellState = Uninitialized | Initializing | Initialized

  /** What a call was made for.  `Lazy` takes the value from the stored initializer. */
  datatype Source<T> = Own(value: T) | Lazy

  /** Where a thread is in a call, and what the call ended with. */
  datatype Pc<T> =
    | Idle
    | Get
    | FastPath(src: Source<T>)
    | Exchange(src: Source<T>)
    | InitExchange(src: Source<T>)
    | Winner(src: Source<T>)
    | Store(result: T)
    | Spinning
    | Reading
    | Returned(result: T)
    | NotYet
    | Reinitialized
    | MissingInitializer
    | ReadUninitialized

  datatype Call<T> = CallGet | CallGetOrInit(src: Source<T>) | CallInit(src: Source<T>)

  /** `inits` counts how often a value was written. */
  datatype Once<T> = Once(cell: CellState, value: Option<T>, initializer: Option<T>, pcs: map<Tid, Pc<T>>, inits: nat)

  function SetPc<T>(s: Once<T>, t: Tid, pc: Pc<T>): Once<T> {
    s.(pcs := s.pcs[t := pc])
  }

  function StartCall<T>(s: Once<T>, t: Tid, call: Call<T>): Once<T> {
    SetPc(s, t, match call
                case CallGet => Get
                case CallGetOrInit(src) => FastPath(src)
                case CallInit(src) => InitExchange(src))
  }

  /** Writes the value, with the store of the state still to come. */
  function Write<T>(s: Once<T>, t: Tid, v: T): Once<T> {
    SetPc(s.(value := Some(v), inits := s.inits + 1), t, Store(v))
  }

  /** One atomic step of thread `t`. */
  function Step<T>(s: Once<T>, t: Tid): Once<T>
    requires t in s.pcs
  {
    match s.pcs[t]
    case Get => SetPc(s, t, if s.cell == Initialized then Reading else NotYet)
    case FastPath(src) => SetPc(s, t, if s.cell == Initialized then Reading else Exchange(src))
    case Exchange(src) =>
      (match s.cell
       case Uninitialized => SetPc(s.(cell := Initializing), t, Winner(src))
       case Initialized => SetPc(s, t, Reading)
       case Initializing => SetPc(s, t, Spinning))
    case InitExchange(src) =>
      if s.cell == Uninitialized then SetPc(s.(cell := Initializing), t, Winner(src)) else SetPc(s, t, Reinitialized)
    case Winner(src) =>
      (match src
       case Own(v) => Write(s, t, v)
       case Lazy => if s.initializer.None? then SetPc(s, t, MissingInitializer)
                    else Write(s.(initializer := None), t, s.initializer.value))
    case Store(v) => SetPc(s.(cell := Initialized), t, Returned(v))
    case Spinning => if s.cell == Initializing then s else SetPc(s, t, Reading)
    case Reading => SetPc(s, t, if s.value.Some? then Returned(s.value.value) else ReadUninitialized)
    case _ => s
  }

  // ----- The invariant -----

  /** Thread `t` is the one that initialises the cell. */
  predicate Initializes<T>(s: Once<T>, t: Tid) {
    t in s.pcs && (s.pcs[t].Winner? || s.pcs[t].Store?)
  }

  ghost predicate PcOk<T>(s: Once<T>, t: Tid)
    requires t in s.pcs
  {
    match s.pcs[t]
    case Winner(_) => s.cell == Initializing && s.value.None? && s.inits == 0
    case Store(v) => s.cell == Initializing && s.value == Some(v)
    case Returned(v) => s.cell == Initialized && s.value == Some(v)
    case Reading => s.cell == Initialized
    case Spinning => s.cell != Uninitialized
    case ReadUninitialized => false
    case _ => true
  }

  ghost predicate Alone<T>(s: Once<T>, t: Tid, u: Tid) {
    Initializes(s, t) && Initializes(s, u) ==> t == u
  }

  /** While the cell is being initialised, a thread is at it, or has panicked in the attempt. */
  ghost predicate AtWork<T>(s: Once<T>, t: Tid) {
    Initializes(s, t) || (t in s.pcs && s.pcs[t].MissingInitializer?)
  }

  ghost predicate Inv<T>(s: Once<T>) {
    && (forall t {:trigger PcOk(s, t)} :: t in s.pcs ==> PcOk(s, t))
    && (forall t, u {:trigger Alone(s, t, u)} :: Alone(s, t, u))
    && (s.cell == Uninitialized ==> s.value.None? && s.inits == 0)
    && (s.cell == Initializing ==> exists t :: AtWork(s, t))
    && (s.cell == Initialized ==> s.value.Some?)
    && s.inits == (if s.value.Some? then 1 else 0)
  }

  /** A cell in which every call takes the value from the stored initializer. */
  ghost predicate IsLazy<T>(s: Once<T>) {
    && (s.value.None? ==> s.initializer.Some?)
    && forall t {:trigger LazyPc(s, t)} :: LazyPc(s, t)
  }

  ghost predicate LazyPc<T>(s: Once<T>, t: Tid) {
    t in s.pcs ==>
      match s.pcs[t]
      case FastPath(src) => src.Lazy?
      case Exchange(src) => src.Lazy?
      case InitExchange(_) => false
      case Winner(src) => src.Lazy?
      case MissingInitializer => false
      case _ => true
  }

  lemma {:induction false} StartCallOk<T>(s: Once<T>, t: Tid, call: Call<T>)
    requires Inv(s) && (t in s.pcs ==> InNoCall(s.pcs[t]))
    ensures Inv(StartCall(s, t, call))
    ensures IsLazy(s) && (call.CallGetOrInit? ==> call.src.Lazy?) && !call.CallInit? ==> IsLazy(StartCall(s, t, call))
  {
    var s' := StartCall(s, t, call);
    if s.cell == Initializing {
      var u :| AtWork(s, u);
      assert AtWork(s', u);
    }
    forall u | u in s'.pcs
      ensures PcOk(s', u)
    {
      assert u in s.pcs ==> PcOk(s, u);
    }
    forall u, w
      ensures Alone(s', u, w)
    {
      assert Alone(s, u, w);
    }
    if IsLazy(s) && (call.CallGetOrInit? ==> call.src.Lazy?) && !call.CallInit? {
      forall u
        ensures LazyPc(s', u)
      {
        assert LazyPc(s, u);
      }
    }
  }

  lemma {:induction false} StillAtWork<T>(s: Once<T>, t: Tid)
    requires Inv(s) && t in s.pcs && Step(s, t).cell == Initializing
    ensures exists u :: AtWork(Step(s, t), u)
  {
    var s' := Step(s, t);
    if s.cell == Initializing {
      var u :| AtWork(s, u);
      assert AtWork(s', u);
    } else {
      assert AtWork(s', t);
    }
  }

  lemma {:induction false} StepOk<T>(s: Once<T>, t: Tid)
    requires Inv(s) && t in s.pcs
    ensures Inv(Step(s, t))
  {
    var s' := Step(s, t);
    assert PcOk(s, t);
    if s'.cell == Initializing {
      StillAtWork(s, t);
    }
    forall u | u in s'.pcs
      ensures PcOk(s', u)
    {
      assert PcOk(s, u) && Alone(s, t, u);
    }
    forall u, w
      ensures Alone(s', u, w)
    {
      assert Alone(s, u, w) && Alone(s, t, u) && Alone(s, t, w);
      assert u in s.pcs ==> PcOk(s, u);
      assert w in s.pcs ==> PcOk(s, w);
    }
  }

  lemma {:induction false} LazyStepOk<T>(s: Once<T>, t: Tid)
    requires Inv(s) && IsLazy(s) && t in s.pcs
    ensures IsLazy(Step(s, t))
  {
    var s' := Step(s, t);
    assert PcOk(s, t) && LazyPc(s, t);
    forall u
      ensures LazyPc(s', u)
    {
      assert LazyPc(s, u);
    }
  }

  // ----- Runs -----

  datatype Event<T> = Begin(t: Tid, call: Call<T>) | Take(t: Tid)

  /** A thread begins a call only when it is not in one. */
  predicate Possible<T>(s: Once<T>, e: Event<T>) {
    match e
    case Begin(t, _) => t in s.pcs ==> InNoCall(s.pcs[t])
    case Take(t) => t in s.pcs
  }

  predicate InNoCall<T>(pc: Pc<T>) {
    pc.Idle? || pc.Returned? || pc.NotYet?
  }

  function Do<T>(s: Once<T>, e: Event<T>): Once<T>
    requires Possible(s, e)
  {
    match e
    case Begin(t, call) => StartCall(s, t, call)
    case Take(t) => Step(s, t)
  }

  ghost predicate IsRun<T>(s: Once<T>, run: seq<Event<T>>)
    decreases |run|
  {
    run == [] || (Possible(s, run[0]) && IsRun(Do(s, run[0]), run[1..]))
  }

  ghost function After<T>(s: Once<T>, run: seq<Event<T>>): Once<T>
    requires IsRun(s, run)
    decreases |run|
  {
    if run == [] then s else After(Do(s, run[0]), run[1..])
  }

  function New<T>(initializer: Option<T>): Once<T> {
    Once(Uninitialized, None, initializer, map[], 0)
  }

  ghost predicate OnlyLazy<T>(run: seq<Event<T>>) {
    forall i :: 0 <= i < |run| && run[i].Begin? ==>
      run[i].call.CallGet? || (run[i].call.CallGetOrInit? && run[i].call.src.Lazy?)
  }

  lemma {:induction false} DoOk<T>(s: Once<T>, e: Event<T>)
    requires Inv(s) && Possible(s, e)
    ensures Inv(Do(s, e))
    ensures s.value.Some? ==> Do(s, e).value == s.value
  {
    match e {
      case Begin(t, call) => StartCallOk(s, t, call);
      case Take(t) =>
        StepOk(s, t);
        assert PcOk(s, t);
    }
  }

  /** Over every run: the value is written at most once and never changes again, and no thread reads it before it is
      written. */
  lemma {:induction false} RunOk<T>(s: Once<T>, run: seq<Event<T>>)
    requires Inv(s) && IsRun(s, run)
    ensures Inv(After(s, run)) && After(s, run).inits <= 1
    ensures s.value.Some? ==> After(s, run).value == s.value
    ensures forall t :: t in After(s, run).pcs ==> !After(s, run).pcs[t].ReadUninitialized?
    decreases |run|
  {
    if run != [] {
      DoOk(s, run[0]);
      RunOk(Do(s, run[0]), run[1..]);
    } else {
      forall t | t in s.pcs
        ensures !s.pcs[t].ReadUninitialized?
      {
        assert PcOk(s, t);
      }
    }
  }

  /** What a call returns is what every other call returns, then and forever after. */
  lemma {:induction false} AllGetTheSame<T>(s: Once<T>, run: seq<Event<T>>, t: Tid, u: Tid)
    requires Inv(s) && IsRun(s, run) && t in s.pcs && s.pcs[t].Returned?
    requires u in After(s, run).pcs && After(s, run).pcs[u].Returned?
    ensures After(s, run).pcs[u].result == s.pcs[t].result
  {
    assert PcOk(s, t);
    RunOk(s, run);
    assert PcOk(After(s, run), u);
  }

  /** In a lazy cell, a thread that spins waits for another one that is still at work or has just finished. */
  lemma {:induction false} SpinsForAWinner<T>(s: Once<T>, t: Tid)
    requires Inv(s) && IsLazy(s) && t in s.pcs && s.pcs[t].Spinning?
    ensures s.cell == Initialized || exists u :: u != t && Initializes(s, u)
  {
    assert PcOk(s, t);
    if s.cell == Initializing {
      var u :| AtWork(s, u);
      assert LazyPc(s, u);
      assert u != t && Initializes(s, u);
    }
  }

  /** The initializer of a lazy value is never missing. */
  lemma {:induction false} LazyRunOk<T>(s: Once<T>, run: seq<Event<T>>)
    requires Inv(s) && IsLazy(s) && IsRun(s, run) && OnlyLazy(run)
    ensures IsLazy(After(s, run)) && forall t :: t in After(s, run).pcs ==> !After(s, run).pcs[t].MissingInitializer?
    decreases |run|
  {
    if run != [] {
      DoOk(s, run[0]);
      match run[0] {
        case Begin(t, call) => StartCallOk(s, t, call);
        case Take(t) => LazyStepOk(s, t);
      }
      LazyRunOk(Do(s, run[0]), run[1..]);
    } else {
      forall t | t in s.pcs
        ensures !s.pcs[t].MissingInitializer?
      {
        assert LazyPc(s, t);
      }
    }
  }

  lemma {:induction false} NewOk<T>(initializer: Option<T>)
    ensures Inv(New(initializer)) && (initializer.Some? ==> IsLazy(New(initializer)))
  {
  }

  // ----- Calls come to their end -----

  /** No event of the run is one of thread `t`. */
  ghost predicate NoneOf<T>(run: seq<Event<T>>, t: Tid) {
    forall i :: 0 <= i < |run| ==> run[i].t != t
  }

  lemma {:induction false} RunAppend<T>(s: Once<T>, run: seq<Event<T>>, more: seq<Event<T>>)
    requires IsRun(s, run + more)
    ensures IsRun(s, run) && IsRun(After(s, run), more) && After(s, run + more) == After(After(s, run), more)
    decreases |run|
  {
    if run == [] {
      assert run + more == more;
    } else {
      assert (run + more)[1..] == run[1..] + more;
      RunAppend(Do(s, run[0]), run[1..], more);
    }
  }

  /** What others do leaves a thread where it is, and an initialised cell and its value as they are.  While a thread initialises
      the cell, they leave the cell alone altogether. */
  lemma {:induction false} OthersLeave<T>(s: Once<T>, run: seq<Event<T>>, t: Tid)
    requires Inv(s) && IsRun(s, run) && NoneOf(run, t) && t in s.pcs
    ensures Inv(After(s, run)) && t in After(s, run).pcs && After(s, run).pcs[t] == s.pcs[t]
    ensures s.cell == Initialized ==> After(s, run).cell == Initialized && After(s, run).value == s.value
    ensures Initializes(s, t) ==>
              After(s, run).cell == s.cell && After(s, run).value == s.value && After(s, run).initializer == s.initializer
    decreases |run|
  {
    if run != [] {
      assert run[0].t != t;
      DoOk(s, run[0]);
      OneLeaves(s, run[0], t);
      assert NoneOf(run[1..], t);
      OthersLeave(Do(s, run[0]), run[1..], t);
    }
  }

  lemma {:induction false} OneLeaves<T>(s: Once<T>, e: Event<T>, t: Tid)
    requires Inv(s) && Possible(s, e) && e.t != t && t in s.pcs
    ensures t in Do(s, e).pcs && Do(s, e).pcs[t] == s.pcs[t]
    ensures s.cell == Initialized ==> Do(s, e).cell == Initialized && Do(s, e).value == s.value
    ensures Initializes(s, t) ==>
              Do(s, e).cell == s.cell && Do(s, e).value == s.value && Do(s, e).initializer == s.initializer
  {
    assert PcOk(s, t) && Alone(s, t, e.t);
    if e.Take? {
      assert PcOk(s, e.t);
    }
  }

  /** Thread `t` takes a step, then others do whatever they do. */
  ghost function Turn<T>(t: Tid, others: seq<Event<T>>): seq<Event<T>> {
    [Take(t)] + others
  }

  lemma {:induction false} TurnTaken<T>(s: Once<T>, t: Tid, others: seq<Event<T>>)
    requires Inv(s) && IsRun(s, Turn(t, others)) && NoneOf(others, t)
    ensures t in s.pcs && Inv(Step(s, t)) && IsRun(Step(s, t), others) && After(s, Turn(t, others)) == After(Step(s, t), others)
    ensures var s' := After(s, Turn(t, others)); Inv(s') && t in s'.pcs && s'.pcs[t] == Step(s, t).pcs[t]
    ensures Step(s, t).cell == Initialized ==>
              After(s, Turn(t, others)).cell == Initialized && After(s, Turn(t, others)).value == Step(s, t).value
    ensures Initializes(Step(s, t), t) ==>
              && After(s, Turn(t, others)).cell == Step(s, t).cell && After(s, Turn(t, others)).value == Step(s, t).value
              && After(s, Turn(t, others)).initializer == Step(s, t).initializer
  {
    assert Turn(t, others)[0] == Take(t) && Turn(t, others)[1..] == others;
    DoOk(s, Take(t));
    OthersLeave(Step(s, t), others, t);
  }

  /** A call for the value that is on its way, and has not begun to initialise the cell. */
  predicate Asks<T>(pc: Pc<T>) {
    pc.Get? || pc.FastPath? || pc.Exchange? || pc.Spinning?
  }

  /** Once the cell is initialised, every call that asks for the value returns it with its next two steps, whatever other threads
      do in between. */
  lemma {:induction false} InitializedIsFound<T>(s: Once<T>, t: Tid, r1: seq<Event<T>>, r2: seq<Event<T>>)
    requires Inv(s) && s.cell == Initialized && t in s.pcs && Asks(s.pcs[t]) && NoneOf(r1, t) && NoneOf(r2, t)
    requires IsRun(s, Turn(t, r1) + Turn(t, r2))
    ensures s.value.Some? && t in After(s, Turn(t, r1) + Turn(t, r2)).pcs
    ensures After(s, Turn(t, r1) + Turn(t, r2)).pcs[t] == Returned(s.value.value)
  {
    RunAppend(s, Turn(t, r1), Turn(t, r2));
    TurnTaken(s, t, r1);
    TurnTaken(After(s, Turn(t, r1)), t, r2);
  }

  /** A `get` ends without a value exactly if the cell is not initialised when it looks; else it goes on to read the value. */
  lemma {:induction false} GetAnswers<T>(s: Once<T>, t: Tid, others: seq<Event<T>>)
    requires Inv(s) && t in s.pcs && s.pcs[t].Get? && NoneOf(others, t) && IsRun(s, Turn(t, others))
    ensures t in After(s, Turn(t, others)).pcs
    ensures After(s, Turn(t, others)).pcs[t] == if s.cell == Initialized then Reading else NotYet
  {
    TurnTaken(s, t, others);
  }

  /** Of the calls that want to initialise the cell, exactly the one that finds it uninitialised does so.  An `init` that comes
      later panics, and other calls read the value or wait for it. */
  lemma {:induction false} FirstWins<T>(s: Once<T>, t: Tid, others: seq<Event<T>>)
    requires Inv(s) && t in s.pcs && (s.pcs[t].Exchange? || s.pcs[t].InitExchange?)
    requires NoneOf(others, t) && IsRun(s, Turn(t, others))
    ensures t in After(s, Turn(t, others)).pcs
    ensures var pc := After(s, Turn(t, others)).pcs[t];
            if s.cell == Uninitialized then pc == Winner(s.pcs[t].src) && After(s, Turn(t, others)).cell == Initializing
            else if s.pcs[t].InitExchange? then pc == Reinitialized
            else pc == if s.cell == Initialized then Reading else Spinning
  {
    TurnTaken(s, t, others);
  }

  /** The value that a winner writes: its own, or the stored initializer's. */
  function WinnersValue<T>(s: Once<T>, src: Source<T>): Option<T> {
    match src
    case Own(v) => Some(v)
    case Lazy => s.initializer
  }

  /** A winner's call returns its own value, or the stored initializer's, with its next two steps, and the cell then has that
      value; it panics exactly if the initializer is missing. */
  lemma {:induction false} WinnerReturns<T>(s: Once<T>, t: Tid, r1: seq<Event<T>>, r2: seq<Event<T>>)
    requires Inv(s) && t in s.pcs && s.pcs[t].Winner? && NoneOf(r1, t) && NoneOf(r2, t)
    requires IsRun(s, Turn(t, r1) + Turn(t, r2))
    ensures var s' := After(s, Turn(t, r1) + Turn(t, r2));
            var v := WinnersValue(s, s.pcs[t].src);
            && t in s'.pcs
            && (v.Some? ==> s'.pcs[t] == Returned(v.value) && s'.cell == Initialized && s'.value == v)
            && (v.None? ==> s'.pcs[t] == MissingInitializer)
  {
    RunAppend(s, Turn(t, r1), Turn(t, r2));
    TurnTaken(s, t, r1);
    TurnTaken(After(s, Turn(t, r1)), t, r2);
  }

  /** A thread that waits goes on waiting exactly as long as the cell is being initialised. */
  lemma {:induction false} WaitsWhileInitializing<T>(s: Once<T>, t: Tid, others: seq<Event<T>>)
    requires Inv(s) && t in s.pcs && s.pcs[t].Spinning? && NoneOf(others, t) && IsRun(s, Turn(t, others))
    ensures t in After(s, Turn(t, others)).pcs
    ensures After(s, Turn(t, others)).pcs[t] == if s.cell == Initializing then Spinning else Reading
  {
    TurnTaken(s, t, others);
  }

  // ----- Whole calls -----

  /** Thread `t` begins a call, then others do whatever they do. */
  ghost function Opening<T>(t: Tid, call: Call<T>, others: seq<Event<T>>): seq<Event<T>> {
    [Begin(t, call)] + others
  }

  lemma {:induction false} Opened<T>(s: Once<T>, t: Tid, call: Call<T>, others: seq<Event<T>>)
    requires Inv(s) && IsRun(s, Opening(t, call, others)) && NoneOf(others, t)
    ensures var s' := After(s, Opening(t, call, others)); Inv(s') && t in s'.pcs && s'.pcs[t] == StartCall(s, t, call).pcs[t]
  {
    assert Opening(t, call, others)[0] == Begin(t, call) && Opening(t, call, others)[1..] == others;
    DoOk(s, Begin(t, call));
    OthersLeave(StartCall(s, t, call), others, t);
  }

  /** A call of `get` ends without a value exactly if the cell is not initialised when it looks. */
  lemma {:induction false} GetCall<T>(s: Once<T>, t: Tid, r0: seq<Event<T>>, r1: seq<Event<T>>)
    requires Inv(s) && NoneOf(r0, t) && NoneOf(r1, t) && IsRun(s, Opening(t, CallGet, r0) + Turn(t, r1))
    ensures IsRun(s, Opening(t, CallGet, r0)) && t in After(s, Opening(t, CallGet, r0) + Turn(t, r1)).pcs
    ensures After(s, Opening(t, CallGet, r0) + Turn(t, r1)).pcs[t] ==
            if After(s, Opening(t, CallGet, r0)).cell == Initialized then Reading else NotYet
  {
    RunAppend(s, Opening(t, CallGet, r0), Turn(t, r1));
    Opened(s, t, CallGet, r0);
    GetAnswers(After(s, Opening(t, CallGet, r0)), t, r1);
  }

  /** A call of `init` wins exactly if it finds the cell uninitialised, and panics else. */
  lemma {:induction false} InitCall<T>(s: Once<T>, t: Tid, src: Source<T>, r0: seq<Event<T>>, r1: seq<Event<T>>)
    requires Inv(s) && NoneOf(r0, t) && NoneOf(r1, t) && IsRun(s, Opening(t, CallInit(src), r0) + Turn(t, r1))
    ensures IsRun(s, Opening(t, CallInit(src), r0)) && t in After(s, Opening(t, CallInit(src), r0) + Turn(t, r1)).pcs
    ensures After(s, Opening(t, CallInit(src), r0) + Turn(t, r1)).pcs[t] ==
            if After(s, Opening(t, CallInit(src), r0)).cell == Uninitialized then Winner(src) else Reinitialized
  {
    RunAppend(s, Opening(t, CallInit(src), r0), Turn(t, r1));
    Opened(s, t, CallInit(src), r0);
    FirstWins(After(s, Opening(t, CallInit(src), r0)), t, r1);
  }

  /** A call of `get_or_init` goes on to read the value if it finds the cell initialised with its first or second step; else it
      wins exactly if it then finds the cell uninitialised, and waits if not. */
  lemma {:induction false} GetOrInitCall<T>(s: Once<T>, t: Tid, src: Source<T>, r0: seq<Event<T>>, r1: seq<Event<T>>, r2: seq<Event<T>>)
    requires Inv(s) && NoneOf(r0, t) && NoneOf(r1, t) && NoneOf(r2, t)
    requires IsRun(s, Opening(t, CallGetOrInit(src), r0)) && IsRun(After(s, Opening(t, CallGetOrInit(src), r0)), Turn(t, r1))
    requires IsRun(After(After(s, Opening(t, CallGetOrInit(src), r0)), Turn(t, r1)), Turn(t, r2))
    ensures var s1 := After(s, Opening(t, CallGetOrInit(src), r0));
            var s2 := After(s1, Turn(t, r1));
            var s3 := After(s2, Turn(t, r2));
            && t in s2.pcs && t in s3.pcs
            && if s1.cell == Initialized then s2.pcs[t] == Reading
               else s3.pcs[t] == match s2.cell
                                 case Uninitialized => Winner(src)
                                 case Initialized => Reading
                                 case Initializing => Spinning
  {
    Opened(s, t, CallGetOrInit(src), r0);
    var s1 := After(s, Opening(t, CallGetOrInit(src), r0));
    TurnTaken(s1, t, r1);
    if s1.cell != Initialized {
      FirstWins(After(s1, Turn(t, r1)), t, r2);
    } else {
      TurnTaken(After(s1, Turn(t, r1)), t, r2);
    }
  }

  // ----- A value that can be taken once -----

  datatype TakePc = Swap | Init | Holds | Denied

  datatype TakeOnce = TakeOnce(taken: bool, pcs: map<Tid, TakePc>)

  /** One atomic step of thread `t` in `take_init_with`. */
  function TakeStep(s: TakeOnce, t: Tid): TakeOnce
    requires t in s.pcs
  {
    match s.pcs[t]
    case Swap => TakeOnce(true, s.pcs[t := if s.taken then Denied else Init])
    case Init => s.(pcs := s.pcs[t := Holds])
    case _ => s
  }

  predicate HasAccess(s: TakeOnce, t: Tid) {
    t in s.pcs && (s.pcs[t].Init? || s.pcs[t].Holds?)
  }

  /** At most one thread has access to the value, and one has as soon as it is taken. */
  ghost predicate TakeInv(s: TakeOnce) {
    && (forall t, u :: HasAccess(s, t) && HasAccess(s, u) ==> t == u)
    && (s.taken <==> exists t :: HasAccess(s, t))
  }

  ghost function TakeRun(s: TakeOnce, run: seq<Tid>): TakeOnce
    requires forall t :: t in run ==> t in s.pcs
    decreases |run|
  {
    if run == [] then s else TakeRun(TakeStep(s, run[0]), run[1..])
  }

  lemma {:induction false} TakeStepOk(s: TakeOnce, t: Tid)
    requires TakeInv(s) && t in s.pcs
    ensures TakeInv(TakeStep(s, t)) && forall u :: HasAccess(s, u) ==> HasAccess(TakeStep(s, t), u)
  {
    var s' := TakeStep(s, t);
    forall u
      ensures HasAccess(s', u) <==> HasAccess(s, u) || (u == t && s.pcs[t].Swap? && !s.taken)
    {
      assert HasAccess(s, u) ==> s.taken;
    }
    if s'.taken && !s.taken {
      assert HasAccess(s', t);
    } else if u :| HasAccess(s, u) {
      assert HasAccess(s', u);
    }
  }

  lemma {:induction false} TakeRunOk(s: TakeOnce, run: seq<Tid>)
    requires TakeInv(s) && forall t :: t in run ==> t in s.pcs
    ensures TakeInv(TakeRun(s, run)) && forall u :: HasAccess(s, u) ==> HasAccess(TakeRun(s, run), u)
    decreases |run|
  {
    if run != [] {
      TakeStepOk(s, run[0]);
      TakeRunOk(TakeStep(s, run[0]), run[1..]);
    }
  }

  /** The thread whose swap comes first initialises the value and then gets access to it; every later one is denied it. */
  lemma {:induction false} FirstTakes(s: TakeOnce, t: Tid)
    requires TakeInv(s) && t in s.pcs && s.pcs[t].Swap?
    ensures var s' := TakeStep(s, t);
            if exists u :: HasAccess(s, u) then s'.pcs[t] == Denied
            else s'.taken && s'.pcs[t] == Init && HasAccess(s', t) && TakeStep(s', t).pcs[t] == Holds
    ensures forall u :: u in s.pcs && u != t ==> TakeStep(s, t).pcs[u] == s.pcs[u]
  {
  }
}
