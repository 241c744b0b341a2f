/** dd's interrupt context: one notifier goroutine that turns SIGINT into a stored signal
    and a byte on a self-pipe, and any number of Stop calls that shut it down.  The model
    is a state machine over the steps of the goroutine, of every Stop call and of the
    signal runtime, interleaved in any order. */
module Notifier {

  const SIGINT: int := 2

  /** Where the notifier goroutine stands. */
  datatype Goroutine =
    | Selecting    // in the outer select
    | Draining     // done was closed: the inner select with a default
    | Storing      // holds a signal, about to store it
    | Waking       // signal stored, about to write the wakeup byte
    | Exiting      // about to close `exited`
    | Gone

  /** Where one Stop call stands. */
  datatype Caller =
    | Entering       // before stopOnce
    | Unregistering  // inside stopOnce, in signal.Stop
    | Announcing     // about to close `done`
    | Waiting        // blocked on `exited`
    | Closing        // about to close the pipe
    | Returned

  /** The shared fields.  `stopper`, `delivered`, `stores` and `writes` are history: which
      call entered stopOnce, whether a signal ever reached the channel, and how often
      `sig` and the pipe were written. */
  datatype State = State(
    registered: bool,      // signal.Notify is in force
    queued: bool,          // the channel of capacity one holds a signal
    done: bool,            // channel `done` is closed
    exited: bool,          // channel `exited` is closed
    pipe: bool,            // the self-pipe exists
    pipeClosed: bool,
    sig: int,
    stopStarted: bool,     // stopOnce has been entered
    stopFinished: bool,    // and left
    goroutine: Goroutine,
    callers: seq<Caller>,
    stopper: int,
    delivered: bool,
    stores: nat,
    writes: nat)

  function Initial(pipe: bool, calls: nat): State {
    State(true, false, false, false, pipe, false, 0, false, false, Selecting, seq(calls, _ => Entering), -1, false, 0, 0)
  }

  datatype Action =
    | Deliver            // the runtime sends SIGINT without blocking
    | Receive            // the goroutine takes the signal from the channel
    | SeeDone            // the outer select picks the closed `done`
    | Default            // the inner select finds the channel empty
    | Store
    | Wake
    | Exit
    | Call(i: nat)       // Stop call i takes its next step

  predicate CallEnabled(s: State, i: nat) {
    i < |s.callers| &&
    match s.callers[i]
    case Entering => !s.stopStarted || s.stopFinished
    case Unregistering => true
    case Announcing => true
    case Waiting => s.exited
    case Closing => true
    case Returned => false
  }

  predicate Enabled(s: State, act: Action) {
    match act
    case Deliver => s.registered
    case Receive => (s.goroutine == Selecting || s.goroutine == Draining) && s.queued
    case SeeDone => s.goroutine == Selecting && s.done
    case Default => s.goroutine == Draining && !s.queued
    case Store => s.goroutine == Storing
    case Wake => s.goroutine == Waking
    case Exit => s.goroutine == Exiting
    case Call(i) => CallEnabled(s, i)
  }

  /** Where Stop call i stands after its next step. */
  function NextCaller(s: State, i: nat): (c: Caller)
    requires CallEnabled(s, i)
  {
    match s.callers[i]
    case Entering => if s.stopStarted then Returned else Unregistering
    case Unregistering => Announcing
    case Announcing => Waiting
    case Waiting => Closing
    case Closing => Returned
  }

  /** One step of Stop call i: enter stopOnce, unregister, close `done`, wait, close the
      pipe. */
  function StepCall(s: State, i: nat): State
    requires CallEnabled(s, i)
  {
    var c := s.callers[i];
    s.(callers := s.callers[i := NextCaller(s, i)],
       stopper := if c == Entering && !s.stopStarted then i else s.stopper,
       stopStarted := s.stopStarted || c == Entering,
       registered := s.registered && c != Unregistering,
       done := s.done || c == Announcing,
       pipeClosed := s.pipeClosed || c == Closing,
       stopFinished := s.stopFinished || c == Closing)
  }

  function Step(s: State, act: Action): State
    requires Enabled(s, act)
  {
    match act
    case Deliver => s.(queued := true, delivered := true)
    case Receive => s.(queued := false, goroutine := Storing)
    case SeeDone => s.(goroutine := Draining)
    case Default => s.(goroutine := Exiting)
    case Store => s.(sig := SIGINT, stores := s.stores + 1, goroutine := Waking)
    case Wake => s.(writes := s.writes + (if s.pipe then 1 else 0), goroutine := Exiting)
    case Exit => s.(exited := true, goroutine := Gone)
    case Call(i) => StepCall(s, i)
  }

  /** A run: every action enabled when it is taken. */
  ghost predicate IsRun(s: State, acts: seq<Action>)
    decreases |acts|
  {
    acts == [] || (Enabled(s, acts[0]) && IsRun(Step(s, acts[0]), acts[1..]))
  }

  ghost function After(s: State, acts: seq<Action>): State
    requires IsRun(s, acts)
    decreases |acts|
  {
    if acts == [] then s else After(Step(s, acts[0]), acts[1..])
  }

  // ---------------------------------------------------------------------
  // What every step keeps

  /** The shared fields are as far as the call inside stopOnce has come. */
  ghost predicate StopProgress(s: State, c: Caller) {
    match c
    case Unregistering => s.registered && !s.done && !s.pipeClosed
    case Announcing => !s.registered && !s.done && !s.pipeClosed
    case Waiting => !s.registered && s.done && !s.pipeClosed
    case Closing => !s.registered && s.done && s.exited && !s.pipeClosed
    case Entering => false
    case Returned => false
  }

  /** stopOnce: one call runs the shutdown, the others wait outside or have returned
      after it. */
  ghost predicate StopInv(s: State) {
    && (forall i | 0 <= i < |s.callers| && i != s.stopper :: s.callers[i] in {Entering, Returned})
    && (!s.stopStarted ==> s.stopper == -1 && s.registered && !s.done && !s.pipeClosed && !s.stopFinished)
    && (s.stopStarted ==> 0 <= s.stopper < |s.callers|)
    && (s.stopStarted && !s.stopFinished ==> StopProgress(s, s.callers[s.stopper]))
    && (s.stopFinished ==> !s.registered && s.done && s.exited && s.pipeClosed && s.callers[s.stopper] == Returned)
    && (forall i | 0 <= i < |s.callers| && s.callers[i] == Returned :: s.stopStarted && s.stopFinished)
  }

  /** The goroutine and the signal it carries. */
  ghost predicate SignalInv(s: State) {
    && (s.exited <==> s.goroutine == Gone)
    && (s.pipeClosed ==> s.exited)
    && (s.done ==> !s.registered)
    && (s.goroutine == Draining ==> s.done)
    && s.stores == (if s.sig != 0 then 1 else 0)
    && s.writes <= s.stores
    && (s.sig != 0 ==> s.sig == SIGINT && s.delivered && s.goroutine in {Waking, Exiting, Gone})
    && (s.goroutine == Waking ==> s.sig != 0 && s.writes == 0)
    && (s.goroutine == Storing || s.queued ==> s.delivered)
    && (s.goroutine in {Selecting, Draining} && s.delivered ==> s.queued)
    && (s.goroutine in {Exiting, Gone} && s.sig == 0 ==> s.done && !s.delivered)
  }

  ghost predicate Inv(s: State) {
    StopInv(s) && SignalInv(s)
  }

  lemma InitialInv(pipe: bool, calls: nat)
    ensures Inv(Initial(pipe, calls))
  {
  }

  lemma CallKeepsStopInv(s: State, i: nat)
    requires Inv(s) && CallEnabled(s, i)
    ensures StopInv(StepCall(s, i))
  {
    if s.callers[i] != Entering {
      assert i == s.stopper;
    }
  }

  lemma CallKeepsSignalInv(s: State, i: nat)
    requires Inv(s) && CallEnabled(s, i)
    ensures SignalInv(StepCall(s, i))
  {
    if s.callers[i] != Entering {
      assert i == s.stopper;
    }
  }

  lemma StepKeepsInv(s: State, act: Action)
    requires Inv(s) && Enabled(s, act)
    ensures Inv(Step(s, act))
  {
    hide StepCall;
    if act.Call? {
      CallKeepsStopInv(s, act.i);
      CallKeepsSignalInv(s, act.i);
    }
  }

  lemma {:induction false} RunKeepsInv(s: State, acts: seq<Action>)
    requires Inv(s) && IsRun(s, acts)
    ensures Inv(After(s, acts))
    decreases |acts|
  {
    if acts != [] {
      StepKeepsInv(s, acts[0]);
      RunKeepsInv(Step(s, acts[0]), acts[1..]);
    }
  }

  // ---------------------------------------------------------------------
  // Safety of whole runs

  /** In every run: the pipe is open whenever the goroutine is about to write to it, the
      signal is stored at most once, and once any Stop has returned the pipe is closed
      and a signal that ever reached the channel is visible through Interrupted. */
  lemma RunIsSafe(pipe: bool, calls: nat, acts: seq<Action>)
    requires IsRun(Initial(pipe, calls), acts)
    ensures var s := After(Initial(pipe, calls), acts);
            && (s.goroutine == Waking ==> !s.pipeClosed)
            && s.stores <= 1 && s.writes <= s.stores
            && (s.sig != 0 ==> s.sig == SIGINT && s.delivered)
            && forall i | 0 <= i < |s.callers| && s.callers[i] == Returned ::
                 s.pipeClosed && s.goroutine == Gone && !s.registered && (s.delivered <==> s.sig != 0)
  {
    InitialInv(pipe, calls);
    RunKeepsInv(Initial(pipe, calls), acts);
  }

  /** Channels are closed once: closing `done`, `exited` or the pipe always finds it
      open. */
  lemma ClosedOnce(pipe: bool, calls: nat, acts: seq<Action>, act: Action)
    requires IsRun(Initial(pipe, calls), acts) && Enabled(After(Initial(pipe, calls), acts), act)
    ensures var s := After(Initial(pipe, calls), acts);
            && (act == Exit ==> !s.exited)
            && (act.Call? && s.callers[act.i] == Announcing ==> !s.done)
            && (act.Call? && s.callers[act.i] == Closing ==> !s.pipeClosed)
  {
    InitialInv(pipe, calls);
    RunKeepsInv(Initial(pipe, calls), acts);
    var s := After(Initial(pipe, calls), acts);
    if act.Call? && s.callers[act.i] in {Announcing, Closing} {
      assert act.i == s.stopper;
    }
  }

  // ---------------------------------------------------------------------
  // Every Stop returns

  function CallerWork(c: Caller): nat {
    match c
    case Entering => 5
    case Unregistering => 4
    case Announcing => 3
    case Waiting => 2
    case Closing => 1
    case Returned => 0
  }

  function GoroutineWork(g: Goroutine): nat {
    match g
    case Selecting => 5
    case Draining => 4
    case Storing => 3
    case Waking => 2
    case Exiting => 1
    case Gone => 0
  }

  function CallersWork(cs: seq<Caller>): nat {
    if cs == [] then 0 else CallerWork(cs[0]) + CallersWork(cs[1..])
  }

  function Work(s: State): nat {
    GoroutineWork(s.goroutine) + CallersWork(s.callers)
  }

  lemma {:induction false} WorkOfUpdate(cs: seq<Caller>, i: nat, c: Caller)
    requires i < |cs|
    ensures CallersWork(cs[i := c]) == CallersWork(cs) - CallerWork(cs[i]) + CallerWork(c)
  {
    if i == 0 {
      assert cs[i := c][1..] == cs[1..];
    } else {
      assert cs[i := c][1..] == cs[1..][i - 1 := c];
      WorkOfUpdate(cs[1..], i - 1, c);
    }
  }

  lemma NextCallerHasLess(s: State, i: nat)
    requires CallEnabled(s, i)
    ensures CallerWork(NextCaller(s, i)) < CallerWork(s.callers[i])
  {
  }

  lemma StepCallMovesOne(s: State, i: nat)
    requires CallEnabled(s, i)
    ensures StepCall(s, i).callers == s.callers[i := NextCaller(s, i)] && StepCall(s, i).goroutine == s.goroutine
  {
    hide NextCaller;
  }

  lemma CallUsesWork(s: State, i: nat)
    requires CallEnabled(s, i)
    ensures CallersWork(StepCall(s, i).callers) < CallersWork(s.callers) && StepCall(s, i).goroutine == s.goroutine
  {
    hide CallersWork, CallerWork, NextCaller, StepCall;
    NextCallerHasLess(s, i);
    StepCallMovesOne(s, i);
    WorkOfUpdate(s.callers, i, NextCaller(s, i));
  }

  /** Every step but a delivery uses up work, and a delivery adds none. */
  lemma StepUsesWork(s: State, act: Action)
    requires Enabled(s, act)
    ensures Work(Step(s, act)) + (if act == Deliver then 0 else 1) <= Work(s)
  {
    hide CallersWork, StepCall;
    if act.Call? {
      CallUsesWork(s, act.i);
    }
  }

  /** The steps of a run that are not deliveries. */
  function OwnSteps(acts: seq<Action>): nat {
    if acts == [] then 0 else (if acts[0] == Deliver then 0 else 1) + OwnSteps(acts[1..])
  }

  /** However signals arrive, no run has more steps of its own than there is work. */
  lemma {:induction false} RunIsBounded(s: State, acts: seq<Action>)
    requires IsRun(s, acts)
    ensures OwnSteps(acts) + Work(After(s, acts)) <= Work(s)
    decreases |acts|
  {
    hide Work, Step, Enabled;
    if acts != [] {
      StepUsesWork(s, acts[0]);
      RunIsBounded(Step(s, acts[0]), acts[1..]);
    }
  }

  /** While a Stop call has not returned, some step other than a delivery can be taken:
      the shutdown handshake cannot deadlock. */
  lemma NoDeadlock(s: State, i: nat) returns (act: Action)
    requires Inv(s) && i < |s.callers| && s.callers[i] != Returned
    ensures Enabled(s, act) && act != Deliver
  {
    if s.callers[i] == Entering && (!s.stopStarted || s.stopFinished) {
      act := Call(i);
    } else {
      var c := s.callers[s.stopper];
      if c != Waiting || s.exited {
        act := Call(s.stopper);
      } else {
        act := match s.goroutine
          case Selecting => SeeDone
          case Draining => if s.queued then Receive else Default
          case Storing => Store
          case Waking => Wake
          case Exiting => Exit
          case Gone => Exit;
      }
    }
  }

  /** A run that has no step of its own left has let every Stop call return. */
  lemma QuietMeansReturned(pipe: bool, calls: nat, acts: seq<Action>)
    requires IsRun(Initial(pipe, calls), acts)
    requires forall act | Enabled(After(Initial(pipe, calls), acts), act) :: act == Deliver
    ensures forall i | 0 <= i < |After(Initial(pipe, calls), acts).callers| ::
              After(Initial(pipe, calls), acts).callers[i] == Returned
  {
    var s := After(Initial(pipe, calls), acts);
    InitialInv(pipe, calls);
    RunKeepsInv(Initial(pipe, calls), acts);
    forall i | 0 <= i < |s.callers|
      ensures s.callers[i] == Returned
    {
      if s.callers[i] != Returned {
        var act := NoDeadlock(s, i);
      }
    }
  }
}
