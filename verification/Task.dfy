/**
 The periodic task: callers start and close it, goroutines loop until their stop channel closes. Every
 critical section is one step, and so is every wait, execution and re-read of the stop channel.
 */
module Task {
  import opened Wrappers

  /** A loop goroutine: executing for the first time or in a later round, about to read the stop channel,
      waiting on the channel it read, about to take the lock after a failed execution, or finished. */
  datatype Loop =
    | Executing
    | AtSelect
    | Waiting(channel: nat)
    | Failing
    | Finished

  /** `closed[c]` says whether channel `c` is closed. The current channel is `stop`; there is none before
      the first start. `panicked` is set by closing a closed channel. */
  datatype State = State(running: bool, stop: Option<nat>, closed: seq<bool>, loops: seq<Loop>, panicked: bool)

  datatype Event =
    | Start(first: bool)
    | Close
    | Select(g: nat)
    | Timer(g: nat)
    | Stop(g: nat)
    | Return(g: nat, failed: bool)
    | Fail(g: nat)

  const INITIAL: State := State(false, None, [], [], false)

  function CloseChannel(s: State): State
    requires s.stop.Some? && s.stop.value < |s.closed|
  {
    if s.closed[s.stop.value] then s.(panicked := true)
    else s.(closed := s.closed[s.stop.value := true])
  }

  /** Every channel a loop or the task refers to exists, and loops exist only after a start. */
  predicate Valid(s: State) {
    && (s.stop.Some? ==> s.stop.value < |s.closed|)
    && ((s.running || s.loops != []) ==> s.stop.Some?)
    && (forall g :: 0 <= g < |s.loops| && s.loops[g].Waiting? ==> s.loops[g].channel < |s.closed|)
  }

  predicate Enabled(s: State, e: Event) {
    match e
    case Start(_) => true
    case Close => true
    case Select(g) => g < |s.loops| && s.loops[g] == AtSelect
    case Timer(g) => g < |s.loops| && s.loops[g].Waiting?
    case Stop(g) => g < |s.loops| && s.loops[g].Waiting? && s.loops[g].channel < |s.closed| && s.closed[s.loops[g].channel]
    case Return(g, _) => g < |s.loops| && s.loops[g] == Executing
    case Fail(g) => g < |s.loops| && s.loops[g] == Failing
  }

  /** One step. When the stop channel is closed and the timer has fired too, either may be taken. */
  function Step(s: State, e: Event): (r: State)
    requires Valid(s) && Enabled(s, e)
    ensures Valid(r)
  {
    match e
    case Start(first) =>
      if s.running then s
      else s.(running := true, stop := Some(|s.closed|), closed := s.closed + [false],
              loops := s.loops + [if first then Executing else AtSelect])
    case Close => if s.running then CloseChannel(s.(running := false)) else s
    case Select(g) => s.(loops := s.loops[g := Waiting(s.stop.value)])
    case Timer(g) => s.(loops := s.loops[g := Executing])
    case Stop(g) => s.(loops := s.loops[g := Finished])
    case Return(g, failed) => s.(loops := s.loops[g := if failed then Failing else AtSelect])
    case Fail(g) => CloseChannel(s.(running := false, loops := s.loops[g := Finished]))
  }

  ghost predicate IsRun(states: seq<State>, events: seq<Event>) {
    && |states| == |events| + 1 && states[0] == INITIAL
    && forall i :: 0 <= i < |events| ==>
      Valid(states[i]) && Enabled(states[i], events[i]) && states[i + 1] == Step(states[i], events[i])
  }

  /** The task runs exactly when the current stop channel exists and is open. */
  predicate RunsWhileOpen(s: State) {
    s.running <==> s.stop.Some? && s.stop.value < |s.closed| && !s.closed[s.stop.value]
  }

  /** Whether the task runs after the first `k` events: the last start, close or failure decides. */
  function Runs(events: seq<Event>, k: nat): bool
    requires k <= |events|
  {
    k > 0 &&
    match events[k - 1]
    case Start(_) => true
    case Close => false
    case Fail(_) => false
    case _ => Runs(events, k - 1)
  }

  /** Each failed execution gets the lock while the task runs. */
  predicate FailsWhileRunning(events: seq<Event>, k: nat)
    requires k <= |events|
  {
    forall i :: 0 <= i < k && events[i].Fail? ==> Runs(events, i)
  }

  lemma {:induction false} RunsIsRunning(states: seq<State>, events: seq<Event>, k: nat)
    requires IsRun(states, events) && k <= |events|
    ensures states[k].running == Runs(events, k)
  {
    if k > 0 {
      RunsIsRunning(states, events, k - 1);
      assert states[k] == Step(states[k - 1], events[k - 1]);
    }
  }

  lemma StepKeeps(s: State, e: Event)
    requires Valid(s) && Enabled(s, e) && !s.panicked && RunsWhileOpen(s)
    ensures Step(s, e).panicked <==> e.Fail? && !s.running
    ensures !Step(s, e).panicked ==> RunsWhileOpen(Step(s, e))
  {
    if e.Fail? {
      assert s.stop.Some?;
    }
  }

  lemma PanicStays(s: State, e: Event)
    requires Valid(s) && Enabled(s, e) && s.panicked
    ensures Step(s, e).panicked
  {
  }

  /** Over every interleaving of any number of callers and loops: no channel is closed twice exactly when
      every failed execution gets the lock while the task runs, that is, with a start as the last start,
      close or failure before it. Then, outside the lock, the task runs exactly while its stop channel
      exists and is open. */
  lemma {:induction false} ProtocolExactly(states: seq<State>, events: seq<Event>, k: nat)
    requires IsRun(states, events) && k <= |events|
    ensures !states[k].panicked <==> FailsWhileRunning(events, k)
    ensures !states[k].panicked ==> RunsWhileOpen(states[k])
  {
    if k > 0 {
      ProtocolExactly(states, events, k - 1);
      RunsIsRunning(states, events, k - 1);
      assert states[k] == Step(states[k - 1], events[k - 1]);
      if states[k - 1].panicked {
        PanicStays(states[k - 1], events[k - 1]);
      } else {
        StepKeeps(states[k - 1], events[k - 1]);
      }
    }
  }

  // ----- What becomes of the loops

  lemma RunStep(states: seq<State>, events: seq<Event>, i: nat)
    requires IsRun(states, events) && i < |events|
    ensures Valid(states[i]) && Enabled(states[i], events[i]) && states[i + 1] == Step(states[i], events[i])
  {
  }

  /** The event is one of loop `g`. */
  predicate IsOf(e: Event, g: nat) {
    match e
    case Start(_) => false
    case Close => false
    case Select(h) => h == g
    case Timer(h) => h == g
    case Stop(h) => h == g
    case Return(h, _) => h == g
    case Fail(h) => h == g
  }

  predicate HasFinished(s: State, g: nat) {
    g < |s.loops| && s.loops[g] == Finished
  }

  lemma FinishedStays(s: State, e: Event, g: nat)
    requires Valid(s) && Enabled(s, e) && HasFinished(s, g)
    ensures !IsOf(e, g) && HasFinished(Step(s, e), g)
  {
  }

  /** A loop that has taken its stop channel, or has failed, has finished: it does nothing any more. */
  lemma {:induction false} LoopEnds(states: seq<State>, events: seq<Event>, i: nat, k: nat, g: nat)
    requires IsRun(states, events) && i < k <= |events| && (events[i] == Stop(g) || events[i] == Fail(g))
    ensures g < |states[k].loops| && states[k].loops[g] == Finished
    ensures forall j :: i < j < k ==> !IsOf(events[j], g)
  {
    var j := k - 1;
    RunStep(states, events, j);
    if i < j {
      LoopEnds(states, events, i, j, g);
      FinishedStays(states[j], events[j], g);
    }
  }

  /** The starts that found the task not running. */
  function Starts(events: seq<Event>, k: nat): nat
    requires k <= |events|
  {
    if k == 0 then 0 else Starts(events, k - 1) + (if events[k - 1].Start? && !Runs(events, k - 1) then 1 else 0)
  }

  lemma LoopsStep(s: State, e: Event)
    requires Valid(s) && Enabled(s, e)
    ensures |Step(s, e).loops| == |s.loops| + (if e.Start? && !s.running then 1 else 0)
  {
  }

  /** Each start of a task that does not run makes exactly one loop, and nothing else makes one. */
  lemma {:induction false} LoopsCounted(states: seq<State>, events: seq<Event>, k: nat)
    requires IsRun(states, events) && k <= |events|
    ensures |states[k].loops| == Starts(events, k)
  {
    if k > 0 {
      var j := k - 1;
      LoopsCounted(states, events, j);
      RunStep(states, events, j);
      RunsIsRunning(states, events, j);
      LoopsStep(states[j], events[j]);
    }
  }

  /** How many loops are executing. */
  function Executions(loops: seq<Loop>): nat {
    if loops == [] then 0 else Executions(loops[1..]) + (if loops[0] == Executing then 1 else 0)
  }

  lemma {:induction false} ExecutionsAt(loops: seq<Loop>, g: nat, l: Loop)
    requires g < |loops|
    ensures Executions(loops[g := l])
         == Executions(loops) - (if loops[g] == Executing then 1 else 0) + (if l == Executing then 1 else 0)
  {
    if g == 0 {
      assert loops[0 := l][1..] == loops[1..];
    } else {
      assert loops[g := l][1..] == loops[1..][g - 1 := l];
      ExecutionsAt(loops[1..], g - 1, l);
    }
  }

  lemma {:induction false} ExecutionsMore(loops: seq<Loop>, l: Loop)
    ensures Executions(loops + [l]) == Executions(loops) + (if l == Executing then 1 else 0)
  {
    if loops == [] {
      assert (loops + [l])[1..] == [];
    } else {
      assert (loops + [l])[1..] == loops[1..] + [l];
      ExecutionsMore(loops[1..], l);
    }
  }

  /** Executions begun: by a start that executes first, or by a timer. */
  function Begun(events: seq<Event>, k: nat): nat
    requires k <= |events|
  {
    if k == 0 then 0
    else
      Begun(events, k - 1)
        + (match events[k - 1]
           case Start(first) => if first && !Runs(events, k - 1) then 1 else 0
           case Timer(_) => 1
           case _ => 0)
  }

  /** Executions that have returned. */
  function Returned(events: seq<Event>, k: nat): nat
    requires k <= |events|
  {
    if k == 0 then 0 else Returned(events, k - 1) + (if events[k - 1].Return? then 1 else 0)
  }

  lemma StepExecutes(s: State, e: Event, runs: bool)
    requires Valid(s) && Enabled(s, e) && s.running == runs
    ensures Executions(Step(s, e).loops) + (if e.Return? then 1 else 0)
         == Executions(s.loops)
            + (match e case Start(first) => if first && !runs then 1 else 0 case Timer(_) => 1 case _ => 0)
  {
    match e
    case Start(first) => ExecutionsMore(s.loops, if first then Executing else AtSelect);
    case Close =>
    case Select(g) => ExecutionsAt(s.loops, g, Waiting(s.stop.value));
    case Timer(g) => ExecutionsAt(s.loops, g, Executing);
    case Stop(g) => ExecutionsAt(s.loops, g, Finished);
    case Return(g, failed) => ExecutionsAt(s.loops, g, if failed then Failing else AtSelect);
    case Fail(g) => ExecutionsAt(s.loops, g, Finished);
  }

  /** Every execution comes from a start or from a timer of a loop that has not ended. */
  lemma {:induction false} ExecutionsCounted(states: seq<State>, events: seq<Event>, k: nat)
    requires IsRun(states, events) && k <= |events|
    ensures Begun(events, k) == Returned(events, k) + Executions(states[k].loops)
  {
    if k > 0 {
      var j := k - 1;
      ExecutionsCounted(states, events, j);
      RunStep(states, events, j);
      RunsIsRunning(states, events, j);
      StepExecutes(states[j], events[j], Runs(events, j));
    }
  }

  /** The timers that fired in loops that had not ended. */
  function Timers(events: seq<Event>, i: nat, k: nat): nat
    requires i <= k <= |events|
  {
    if i == k then 0 else Timers(events, i, k - 1) + (if events[k - 1].Timer? then 1 else 0)
  }

  lemma {:induction false} NoneStarted(events: seq<Event>, i: nat, k: nat)
    requires i <= k <= |events| && forall j :: i <= j < k ==> !events[j].Start?
    ensures Starts(events, k) == Starts(events, i)
    ensures Begun(events, k) == Begun(events, i) + Timers(events, i, k)
  {
    if i < k {
      NoneStarted(events, i, k - 1);
    }
  }

  /** Without a later start no loop comes up, and what returns is what was under way and one execution for each
      timer that fires in a loop that has not ended. */
  lemma ClosedWindsDown(states: seq<State>, events: seq<Event>, i: nat, k: nat)
    requires IsRun(states, events) && i <= k <= |events|
    requires forall j :: i <= j < k ==> !events[j].Start?
    ensures Returned(events, k) - Returned(events, i) + Executions(states[k].loops)
         == Executions(states[i].loops) + Timers(events, i, k)
    ensures |states[k].loops| == |states[i].loops|
  {
    ExecutionsCounted(states, events, i);
    ExecutionsCounted(states, events, k);
    LoopsCounted(states, events, i);
    LoopsCounted(states, events, k);
    NoneStarted(events, i, k);
  }

  lemma RunValid(states: seq<State>, events: seq<Event>, k: nat)
    requires IsRun(states, events) && k <= |events|
    ensures Valid(states[k])
  {
    if k > 0 {
      RunStep(states, events, k - 1);
    }
  }

  /** All channels but the current one are closed. */
  predicate OldClosed(s: State) {
    forall c :: 0 <= c < |s.closed| && s.stop != Some(c) ==> s.closed[c]
  }

  lemma StepOldClosed(s: State, e: Event)
    requires Valid(s) && Enabled(s, e) && !s.panicked && RunsWhileOpen(s) && OldClosed(s)
    ensures OldClosed(Step(s, e))
  {
  }

  lemma {:induction false} RunOldClosed(states: seq<State>, events: seq<Event>, k: nat)
    requires IsRun(states, events) && k <= |events| && !states[k].panicked
    ensures OldClosed(states[k])
  {
    if k > 0 {
      var j := k - 1;
      RunStep(states, events, j);
      if states[j].panicked { PanicStays(states[j], events[j]); }
      RunOldClosed(states, events, j);
      ProtocolExactly(states, events, j);
      StepOldClosed(states[j], events[j]);
    }
  }

  /** As long as no channel is closed twice: a waiting loop may end exactly when the task does not run or the
      loop waits on a channel of an earlier start. */
  lemma MayEndExactly(states: seq<State>, events: seq<Event>, k: nat, g: nat)
    requires IsRun(states, events) && k <= |events| && !states[k].panicked
    requires g < |states[k].loops| && states[k].loops[g].Waiting?
    ensures Enabled(states[k], Stop(g)) <==> !Runs(events, k) || states[k].stop != Some(states[k].loops[g].channel)
  {
    RunValid(states, events, k);
    RunOldClosed(states, events, k);
    ProtocolExactly(states, events, k);
    RunsIsRunning(states, events, k);
  }

  predicate NeverFails(e: Event) {
    e.Return? ==> !e.failed
  }

  /** With callbacks that never fail, as all of this program's are, nothing is ever closed twice. */
  lemma NeverFailing(states: seq<State>, events: seq<Event>, k: nat)
    requires IsRun(states, events) && k <= |events| && forall i :: 0 <= i < k ==> NeverFails(events[i])
    ensures !states[k].panicked && RunsWhileOpen(states[k])
  {
    forall i | 0 <= i < k ensures !events[i].Fail? {
      NoneFails(states, events, i);
      assert Enabled(states[i], events[i]);
    }
    ProtocolExactly(states, events, k);
  }

  lemma {:induction false} NoneFails(states: seq<State>, events: seq<Event>, k: nat)
    requires IsRun(states, events) && k <= |events| && forall i :: 0 <= i < k ==> NeverFails(events[i])
    ensures forall g :: 0 <= g < |states[k].loops| ==> states[k].loops[g] != Failing
  {
    if k > 0 {
      NoneFails(states, events, k - 1);
      assert states[k] == Step(states[k - 1], events[k - 1]);
    }
  }

  /** One step from one named state to another. */
  predicate Goes(s: State, e: Event, s': State) {
    Valid(s) && Enabled(s, e) && s' == Step(s, e)
  }

  lemma SixSteps(states: seq<State>, events: seq<Event>)
    requires |states| == 7 && |events| == 6 && states[0] == INITIAL
    requires Goes(states[0], events[0], states[1]) && Goes(states[1], events[1], states[2])
    requires Goes(states[2], events[2], states[3]) && Goes(states[3], events[3], states[4])
    requires Goes(states[4], events[4], states[5]) && Goes(states[5], events[5], states[6])
    ensures IsRun(states, events)
  {
    forall i | 0 <= i < 6 ensures Goes(states[i], events[i], states[i + 1]) {
      assert i == 0 || i == 1 || i == 2 || i == 3 || i == 4 || i == 5;
    }
  }

  const LATE_TIMER: seq<State> := [
    INITIAL,
    State(true, Some(0), [false], [AtSelect], false),
    State(true, Some(0), [false], [Waiting(0)], false),
    State(false, Some(0), [true], [Waiting(0)], false),
    State(false, Some(0), [true], [Executing], false),
    State(false, Some(0), [true], [Failing], false),
    State(false, Some(0), [true], [Finished], true)]

  lemma LateTimerBegins()
    ensures Goes(LATE_TIMER[0], Start(false), LATE_TIMER[1])
    ensures Goes(LATE_TIMER[1], Select(0), LATE_TIMER[2])
    ensures Goes(LATE_TIMER[2], Close, LATE_TIMER[3])
  {
  }

  lemma LateTimerEnds()
    ensures Goes(LATE_TIMER[3], Timer(0), LATE_TIMER[4])
    ensures Goes(LATE_TIMER[4], Return(0, true), LATE_TIMER[5])
    ensures Goes(LATE_TIMER[5], Fail(0), LATE_TIMER[6])
  {
  }

  /** Sparing running executions is not enough: a close that finds the only loop waiting can lose against
      the timer, and the execution that then fails closes the channel again. */
  lemma LateTimerPanics() returns (states: seq<State>, events: seq<Event>)
    ensures IsRun(states, events) && states[|events|].panicked
    ensures forall i :: 0 <= i < |events| && events[i] == Close ==>
      forall g :: 0 <= g < |states[i].loops| ==> states[i].loops[g].Waiting?
  {
    events := [Start(false), Select(0), Close, Timer(0), Return(0, true), Fail(0)];
    states := LATE_TIMER;
    LateTimerBegins();
    LateTimerEnds();
    SixSteps(states, events);
  }

  const OLD_LOOP: seq<State> := [
    INITIAL,
    State(true, Some(0), [false], [Executing], false),
    State(false, Some(0), [true], [Executing], false),
    State(true, Some(1), [true, false], [Executing, AtSelect], false),
    State(true, Some(1), [true, false], [AtSelect, AtSelect], false),
    State(true, Some(1), [true, false], [Waiting(1), AtSelect], false),
    State(true, Some(1), [true, false], [Waiting(1), Waiting(1)], false)]

  lemma OldLoopBegins()
    ensures Goes(OLD_LOOP[0], Start(true), OLD_LOOP[1])
    ensures Goes(OLD_LOOP[1], Close, OLD_LOOP[2])
    ensures Goes(OLD_LOOP[2], Start(false), OLD_LOOP[3])
  {
  }

  lemma OldLoopEnds()
    ensures Goes(OLD_LOOP[3], Return(0, false), OLD_LOOP[4])
    ensures Goes(OLD_LOOP[4], Select(0), OLD_LOOP[5])
    ensures Goes(OLD_LOOP[5], Select(1), OLD_LOOP[6])
  {
  }

  /** A close and a start during an execution leave the old loop running on the new channel. */
  lemma OldLoopStays() returns (states: seq<State>, events: seq<Event>)
    ensures IsRun(states, events) && forall i :: 0 <= i < |events| ==> NeverFails(events[i])
    ensures states[|events|].loops == [Waiting(1), Waiting(1)] && states[|events|].running
  {
    events := [Start(true), Close, Start(false), Return(0, false), Select(0), Select(1)];
    states := OLD_LOOP;
    OldLoopBegins();
    OldLoopEnds();
    SixSteps(states, events);
  }

  // ----- The critical sections

  class Channel {
    var closed: bool

    constructor ()
      ensures !closed
    {
      closed := false;
    }
  }

  /** The task itself. `channels` lists the channels made so far, `current` is the position of `stop`. */
  class Task {
    var running: bool
    var stop: Channel?
    ghost var channels: seq<Channel>
    ghost var current: Option<nat>
    ghost var panicked: bool

    ghost predicate Fits()
      reads this
    {
      && (forall i, j :: 0 <= i < j < |channels| ==> channels[i] != channels[j])
      && (stop == null <==> current == None)
      && (current.Some? ==> current.value < |channels| && channels[current.value] == stop)
    }

    ghost function View(loops: seq<Loop>): State
      reads this, channels
    {
      State(running, current, seq(|channels|, i requires 0 <= i < |channels| reads this, channels => channels[i].closed),
            loops, panicked)
    }

    constructor ()
      ensures Fits() && View([]) == INITIAL
    {
      running, stop, channels, current, panicked := false, null, [], None, false;
    }

    /** Closes the stop channel; a second close of the same channel panics. */
    method CloseStop(ghost loops: seq<Loop>)
      requires Fits() && stop != null
      modifies stop, `panicked
      ensures Fits() && View(loops) == CloseChannel(old(View(loops)))
    {
      if stop.closed {
        panicked := true;
      } else {
        stop.closed := true;
      }
    }

    method Start(first: bool, ghost loops: seq<Loop>) returns (ghost loops': seq<Loop>)
      requires Fits() && Valid(View(loops))
      modifies this
      ensures Fits() && View(loops') == Step(old(View(loops)), Event.Start(first))
    {
      loops' := loops;
      if running {
        return;
      }
      running := true;
      stop := new Channel();
      channels, current := channels + [stop], Some(|channels|);
      loops' := loops + [if first then Executing else AtSelect];
    }

    method Close(ghost loops: seq<Loop>)
      requires Fits() && Valid(View(loops))
      modifies this, stop
      ensures Fits() && View(loops) == Step(old(View(loops)), Event.Close)
    {
      if running {
        running := false;
        CloseStop(loops);
      }
    }

    /** The critical section after a failed execution of loop `g`. */
    method FailSection(g: nat, ghost loops: seq<Loop>) returns (ghost loops': seq<Loop>)
      requires Fits() && Valid(View(loops)) && Enabled(View(loops), Fail(g))
      modifies this, stop
      ensures Fits() && View(loops') == Step(old(View(loops)), Fail(g))
    {
      running := false;
      loops' := loops[g := Finished];
      CloseStop(loops');
    }
  }
}
