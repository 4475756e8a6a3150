/**
 The dispatching loop, the worker goroutines and Shutdown as one state machine. Each step
 is one channel operation, one critical section or one task execution, and the steps of
 all goroutines interleave freely.
 */
module WorkerPool {
  import opened Optional

  /** The loop of RunScheduler: at its select; past the length check; holding a task to send; gone. */
  datatype Loop<T> = Selecting | RoomSeen | Sending(task: T) | Stopped

  /** A worker: at its receive; with a task received, being counted, executed or done; gone.
      `metered` is the reading of IsEnabled the worker took for this task. */
  datatype Worker<T> =
    | Idle
    | Received(task: T, metered: bool)
    | Working(task: T, metered: bool)
    | Worked(task: T, metered: bool)
    | Exited

  datatype Pool<T> = Pool(
    numWorkers: nat,
    chan: seq<T>, closed: bool, loop: Loop<T>, cancelled: bool, shuttingDown: bool,
    workers: seq<Worker<T>>, tasksDoWork: int, waitGroup: int,
    sent: seq<T>, received: seq<T>, finished: seq<T>)

  datatype Step<T> =
    | LoopSees
    | LoopGets(task: Option<T>)
    | LoopSends
    | LoopStops
    | Shutdown
    | Receive(w: nat, metered: bool)
    | CountUp(w: nat)
    | DoWork(w: nat)
    | CountDown(w: nat)
    | Exit(w: nat)

  ghost function Init<T>(numWorkers: nat): Pool<T> {
    Pool(numWorkers, [], false, Selecting, false, false, seq(numWorkers, _ => Idle), 0, numWorkers, [], [], [])
  }

  ghost predicate IsWorker<T>(s: Pool<T>, w: nat) { w < |s.workers| }

  /** The step's goroutine is at that point of its code. */
  ghost predicate AtStep<T>(s: Pool<T>, step: Step<T>) {
    match step
    case LoopSees => s.loop.Selecting? && !s.cancelled
    case LoopGets(_) => s.loop.RoomSeen?
    case LoopSends => s.loop.Sending?
    case LoopStops => s.loop.Selecting? && s.cancelled
    case Shutdown => true
    case Receive(w, _) => IsWorker(s, w) && s.workers[w].Idle?
    case CountUp(w) => IsWorker(s, w) && s.workers[w].Received?
    case DoWork(w) => IsWorker(s, w) && s.workers[w].Working?
    case CountDown(w) => IsWorker(s, w) && s.workers[w].Worked?
    case Exit(w) => IsWorker(s, w) && s.workers[w].Idle?
  }

  /** The step's channel operation does not block. */
  ghost predicate Unblocked<T>(s: Pool<T>, step: Step<T>) {
    match step
    case LoopSends => |s.chan| < s.numWorkers
    case Receive(_, _) => s.chan != []
    case Exit(_) => s.closed && s.chan == []
    case _ => true
  }

  ghost predicate Enabled<T>(s: Pool<T>, step: Step<T>) {
    AtStep(s, step) && Unblocked(s, step)
  }

  ghost function Next<T>(s: Pool<T>, step: Step<T>): Pool<T>
    requires Enabled(s, step)
  {
    match step
    case LoopSees => if |s.chan| == s.numWorkers then s else s.(loop := RoomSeen)
    case LoopGets(task) => s.(loop := if task.Some? then Sending(task.value) else Selecting)
    case LoopSends => s.(chan := s.chan + [s.loop.task], sent := s.sent + [s.loop.task], loop := Selecting)
    case LoopStops => s.(loop := Stopped, shuttingDown := true, closed := true)
    case Shutdown => s.(shuttingDown := true, cancelled := true)
    case Receive(w, metered) =>
      s.(workers := s.workers[w := Received(s.chan[0], metered)], chan := s.chan[1..],
         received := s.received + [s.chan[0]])
    case CountUp(w) =>
      var at := s.workers[w];
      s.(workers := s.workers[w := Working(at.task, at.metered)], tasksDoWork := s.tasksDoWork + Meter(at))
    case DoWork(w) =>
      var at := s.workers[w];
      s.(workers := s.workers[w := Worked(at.task, at.metered)], finished := s.finished + [at.task])
    case CountDown(w) =>
      var at := s.workers[w];
      s.(workers := s.workers[w := Idle], tasksDoWork := s.tasksDoWork - Meter(at))
    case Exit(w) => s.(workers := s.workers[w := Exited], waitGroup := s.waitGroup - 1)
  }

  ghost function Meter<T>(w: Worker<T>): nat {
    if (w.Received? || w.Working? || w.Worked?) && w.metered then 1 else 0
  }

  /** The pool after a run; None when some step of it is not enabled. */
  ghost function Run<T>(s: Pool<T>, steps: seq<Step<T>>): Option<Pool<T>>
    decreases |steps|
  {
    if steps == [] then Some(s)
    else if Enabled(s, steps[0]) then Run(Next(s, steps[0]), steps[1..])
    else None
  }

  ghost predicate Reachable<T(!new)>(s: Pool<T>) {
    exists steps: seq<Step<T>> :: Run(Init(s.numWorkers), steps) == Some(s)
  }

  // ----- sums over the workers

  ghost function Sum<T>(ws: seq<Worker<T>>, f: Worker<T> -> nat): nat {
    if ws == [] then 0 else f(ws[0]) + Sum(ws[1..], f)
  }

  lemma {:induction false} SumUpdate<T>(ws: seq<Worker<T>>, f: Worker<T> -> nat, i: nat, w: Worker<T>)
    requires i < |ws|
    ensures Sum(ws[i := w], f) + f(ws[i]) == Sum(ws, f) + f(w)
  {
    if i == 0 {
      assert ws[0 := w][1..] == ws[1..];
    } else {
      assert ws[i := w][1..] == ws[1..][i - 1 := w];
      SumUpdate(ws[1..], f, i - 1, w);
    }
  }

  lemma {:induction false} SumBounds<T>(ws: seq<Worker<T>>, f: Worker<T> -> nat, i: nat, bound: nat)
    requires forall w | w in ws :: f(w) <= bound
    ensures Sum(ws, f) <= bound * |ws|
    ensures i < |ws| ==> f(ws[i]) <= Sum(ws, f)
  {
    if ws != [] {
      SumBounds(ws[1..], f, if i > 0 then i - 1 else 0, bound);
      assert bound * |ws| == bound + bound * |ws[1..]|;
      assert ws[0] in ws;
    }
  }

  ghost function Times<T>(s: seq<T>, x: T): nat {
    if s == [] then 0 else Times(s[..|s| - 1], x) + if s[|s| - 1] == x then 1 else 0
  }

  lemma TimesAppend<T>(s: seq<T>, t: T, x: T)
    ensures Times(s + [t], x) == Times(s, x) + if t == x then 1 else 0
  {
    assert (s + [t])[..|s|] == s;
  }

  lemma {:induction false} TimesIsMultiplicity<T>(s: seq<T>, x: T)
    ensures Times(s, x) == multiset(s)[x]
  {
    if s != [] {
      var front := s[..|s| - 1];
      assert s == front + [s[|s| - 1]];
      TimesIsMultiplicity(front, x);
    }
  }

  /** How often x is received and not yet executed. */
  ghost function InHand<T>(ws: seq<Worker<T>>, x: T): nat {
    if ws == [] then 0 else HasTask(ws[0], x) + InHand(ws[1..], x)
  }

  ghost function HasTask<T>(w: Worker<T>, x: T): nat {
    if (w.Received? || w.Working?) && w.task == x then 1 else 0
  }

  lemma {:induction false} InHandUpdate<T>(ws: seq<Worker<T>>, i: nat, w: Worker<T>, x: T)
    requires i < |ws|
    ensures InHand(ws[i := w], x) + HasTask(ws[i], x) == InHand(ws, x) + HasTask(w, x)
  {
    if i == 0 {
      assert ws[0 := w][1..] == ws[1..];
    } else {
      assert ws[i := w][1..] == ws[1..][i - 1 := w];
      InHandUpdate(ws[1..], i - 1, w, x);
    }
  }

  lemma {:induction false} InHandNone<T>(ws: seq<Worker<T>>, x: T)
    requires forall w | w in ws :: w.Exited?
    ensures InHand(ws, x) == 0
  {
    if ws != [] {
      assert ws[0] in ws;
      InHandNone(ws[1..], x);
    }
  }

  ghost function Counted<T>(w: Worker<T>): nat {
    if w.Working? || w.Worked? then Meter(w) else 0
  }

  ghost function Live<T>(w: Worker<T>): nat {
    if w.Exited? then 0 else 1
  }

  // ----- the invariant

  ghost predicate Invariant<T(!new)>(s: Pool<T>) {
    && |s.workers| == s.numWorkers
    && RoomInvariant(s) && TaskInvariant(s) && CounterInvariant(s) && ExitInvariant(s)
  }

  ghost predicate RoomInvariant<T>(s: Pool<T>) {
    && |s.chan| <= s.numWorkers
    && (s.loop.RoomSeen? || s.loop.Sending? ==> |s.chan| < s.numWorkers)
    && (s.closed <==> s.loop.Stopped?)
    && (s.closed ==> s.shuttingDown && s.cancelled)
  }

  ghost predicate TaskInvariant<T(!new)>(s: Pool<T>) {
    && s.sent == s.received + s.chan
    && forall x :: Times(s.received, x) == Times(s.finished, x) + InHand(s.workers, x)
  }

  ghost predicate CounterInvariant<T>(s: Pool<T>) {
    && s.tasksDoWork == Sum(s.workers, Counted<T>)
    && s.waitGroup == Sum(s.workers, Live<T>)
  }

  ghost predicate ExitInvariant<T>(s: Pool<T>) {
    forall i | 0 <= i < |s.workers| && s.workers[i].Exited? :: s.closed && s.chan == []
  }

  lemma {:induction false} InitSums<T(!new)>(ws: seq<Worker<T>>)
    requires forall i | 0 <= i < |ws| :: ws[i] == Idle
    ensures Sum(ws, Counted<T>) == 0 && Sum(ws, Live<T>) == |ws| && forall x :: InHand(ws, x) == 0
  {
    if ws != [] {
      InitSums(ws[1..]);
    }
  }

  lemma InitHolds<T(!new)>(numWorkers: nat)
    ensures Invariant(Init<T>(numWorkers))
  {
    InitSums(Init<T>(numWorkers).workers);
  }

  lemma StepKeepsInvariant<T(!new)>(s: Pool<T>, step: Step<T>)
    requires Invariant(s) && Enabled(s, step)
    ensures Invariant(Next(s, step))
  {
    StepKeepsTasks(s, step);
    StepKeepsCounters(s, step);
    StepKeepsExits(s, step);
    hide TaskInvariant, CounterInvariant, ExitInvariant;
  }

  predicate OfWorker<T>(step: Step<T>) {
    step.Receive? || step.CountUp? || step.DoWork? || step.CountDown? || step.Exit?
  }

  lemma StepKeepsTasks<T(!new)>(s: Pool<T>, step: Step<T>)
    requires TaskInvariant(s) && Enabled(s, step)
    ensures TaskInvariant(Next(s, step))
  {
    hide InHand, Times;
    var r := Next(s, step);
    assert r.sent == r.received + r.chan;
    forall x ensures Times(r.received, x) == Times(r.finished, x) + InHand(r.workers, x) {
      assert Times(s.received, x) == Times(s.finished, x) + InHand(s.workers, x);
      if OfWorker(step) {
        InHandUpdate(s.workers, step.w, r.workers[step.w], x);
      }
      if step.Receive? {
        TimesAppend(s.received, s.chan[0], x);
      }
      if step.DoWork? {
        TimesAppend(s.finished, s.workers[step.w].task, x);
      }
    }
  }

  lemma StepKeepsCounters<T(!new)>(s: Pool<T>, step: Step<T>)
    requires CounterInvariant(s) && Enabled(s, step)
    ensures CounterInvariant(Next(s, step))
  {
    hide Sum;
    var r := Next(s, step);
    if OfWorker(step) {
      SumUpdate(s.workers, Counted<T>, step.w, r.workers[step.w]);
      SumUpdate(s.workers, Live<T>, step.w, r.workers[step.w]);
    }
  }

  lemma StepKeepsExits<T(!new)>(s: Pool<T>, step: Step<T>)
    requires RoomInvariant(s) && ExitInvariant(s) && Enabled(s, step)
    ensures ExitInvariant(Next(s, step))
  {
  }

  lemma {:induction false} RunKeepsInvariant<T(!new)>(s: Pool<T>, steps: seq<Step<T>>)
    requires Invariant(s) && Run(s, steps).Some?
    ensures Invariant(Run(s, steps).value)
    decreases |steps|
  {
    if steps != [] {
      StepKeepsInvariant(s, steps[0]);
      RunKeepsInvariant(Next(s, steps[0]), steps[1..]);
    }
  }

  lemma ReachableHolds<T(!new)>(s: Pool<T>)
    requires Reachable(s)
    ensures Invariant(s)
  {
    var steps: seq<Step<T>> :| Run(Init(s.numWorkers), steps) == Some(s);
    InitHolds<T>(s.numWorkers);
    RunKeepsInvariant(Init(s.numWorkers), steps);
  }

  // ----- main results

  /** The loop's send finds room in every reachable state, and the channel is still open. */
  lemma SendNeverBlocks<T(!new)>(s: Pool<T>)
    requires Reachable(s) && AtStep(s, LoopSends)
    ensures Enabled(s, LoopSends) && !s.closed
  {
    ReachableHolds(s);
  }

  /** The number of working tasks reported never leaves 0..numWorkers. */
  lemma WorkingTasksBounded<T(!new)>(s: Pool<T>)
    requires Reachable(s)
    ensures 0 <= s.tasksDoWork <= s.numWorkers && 0 <= s.waitGroup <= s.numWorkers
  {
    ReachableHolds(s);
    SumBounds(s.workers, Counted<T>, 0, 1);
    SumBounds(s.workers, Live<T>, 0, 1);
  }

  /** Workers receive tasks in the order they were sent, and when the wait group is released
      (with at least one worker) every task ever sent has been executed, exactly as often as sent. */
  lemma ReleasedMeansAllExecuted<T(!new)>(s: Pool<T>)
    requires Reachable(s)
    ensures s.received <= s.sent
    ensures s.waitGroup == 0 < s.numWorkers ==> s.closed && s.chan == [] && multiset(s.finished) == multiset(s.sent)
  {
    ReachableHolds(s);
    if s.waitGroup == 0 < s.numWorkers {
      forall w | w in s.workers ensures w.Exited? {
        var i :| 0 <= i < |s.workers| && s.workers[i] == w;
        SumBounds(s.workers, Live<T>, i, 1);
      }
      forall x ensures multiset(s.received)[x] == multiset(s.finished)[x] {
        InHandNone(s.workers, x);
        TimesIsMultiplicity(s.received, x);
        TimesIsMultiplicity(s.finished, x);
      }
      assert s.workers[0].Exited?;
      assert s.sent == s.received;
    }
  }

  /** Steps that are still ahead once the context is cancelled. */
  ghost function Remaining<T>(s: Pool<T>): nat {
    (match s.loop case Stopped => 0 case Selecting => 1 case Sending(_) => 6 case RoomSeen => 7)
    + 4 * |s.chan| + Sum(s.workers, Stage<T>)
  }

  ghost function Stage<T>(w: Worker<T>): nat {
    match w
    case Exited => 0
    case Idle => 1
    case Worked(_, _) => 2
    case Working(_, _) => 3
    case Received(_, _) => 4
  }

  /** After Shutdown every step of the loop and of the workers brings the end nearer... */
  lemma ShutdownMakesProgress<T(!new)>(s: Pool<T>, step: Step<T>)
    requires s.cancelled && Enabled(s, step) && !step.Shutdown?
    ensures Next(s, step).cancelled && Remaining(Next(s, step)) < Remaining(s)
  {
    var r := Next(s, step);
    if OfWorker(step) {
      SumUpdate(s.workers, Stage<T>, step.w, r.workers[step.w]);
    }
  }

  /** ... and such a step is possible until the loop and every worker are gone: Shutdown returns. */
  lemma ShutdownNeverStuck<T(!new)>(s: Pool<T>) returns (step: Step<T>)
    requires Reachable(s) && s.cancelled && !(s.loop.Stopped? && s.waitGroup == 0)
    ensures Enabled(s, step) && !step.Shutdown?
  {
    ReachableHolds(s);
    if !s.loop.Stopped? {
      return if s.loop.Selecting? then LoopStops else if s.loop.RoomSeen? then LoopGets(None) else LoopSends;
    }
    var w := SomeLive(s.workers);
    match s.workers[w]
    case Idle => step := if s.chan != [] then Receive(w, false) else Exit(w);
    case Received(_, _) => step := CountUp(w);
    case Working(_, _) => step := DoWork(w);
    case Worked(_, _) => step := CountDown(w);
  }

  lemma {:induction false} SomeLive<T>(ws: seq<Worker<T>>) returns (w: nat)
    requires Sum(ws, Live<T>) > 0
    ensures w < |ws| && !ws[w].Exited?
  {
    if ws[0].Exited? {
      w := SomeLive(ws[1..]);
      w := w + 1;
    } else {
      w := 0;
    }
  }
}
