/**
 A task generator, the tasks its Next yields, and what one run of it does to its own
 fields and to the queue of its priority.
 */
module Generators {
  import opened Optional
  import opened RankedHeap

  const QUEUE_CAPACITY: nat := 400

  /** A task with the generator whose Next returned it, if any. */
  datatype Task = Task(owner: Option<Generator>, id: int)

  datatype State = Ready | Waiting | Done

  /** What getState sees of the outside: the clock and the generator's IsReady. */
  datatype Reading = Reading(now: int, ready: bool)

  /** What getState looks at in the generator itself. */
  datatype Standing = Standing(interval: int, done: bool, lastRun: int, holding: bool)

  function StateAt(s: Standing, r: Reading): State {
    if s.interval == 0 && s.done && !s.holding then Done
    else if s.interval != 0 && s.done && r.now - s.lastRun < s.interval && !s.holding then Waiting
    else if !r.ready then Waiting
    else Ready
  }

  /** What Next followed by IsDone answers; Next may yield a nil task. */
  datatype NextAnswer = Failed | Finished | Yielded(id: Option<int>)

  class Generator {
    const interval: int
    const priority: Priority
    var lastRun: int
    var done: bool
    var remainingTask: Option<Task>
    var index: int
    var taskCount: nat
    /** Every non-nil task Next returned while the generator was not done. */
    ghost var produced: seq<Task>

    constructor (interval: int, priority: Priority)
      ensures this.interval == interval && this.priority == priority
      ensures !done && remainingTask == None && taskCount == 0 && produced == []
    {
      this.interval, this.priority := interval, priority;
      lastRun, done, remainingTask, index, taskCount := 0, false, None, 0, 0;
      produced := [];
    }

    function GetState(r: Reading): State
      reads this
    {
      StateAt(GetStanding(), r)
    }

    function GetStanding(): Standing
      reads this
    {
      Standing(interval, done, lastRun, remainingTask.Some?)
    }

    function GetKey(): Key
      reads this
    {
      Key(priority, taskCount)
    }

  }

  /** A generator may run: it is ready, and if it has finished and holds no task, it is a periodic one whose
      interval has passed since. */
  ghost predicate Due(g: Generator, r: Reading)
    reads g
  {
    r.ready && (g.done && g.remainingTask == None ==> g.interval != 0 && r.now - g.lastRun >= g.interval)
  }

  /** A one-shot generator that has finished and holds no task. */
  ghost predicate Over(g: Generator)
    reads g
  {
    g.interval == 0 && g.done && g.remainingTask == None
  }

  /** In no reading, and in every reading, from the k-th of a turn on. */
  ghost predicate NeverDue(g: Generator, env: nat -> Generator -> Reading, from: nat)
    reads g
  {
    forall k: nat | k >= from :: !Due(g, env(k)(g))
  }

  ghost predicate AlwaysDue(g: Generator, env: nat -> Generator -> Reading, from: nat)
    reads g
  {
    forall k: nat | k >= from :: Due(g, env(k)(g))
  }

  ghost predicate SometimeDue(g: Generator, env: nat -> Generator -> Reading, from: nat)
    reads g
  {
    exists k: nat :: k >= from && Due(g, env(k)(g))
  }

  /** Whether a generator is due depends on its standing. */
  twostate lemma SameStandingSameDue(g: Generator, new env: nat -> Generator -> Reading)
    requires g.GetStanding() == old(g.GetStanding())
    ensures forall k: nat :: Due(g, env(k)(g)) == old(Due(g, env(k)(g)))
    ensures forall k: nat :: SometimeDue(g, env, k) == old(SometimeDue(g, env, k))
    ensures forall k: nat :: NeverDue(g, env, k) == old(NeverDue(g, env, k))
    ensures forall k: nat :: AlwaysDue(g, env, k) == old(AlwaysDue(g, env, k))
    ensures Over(g) == old(Over(g))
    ensures forall k: nat :: g.GetState(env(k)(g)) == old(g.GetState(env(k)(g)))
  {
    forall k: nat ensures Due(g, env(k)(g)) == old(Due(g, env(k)(g))) {
    }
  }

  lemma LaterDue(g: Generator, env: nat -> Generator -> Reading, from: nat, later: nat)
    requires from <= later
    ensures SometimeDue(g, env, later) ==> SometimeDue(g, env, from)
  {
  }

  twostate lemma NotBoth(g: Generator, new env: nat -> Generator -> Reading, new from: nat)
    ensures !(old(NeverDue(g, env, from)) && old(SometimeDue(g, env, from)))
  {
  }

  lemma DueSometime(g: Generator, env: nat -> Generator -> Reading, from: nat, k: nat)
    requires k >= from
    ensures Due(g, env(k)(g)) ==> SometimeDue(g, env, from)
  {
  }

  lemma NotAlways(g: Generator, env: nat -> Generator -> Reading, from: nat, k: nat)
    requires k >= from && !Due(g, env(k)(g))
    ensures !AlwaysDue(g, env, from)
  {
  }

  lemma DoneAnyTime(g: Generator, r: Reading, r': Reading)
    ensures g.GetState(r) == Done <==> g.GetState(r') == Done
  {
  }

  lemma StateMeaning(g: Generator, r: Reading)
    ensures g.GetState(r) == Done <==> Over(g)
    ensures g.GetState(r) == Ready <==> Due(g, r)
    ensures g.GetState(r) == Waiting <==> !Over(g) && !Due(g, r)
  {
  }

  // ----- one generator and its queue

  /** Everything a run of a generator can change but the done flag, with the queue of its priority. */
  datatype Tally = Tally(
    remaining: Option<Task>, produced: seq<Task>, taskCount: nat, lastRun: int, queue: seq<Option<Task>>)

  ghost predicate Yields(remaining: Option<Task>, answer: NextAnswer) {
    remaining.Some? || answer.Yielded?
  }

  /** The task that an answer of g's Next yields. */
  function NextTask(g: Generator, answer: NextAnswer): Option<Task>
    requires answer.Yielded?
  {
    if answer.id.Some? then Some(Task(Some(g), answer.id.value)) else None
  }

  /** One run of a generator: a task still held comes before a new one, and a task for which
      there is no room in the queue is held. */
  ghost function AfterRun(g: Generator, b: Tally, answer: NextAnswer, now: int): Tally {
    if b.remaining == None && answer.Failed? then b
    else if b.remaining == None && answer.Finished? then b.(taskCount := 0, lastRun := now)
    else
      var task := if b.remaining.Some? then b.remaining else NextTask(g, answer);
      var added := if b.remaining == None && task.Some? then [task.value] else [];
      var room := |b.queue| < QUEUE_CAPACITY;
      Tally(if room then None else task, b.produced + added, b.taskCount + 1, b.lastRun,
            b.queue + if room then [task] else [])
  }

  /** What a run does, case by case: a failed Next does nothing; a finished one starts the count again and
      records the time; otherwise the count rises and the task held, or the one that Next yields for this
      generator, goes to the end of the queue when there is room for it and is held when there is not. */
  lemma RunMeaning(g: Generator, b: Tally, answer: NextAnswer, now: int)
    ensures var a := AfterRun(g, b, answer, now);
      match (b.remaining, answer)
      case (Some(task), _) =>
        && a.produced == b.produced && a.taskCount == b.taskCount + 1 && a.lastRun == b.lastRun
        && if |b.queue| < 400 then a.queue == b.queue + [Some(task)] && a.remaining == None
           else a.queue == b.queue && a.remaining == Some(task)
      case (None, Failed) => a == b
      case (None, Finished) =>
        && a.taskCount == 0 && a.lastRun == now
        && a.queue == b.queue && a.remaining == None && a.produced == b.produced
      case (None, Yielded(Some(id))) =>
        && a.produced == b.produced + [Task(Some(g), id)] && a.taskCount == b.taskCount + 1 && a.lastRun == b.lastRun
        && if |b.queue| < 400 then a.queue == b.queue + [Some(Task(Some(g), id))] && a.remaining == None
           else a.queue == b.queue && a.remaining == Some(Task(Some(g), id))
      case (None, Yielded(None)) =>
        && a.produced == b.produced && a.taskCount == b.taskCount + 1 && a.lastRun == b.lastRun
        && a.remaining == None && a.queue == if |b.queue| < 400 then b.queue + [None] else b.queue
  {
    assert b.queue + [] == b.queue && b.produced + [] == b.produced;
  }

  lemma FailedRunChangesNothing(g: Generator, b: Tally, answer: NextAnswer, now: int)
    requires b.remaining == None && answer.Failed?
    ensures AfterRun(g, b, answer, now) == b
  {
  }

  /** The tasks of g in a channel. */
  ghost function Owned(s: seq<Option<Task>>, g: Generator): seq<Task> {
    if s == [] then []
    else (if s[0].Some? && s[0].value.owner == Some(g) then [s[0].value] else []) + Owned(s[1..], g)
  }

  lemma {:induction false} OwnedAppend(a: seq<Option<Task>>, b: seq<Option<Task>>, g: Generator)
    ensures Owned(a + b, g) == Owned(a, g) + Owned(b, g)
  {
    if a == [] {
      assert a + b == b;
    } else {
      assert (a + b)[1..] == a[1..] + b;
      OwnedAppend(a[1..], b, g);
    }
  }

  ghost function Held(remaining: Option<Task>): seq<Task> {
    if remaining.Some? then [remaining.value] else []
  }

  /** What g produced, in order: sent to the workers, then queued, then still held by g. */
  ghost predicate InOrder(t: Tally, sent: seq<Option<Task>>, g: Generator) {
    && t.produced == Owned(sent, g) + Owned(t.queue, g) + Held(t.remaining)
    && (t.remaining.Some? ==> t.remaining.value.owner == Some(g))
  }

  /** A run loses no task, doubles none and swaps none. */
  lemma RunKeepsOrder(b: Tally, answer: NextAnswer, now: int, sent: seq<Option<Task>>, g: Generator)
    requires InOrder(b, sent, g)
    ensures InOrder(AfterRun(g, b, answer, now), sent, g)
  {
    hide InOrder;
    if b.remaining.Some? {
      HeldTaskKeepsOrder(b, answer, now, sent, g);
    } else if answer.Yielded? {
      NewTaskKeepsOrder(b, answer, now, sent, g);
    } else {
      NoTaskKeepsOrder(b, answer, now, sent, g);
    }
  }

  /** The retry of a task moves it from the generator to the end of the queue, or not. */
  lemma HeldTaskKeepsOrder(b: Tally, answer: NextAnswer, now: int, sent: seq<Option<Task>>, g: Generator)
    requires InOrder(b, sent, g) && b.remaining.Some?
    ensures InOrder(AfterRun(g, b, answer, now), sent, g)
  {
    hide Owned;
    OwnedAppend(b.queue, [b.remaining], g);
    OwnedOne(b.remaining, g);
    assert b.queue + [] == b.queue;
    var ahead, queued, held := Owned(sent, g), Owned(b.queue, g), [b.remaining.value];
    assert ahead + queued + held == ahead + (queued + held) + [];
  }

  lemma NewTaskKeepsOrder(b: Tally, answer: NextAnswer, now: int, sent: seq<Option<Task>>, g: Generator)
    requires InOrder(b, sent, g) && b.remaining.None? && answer.Yielded?
    ensures InOrder(AfterRun(g, b, answer, now), sent, g)
  {
    hide Owned;
    var task := NextTask(g, answer);
    OwnedAppend(b.queue, [task], g);
    OwnedOne(task, g);
    assert b.queue + [] == b.queue;
    var ahead, queued, added := Owned(sent, g), Owned(b.queue, g), Held(task);
    assert ahead + queued + [] == ahead + queued;
    assert ahead + queued + added == ahead + (queued + added) + [];
  }

  lemma NoTaskKeepsOrder(b: Tally, answer: NextAnswer, now: int, sent: seq<Option<Task>>, g: Generator)
    requires InOrder(b, sent, g) && b.remaining.None? && !answer.Yielded?
    ensures InOrder(AfterRun(g, b, answer, now), sent, g)
  {
    hide Owned;
  }

  lemma OwnedOne(task: Option<Task>, g: Generator)
    requires task.Some? ==> task.value.owner == Some(g)
    ensures Owned([task], g) == Held(task)
  {
    assert [task][1..] == [];
  }

  lemma RunSparesOthers(b: Tally, answer: NextAnswer, now: int, g: Generator, other: Generator)
    requires b.remaining.Some? ==> b.remaining.value.owner == Some(g)
    requires other != g
    ensures Owned(AfterRun(g, b, answer, now).queue, other) == Owned(b.queue, other)
  {
    var task := if b.remaining.Some? then b.remaining else if answer.Yielded? then NextTask(g, answer) else None;
    OwnedAppend(b.queue, [task], other);
    assert Owned([task], other) == [];
    assert b.queue + [] == b.queue;
  }

  lemma OthersStayInOrder(b: Tally, a: Tally, ran: Tally, answer: NextAnswer, now: int, sent: seq<Option<Task>>,
                          gen: Generator, g: Generator)
    requires InOrder(b, sent, g) && InOrder(ran, sent, gen) && g != gen
    requires a.remaining == b.remaining && a.produced == b.produced
    requires a.queue == b.queue || (b.queue == ran.queue && a.queue == AfterRun(gen, ran, answer, now).queue)
    ensures InOrder(a, sent, g)
  {
    RunSparesOthers(ran, answer, now, gen, g);
  }

  lemma QueueAfterRun(ran: Tally, answer: NextAnswer, now: int, gen: Generator, sent: seq<Option<Task>>)
    requires InOrder(ran, sent, gen)
    requires |ran.queue| <= QUEUE_CAPACITY
    ensures var q := AfterRun(gen, ran, answer, now).queue;
      && |q| <= QUEUE_CAPACITY
      && forall t | t in q && t.Some? && t.value.owner.Some? :: t in ran.queue || t.value.owner == Some(gen)
  {
  }
}
