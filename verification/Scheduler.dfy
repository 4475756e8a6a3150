/**
 The background scheduler: generators in a heap, a waiting list and a done list,
 three bounded task queues, and the bounded channel to the workers.

 What the program asks its environment becomes a parameter: every call of
 getState takes the next of a stream of readings (the clock and that generator's IsReady),
 and every run of a generator takes the answer of Next and IsDone.
 */
module Scheduler {
  import opened Generators
  import opened Optional
  import opened RankedHeap
  import NoStarvation

  class Scheduler {
    const numWorkers: nat
    var tasksQLow: seq<Option<Task>>
    var tasksQMedium: seq<Option<Task>>
    var tasksQHigh: seq<Option<Task>>
    var generators: seq<Generator>
    var waitingGenerators: seq<Generator>
    var doneGenerators: seq<Generator>
    var workerChan: seq<Option<Task>>
    var isShuttingDown: bool

    ghost var submitted: set<Generator>
    /** Generators that left the heap and were put in no list. */
    ghost var lost: seq<Generator>
    /** Everything ever sent to workerChan, in order. */
    ghost var sent: seq<Option<Task>>

    // ----- the invariant

    ghost predicate HeapIndexed()
      reads this, generators
    {
      forall i | 0 <= i < |generators| :: generators[i].index == i
    }

    ghost predicate ParkedUnindexed()
      reads this, waitingGenerators, doneGenerators, lost
    {
      && (forall g | g in waitingGenerators :: g.index == -1)
      && (forall g | g in doneGenerators :: g.index == -1)
      && (forall g | g in lost :: g.index == -1)
    }

    /** Every submitted generator has exactly one place: the heap, the waiting list, the done list, or
        among those that were dropped. */
    ghost predicate Conserved()
      reads this
    {
      multiset(generators) + multiset(waitingGenerators) + multiset(doneGenerators) + multiset(lost)
      == multiset(submitted)
    }

    function Queue(p: Priority): seq<Option<Task>>
      reads this
    {
      match p
      case LowPriority => tasksQLow
      case MediumPriority => tasksQMedium
      case HighPriority => tasksQHigh
    }

    /** Queues are bounded and hold the tasks of generators of their own priority only. */
    ghost predicate QueuesSorted()
      reads this
    {
      forall p: Priority ::
        && |Queue(p)| <= QUEUE_CAPACITY
        && forall t | t in Queue(p) && t.Some? && t.value.owner.Some? :: t.value.owner.value.priority == p
    }

    ghost predicate ChannelIsTail()
      reads this
    {
      && |workerChan| <= numWorkers
      && |workerChan| <= |sent|
      && workerChan == sent[|sent| - |workerChan|..]
    }

    ghost function TallyOf(g: Generator): Tally
      reads this, g
    {
      Tally(g.remainingTask, g.produced, g.taskCount, g.lastRun, Queue(g.priority))
    }

    ghost predicate TasksInOrder()
      reads this, submitted
    {
      forall g | g in submitted :: InOrder(TallyOf(g), sent, g)
    }

    /** Where the generators are. */
    ghost predicate Placed()
      reads this, generators, waitingGenerators, doneGenerators, lost
    {
      Conserved() && HeapIndexed() && ParkedUnindexed()
    }

    /** Where the tasks are. */
    ghost predicate Handed()
      reads this, submitted
    {
      QueuesSorted() && ChannelIsTail() && TasksInOrder()
    }

    ghost predicate Valid()
      reads this, submitted, generators, waitingGenerators, doneGenerators, lost
    {
      Placed() && Handed()
    }

    /** The heap with its keys, as the fairness theorem sees it. */
    ghost function View(): NoStarvation.Selection<Generator>
      reads this, submitted
    {
      NoStarvation.Selection(generators, Keys())
    }

    ghost function Keys(): map<Generator, Key>
      reads this, submitted
    {
      map g | g in submitted :: g.GetKey()
    }

    constructor (numWorkers: nat)
      ensures Valid() && submitted == {} && generators == waitingGenerators == doneGenerators == lost == []
      ensures this.numWorkers == numWorkers && workerChan == sent == [] && !isShuttingDown
      ensures tasksQLow == tasksQMedium == tasksQHigh == []
    {
      this.numWorkers := numWorkers;
      tasksQLow, tasksQMedium, tasksQHigh := [], [], [];
      generators, waitingGenerators, doneGenerators := [], [], [];
      workerChan, isShuttingDown := [], false;
      submitted, lost, sent := {}, [], [];
      new;
      assert forall p: Priority :: Queue(p) == [];
    }

    lemma Members()
      requires Conserved()
      ensures forall g | g in generators ::
        g in submitted && g !in waitingGenerators && g !in doneGenerators && g !in lost
      ensures forall g | g in waitingGenerators :: g in submitted && g !in doneGenerators && g !in lost
      ensures forall g | g in doneGenerators :: g in submitted && g !in lost
      ensures forall g | g in lost :: g in submitted
      ensures Distinct(generators) && Distinct(waitingGenerators)
    {
      var all := generators + waitingGenerators + doneGenerators + lost;
      assert multiset(all) == multiset(submitted);
      forall g | g in all ensures g in submitted && multiset(submitted)[g] == 1 {
        assert g in multiset(all);
      }
      forall g | g in generators ensures g in all && multiset(generators)[g] >= 1 {
        assert g in multiset(generators);
      }
      forall g | g in waitingGenerators ensures g in all && multiset(waitingGenerators)[g] >= 1 {
        assert g in multiset(waitingGenerators);
      }
      forall g | g in doneGenerators ensures g in all && multiset(doneGenerators)[g] >= 1 {
        assert g in multiset(doneGenerators);
      }
      forall g | g in lost ensures g in all && multiset(lost)[g] >= 1 {
        assert g in multiset(lost);
      }
      OnceIsDistinct(generators);
      OnceIsDistinct(waitingGenerators);
    }

    // ----- container/heap over the generators

    ghost predicate HeapReady(key: map<Generator, Key>)
      reads this, submitted, generators
    {
      HeapIndexed() && forall g | g in generators :: g in submitted && g in key && key[g] == g.GetKey()
    }

    method SwapAt(i: nat, j: nat)
      requires i < |generators| && j < |generators|
      requires HeapIndexed() && generators[i] in submitted && generators[j] in submitted
      modifies this`generators, submitted`index
      ensures generators == Swap(old(generators), i, j)
      ensures HeapIndexed()
      ensures forall g | g in submitted && g !in generators :: g.index == old(g.index)
    {
      assert generators[i] in Swap(generators, i, j) && generators[j] in Swap(generators, i, j) by {
        assert Swap(generators, i, j)[i] == generators[j] && Swap(generators, i, j)[j] == generators[i];
      }
      generators := generators[i := generators[j]][j := generators[i]];
      generators[i].index := i;
      generators[j].index := j;
    }

    method LargerChild(i: nat, n: nat, ghost key: map<Generator, Key>) returns (j: nat)
      requires 2 * i + 1 < n <= |generators| && HeapReady(key)
      ensures j == TopChild(generators, key, i, n)
    {
      hide Outranks;
      j := 2 * i + 1;
      if j + 1 < n && Outranks(generators[j + 1].GetKey(), generators[j].GetKey()) {
        j := j + 1;
      }
    }

    /** One turn of the sift-down at i; stays at i when the element may rest there. */
    method DownFrom(i: nat, n: nat, ghost key: map<Generator, Key>) returns (next: nat)
      requires 2 * i + 1 < n <= |generators| && HeapReady(key)
      modifies this`generators, submitted`index
      ensures next == i || i < next < n
      ensures generators == (if next == i then old(generators) else Swap(old(generators), i, next))
      ensures HeapReady(key) && multiset(generators) == multiset(old(generators))
      ensures Down(old(generators), key, i, n) == if next == i then generators else Down(generators, key, next, n)
      ensures forall g | g in submitted && g !in generators :: g.index == old(g.index)
    {
      hide Down, Outranks, TopChild;
      var j := LargerChild(i, n, key);
      DownTurn(generators, key, i, j, n);
      if !Outranks(generators[j].GetKey(), generators[i].GetKey()) {
        return i;
      }
      SwapPermutes(generators, i, j);
      SwapAt(i, j);
      return j;
    }

    method HeapDown(i0: nat, n: nat, ghost key: map<Generator, Key>) returns (moved: bool)
      requires n <= |generators| && HeapReady(key)
      modifies this`generators, submitted`index
      ensures generators == Down(old(generators), key, i0, n)
      ensures !moved ==> generators == old(generators)
      ensures HeapReady(key)
      ensures forall g | g in submitted && g !in generators :: g.index == old(g.index)
    {
      hide Down;
      ghost var start := generators;
      var i := i0;
      while 2 * i + 1 < n
        invariant i0 <= i
        invariant |generators| == |start| && HeapReady(key)
        invariant Down(start, key, i0, n) == Down(generators, key, i, n)
        invariant i == i0 ==> generators == start
        invariant forall g | g in submitted && g !in generators :: g.index == old(g.index)
        decreases n - i
      {
        ghost var before := generators;
        var next := DownFrom(i, n, key);
        PermutationFacts(before, generators);
        if next == i {
          break;
        }
        i := next;
      }
      if n <= 2 * i + 1 {
        DownAtLeaf(generators, key, i, n);
      }
      moved := i > i0;
    }

    method HeapUp(j0: nat, ghost key: map<Generator, Key>)
      requires j0 < |generators| && HeapReady(key)
      modifies this`generators, submitted`index
      ensures generators == Up(old(generators), key, j0)
      ensures HeapReady(key)
      ensures forall g | g in submitted && g !in generators :: g.index == old(g.index)
    {
      hide Up, Outranks;
      ghost var start := generators;
      var j: nat := j0;
      while j > 0
        invariant j < |generators| && HeapReady(key)
        invariant Up(start, key, j0) == Up(generators, key, j)
        invariant forall g | g in submitted && g !in generators :: g.index == old(g.index)
      {
        var i := (j - 1) / 2;
        UpTurn(generators, key, j);
        if !Outranks(generators[j].GetKey(), generators[i].GetKey()) {
          return;
        }
        SwapPermutes(generators, i, j);
        SwapAt(i, j);
        j := i;
      }
      UpTurn(generators, key, 0);
    }

    /** heap.Push. */
    method HeapPush(gen: Generator, ghost key: map<Generator, Key>)
      requires HeapReady(key) && gen in submitted && gen !in generators && gen in key && key[gen] == gen.GetKey()
      modifies this`generators, submitted`index
      ensures HeapReady(key) && KeysCover(old(generators) + [gen], key)
      ensures generators == Up(old(generators) + [gen], key, |old(generators)|)
      ensures multiset(generators) == multiset(old(generators)) + multiset{gen}
      ensures gen in generators && forall g | g in generators :: g in old(generators) || g == gen
      ensures forall g | g in submitted && g !in generators :: g.index == old(g.index)
    {
      hide Up;
      gen.index := |generators|;
      generators := generators + [gen];
      PermutationFacts(generators, Up(generators, key, |generators| - 1));
      HeapUp(|generators| - 1, key);
    }

    /** heap.Pop: the root leaves, the last element takes its place and sinks. */
    method HeapPop(ghost key: map<Generator, Key>) returns (item: Generator)
      requires HeapReady(key) && generators != []
      modifies this`generators, submitted`index
      ensures HeapReady(key)
      ensures item == old(generators[0]) && item.index == -1 && item !in generators
      ensures multiset(generators) == multiset(old(generators)) - multiset{item}
      ensures KeysCover(old(generators), key) && generators == Popped(old(generators), key)
      ensures forall g | g in submitted && g != item && g !in generators :: g.index == old(g.index)
    {
      hide Popped;
      RootToEnd(key);
      var n := |generators| - 1;
      item := generators[n];
      assert generators == generators[..n] + [item];
      item.index := -1;
      generators := generators[..n];
    }

    method RootToEnd(ghost key: map<Generator, Key>)
      requires HeapReady(key) && generators != []
      modifies this`generators, submitted`index
      ensures HeapReady(key)
      ensures multiset(generators) == multiset(old(generators)) && |generators| == |old(generators)|
      ensures generators[|generators| - 1] == old(generators[0])
      ensures KeysCover(old(generators), key) && generators[..|generators| - 1] == Popped(old(generators), key)
      ensures forall g | g in submitted && g !in generators :: g.index == old(g.index)
    {
      hide Down, Popped, Swap;
      PoppedIs(generators, key);
      SwapPermutes(generators, 0, |generators| - 1);
      SwapAt(0, |generators| - 1);
      ghost var mid := generators;
      var _ := HeapDown(0, |generators| - 1, key);
      PermutationFacts(mid, generators);
    }

    /** heap.Fix at the root: what does not sink would rise, but the root cannot. */
    method HeapFixRoot(ghost key: map<Generator, Key>)
      requires HeapReady(key) && generators != []
      modifies this`generators, submitted`index
      ensures HeapReady(key)
      ensures generators == Down(old(generators), key, 0, |old(generators)|)
      ensures forall g | g in submitted && g !in generators :: g.index == old(g.index)
    {
      hide Down;
      var moved := HeapDown(0, |generators|, key);
      if !moved {
        UpTurn(generators, key, 0);
        HeapUp(0, key);
      }
    }

    // ----- moving generators

    /** No generator's tasks, state or counters, no queue and no channel differ. */
    twostate predicate TasksUntouched()
      reads this, submitted
    {
      && submitted == old(submitted) && sent == old(sent) && workerChan == old(workerChan)
      && tasksQLow == old(tasksQLow) && tasksQMedium == old(tasksQMedium) && tasksQHigh == old(tasksQHigh)
      && forall g | g in submitted :: g.taskCount == old(g.taskCount) && g.lastRun == old(g.lastRun)
           && g.remainingTask == old(g.remainingTask) && g.produced == old(g.produced)
    }

    twostate lemma StillHanded()
      requires TasksUntouched() && old(Handed())
      ensures Handed()
    {
      forall p: Priority ensures Queue(p) == old(Queue(p)) {
      }
      forall g | g in submitted ensures InOrder(TallyOf(g), sent, g) {
        assert TallyOf(g) == old(TallyOf(g));
      }
    }

    twostate lemma Exchanged(gen: Generator)
      requires old(Conserved()) && submitted == old(submitted)
      requires multiset(generators) == multiset(old(generators)) + multiset{gen}
      requires multiset(old(waitingGenerators)) == multiset(waitingGenerators) + multiset{gen}
      requires doneGenerators == old(doneGenerators) && lost == old(lost)
      ensures Conserved()
    {
    }

    /** The body of the push-ready loop: the waiting generator at i becomes a ready one. */
    method Requeue(i: nat)
      requires Placed() && i < |waitingGenerators|
      modifies this`generators, this`waitingGenerators, submitted`index, {waitingGenerators[i]}`done
      ensures Placed()
      ensures waitingGenerators == old(waitingGenerators[..i] + waitingGenerators[i + 1..])
      ensures multiset(generators) == multiset(old(generators)) + multiset{old(waitingGenerators[i])}
      ensures !old(waitingGenerators[i]).done
      ensures old(Ranked()) ==> Ranked()
    {
      hide Conserved, Ranked;
      var gen := waitingGenerators[i];
      PushAgain(gen);
      waitingGenerators := waitingGenerators[..i] + waitingGenerators[i + 1..];
      RemovedAt(old(waitingGenerators), i);
      Exchanged(gen);
      StillParked();
    }

    method PushAgain(gen: Generator)
      requires Placed() && gen in waitingGenerators
      modifies this`generators, submitted`index, {gen}`done
      ensures HeapIndexed() && !gen.done
      ensures multiset(generators) == multiset(old(generators)) + multiset{gen}
      ensures forall g | g in submitted && g !in generators :: g.index == old(g.index)
      ensures old(Ranked()) ==> Ranked()
    {
      hide Conserved, Ranked, Up;
      Members();
      gen.done := false;
      assert Keys() == old(Keys());
      HeapPush(gen, Keys());
      if old(Ranked()) {
        StillRanked(gen);
      }
    }

    /** The heap is in order: no generator outranks its parent. */
    ghost predicate Ranked()
      reads this`generators, this`submitted, submitted
    {
      InHeapOrder(NoStarvation.Selection(generators, map g | g in submitted :: g.GetKey()))
    }

    /** Pushing a generator, whose key and those of the others stay, keeps the order. */
    twostate lemma StillRanked(new gen: Generator)
      requires submitted == old(submitted) && old(Ranked()) && gen in submitted
      requires forall g | g in submitted :: g.GetKey() == old(g.GetKey())
      requires KeysCover(old(generators), old(Keys())) && KeysCover(old(generators) + [gen], old(Keys()))
      requires generators == Up(old(generators) + [gen], old(Keys()), |old(generators)|)
      ensures Ranked()
    {
      hide Up, HeapOrdered;
      assert old(Keys()) == map g | g in submitted :: g.GetKey();
      assert old(Keys()) == old(map g | g in submitted :: g.GetKey());
      PushKeepsOrder(old(generators), old(Keys()), gen);
    }

    /** Who is not in the heap has kept its index. */
    twostate lemma StillParked()
      requires old(ParkedUnindexed()) && Conserved() && submitted == old(submitted)
      requires forall g | g in waitingGenerators :: g in old(waitingGenerators)
      requires doneGenerators == old(doneGenerators) && lost == old(lost)
      requires forall g | g in submitted && g !in generators :: g.index == old(g.index)
      ensures ParkedUnindexed()
    {
      hide Conserved;
      Members();
    }

    /** One scan of the waiting list: the first generator read as ready goes back to the heap. */
    method ScanWaiting(env: Env, t0: nat) returns (modified: bool, t: nat)
      requires Placed()
      modifies this`generators, this`waitingGenerators, submitted`index, submitted`done
      ensures Placed() && t >= t0
      ensures !modified ==>
        generators == old(generators) && waitingGenerators == old(waitingGenerators)
      ensures !modified ==> t == t0 + |waitingGenerators|
      ensures !modified ==>
        forall i | 0 <= i < |waitingGenerators| ::
          waitingGenerators[i].GetState(env(t0 + i)(waitingGenerators[i])) != Ready
      ensures modified ==> exists i: nat | i < |old(waitingGenerators)| ::
        && waitingGenerators == old(waitingGenerators)[..i] + old(waitingGenerators)[i + 1..]
        && multiset(generators) == multiset(old(generators)) + multiset{old(waitingGenerators)[i]}
        && !old(waitingGenerators)[i].done
        && old(waitingGenerators[i].GetState(env(t0 + i)(waitingGenerators[i]))) == Ready
      ensures forall g | g in old(waitingGenerators) && g !in waitingGenerators :: old(SometimeDue(g, env, t0))
      ensures forall g | g in submitted && (g in waitingGenerators || g !in old(waitingGenerators)) ::
        g.done == old(g.done)
      ensures old(Ranked()) ==> Ranked()
    {
      hide Placed, Generator.GetState, SometimeDue, Due, Ranked;
      t := t0;
      PlacedMembers();
      for i := 0 to |waitingGenerators|
        invariant t == t0 + i && Placed() && generators == old(generators)
        invariant waitingGenerators == old(waitingGenerators) && submitted == old(submitted)
        invariant forall k | 0 <= k < i :: waitingGenerators[k].GetState(env(t0 + k)(waitingGenerators[k])) != Ready
        invariant forall g | g in submitted :: g.done == old(g.done)
        invariant old(Ranked()) ==> Ranked()
      {
        var gen := waitingGenerators[i];
        var ready := gen.GetState(env(t)(gen)) == Ready;
        SameStandingSameDue(gen, env);
        t := t + 1;
        if ready {
          StateMeaning(gen, env(t - 1)(gen));
          DueSometime(gen, env, t0, t - 1);
          RequeueReady(i);
          return true, t;
        }
      }
      return false, t;
    }

    /** Requeue, and who is where after it. */
    method RequeueReady(i: nat)
      requires Placed() && i < |waitingGenerators|
      modifies this`generators, this`waitingGenerators, submitted`index, {waitingGenerators[i]}`done
      ensures Placed()
      ensures waitingGenerators == old(waitingGenerators)[..i] + old(waitingGenerators)[i + 1..]
      ensures multiset(generators) == multiset(old(generators)) + multiset{old(waitingGenerators[i])}
      ensures !old(waitingGenerators[i]).done && old(waitingGenerators[i]) !in waitingGenerators
      ensures forall g | g in old(waitingGenerators) && g !in waitingGenerators :: g == old(waitingGenerators[i])
      ensures old(Ranked()) ==> Ranked()
    {
      hide Placed, Ranked;
      ghost var gen, waiting := waitingGenerators[i], waitingGenerators;
      Requeue(i);
      Moved([], [gen], waiting, waitingGenerators, i);
      PlacedMembers();
      assert gen in multiset(generators);
    }

    /** Scans until a scan moves nothing. Then every generator still waiting was read as not
        ready by the last scan, and every other one is in the heap with its done flag cleared. */
    method PushReadyGenerators(env: Env, t0: nat) returns (t: nat)
      requires Placed()
      modifies this`generators, this`waitingGenerators, submitted`index, submitted`done
      ensures Placed()
      ensures t >= t0 + |waitingGenerators|
      ensures forall i | 0 <= i < |waitingGenerators| ::
        waitingGenerators[i].GetState(env(t - |waitingGenerators| + i)(waitingGenerators[i])) != Ready
      ensures forall g | g in waitingGenerators :: g in old(waitingGenerators) && g.done == old(g.done)
      ensures forall g | g in old(generators) :: g in generators && g.done == old(g.done)
      ensures forall g | g in generators :: g in old(generators) || g in old(waitingGenerators)
      ensures forall g | g in old(waitingGenerators) && old(NeverDue(g, env, t0)) :: g in waitingGenerators
      ensures forall g | g in old(waitingGenerators) && old(AlwaysDue(g, env, t0)) :: g in generators && !g.done
      ensures forall g | g in old(waitingGenerators) && g !in waitingGenerators :: old(SometimeDue(g, env, t0))
      ensures forall i | 0 <= i < |waitingGenerators| ::
        !Due(waitingGenerators[i], env(t - |waitingGenerators| + i)(waitingGenerators[i]))
      ensures forall g | g in old(waitingGenerators) && g !in waitingGenerators :: g in generators && !g.done
      ensures old(waitingGenerators) == [] ==> generators == old(generators) && t == t0
      ensures old(waitingGenerators) == [] ==> forall g | g in submitted :: g.done == old(g.done)
      ensures forall g | g in lost :: g.done == old(g.done)
      ensures old(Ranked()) ==> Ranked()
    {
      hide Placed, Generator.GetState, Due, SometimeDue, NeverDue, AlwaysDue, Ranked;
      t := t0;
      var modified := true;
      PlacedMembers();
      ghost var keep := submitted - (set g | g in waitingGenerators);
      while modified
        invariant Placed() && t >= t0 && submitted == old(submitted)
        invariant !modified ==> t >= t0 + |waitingGenerators|
        invariant !modified ==> forall i | 0 <= i < |waitingGenerators| ::
          waitingGenerators[i].GetState(env(t - |waitingGenerators| + i)(waitingGenerators[i])) != Ready
        invariant forall g | g in keep :: g.done == old(g.done)
        invariant old(Ranked()) ==> Ranked()
        invariant forall g | g in waitingGenerators :: g in old(waitingGenerators) && g.done == old(g.done)
        invariant forall g | g in old(generators) :: g in generators
        invariant forall g | g in generators :: g in old(generators) || g in old(waitingGenerators)
        invariant forall g | g in old(waitingGenerators) && g !in waitingGenerators :: old(SometimeDue(g, env, t0))
        invariant forall g | g in old(waitingGenerators) && g !in waitingGenerators :: g in generators && !g.done
        invariant old(waitingGenerators) == [] ==> generators == old(generators) && waitingGenerators == [] && t == t0
        decreases |waitingGenerators|, modified
      {
        PlacedMembers();
        ghost var from := t;
        forall g | g in waitingGenerators ensures SometimeDue(g, env, from) ==> old(SometimeDue(g, env, t0)) {
          SameStandingSameDue(g, env);
          LaterDue(g, env, t0, from);
        }
        modified, t := Rescan(env, t);
      }
      forall i | 0 <= i < |waitingGenerators|
        ensures !Due(waitingGenerators[i], env(t - |waitingGenerators| + i)(waitingGenerators[i]))
      {
        StateMeaning(waitingGenerators[i], env(t - |waitingGenerators| + i)(waitingGenerators[i]));
      }
      forall g | g in old(waitingGenerators)
        ensures old(NeverDue(g, env, t0)) ==> g in waitingGenerators
        ensures old(AlwaysDue(g, env, t0)) ==> g !in waitingGenerators
      {
        NotBoth(g, env, t0);
        if i :| 0 <= i < |waitingGenerators| && waitingGenerators[i] == g {
          SameStandingSameDue(g, env);
          NotAlways(g, env, t0, t - |waitingGenerators| + i);
        }
      }
    }

    /** A scan, and who is where after it. */
    method Rescan(env: Env, t0: nat) returns (modified: bool, t: nat)
      requires Placed()
      modifies this`generators, this`waitingGenerators, submitted`index, submitted`done
      ensures Placed() && t >= t0
      ensures !modified ==>
        generators == old(generators) && waitingGenerators == old(waitingGenerators) && t == t0 + |waitingGenerators|
      ensures !modified ==> forall i | 0 <= i < |waitingGenerators| ::
        waitingGenerators[i].GetState(env(t - |waitingGenerators| + i)(waitingGenerators[i])) != Ready
      ensures modified ==> |waitingGenerators| < |old(waitingGenerators)|
      ensures forall g | g in waitingGenerators :: g in old(waitingGenerators)
      ensures forall g | g in old(generators) :: g in generators
      ensures forall g | g in generators :: g in old(generators) || g in old(waitingGenerators)
      ensures forall g | g in old(waitingGenerators) && g !in waitingGenerators :: old(SometimeDue(g, env, t0))
      ensures forall g | g in old(waitingGenerators) && g !in waitingGenerators :: g in generators && !g.done
      ensures forall g | g in submitted && (g in waitingGenerators || g !in old(waitingGenerators)) ::
        g.done == old(g.done)
      ensures old(Ranked()) ==> Ranked()
    {
      hide Placed, Generator.GetState, Due, SometimeDue, Ranked;
      ghost var heap, waiting := generators, waitingGenerators;
      modified, t := ScanWaiting(env, t0);
      if modified {
        ghost var i: nat :| i < |waiting| && waitingGenerators == waiting[..i] + waiting[i + 1..]
          && multiset(generators) == multiset(heap) + multiset{waiting[i]} && !waiting[i].done;
        Moved(heap, generators, waiting, waitingGenerators, i);
      }
    }

    lemma PlacedMembers()
      requires Placed()
      ensures forall g | g in generators :: g in submitted && g !in waitingGenerators && g !in lost
      ensures forall g | g in waitingGenerators :: g in submitted && g !in lost
      ensures forall g | g in lost :: g in submitted
    {
      Members();
    }

    // ----- running a generator

    /** A non-blocking send to the queue of priority p: nothing happens when it is full. */
    method TrySend(p: Priority, task: Option<Task>) returns (ok: bool)
      modifies this`tasksQLow, this`tasksQMedium, this`tasksQHigh
      ensures ok <==> |old(Queue(p))| < QUEUE_CAPACITY
      ensures Queue(p) == if ok then old(Queue(p)) + [task] else old(Queue(p))
      ensures forall q: Priority | q != p :: Queue(q) == old(Queue(q))
    {
      ok := |Queue(p)| < QUEUE_CAPACITY;
      if ok {
        match p
        case LowPriority => tasksQLow := tasksQLow + [task];
        case MediumPriority => tasksQMedium := tasksQMedium + [task];
        case HighPriority => tasksQHigh := tasksQHigh + [task];
      }
    }

    method Generate(gen: Generator, answer: NextAnswer, now: int)
      requires Handed() && gen in submitted
      modifies this`tasksQLow, this`tasksQMedium, this`tasksQHigh
      modifies {gen}`remainingTask, {gen}`done, {gen}`lastRun, {gen}`taskCount, {gen}`produced
      ensures Handed()
      ensures TallyOf(gen) == AfterRun(gen, old(TallyOf(gen)), answer, now)
      ensures forall q: Priority | q != gen.priority :: Queue(q) == old(Queue(q))
      ensures gen.done == (old(gen.done) || (old(gen.remainingTask) == None && answer.Finished?))
    {
      hide QueuesSorted, ChannelIsTail;
      assert InOrder(TallyOf(gen), sent, gen);
      var task := gen.remainingTask;
      if gen.remainingTask == None && !answer.Yielded? {
        if answer.Finished? {
          gen.done := true;
          gen.lastRun := now;
          gen.taskCount := 0;
        }
      } else {
        if task == None {
          task := NextTask(gen, answer);
          gen.produced := gen.produced + (if task.Some? then [task.value] else []);
        }
        gen.taskCount := gen.taskCount + 1;
        var ok := TrySend(gen.priority, task);
        gen.remainingTask := if ok then None else task;
      }
      StillHandedAfterRun(gen, answer, now);
    }

    twostate lemma StillHandedAfterRun(gen: Generator, new answer: NextAnswer, new now: int)
      requires old(Handed()) && gen in submitted
      requires submitted == old(submitted) && sent == old(sent) && workerChan == old(workerChan)
      requires TallyOf(gen) == AfterRun(gen, old(TallyOf(gen)), answer, now)
      requires forall q: Priority | q != gen.priority :: Queue(q) == old(Queue(q))
      requires forall g | g in submitted && g != gen ::
        g.remainingTask == old(g.remainingTask) && g.produced == old(g.produced)
      ensures Handed()
    {
      hide AfterRun, InOrder;
      var before := old(TallyOf(gen));
      assert InOrder(before, sent, gen);
      RunKeepsOrder(before, answer, now, sent, gen);
      forall g | g in submitted && g != gen ensures InOrder(TallyOf(g), sent, g) {
        OthersStayInOrder(old(TallyOf(g)), TallyOf(g), before, answer, now, sent, gen, g);
      }
      QueueAfterRun(before, answer, now, gen, sent);
      assert ChannelIsTail();
    }

    // ----- one scheduling step

    /** Conserved but for one generator that is in no place. */
    ghost predicate ConservedBut(gen: Generator)
      reads this
    {
      multiset(generators) + multiset(waitingGenerators) + multiset(doneGenerators) + multiset(lost) + multiset{gen}
      == multiset(submitted)
    }

    twostate lemma RootTaken(gen: Generator)
      requires old(Conserved()) && submitted == old(submitted) && waitingGenerators == old(waitingGenerators)
      requires doneGenerators == old(doneGenerators) && lost == old(lost)
      requires old(generators) != [] && gen == old(generators[0])
      requires multiset(generators) == multiset(old(generators)) - multiset{gen}
      ensures ConservedBut(gen)
    {
      assert gen in multiset(old(generators));
      assert multiset(generators) + multiset{gen} == multiset(old(generators));
    }

    /** The root leaves the heap. The reading at t decides between the waiting list and the
        rest, the one at t + 1 between the done list and nothing at all. */
    method ParkRoot(env: Env, t: nat) returns (gen: Generator)
      requires Placed() && generators != []
      modifies this`generators, this`waitingGenerators, this`doneGenerators, this`lost, submitted`index
      ensures Placed() && gen == old(generators[0]) && gen in submitted && gen !in generators
      ensures forall g | g in old(generators) && g != gen :: g in generators
      ensures gen.GetState(env(t)(gen)) == Waiting <==> gen in waitingGenerators
      ensures waitingGenerators == old(waitingGenerators) + (if gen.GetState(env(t)(gen)) == Waiting then [gen] else [])
      ensures doneGenerators == old(doneGenerators) + (if gen.GetState(env(t)(gen)) == Done then [gen] else [])
      ensures lost == old(lost) + (if gen.GetState(env(t)(gen)) == Ready then [gen] else [])
    {
      hide Conserved, Popped;
      Members();
      gen := HeapPop(Keys());
      assert gen in old(generators);
      forall g | g in generators ensures g in old(generators) {
        assert g in multiset(generators) && g in multiset(old(generators));
      }
      forall g | g in old(generators) && g != gen ensures g in generators {
        assert g in multiset(old(generators)) && g in multiset(generators);
      }
      RootTaken(gen);
      Park(gen, env, t);
      Members();
    }

    method Park(gen: Generator, env: Env, t: nat)
      requires ConservedBut(gen) && HeapIndexed() && ParkedUnindexed() && gen.index == -1
      modifies this`waitingGenerators, this`doneGenerators, this`lost
      ensures Placed()
      ensures waitingGenerators == old(waitingGenerators) + (if gen.GetState(env(t)(gen)) == Waiting then [gen] else [])
      ensures doneGenerators == old(doneGenerators) + (if gen.GetState(env(t)(gen)) == Done then [gen] else [])
      ensures lost == old(lost) + (if gen.GetState(env(t)(gen)) == Ready then [gen] else [])
    {
      hide Generator.GetState, Placed;
      DoneAnyTime(gen, env(t)(gen), env(t + 1)(gen));
      if gen.GetState(env(t)(gen)) == Waiting {
        waitingGenerators := waitingGenerators + [gen];
      } else if gen.GetState(env(t + 1)(gen)) == Done {
        doneGenerators := doneGenerators + [gen];
      } else {
        lost := lost + [gen];
      }
      PutAway(gen);
    }

    twostate lemma PutAway(gen: Generator)
      requires old(ConservedBut(gen)) && old(HeapIndexed()) && old(ParkedUnindexed()) && gen.index == -1
      requires generators == old(generators) && submitted == old(submitted)
      requires forall g: Generator | old(allocated(g)) :: g.index == old(g.index)
      requires var w, d, l := old(waitingGenerators), old(doneGenerators), old(lost);
        || (waitingGenerators == w + [gen] && doneGenerators == d && lost == l)
        || (waitingGenerators == w && doneGenerators == d + [gen] && lost == l)
        || (waitingGenerators == w && doneGenerators == d && lost == l + [gen])
      ensures Placed()
    {
      assert Conserved() by {
        hide HeapIndexed, ParkedUnindexed;
      }
    }

    /** The root runs. Its key is the old one while the heap is repaired; only then its task is counted. */
    method RunRoot(answer: NextAnswer, now: int)
      requires Valid() && generators != []
      modifies this`generators, submitted`index, this`tasksQLow, this`tasksQMedium, this`tasksQHigh
      modifies {generators[0]}`remainingTask, {generators[0]}`done, {generators[0]}`lastRun
      modifies {generators[0]}`taskCount, {generators[0]}`produced
      ensures Valid()
      ensures forall g | g in old(generators) :: g in generators
      ensures TallyOf(old(generators[0])) == AfterRun(old(generators[0]), old(TallyOf(generators[0])), answer, now)
      ensures NoStarvation.Valid(old(View()))
      ensures old(generators[0]).done ==
              (old(generators[0].done) || (old(generators[0].remainingTask) == None && answer.Finished?))
      ensures old(Counts(generators[0].remainingTask, answer)) ==>
                View() == NoStarvation.Step(old(View()), old(Yields(generators[0].remainingTask, answer)))
    {
      hide Placed, Handed, Down, NoStarvation.Step;
      var gen := FixRoot();
      StillHanded();
      label fixed:
      Generate(gen, answer, now);
      StillPlaced@fixed();
      if old(Counts(generators[0].remainingTask, answer)) {
        SelectionStep(old(View()), View(), old(Yields(generators[0].remainingTask, answer)));
      }
    }

    twostate lemma StillPlaced()
      requires old(Placed()) && submitted == old(submitted) && generators == old(generators)
      requires waitingGenerators == old(waitingGenerators) && doneGenerators == old(doneGenerators) && lost == old(lost)
      requires forall g | g in submitted :: g.index == old(g.index)
      ensures Placed()
    {
      assert old(Conserved());
      assert Conserved();
      Members();
    }

    method FixRoot() returns (gen: Generator)
      requires Placed() && generators != []
      modifies this`generators, submitted`index
      ensures Placed() && gen == old(generators[0]) && gen in generators && gen in submitted
      ensures NoStarvation.Valid(old(View()))
      ensures var v := old(View()); generators == Down(v.heap, v.key, 0, |v.heap|)
      ensures forall g | g in old(generators) :: g in generators
    {
      Members();
      ghost var key := Keys();
      gen := generators[0];
      HeapFixRoot(key);
      PermutationFacts(old(generators), generators);
      Members();
    }

    /** The heap is served in one of three ways: there is nothing to do, the root runs (and stays
        in the heap), or the root is parked. Only a parked root that its second reading finds
        ready again is lost. */
    method GenerateTasks(env: Env, t0: nat, answers: Generator -> NextAnswer)
      returns (t: nat, ghost outcome: Service, ghost pushed: Snapshot, ghost from: nat)
      requires Valid()
      modifies this`generators, this`waitingGenerators, this`doneGenerators, this`lost
      modifies this`tasksQLow, this`tasksQMedium, this`tasksQHigh, submitted
      ensures Valid()
      ensures Served(outcome, env, answers)
      ensures DroppedUntouched()
      ensures PushedReady(old(Snap()), pushed, env, t0) && t0 <= from
      ensures ServedAfterPush(pushed, outcome, env, from, answers)
      ensures old(waitingGenerators == [] && generators != []) ==>
        ServedRoot(old(Snap()), outcome, env, t0, answers)
      ensures old(waitingGenerators == [] && generators != []) ==>
        ServedByFields(old(generators[0]), outcome, env, t0)
      ensures outcome.Ran? ==>
        (outcome.gen in old(generators) || outcome.gen in old(waitingGenerators))
        && old(SometimeDue(outcome.gen, env, t0))
      ensures forall g | g in old(waitingGenerators) && old(NeverDue(g, env, t0)) ::
        g in waitingGenerators && g.GetStanding() == old(g.GetStanding()) && g.taskCount == old(g.taskCount)
    {
      hide Placed, Handed, NoStarvation.Step, NoStarvation.Valid, AfterRun, View, PushedReady;
      hide ServedAfterPush;
      hide Due, Over, NeverDue, SometimeDue, Generator.GetState, Snap, ServedRoot;
      t, pushed := PushPhase(env, t0);
      from := t;
      if generators != [] {
        PlacedMembers();
        var root := generators[0];
        if root in old(generators) {
          SameStandingSameDue(root, env);
          LaterDue(root, env, t0, from);
        }
      }
      t, outcome := ServeHeap(env, t, answers);
    }

    twostate lemma SnapParts()
      requires submitted == old(submitted)
      requires forall g | g in submitted :: g.GetKey() == old(g.GetKey()) && g.remainingTask == old(g.remainingTask)
      ensures Snap().view.heap == generators && Snap().waiting == waitingGenerators
      ensures old(Snap()).view.heap == old(generators) && old(Snap()).waiting == old(waitingGenerators)
      ensures Snap().view.key == old(Snap()).view.key && Snap().remaining == old(Snap()).remaining
      ensures InHeapOrder(Snap().view) == Ranked() && InHeapOrder(old(Snap()).view) == old(Ranked())
    {
      hide InHeapOrder;
      assert Snap().view == NoStarvation.Selection(generators, map g | g in submitted :: g.GetKey());
      assert old(Snap()).view == old(NoStarvation.Selection(generators, map g | g in submitted :: g.GetKey()));
      assert Snap().view.key == old(Snap()).view.key;
      assert Snap().remaining == old(Snap()).remaining;
    }

    ghost predicate ServedAfterPush(pushed: Snapshot, outcome: Service, env: Env, from: nat,
                                    answers: Generator -> NextAnswer)
      reads this, submitted
    {
      if pushed.view.heap == [] then outcome == Nothing else ServedRoot(pushed, outcome, env, from, answers)
    }

    lemma HeapOfSnap()
      ensures Snap().view.heap == generators
    {
    }

    /** What comes before the heap is served. */
    method PushPhase(env: Env, t0: nat) returns (t: nat, ghost pushed: Snapshot)
      requires Valid()
      modifies this`generators, this`waitingGenerators, submitted`index, submitted`done
      ensures Valid() && t >= t0
      ensures forall g | g in old(generators) :: g in generators && g.done == old(g.done)
      ensures forall g | g in generators ::
        g in old(generators) || (g in old(waitingGenerators) && old(SometimeDue(g, env, t0)))
      ensures forall g | g in lost :: g.done == old(g.done)
      ensures forall g | g in old(waitingGenerators) && g in waitingGenerators :: g.done == old(g.done)
      ensures forall g | g in old(waitingGenerators) && old(NeverDue(g, env, t0)) :: g in waitingGenerators
      ensures old(waitingGenerators) == [] ==> pushed == old(Snap()) && t == t0
      ensures old(waitingGenerators) == [] ==> generators == old(generators) && waitingGenerators == []
      ensures pushed == Snap() && PushedReady(old(Snap()), pushed, env, t0)
    {
      hide Placed, Handed, NoStarvation.Step, NoStarvation.Valid, AfterRun, View, Ranked, InHeapOrder;
      hide Due, Over, NeverDue, SometimeDue, AlwaysDue, Generator.GetState, Snap, ReadyAt, ReadySometime;
      ghost var before := Snap();
      PlacedMembers();
      forall g | g in waitingGenerators
        ensures SometimeDue(g, env, t0) <==> ReadySometime(before, g, env, t0)
        ensures NeverDue(g, env, t0) <==> !ReadySometime(before, g, env, t0)
        ensures AlwaysDue(g, env, t0) <==> forall k: nat | k >= t0 :: ReadyAt(before, g, env, k)
      {
        DueInSnap(g, env, t0);
      }
      t := PushReadyGenerators(env, t0);
      StillHanded();
      if old(waitingGenerators) == [] {
        SameSnap();
      }
      pushed := Snap();
      SnapParts();
      PlacedMembers();
    }

    /** Whether g waits or runs at a reading, and at any, as the snapshot has it. */
    lemma DueInSnap(g: Generator, env: Env, t0: nat)
      requires g in submitted
      ensures SometimeDue(g, env, t0) <==> ReadySometime(Snap(), g, env, t0)
      ensures NeverDue(g, env, t0) <==> !ReadySometime(Snap(), g, env, t0)
      ensures AlwaysDue(g, env, t0) <==> forall k: nat | k >= t0 :: ReadyAt(Snap(), g, env, k)
    {
      hide View;
      assert Snap().standings[g] == g.GetStanding();
      forall k: nat ensures ReadyAt(Snap(), g, env, k) <==> Due(g, env(k)(g)) {
        StateMeaning(g, env(k)(g));
      }
    }

    /** What follows the push of the ready generators. */
    method ServeHeap(env: Env, t0: nat, answers: Generator -> NextAnswer)
      returns (t: nat, ghost outcome: Service)
      requires Valid()
      modifies this`generators, this`waitingGenerators, this`doneGenerators, this`lost
      modifies this`tasksQLow, this`tasksQMedium, this`tasksQHigh, submitted
      ensures Valid()
      ensures Served(outcome, env, answers)
      ensures DroppedUntouched()
      ensures ServedAfterPush(old(Snap()), outcome, env, t0, answers)
      ensures old(generators) != [] ==> ServedRoot(old(Snap()), outcome, env, t0, answers)
      ensures old(generators) != [] ==> ServedByFields(old(generators[0]), outcome, env, t0)
      ensures outcome.Ran? ==>
        old(generators) != [] && outcome.gen == old(generators[0]) && old(SometimeDue(outcome.gen, env, t0))
      ensures forall g | g in old(waitingGenerators) ::
        g in waitingGenerators && g.GetStanding() == old(g.GetStanding()) && g.taskCount == old(g.taskCount)
    {
      hide Placed, Handed, Served, ServedRoot, NoStarvation.Valid, AfterRun, View, Due, Snap;
      HeapOfSnap();
      if |generators| == 0 {
        outcome := Nothing;
        t := t0;
        NothingServed(env, answers);
        return;
      }
      ghost var root := generators[0];
      DueSometime(root, env, t0, t0);
      t, outcome := ServeRoot(env, t0, answers);
    }

    twostate lemma NothingServed(env: Env, new answers: Generator -> NextAnswer)
      requires generators == [] && doneGenerators == old(doneGenerators) && lost == old(lost) && TasksUntouched()
      ensures Served(Nothing, env, answers)
    {
    }

    method ServeRoot(env: Env, t0: nat, answers: Generator -> NextAnswer)
      returns (t: nat, ghost outcome: Service)
      requires Valid() && generators != []
      modifies this`generators, this`waitingGenerators, this`doneGenerators, this`lost
      modifies this`tasksQLow, this`tasksQMedium, this`tasksQHigh, submitted
      ensures Valid()
      ensures Served(outcome, env, answers)
      ensures DroppedUntouched()
      ensures ServedRoot(old(Snap()), outcome, env, t0, answers)
      ensures ServedByFields(old(generators[0]), outcome, env, t0)
      ensures forall g | g in old(generators) && (g != old(generators[0]) || outcome.Ran?) :: g in generators
      ensures forall g | g in old(waitingGenerators) ::
        g in waitingGenerators && g.GetStanding() == old(g.GetStanding()) && g.taskCount == old(g.taskCount)
    {
      hide *;
      var gen := generators[0];
      if gen.GetState(env(t0)(gen)) == Ready {
        outcome := ServeReadyRoot(env, t0, answers);
        t := t0 + 1;
      } else {
        outcome := ParkIdleRoot(env, t0, answers);
        t := t0 + 3;
      }
    }

    method ServeReadyRoot(env: Env, t0: nat, answers: Generator -> NextAnswer) returns (ghost outcome: Service)
      requires Valid() && generators != [] && generators[0].GetState(env(t0)(generators[0])) == Ready
      modifies this`generators, this`tasksQLow, this`tasksQMedium, this`tasksQHigh, submitted
      ensures Valid()
      ensures Served(outcome, env, answers)
      ensures DroppedUntouched()
      ensures ServedRoot(old(Snap()), outcome, env, t0, answers)
      ensures ServedByFields(old(generators[0]), outcome, env, t0)
      ensures forall g | g in old(generators) && (g != old(generators[0]) || outcome.Ran?) :: g in generators
      ensures forall g | g in old(waitingGenerators) ::
        g in waitingGenerators && g.GetStanding() == old(g.GetStanding()) && g.taskCount == old(g.taskCount)
    {
      hide Placed, Handed, NoStarvation.Step, NoStarvation.Valid, AfterRun, View, Due;
      PlacedMembers();
      HeapIsValid();
      HeapOfView();
      var gen := generators[0];
      StateMeaning(gen, env(t0)(gen));
      RunRoot(answers(gen), env(t0)(gen).now);
      outcome := Ran(gen, env(t0)(gen).now);
    }

    method ParkIdleRoot(env: Env, t0: nat, ghost answers: Generator -> NextAnswer) returns (ghost outcome: Service)
      requires Valid() && generators != [] && generators[0].GetState(env(t0)(generators[0])) != Ready
      modifies this`generators, this`waitingGenerators, this`doneGenerators, this`lost, submitted`index
      ensures Valid()
      ensures Served(outcome, env, answers)
      ensures DroppedUntouched()
      ensures ServedRoot(old(Snap()), outcome, env, t0, answers)
      ensures ServedByFields(old(generators[0]), outcome, env, t0)
      ensures forall g | g in old(generators) && (g != old(generators[0]) || outcome.Ran?) :: g in generators
      ensures forall g | g in old(waitingGenerators) ::
        g in waitingGenerators && g.GetStanding() == old(g.GetStanding()) && g.taskCount == old(g.taskCount)
    {
      hide Placed, Handed, NoStarvation.Step, NoStarvation.Valid, View, Due;
      PlacedMembers();
      HeapIsValid();
      HeapOfView();
      var gen := generators[0];
      StateMeaning(gen, env(t0)(gen));
      StateMeaning(gen, env(t0 + 1)(gen));
      var _ := ParkRoot(env, t0 + 1);
      outcome := Parked(gen, t0, gen.GetStanding());
      StillHanded();
    }

    twostate lemma SameView()
      requires TasksUntouched() && generators == old(generators)
      ensures View() == old(View())
    {
      assert Keys() == old(Keys());
    }

    /** Who was dropped before is left alone. */
    twostate predicate DroppedUntouched()
      reads this, lost
    {
      && old(lost) <= lost
      && forall g | g in old(lost) :: g.GetStanding() == old(g.GetStanding())
    }

    /** What the service of the root looks at. */
    ghost function Snap(): Snapshot
      reads this, submitted
    {
      Snapshot(View(), waitingGenerators, map g | g in submitted :: g.GetStanding(),
               map g | g in submitted :: g.remainingTask)
    }

    twostate lemma SameSnap()
      requires TasksUntouched() && generators == old(generators) && waitingGenerators == old(waitingGenerators)
      requires forall g | g in submitted :: g.done == old(g.done)
      ensures Snap() == old(Snap())
    {
      SameView();
      assert Snap().standings == old(Snap()).standings && Snap().remaining == old(Snap()).remaining;
    }

    /** The root of the heap was served, by its first reading: it ran, or it was parked. A run that does
        not finish is a step of the fairness theorem. */
    ghost predicate ServedRoot(before: Snapshot, outcome: Service, env: Env, t0: nat, answers: Generator -> NextAnswer)
      reads this, submitted
    {
      && NoStarvation.Valid(before.view)
      && var root := before.view.heap[0];
      && root in before.standings && root in before.remaining
      && outcome == (if StateAt(before.standings[root], env(t0)(root)) == Ready then Ran(root, env(t0)(root).now)
                     else Parked(root, t0, before.standings[root]))
      && (outcome.Ran? ==>
            && (Counts(before.remaining[root], answers(root)) ==>
                  View() == NoStarvation.Step(before.view, Yields(before.remaining[root], answers(root))))
            && waitingGenerators == before.waiting
            && submitted == before.standings.Keys == before.remaining.Keys && root in submitted
            && root.done == (before.standings[root].done || (before.remaining[root] == None && answers(root).Finished?))
            && forall g | g in submitted && g != root ::
                 g.done == before.standings[g].done && g.remainingTask == before.remaining[g])
    }

    /** The same in terms of the root's fields: it ran if and only if it was due at the first reading. If not,
        it is done when it is a finished one-shot generator without a task, dropped when it is due at the
        second reading, and waits otherwise. */
    twostate predicate ServedByFields(root: Generator, new outcome: Service, env: Env, new t0: nat)
      reads this, {root}
    {
      && (outcome.Ran? <==> old(Due(root, env(t0)(root))))
      && (outcome.Ran? ==> outcome.gen == root && waitingGenerators == old(waitingGenerators))
      && (!outcome.Ran? ==>
            if old(Over(root)) then
              doneGenerators == old(doneGenerators) + [root]
              && waitingGenerators == old(waitingGenerators) && lost == old(lost)
            else if old(Due(root, env(t0 + 1)(root))) then
              lost == old(lost) + [root]
              && waitingGenerators == old(waitingGenerators) && doneGenerators == old(doneGenerators)
            else
              waitingGenerators == old(waitingGenerators) + [root]
              && doneGenerators == old(doneGenerators) && lost == old(lost))
    }

    /** The heap took one step of the fairness theorem. */
    twostate predicate SelectsRoot(new counted: bool)
      reads this, submitted
    {
      NoStarvation.Valid(old(View())) && View() == NoStarvation.Step(old(View()), counted)
    }

    twostate predicate Served(new outcome: Service, env: Env, new answers: Generator -> NextAnswer)
      reads this, submitted
    {
      match outcome
      case Nothing =>
        generators == [] && doneGenerators == old(doneGenerators) && lost == old(lost) && TasksUntouched()
      case Ran(gen, now) =>
        && gen in old(submitted) && gen in submitted && gen in generators
        && doneGenerators == old(doneGenerators) && lost == old(lost)
        && TallyOf(gen) == AfterRun(gen, old(TallyOf(gen)), answers(gen), now)
      case Parked(gen, at, standing) =>
        && gen in submitted && gen !in generators && TasksUntouched()
        && standing == gen.GetStanding() && StateAt(standing, env(at)(gen)) != Ready
        && var second := StateAt(standing, env(at + 1)(gen));
        && (second == Waiting <==> gen in waitingGenerators)
        && doneGenerators == old(doneGenerators) + (if second == Done then [gen] else [])
        && lost == old(lost) + (if second == Ready then [gen] else [])
    }

    twostate lemma ServedDrops(new outcome: Service, env: Env, new answers: Generator -> NextAnswer)
      requires Served(outcome, env, answers)
      ensures FirstNotReady(outcome, env) && StandsAs(outcome)
      ensures lost == old(lost) + (if Drops(outcome, env) then [outcome.gen] else [])
    {
    }

    // ----- the dispatching loop and the workers' end of the channel

    /** As Handed, but with one received task that is neither queued nor sent. */
    ghost predicate HandedBut(task: Option<Task>)
      reads this, submitted
    {
      && QueuesSorted() && ChannelIsTail()
      && forall g | g in submitted :: InOrder(TallyOf(g), sent + [task], g)
    }

    /** Receives from the fullest priority that has anything queued; a nil task counts as one. */
    method TakeHighest() returns (task: Option<Task>, ghost found: bool)
      requires Handed()
      modifies this`tasksQLow, this`tasksQMedium, this`tasksQHigh
      ensures HandedBut(task)
      ensures found <==> exists p: Priority :: old(Queue(p)) != []
      ensures !found ==> task == None && forall p: Priority :: Queue(p) == []
      ensures found ==> exists p: Priority ::
        && old(Queue(p)) == [task] + Queue(p)
        && forall q: Priority | q != p :: Queue(q) == old(Queue(q)) && (Weight(q) > Weight(p) ==> Queue(q) == [])
    {
      ghost var p := HighPriority;
      found := true;
      if |tasksQHigh| > 0 {
        task, tasksQHigh := tasksQHigh[0], tasksQHigh[1..];
      } else if |tasksQMedium| > 0 {
        p := MediumPriority;
        task, tasksQMedium := tasksQMedium[0], tasksQMedium[1..];
      } else if |tasksQLow| > 0 {
        p := LowPriority;
        task, tasksQLow := tasksQLow[0], tasksQLow[1..];
      } else {
        task := None;
        found := false;
        assert forall q: Priority :: Queue(q) == [];
      }
      assert found ==> old(Queue(p)) == [task] + Queue(p);
      TakenKeepsOrder(task, found, p);
    }

    twostate lemma TakenKeepsOrder(new task: Option<Task>, new found: bool, new p: Priority)
      requires old(Handed()) && submitted == old(submitted) && sent == old(sent) && workerChan == old(workerChan)
      requires forall g | g in submitted :: g.remainingTask == old(g.remainingTask) && g.produced == old(g.produced)
      requires if found then old(Queue(p)) == [task] + Queue(p) else task == None && Queue(p) == old(Queue(p))
      requires forall q: Priority | q != p :: Queue(q) == old(Queue(q))
      ensures HandedBut(task)
    {
      forall g | g in submitted ensures InOrder(TallyOf(g), sent + [task], g) {
        var before, after := old(TallyOf(g)), TallyOf(g);
        assert InOrder(before, sent, g);
        if found && g.priority == p {
          OwnedAppend(sent, [task], g);
          OwnedAppend([task], Queue(p), g);
          assert before.queue == [task] + after.queue;
          Regrouped(Owned(sent, g), Owned([task], g), Owned(after.queue, g), Held(after.remaining));
        } else {
          assert found ==> task in old(Queue(p));
          assert Owned([task], g) == [];
          OwnedAppend(sent, [task], g);
          assert Owned(sent, g) + [] == Owned(sent, g);
        }
      }
      forall q: Priority
        ensures |Queue(q)| <= QUEUE_CAPACITY
        ensures forall t | t in Queue(q) && t.Some? && t.value.owner.Some? :: t.value.owner.value.priority == q
      {
        assert |old(Queue(q))| <= QUEUE_CAPACITY;
      }
    }

    ghost predicate AtMostOneMore(before: seq<Option<Task>>, after: seq<Option<Task>>) {
      before <= after && (after == before || (|after| == |before| + 1 && after[|before|].Some?))
    }

    /** One turn of the loop in RunScheduler. The loop is the only sender, so the room it sees
        before getTask is still there when it sends: the send never blocks. */
    method DispatchTurn(env: Env, answers: Generator -> NextAnswer) returns (blocks: bool, ghost outcome: Service)
      requires Valid()
      modifies this, submitted
      ensures Valid() && submitted == old(submitted) && !blocks && isShuttingDown == old(isShuttingDown)
      ensures old(|workerChan| == numWorkers) ==>
                workerChan == old(workerChan) && sent == old(sent) && outcome == Nothing
      ensures AtMostOneMore(old(workerChan), workerChan) && AtMostOneMore(old(sent), sent)
      ensures sent[|old(sent)|..] == workerChan[|old(workerChan)|..]
      ensures FirstNotReady(outcome, env) && lost == old(lost) + (if Drops(outcome, env) then [outcome.gen] else [])
      ensures DroppedUntouched() && StandsAs(outcome)
      ensures outcome.Ran? ==> outcome.gen in old(submitted) && old(SometimeDue(outcome.gen, env, 0))
      ensures old(|workerChan| != numWorkers && waitingGenerators == [] && generators != []) ==>
                outcome == old(RootService(env))
    {
      hide Placed, HandedBut, Handed, FirstNotReady, Drops, SometimeDue;
      blocks, outcome := false, Nothing;
      ghost var batch: seq<Option<Task>> := [];
      NothingDrops(env);
      if |workerChan| != numWorkers {
        assert |workerChan| < numWorkers by { RoomLeft(); }
        var task;
        task, outcome := GetTask(env, answers);
        if task != None {
          batch := [task];
          blocks := |workerChan| >= numWorkers;
        }
        Send(task);
      }
      assert workerChan == old(workerChan) + batch && sent == old(sent) + batch;
      assert sent[|old(sent)|..] == batch == workerChan[|old(workerChan)|..];
    }

    /** Generates, and then receives what is of the highest priority. */
    method GetTask(env: Env, answers: Generator -> NextAnswer) returns (task: Option<Task>, ghost outcome: Service)
      requires Valid()
      modifies this`generators, this`waitingGenerators, this`doneGenerators, this`lost
      modifies this`tasksQLow, this`tasksQMedium, this`tasksQHigh, submitted
      ensures Placed() && HandedBut(task)
      ensures FirstNotReady(outcome, env) && lost == old(lost) + (if Drops(outcome, env) then [outcome.gen] else [])
      ensures DroppedUntouched() && StandsAs(outcome)
      ensures outcome.Ran? ==> outcome.gen in old(submitted) && old(SometimeDue(outcome.gen, env, 0))
      ensures old(waitingGenerators == [] && generators != []) ==> outcome == old(RootService(env))
    {
      hide Placed, HandedBut, Handed, Served, FirstNotReady, Drops, SometimeDue, NeverDue, AlwaysDue, Due;
      hide PushedReady, ServedAfterPush;
      PlacedMembers();
      var t;
      ghost var found;
      ghost var pushed, from;
      t, outcome, pushed, from := GenerateTasks(env, 0, answers);
      ServedDrops(outcome, env, answers);
      label generated:
      task, found := TakeHighest();
      StillPlaced@generated();
    }

    /** If the parked generator was dropped, it is among the dropped ones and stands as it did then. */
    ghost predicate GoneAsParked(outcome: Service, env: Env)
      reads this, if outcome.Parked? then {outcome.gen} else {}
    {
      Drops(outcome, env) ==> outcome.gen in lost && StandsAs(outcome)
    }

    /** The outcome tells the standing of the generator that was parked. */
    ghost predicate StandsAs(outcome: Service)
      reads if outcome.Parked? then {outcome.gen} else {}
    {
      outcome.Parked? ==> outcome.standing == outcome.gen.GetStanding()
    }

    /** What becomes of the root when no generator waits. */
    ghost function RootService(env: Env): Service
      requires generators != []
      reads this, generators
    {
      var root := generators[0];
      if root.GetState(env(0)(root)) == Ready then Ran(root, env(0)(root).now) else Parked(root, 0, root.GetStanding())
    }

    lemma RoomLeft()
      requires Handed() && |workerChan| != numWorkers
      ensures |workerChan| < numWorkers
    {
    }

    /** Sends a received task on; getTask's nil is no task. */
    method Send(task: Option<Task>)
      requires Placed() && HandedBut(task) && |workerChan| < numWorkers
      modifies this`workerChan, this`sent
      ensures Valid()
      ensures workerChan == old(workerChan) + (if task.Some? then [task] else [])
      ensures sent == old(sent) + (if task.Some? then [task] else [])
    {
      hide Placed;
      if task != None {
        workerChan := workerChan + [task];
        sent := sent + [task];
        assert workerChan == sent[|sent| - |workerChan|..];
      }
      forall g | g in submitted ensures InOrder(TallyOf(g), sent, g) {
        assert TallyOf(g) == old(TallyOf(g));
        OwnedAppend(old(sent), [task], g);
        assert task == None ==> Owned([task], g) == [] && Owned(sent, g) + [] == Owned(sent, g);
      }
      SameQueues();
      StillPlaced();
    }

    twostate lemma SameQueues()
      requires old(QueuesSorted())
      requires tasksQLow == old(tasksQLow) && tasksQMedium == old(tasksQMedium) && tasksQHigh == old(tasksQHigh)
      ensures QueuesSorted()
    {
      forall p: Priority ensures Queue(p) == old(Queue(p)) {
      }
    }

    twostate lemma QueueGrew(p: Priority, new task: Option<Task>)
      requires old(QueuesSorted()) && (task.Some? ==> task.value.owner == None)
      requires |Queue(p)| <= QUEUE_CAPACITY && (Queue(p) == old(Queue(p)) || Queue(p) == old(Queue(p)) + [task])
      requires forall q: Priority | q != p :: Queue(q) == old(Queue(q))
      ensures QueuesSorted()
    {
      forall q: Priority
        ensures |Queue(q)| <= QUEUE_CAPACITY
        ensures forall t | t in Queue(q) && t.Some? && t.value.owner.Some? :: t.value.owner.value.priority == q
      {
        assert |old(Queue(q))| <= QUEUE_CAPACITY;
      }
    }

    /** A worker receives the next task. */
    method WorkerReceives() returns (task: Option<Task>)
      requires Valid() && workerChan != []
      modifies this`workerChan
      ensures Valid()
      ensures task == old(workerChan)[0] && workerChan == old(workerChan)[1..]
      ensures task == sent[|sent| - |workerChan| - 1]
    {
      hide Placed;
      task, workerChan := workerChan[0], workerChan[1..];
      forall g | g in submitted ensures InOrder(TallyOf(g), sent, g) {
        assert TallyOf(g) == old(TallyOf(g));
      }
      SameQueues();
      StillPlaced();
    }

    // ----- submissions

    /** A task submitted from outside; it is dropped when its queue is full or the scheduler stops. */
    method SubmitTask(id: int, priority: Priority)
      requires Valid()
      modifies this`tasksQLow, this`tasksQMedium, this`tasksQHigh
      ensures Valid()
      ensures var room := !isShuttingDown && |old(Queue(priority))| < QUEUE_CAPACITY;
        Queue(priority) == old(Queue(priority)) + if room then [Some(Task(None, id))] else []
      ensures forall q: Priority | q != priority :: Queue(q) == old(Queue(q))
    {
      hide Placed, QueuesSorted;
      if isShuttingDown {
        return;
      }
      ghost var task := Some(Task(None, id));
      assert |Queue(priority)| <= QUEUE_CAPACITY by { Bounded(priority); }
      var _ := TrySend(priority, Some(Task(None, id)));
      forall g | g in submitted ensures InOrder(TallyOf(g), sent, g) {
        assert InOrder(old(TallyOf(g)), sent, g);
        OwnedAppend(old(Queue(priority)), [task], g);
        assert Owned([task], g) == [] && old(Owned(Queue(priority), g)) + [] == old(Owned(Queue(priority), g));
      }
      QueueGrew(priority, task);
      StillPlaced();
    }

    lemma Bounded(p: Priority)
      requires QueuesSorted()
      ensures |Queue(p)| <= QUEUE_CAPACITY
    {
    }

    method SubmitGenerator(interval: int, priority: Priority) returns (gen: Generator)
      requires Valid()
      modifies this`generators, this`submitted, submitted`index
      ensures Valid() && fresh(gen) && submitted == old(submitted) + {gen} && gen in generators
      ensures multiset(generators) == multiset(old(generators)) + multiset{gen}
      ensures gen.interval == interval && gen.priority == priority && !gen.done && gen.taskCount == 0
    {
      hide Placed, Handed;
      gen := new Generator(interval, priority);
      NotOwned(sent, gen);
      NotOwned(tasksQLow, gen);
      NotOwned(tasksQMedium, gen);
      NotOwned(tasksQHigh, gen);
      StillPlaced();
      StillHanded();
      Enlist(gen);
    }

    method Enlist(gen: Generator)
      requires Valid() && gen !in submitted
      requires gen.produced == [] && gen.remainingTask == None
      requires Owned(sent, gen) == [] && forall p: Priority :: Owned(Queue(p), gen) == []
      modifies this`generators, this`submitted, submitted`index, {gen}`index
      ensures Valid() && submitted == old(submitted) + {gen} && gen in generators
      ensures multiset(generators) == multiset(old(generators)) + multiset{gen}
    {
      hide Placed, Handed, Owned, InOrder, QueuesSorted;
      ghost var before := submitted;
      PushFirst(gen);
      assert forall g | g in before :: TallyOf(g) == old(TallyOf(g));
      assert Queue(gen.priority) == old(Queue(gen.priority));
      StillHandedWith(gen);
    }

    method PushFirst(gen: Generator)
      requires Placed() && gen !in submitted
      modifies this`generators, this`submitted, submitted`index, {gen}`index
      ensures Placed() && submitted == old(submitted) + {gen} && gen in generators
      ensures multiset(generators) == multiset(old(generators)) + multiset{gen}
    {
      hide Conserved;
      Members();
      ghost var before := submitted;
      PushNew(gen);
      Enlisted(gen);
      Members();
      assert forall g | g in before && g !in generators :: g.index == old(g.index);
    }

    method PushNew(gen: Generator)
      requires HeapIndexed() && gen !in submitted && forall g | g in generators :: g in submitted
      modifies this`generators, this`submitted, submitted`index, {gen}`index
      ensures HeapIndexed() && submitted == old(submitted) + {gen} && gen in generators
      ensures multiset(generators) == multiset(old(generators)) + multiset{gen}
      ensures forall g | g in old(submitted) && g !in generators :: g.index == old(g.index)
    {
      submitted := submitted + {gen};
      HeapPush(gen, Keys());
    }

    twostate lemma StillHandedWith(gen: Generator)
      requires old(Handed()) && submitted == old(submitted) + {gen}
      requires sent == old(sent) && workerChan == old(workerChan)
      requires tasksQLow == old(tasksQLow) && tasksQMedium == old(tasksQMedium) && tasksQHigh == old(tasksQHigh)
      requires forall g | g in old(submitted) :: TallyOf(g) == old(TallyOf(g))
      requires gen.produced == [] && gen.remainingTask == None
      requires Owned(sent, gen) == [] && Owned(Queue(gen.priority), gen) == []
      ensures Handed()
    {
      SameQueues();
      forall g | g in submitted ensures InOrder(TallyOf(g), sent, g) {
        if g == gen {
          assert gen.produced == Owned(sent, gen) + Owned(Queue(gen.priority), gen) + Held(None);
        }
      }
    }

    twostate lemma Enlisted(new gen: Generator)
      requires old(Conserved()) && gen !in old(submitted) && submitted == old(submitted) + {gen}
      requires multiset(generators) == multiset(old(generators)) + multiset{gen}
      requires waitingGenerators == old(waitingGenerators) && doneGenerators == old(doneGenerators) && lost == old(lost)
      ensures Conserved()
    {
      assert multiset(submitted) == multiset(old(submitted)) + multiset{gen};
    }

    // ----- whole runs

    /** The shutting-down flag is raised; what the loop and the workers then do is the subject of
        module WorkerPool. */
    method BeginShutdown()
      requires Valid()
      modifies this`isShuttingDown
      ensures Valid() && isShuttingDown
    {
      hide Placed, Handed;
      isShuttingDown := true;
      StillPlaced();
      StillHanded();
    }

    /** Each generator is in the heap, in the waiting list or in the done list, and only once. */
    ghost predicate NoneMissing()
      reads this
    {
      multiset(generators) + multiset(waitingGenerators) + multiset(doneGenerators) == multiset(submitted)
    }

    method HandleEvent(event: Event, env: Env, answers: Generator -> NextAnswer)
      returns (blocked: bool, ghost outcome: Service)
      requires Valid()
      modifies this, submitted
      ensures Valid() && !blocked
      ensures old(submitted) <= submitted && fresh(submitted - old(submitted)) && old(sent) <= sent
      ensures FirstNotReady(outcome, env) && (event.LoopTurn? || outcome == Nothing)
      ensures lost == old(lost) + (if Drops(outcome, env) then [outcome.gen] else [])
      ensures DroppedUntouched() && StandsAs(outcome)
    {
      hide Placed, Handed, FirstNotReady, Drops;
      blocked, outcome := false, Nothing;
      NothingDrops(env);
      match event
      case LoopTurn =>
        blocked, outcome := DispatchTurn(env, answers);
      case WorkerReceives =>
        if workerChan != [] {
          var _ := WorkerReceives();
        }
      case TaskSubmitted(id, priority) =>
        SubmitTask(id, priority);
      case GeneratorSubmitted(interval, priority) =>
        var _ := SubmitGenerator(interval, priority);
      case ShutdownBegun =>
        BeginShutdown();
    }

    /** Any interleaving of loop turns, workers and submitters, at the grain of the two locks and
        the channels. Tasks keep their order and no send blocks. A generator is dropped exactly by a turn
        whose second reading of its state is ready after a first one that was not, and from then on nothing
        about it changes; so when the two states agree in each turn, none is. */
    method RunScheduler(events: seq<Event>, envs: nat -> Env, answers: nat -> Generator -> NextAnswer)
      returns (blocked: bool, ghost outcomes: seq<Service>)
      requires Valid()
      modifies this, submitted
      ensures Valid() && !blocked
      ensures old(submitted) <= submitted && old(sent) <= sent
      ensures |outcomes| == |events|
      ensures forall i | 0 <= i < |events| ::
        FirstNotReady(outcomes[i], envs(i)) && (events[i].LoopTurn? || outcomes[i] == Nothing)
      ensures lost == old(lost) + Dropped(outcomes, envs)
      ensures forall i | 0 <= i < |events| :: GoneAsParked(outcomes[i], envs(i))
      ensures (forall i | 0 <= i < |events| :: StatesAgree(outcomes[i], envs(i))) ==> lost == old(lost)
      ensures (forall i: nat :: Steady(envs(i))) ==> lost == old(lost)
      ensures NoneMissing() <==> lost == []
    {
      hide Placed, Handed, FirstNotReady, Drops, Dropped, Steady;
      blocked, outcomes := false, [];
      NoneDropped(envs);
      for i := 0 to |events|
        invariant Valid() && !blocked
        invariant old(submitted) <= submitted && fresh(submitted - old(submitted)) && old(sent) <= sent
        invariant |outcomes| == i
        invariant forall k | 0 <= k < i ::
          FirstNotReady(outcomes[k], envs(k)) && (events[k].LoopTurn? || outcomes[k] == Nothing)
        invariant lost == old(lost) + Dropped(outcomes, envs)
        invariant forall k | 0 <= k < i :: GoneAsParked(outcomes[k], envs(k))
      {
        ghost var outcome;
        blocked, outcome := HandleEvent(events[i], envs(i), answers(i));
        DroppedAppend(outcomes, outcome, envs);
        outcomes := outcomes + [outcome];
      }
      if forall i | 0 <= i < |events| :: StatesAgree(outcomes[i], envs(i)) {
        AgreeingStatesDropNone(outcomes, envs);
      }
      if forall i: nat :: Steady(envs(i)) {
        SteadyDropsNone(outcomes, envs);
      }
      OnlyLostAreMissing();
    }

    lemma OnlyLostAreMissing()
      requires Placed()
      ensures NoneMissing() <==> lost == []
    {
      var listed := multiset(generators) + multiset(waitingGenerators) + multiset(doneGenerators);
      assert |listed + multiset(lost)| == |listed| + |lost|;
    }

    /** No generator is done, and those in F hold no task. */
    ghost predicate Unfinished(F: set<Generator>)
      reads this, generators
    {
      forall g | g in generators :: !g.done && (g in F ==> g.remainingTask == None)
    }

    /** Every generator is read as ready; those in F fail and the others yield. */
    ghost predicate Answering(env: Env, answers: Generator -> NextAnswer, F: set<Generator>)
      reads this
    {
      forall g | g in generators :: env(0)(g).ready && (if g in F then answers(g).Failed? else answers(g).Yielded?)
    }

    method SelectOnce(env: Env, answers: Generator -> NextAnswer, ghost F: set<Generator>)
      requires Valid() && waitingGenerators == [] && generators != [] && Unfinished(F) && Answering(env, answers, F)
      modifies this, submitted
      ensures Valid() && waitingGenerators == [] && lost == old(lost) && submitted == old(submitted) && Unfinished(F)
      ensures forall g | g in generators :: g in old(generators)
      ensures NoStarvation.Valid(old(View())) && View() == NoStarvation.Step(old(View()), old(generators[0]) !in F)
    {
      hide Placed, Handed, View, NoStarvation.Step, NoStarvation.Valid, AfterRun;
      PlacedMembers();
      ghost var root := generators[0];
      ghost var outcome;
      var t;
      ghost var pushed, from;
      t, outcome, pushed, from := GenerateTasks(env, 0, answers);
      SameInHeap(root !in F);
      if root in F {
        FailedRunChangesNothing(root, old(TallyOf(root)), answers(root), outcome.now);
      }
      PlacedMembers();
    }

    twostate lemma SameInHeap(new counted: bool)
      requires SelectsRoot(counted)
      ensures forall g | g in generators :: g in old(generators)
    {
      hide NoStarvation.Step;
      assert forall g | g in View().heap :: g in old(View()).heap;
    }

    /** k turns of generateTasks on always ready generators, of which those in F fail and the others yield:
        the heap goes through k steps of the fairness theorem. */
    method RunSelections(k: nat, envs: nat -> Env, answers: nat -> Generator -> NextAnswer, ghost F: set<Generator>)
      requires Valid() && waitingGenerators == [] && generators != [] && Unfinished(F)
      requires forall i: nat :: Answering(envs(i), answers(i), F)
      modifies this, submitted
      ensures Valid() && waitingGenerators == [] && lost == old(lost) && NoStarvation.Valid(old(View()))
      ensures View() == NoStarvation.Run(old(View()), NoStarvation.FailingIn(F), k)
    {
      hide Valid, Unfinished, NoStarvation.Step, NoStarvation.Valid;
      ghost var first := View();
      HeapIsValid();
      for i := 0 to k
        invariant Valid() && waitingGenerators == [] && lost == old(lost) && submitted == old(submitted)
        invariant Unfinished(F)
        invariant forall g | g in generators :: g in old(generators)
        invariant NoStarvation.Valid(first) && View() == NoStarvation.Run(first, NoStarvation.FailingIn(F), i)
      {
        SelectOnce(envs(i), answers(i), F);
        NoStarvation.OneMore(first, NoStarvation.FailingIn(F), i);
      }
    }

    method SelectAny(env: Env, answers: Generator -> NextAnswer) returns (ghost counted: bool)
      requires Valid() && waitingGenerators == [] && generators != []
      requires forall g | g in generators :: !g.done && env(0)(g).ready && !answers(g).Finished?
      modifies this, submitted
      ensures Valid() && waitingGenerators == [] && lost == old(lost) && submitted == old(submitted)
      ensures forall g | g in generators :: g in old(generators) && !g.done
      ensures NoStarvation.Valid(old(View())) && View() == NoStarvation.Step(old(View()), counted)
      ensures counted == Yields(old(generators[0].remainingTask), answers(old(generators[0])))
      ensures forall g | g in generators && g != old(generators[0]) :: g.remainingTask == old(g.remainingTask)
      ensures old(generators[0]).remainingTask.Some? ==> counted
    {
      hide Placed, Handed, View, NoStarvation.Step, NoStarvation.Valid, AfterRun;
      PlacedMembers();
      ghost var root := generators[0];
      counted := Yields(root.remainingTask, answers(root));
      ghost var outcome;
      var t;
      ghost var pushed, from;
      t, outcome, pushed, from := GenerateTasks(env, 0, answers);
      SameInHeap(counted);
      if !counted {
        FailedRunChangesNothing(root, old(TallyOf(root)), answers(root), outcome.now);
      }
      PlacedMembers();
    }

    /** The same with any answers that do not finish a generator: w gives, for each generator and each of its
        runs, whether that run yielded. It did when Next did; when Next failed, then because a task was still
        held, from the run before or from the beginning. */
    method RunAnySelections(k: nat, envs: nat -> Env, answers: nat -> Generator -> NextAnswer)
      returns (ghost w: NoStarvation.Answers<Generator>)
      requires Valid() && waitingGenerators == [] && generators != [] && forall g | g in generators :: !g.done
      requires forall i: nat, g | g in generators :: envs(i)(0)(g).ready && !answers(i)(g).Finished?
      modifies this, submitted
      ensures Valid() && waitingGenerators == [] && lost == old(lost) && NoStarvation.Valid(old(View()))
      ensures View() == NoStarvation.Run(old(View()), w, k)
      ensures forall i | 0 <= i < k :: Explained(old(View()), w, i, answers(i), old(Holding()))
    {
      hide NoStarvation.Step, NoStarvation.Valid, NoStarvation.Run, NoStarvation.Count, NoStarvation.Root;
      hide Valid, Explained, MayHold, View;
      ghost var first, holding := View(), Holding();
      HeapIsValid();
      w := NoStarvation.FailingIn({});
      NoStarvation.AtStart(first, w);
      HoldingMayHold(first, w, holding);
      for i := 0 to k
        invariant Valid() && waitingGenerators == [] && lost == old(lost) && submitted == old(submitted)
        invariant generators != [] && forall g | g in generators :: g in old(generators) && !g.done
        invariant NoStarvation.Valid(first) && View() == NoStarvation.Run(first, w, i)
        invariant forall g | g in generators && g.remainingTask.Some? :: MayHold(first, w, i, g, holding)
        invariant forall j | 0 <= j < i :: Explained(first, w, j, answers(j), holding)
      {
        ghost var root, before := generators[0], w;
        NoStarvation.RootIsFirst(first, w, i);
        HeapOfView();
        ghost var counted := SelectAny(envs(i), answers(i));
        w := NoStarvation.Recorded(before, root, NoStarvation.Count(first, before, i, root), counted);
        NoStarvation.RecordedRun(first, before, i, counted);
        NoStarvation.OneMore(first, w, i);
        RecordedExplains(first, before, i, counted, answers, holding);
        HeapOfView();
      }
    }

    lemma HeapOfView()
      ensures View().heap == generators
    {
    }

    ghost function Holding(): set<Generator>
      reads this, generators
    {
      set g | g in generators && g.remainingTask.Some?
    }

    lemma HeapIsValid()
      requires Valid() && generators != []
      ensures NoStarvation.Valid(View())
    {
      Members();
    }

    /** A generator that the first reading finds not ready and the second one ready is dropped. */
    static method DropsAGenerator() returns (scheduler: Scheduler, gen: Generator)
      ensures fresh(scheduler) && fresh(gen) && scheduler.Valid() && scheduler.submitted == {gen}
      ensures scheduler.generators == scheduler.waitingGenerators == scheduler.doneGenerators == []
      ensures scheduler.lost == [gen] && !scheduler.NoneMissing()
    {
      hide Scheduler.Placed, Scheduler.Handed;
      scheduler := new Scheduler(1);
      gen := scheduler.SubmitGenerator(0, LowPriority);
      scheduler.OnlyOne(gen);
      var blocks;
      ghost var outcome;
      blocks, outcome := scheduler.DispatchTurn(k => g => Reading(0, k > 0), g => Failed);
      scheduler.OnlyLost(gen);
    }

    lemma OnlyOne(gen: Generator)
      requires multiset(generators) == multiset([]) + multiset{gen}
      ensures generators == [gen]
    {
      assert |multiset(generators)| == |generators|;
      assert generators[0] in multiset(generators);
    }

    lemma OnlyLost(gen: Generator)
      requires Placed() && submitted == {gen} && lost == [gen]
      ensures generators == waitingGenerators == doneGenerators == [] && !NoneMissing()
    {
      OnlyLostAreMissing();
      var all := multiset(generators) + multiset(waitingGenerators) + multiset(doneGenerators) + multiset(lost);
      assert |all| == |generators| + |waitingGenerators| + |doneGenerators| + |lost|;
      assert all == multiset{gen};
    }
  }

  datatype Event =
    | LoopTurn
    | WorkerReceives
    | TaskSubmitted(id: int, priority: Priority)
    | GeneratorSubmitted(interval: int, priority: Priority)
    | ShutdownBegun

  lemma {:induction false} NotOwned(s: seq<Option<Task>>, g: Generator)
    requires forall t | t in s && t.Some? :: t.value.owner != Some(g)
    ensures Owned(s, g) == []
  {
    if s != [] {
      assert s[0] in s;
      NotOwned(s[1..], g);
    }
  }

  lemma Regrouped(sent: seq<Task>, task: seq<Task>, queued: seq<Task>, held: seq<Task>)
    ensures sent + (task + queued) + held == (sent + task) + queued + held
  {
  }

  /** The k-th reading of a turn, when it is taken of a generator. */
  type Env = nat -> Generator -> Reading

  datatype Snapshot = Snapshot(
    view: NoStarvation.Selection<Generator>, waiting: seq<Generator>, standings: map<Generator, Standing>,
    remaining: map<Generator, Option<Task>>)

  /** Whether g is ready at the k-th reading, as the snapshot has it. */
  ghost predicate ReadyAt(s: Snapshot, g: Generator, env: Env, k: nat) {
    g in s.standings && StateAt(s.standings[g], env(k)(g)) == Ready
  }

  ghost predicate ReadySometime(s: Snapshot, g: Generator, env: Env, from: nat) {
    exists k: nat :: k >= from && ReadyAt(s, g, env, k)
  }

  /** No generator outranks its parent. */
  ghost predicate InHeapOrder(v: NoStarvation.Selection<Generator>) {
    KeysCover(v.heap, v.key) && HeapOrdered(v.heap, v.key, |v.heap|)
  }

  /** The ready generators were pushed: the heap has those it had, the waiting ones that are ready at every
      reading, and no waiting one that is ready at none; counts and held tasks are what they were,
      and a heap in order stays in order. */
  ghost predicate PushedReady(before: Snapshot, pushed: Snapshot, env: Env, from: nat) {
    && (forall g | g in before.view.heap :: g in pushed.view.heap)
    && (forall g | g in pushed.view.heap && g !in before.view.heap ::
          g in before.waiting && ReadySometime(before, g, env, from))
    && (forall g | g in before.waiting && (forall k: nat | k >= from :: ReadyAt(before, g, env, k)) ::
          g in pushed.view.heap)
    && (forall g | g in before.waiting && !ReadySometime(before, g, env, from) :: g in pushed.waiting)
    && pushed.view.key == before.view.key && pushed.remaining == before.remaining
    && (InHeapOrder(before.view) ==> InHeapOrder(pushed.view))
  }

  /** What a turn did to the heap; the readings of a parked generator begin at `at`. */
  datatype Service =
    | Nothing
    | Ran(gen: Generator, now: int)
    | Parked(gen: Generator, at: nat, standing: Standing)

  /** The state of a parked generator is read twice, before and after it leaves the heap. */
  predicate FirstNotReady(o: Service, env: Env) {
    o.Parked? ==> StateAt(o.standing, env(o.at)(o.gen)) != Ready
  }

  predicate Drops(o: Service, env: Env) {
    o.Parked? && StateAt(o.standing, env(o.at + 1)(o.gen)) == Ready
  }

  lemma NothingDrops(env: Env)
    ensures FirstNotReady(Nothing, env) && !Drops(Nothing, env)
  {
  }

  /** The generators that the turns of a run dropped, in order. */
  function Dropped(outcomes: seq<Service>, envs: nat -> Env): seq<Generator> {
    if outcomes == [] then []
    else
      var n := |outcomes| - 1;
      var before := Dropped(outcomes[..n], envs);
      if Drops(outcomes[n], envs(n)) then before + [outcomes[n].gen] else before
  }

  lemma DroppedAppend(outcomes: seq<Service>, o: Service, envs: nat -> Env)
    ensures Dropped(outcomes + [o], envs) ==
            Dropped(outcomes, envs) + (if Drops(o, envs(|outcomes|)) then [o.gen] else [])
  {
    assert (outcomes + [o])[..|outcomes|] == outcomes;
  }

  lemma NoneDropped(envs: nat -> Env)
    ensures Dropped([], envs) == []
  {
  }

  /** The two states read of the parked generator agree. */
  predicate StatesAgree(o: Service, env: Env) {
    o.Parked? ==> StateAt(o.standing, env(o.at)(o.gen)) == StateAt(o.standing, env(o.at + 1)(o.gen))
  }

  lemma {:induction false} AgreeingStatesDropNone(outcomes: seq<Service>, envs: nat -> Env)
    requires forall i | 0 <= i < |outcomes| :: FirstNotReady(outcomes[i], envs(i)) && StatesAgree(outcomes[i], envs(i))
    ensures Dropped(outcomes, envs) == []
  {
    if outcomes != [] {
      AgreeingStatesDropNone(outcomes[..|outcomes| - 1], envs);
    }
  }

  /** The readings of a turn agree. */
  ghost predicate Steady(env: Env) {
    forall k: nat :: env(k) == env(0)
  }

  lemma SteadyDropsNone(outcomes: seq<Service>, envs: nat -> Env)
    requires forall i: nat :: Steady(envs(i))
    requires forall i | 0 <= i < |outcomes| :: FirstNotReady(outcomes[i], envs(i))
    ensures Dropped(outcomes, envs) == []
  {
    forall i | 0 <= i < |outcomes| ensures StatesAgree(outcomes[i], envs(i)) {
      assert Steady(envs(i));
    }
    AgreeingStatesDropNone(outcomes, envs);
  }

  /** After k selections g may hold a task: it holds one from the beginning, or its last run yielded. */
  ghost predicate MayHold(first: NoStarvation.Selection<Generator>, w: NoStarvation.Answers<Generator>, k: nat,
                          g: Generator, holding: set<Generator>)
    requires NoStarvation.Valid(first)
  {
    var n := NoStarvation.Count(first, w, k, g);
    if n == 0 then g in holding else w(g, n - 1)
  }

  /** Whether selection k yielded, in terms of what Next would answer. */
  ghost predicate Explained(first: NoStarvation.Selection<Generator>, w: NoStarvation.Answers<Generator>, k: nat,
                            answers: Generator -> NextAnswer, holding: set<Generator>)
    requires NoStarvation.Valid(first)
  {
    var root := NoStarvation.Root(first, w, k);
    && (answers(root).Yielded? ==> NoStarvation.YieldsAt(first, w, k))
    && (answers(root).Failed? && NoStarvation.YieldsAt(first, w, k) ==> MayHold(first, w, k, root, holding))
  }

  lemma HoldingMayHold(first: NoStarvation.Selection<Generator>, w: NoStarvation.Answers<Generator>,
                       holding: set<Generator>)
    requires NoStarvation.Valid(first)
    ensures forall g | g in holding :: MayHold(first, w, 0, g, holding)
  {
    NoStarvation.AtStart(first, w);
  }

  /** What recording the answer of selection i leaves, and what it adds. */
  lemma RecordedExplains(first: NoStarvation.Selection<Generator>, w: NoStarvation.Answers<Generator>, i: nat,
                         counted: bool, answers: nat -> Generator -> NextAnswer, holding: set<Generator>)
    requires NoStarvation.Valid(first)
    requires var root := NoStarvation.Root(first, w, i);
      && (answers(i)(root).Yielded? ==> counted)
      && (answers(i)(root).Failed? && counted ==> MayHold(first, w, i, root, holding))
    ensures var root := NoStarvation.Root(first, w, i);
      var w' := NoStarvation.Recorded(w, root, NoStarvation.Count(first, w, i, root), counted);
      && Explained(first, w', i, answers(i), holding)
      && (forall j | 0 <= j < i && Explained(first, w, j, answers(j), holding) ::
          Explained(first, w', j, answers(j), holding))
      && (forall g | g in first.heap && g != root && MayHold(first, w, i, g, holding) ::
          MayHold(first, w', i + 1, g, holding))
      && (counted ==> MayHold(first, w', i + 1, root, holding))
  {
    hide NoStarvation.Step, NoStarvation.Run, NoStarvation.Root, NoStarvation.Count, NoStarvation.YieldsAt;
    var root := NoStarvation.Root(first, w, i);
    var w' := NoStarvation.Recorded(w, root, NoStarvation.Count(first, w, i, root), counted);
    NoStarvation.RecordedRun(first, w, i, counted);
    forall j, g | 0 <= j <= i && g in first.heap
      ensures MayHold(first, w', j, g, holding) == MayHold(first, w, j, g, holding)
    {
      NoStarvation.CountsNeverDrop(first, w, g, j, i);
      assert NoStarvation.Root(first, w', j) == NoStarvation.Root(first, w, j);
      assert NoStarvation.Count(first, w', j, g) == NoStarvation.Count(first, w, j, g);
    }
    forall g | g in first.heap && g != root && MayHold(first, w, i, g, holding)
      ensures MayHold(first, w', i + 1, g, holding)
    {
      NoStarvation.OneMoreCount(first, w', i, g);
    }
    NoStarvation.OneMoreCount(first, w', i, root);
  }

  /** The run may not finish the generator, so its count does not start again. */
  ghost predicate Counts(remaining: Option<Task>, answer: NextAnswer) {
    remaining.Some? || !answer.Finished?
  }

  lemma SelectionStep(before: NoStarvation.Selection<Generator>, after: NoStarvation.Selection<Generator>,
                      counted: bool)
    requires NoStarvation.Valid(before) && after.heap == Down(before.heap, before.key, 0, |before.heap|)
    requires after.key.Keys == before.key.Keys
    requires forall g | g in before.key && g != before.heap[0] :: after.key[g] == before.key[g]
    requires after.key[before.heap[0]] ==
             if counted then NoStarvation.Bump(before.key[before.heap[0]]) else before.key[before.heap[0]]
    ensures after == NoStarvation.Step(before, counted)
  {
    hide NoStarvation.Step, Down;
    NoStarvation.StepKeys(before, counted);
    NoStarvation.StepHeap(before, counted);
    assert after.key ==
           if counted then before.key[before.heap[0] := NoStarvation.Bump(before.key[before.heap[0]])] else before.key;
  }

  lemma Moved<T>(heap: seq<T>, heap': seq<T>, waiting: seq<T>, waiting': seq<T>, i: nat)
    requires i < |waiting| && waiting' == waiting[..i] + waiting[i + 1..]
    requires multiset(heap') == multiset(heap) + multiset{waiting[i]}
    ensures forall x | x in heap :: x in heap'
    ensures waiting[i] in heap' && forall x | x in heap' :: x in heap || x == waiting[i]
    ensures forall x | x in waiting' :: x in waiting
    ensures forall x | x in waiting :: x in waiting' || x == waiting[i]
  {
    RemovedAt(waiting, i);
    forall x | x in heap ensures x in heap' {
      assert x in multiset(heap) && x in multiset(heap');
    }
    assert waiting[i] in multiset(heap');
    forall x | x in heap' ensures x in heap || x == waiting[i] {
      assert x in multiset(heap');
    }
    forall x | x in waiting && x != waiting[i] ensures x in waiting' {
      assert x in multiset(waiting) && x in multiset(waiting');
    }
  }

  lemma RemovedAt<T>(s: seq<T>, i: nat)
    requires i < |s|
    ensures multiset(s) == multiset(s[..i] + s[i + 1..]) + multiset{s[i]}
    ensures forall x | x in s[..i] + s[i + 1..] :: x in s
  {
    assert s == s[..i] + [s[i]] + s[i + 1..];
  }

  lemma {:induction false} OnceIsDistinct(s: seq<Generator>)
    requires forall g :: multiset(s)[g] <= 1
    ensures Distinct(s)
  {
    forall i, j | 0 <= i < j < |s| ensures s[i] != s[j] {
      if s[i] == s[j] {
        RepetitionCounts(s, i, j);
      }
    }
  }
}
