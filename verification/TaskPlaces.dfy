/**
 A generator's tasks from Next to the end of their execution: what module Scheduler says up to the
 channel and module WorkerPool says from the channel on, put together. The pool knows a task by its
 number among the tasks sent.
 */
module TaskPlaces {
  import opened Generators
  import opened Optional
  import WorkerPool

  function Numbers(n: nat): (s: seq<nat>)
    ensures |s| == n
  {
    seq(n, i => i)
  }

  lemma {:induction false} NumberedOnce(n: nat, i: nat)
    requires i < n
    ensures multiset(Numbers(n))[i] == 1
  {
    assert Numbers(n) == Numbers(n - 1) + [n - 1];
    if i < n - 1 {
      NumberedOnce(n - 1, i);
    } else {
      assert i !in Numbers(n - 1);
    }
  }

  /** In a channel, a task of g occurs as often as among the tasks of g. */
  lemma {:induction false} OwnedOccurs(s: seq<Option<Task>>, g: Generator, x: Task)
    requires x.owner == Some(g)
    ensures multiset(Owned(s, g))[x] == multiset(s)[Some(x)]
  {
    if s != [] {
      OwnedOccurs(s[1..], g, x);
      assert s == [s[0]] + s[1..];
    }
  }

  /** Each task that Next produced is in exactly one place: held by its generator, in the queue, or sent; and
      each task sent is, in any state that the pool's goroutines can reach, in exactly one of the worker
      channel, the hands of one worker that has not executed it yet, and the executed tasks. */
  lemma EveryTaskInOnePlace(t: Tally, sent: seq<Option<Task>>, g: Generator, p: WorkerPool.Pool<nat>, x: Task)
    requires InOrder(t, sent, g) && x.owner == Some(g)
    requires WorkerPool.Reachable(p) && p.sent == Numbers(|sent|)
    ensures multiset(t.produced)[x] ==
      multiset(Held(t.remaining))[x] + multiset(t.queue)[Some(x)] + multiset(sent)[Some(x)]
    ensures forall i: nat | i < |sent| ::
      multiset(p.chan)[i] + WorkerPool.InHand(p.workers, i) + multiset(p.finished)[i] == 1
  {
    OwnedOccurs(sent, g, x);
    OwnedOccurs(t.queue, g, x);
    WorkerPool.ReachableHolds(p);
    assert p.sent == p.received + p.chan;
    forall i: nat | i < |sent|
      ensures multiset(p.chan)[i] + WorkerPool.InHand(p.workers, i) + multiset(p.finished)[i] == 1
    {
      NumberedOnce(|sent|, i);
      WorkerPool.TimesIsMultiplicity(p.received, i);
      WorkerPool.TimesIsMultiplicity(p.finished, i);
    }
  }
}
