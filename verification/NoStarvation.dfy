/**
 Fairness of the generator heap.

 A selection step takes the root, repairs the heap at the root with the key the
 root had before the step, and only then counts a task, if the run yielded one. The
 key that dropped therefore sits somewhere inside the heap and the next repair, which
 again starts at the root, need not meet it: heap order is not an invariant.
 Still every generator comes back to the root, again and again, if and only if
 none of them stops yielding.
 */
module NoStarvation {
  import opened RankedHeap

  datatype Selection<T> = Selection(heap: seq<T>, key: map<T, Key>)

  ghost predicate Valid<T>(s: Selection<T>) {
    s.heap != [] && Distinct(s.heap) && KeysCover(s.heap, s.key)
  }

  function Bump(k: Key): Key {
    k.(taskCount := k.taskCount + 1)
  }

  /** One selection of an always ready generator, which yields a task or fails. */
  ghost function Step<T>(s: Selection<T>, counted: bool): (r: Selection<T>)
    requires Valid(s)
    ensures Valid(r)
    ensures forall x | x in s.heap :: x in r.heap
    ensures forall x | x in r.heap :: x in s.heap
  {
    var heap := Down(s.heap, s.key, 0, |s.heap|);
    PermutationFacts(s.heap, heap);
    Selection(heap, if counted then s.key[s.heap[0] := Bump(s.key[s.heap[0]])] else s.key)
  }

  /** Whether a generator's run yields a task, by the number of its runs before. */
  type Answers<!T> = (T, nat) -> bool

  /** The heap after k selections. */
  ghost function Run<T>(s: Selection<T>, w: Answers<T>, k: nat): (r: Selection<T>)
    requires Valid(s)
    ensures Valid(r)
    ensures forall x | x in s.heap :: x in r.heap
    ensures forall x | x in r.heap :: x in s.heap
    decreases k, 0
  {
    if k == 0 then s else Step(Run(s, w, k - 1), YieldsAt(s, w, k - 1))
  }

  /** The generator selected after k steps. */
  ghost function Root<T>(s: Selection<T>, w: Answers<T>, k: nat): (x: T)
    requires Valid(s)
    ensures x in s.heap
    decreases k, 1
  {
    var r := Run(s, w, k);
    assert r.heap[0] in r.heap;
    r.heap[0]
  }

  /** How often x was selected in the first k steps. */
  ghost function Count<T>(s: Selection<T>, w: Answers<T>, k: nat, x: T): nat
    requires Valid(s)
    decreases k, 0
  {
    if k == 0 then 0 else Count(s, w, k - 1, x) + if Root(s, w, k - 1) == x then 1 else 0
  }

  ghost predicate YieldsAt<T>(s: Selection<T>, w: Answers<T>, k: nat)
    requires Valid(s)
    decreases k, 2
  {
    w(Root(s, w, k), Count(s, w, k, Root(s, w, k)))
  }

  /** x is selected again after any number of selections. */
  ghost predicate Recurs<T>(s: Selection<T>, w: Answers<T>, x: T)
    requires Valid(s)
  {
    forall n: nat :: SelectedAfter(s, w, x, n)
  }

  ghost predicate SelectedAfter<T>(s: Selection<T>, w: Answers<T>, x: T, n: nat)
    requires Valid(s)
  {
    exists k: nat :: k >= n && Root(s, w, k) == x
  }

  /** However often x has run, one of its later runs yields. */
  ghost predicate KeepsYielding<T>(w: Answers<T>, x: T) {
    forall n: nat :: YieldsAfter(w, x, n)
  }

  ghost predicate YieldsAfter<T>(w: Answers<T>, x: T, n: nat) {
    exists j: nat :: j >= n && w(x, j)
  }

  /** x is selected and yields after any number of selections. */
  ghost predicate YieldsForever<T>(s: Selection<T>, w: Answers<T>, x: T)
    requires Valid(s)
  {
    forall n: nat :: SelectedYieldsAfter(s, w, x, n)
  }

  ghost predicate SelectedYieldsAfter<T>(s: Selection<T>, w: Answers<T>, x: T, n: nat)
    requires Valid(s)
  {
    exists k: nat :: k >= n && Root(s, w, k) == x && YieldsAt(s, w, k)
  }

  // ----- answers that are recorded as they are given

  function Recorded<T(==)>(w: Answers<T>, x: T, n: nat, answer: bool): Answers<T> {
    (y, m: nat) => if y == x && m == n then answer else w(y, m)
  }

  lemma AtStart<T>(s: Selection<T>, w: Answers<T>)
    requires Valid(s)
    ensures Run(s, w, 0) == s && forall x :: Count(s, w, 0, x) == 0
  {
  }

  /** The first k selections depend on no other answers than those given in them. */
  lemma {:induction false} RunAgrees<T>(s: Selection<T>, w: Answers<T>, w': Answers<T>, k: nat)
    requires Valid(s) && forall j | 0 <= j < k :: YieldsAt(s, w, j) == w'(Root(s, w, j), Count(s, w, j, Root(s, w, j)))
    ensures Run(s, w', k) == Run(s, w, k) && Root(s, w', k) == Root(s, w, k)
    ensures forall x :: Count(s, w', k, x) == Count(s, w, k, x)
    decreases k
  {
    hide Step;
    if k > 0 {
      RunAgrees(s, w, w', k - 1);
    }
  }

  /** Recording the answer of selection k changes nothing before. */
  lemma RecordedRun<T>(s: Selection<T>, w: Answers<T>, k: nat, answer: bool)
    requires Valid(s)
    ensures var w' := Recorded(w, Root(s, w, k), Count(s, w, k, Root(s, w, k)), answer);
      && YieldsAt(s, w', k) == answer && Run(s, w', k) == Run(s, w, k)
      && (forall j | 0 <= j <= k ::
            Root(s, w', j) == Root(s, w, j) && forall x :: Count(s, w', j, x) == Count(s, w, j, x))
      && (forall j | 0 <= j < k :: YieldsAt(s, w', j) == YieldsAt(s, w, j))
  {
    hide Step, Run, Root, Count;
    var x := Root(s, w, k);
    var w' := Recorded(w, x, Count(s, w, k, x), answer);
    forall j | 0 <= j < k ensures YieldsAt(s, w, j) == w'(Root(s, w, j), Count(s, w, j, Root(s, w, j))) {
      OneMoreCount(s, w, j, Root(s, w, j));
      CountsNeverDrop(s, w, Root(s, w, j), j + 1, k);
    }
    forall j | 0 <= j <= k
      ensures Root(s, w', j) == Root(s, w, j) && forall y :: Count(s, w', j, y) == Count(s, w, j, y)
      ensures j == k ==> Run(s, w', j) == Run(s, w, j)
    {
      RunAgrees(s, w, w', j);
    }
  }

  // ----- counting

  lemma StepKeys<T>(s: Selection<T>, counted: bool)
    requires Valid(s)
    ensures Step(s, counted).key == if counted then s.key[s.heap[0] := Bump(s.key[s.heap[0]])] else s.key
  {
  }

  lemma StepHeap<T>(s: Selection<T>, counted: bool)
    requires Valid(s)
    ensures Step(s, counted).heap == Down(s.heap, s.key, 0, |s.heap|)
  {
  }

  lemma OneMore<T>(s: Selection<T>, w: Answers<T>, k: nat)
    requires Valid(s)
    ensures Run(s, w, k + 1) == Step(Run(s, w, k), YieldsAt(s, w, k))
    ensures Root(s, w, k) == Run(s, w, k).heap[0]
  {
    hide Step, YieldsAt;
  }

  lemma OneMoreCount<T>(s: Selection<T>, w: Answers<T>, k: nat, x: T)
    requires Valid(s)
    ensures Count(s, w, k + 1, x) == Count(s, w, k, x) + if Root(s, w, k) == x then 1 else 0
  {
    hide Run, Root, YieldsAt;
  }

  /** What step k does to the key of x. */
  lemma OneMoreKey<T>(s: Selection<T>, w: Answers<T>, k: nat, x: T)
    requires Valid(s) && x in s.heap
    ensures
      Run(s, w, k + 1).key[x] ==
      if Root(s, w, k) == x && YieldsAt(s, w, k) then Bump(Run(s, w, k).key[x]) else Run(s, w, k).key[x]
  {
    hide Step, Run, Root, YieldsAt, Count;
    OneMore(s, w, k);
    StepKeys(Run(s, w, k), YieldsAt(s, w, k));
  }

  lemma {:induction false} CountsNeverDrop<T>(s: Selection<T>, w: Answers<T>, x: T, j: nat, k: nat)
    requires Valid(s) && x in s.heap && j <= k
    ensures Run(s, w, k).key[x].taskCount >= Run(s, w, j).key[x].taskCount
    ensures Count(s, w, k, x) >= Count(s, w, j, x)
    decreases k
  {
    hide Run, Root, YieldsAt, Count;
    if j < k {
      OneMoreCount(s, w, k - 1, x);
      OneMoreKey(s, w, k - 1, x);
      CountsNeverDrop(s, w, x, j, k - 1);
    }
  }

  /** A key that no yielding run of x touches stays. */
  lemma {:induction false} KeyStays<T>(s: Selection<T>, w: Answers<T>, x: T, j: nat, k: nat)
    requires Valid(s) && x in s.heap && j <= k
    requires forall i | j <= i < k :: Root(s, w, i) == x ==> !YieldsAt(s, w, i)
    ensures Run(s, w, k).key[x] == Run(s, w, j).key[x]
    decreases k
  {
    hide Run, Root, YieldsAt, Count;
    if j < k {
      OneMoreKey(s, w, k - 1, x);
      KeyStays(s, w, x, j, k - 1);
    }
  }

  /** A recurring generator has its n-th run at some time. */
  lemma {:induction false} FindRun<T>(s: Selection<T>, w: Answers<T>, x: T, from: nat, next: nat, n: nat)
    returns (k: nat)
    requires Valid(s) && x in s.heap && Recurs(s, w, x) && from <= next && Root(s, w, next) == x
    requires Count(s, w, from, x) <= n
    ensures k >= from && Root(s, w, k) == x && Count(s, w, k, x) == n
    decreases n - Count(s, w, from, x), next - from
  {
    hide Run, Root, YieldsAt;
    if Root(s, w, from) != x {
      k := FindRun(s, w, x, from + 1, next, n);
    } else if Count(s, w, from, x) == n {
      k := from;
    } else {
      assert SelectedAfter(s, w, x, from + 1);
      var later: nat :| later >= from + 1 && Root(s, w, later) == x;
      k := FindRun(s, w, x, from + 1, later, n);
    }
  }

  lemma RecurringYields<T>(s: Selection<T>, w: Answers<T>, x: T)
    requires Valid(s) && x in s.heap && Recurs(s, w, x) && KeepsYielding(w, x)
    ensures YieldsForever(s, w, x)
  {
    hide Run, Root, Count;
    forall n: nat ensures SelectedYieldsAfter(s, w, x, n) {
      assert YieldsAfter(w, x, Count(s, w, n, x)) && SelectedAfter(s, w, x, n);
      var j: nat :| j >= Count(s, w, n, x) && w(x, j);
      var next: nat :| next >= n && Root(s, w, next) == x;
      var k := FindRun(s, w, x, n, next, j);
      assert YieldsAt(s, w, k);
    }
  }

  lemma YieldingAnswers<T>(s: Selection<T>, w: Answers<T>, x: T)
    requires Valid(s) && x in s.heap && YieldsForever(s, w, x)
    ensures KeepsYielding(w, x) && Recurs(s, w, x)
  {
    hide Run, Root, Count;
    forall n: nat ensures SelectedAfter(s, w, x, n) {
      assert SelectedYieldsAfter(s, w, x, n);
    }
    forall n: nat ensures YieldsAfter(w, x, n) {
      assert SelectedAfter(s, w, x, 0);
      var next: nat :| next >= 0 && Root(s, w, next) == x;
      CountStart(s, w, x);
      var k0 := FindRun(s, w, x, 0, next, n);
      assert SelectedYieldsAfter(s, w, x, k0);
      var k: nat :| k >= k0 && Root(s, w, k) == x && YieldsAt(s, w, k);
      CountsNeverDrop(s, w, x, k0, k);
      assert w(x, Count(s, w, k, x));
    }
  }

  lemma CountStart<T>(s: Selection<T>, w: Answers<T>, x: T)
    requires Valid(s)
    ensures Count(s, w, 0, x) == 0
  {
  }

  /** The task count of a generator that yields for ever passes any bound... */
  lemma {:induction false} Grows<T>(s: Selection<T>, w: Answers<T>, x: T, n: nat, bound: nat) returns (k: nat)
    requires Valid(s) && x in s.heap && YieldsForever(s, w, x)
    ensures k >= n && Run(s, w, k).key[x].taskCount >= bound
    decreases bound
  {
    hide Run, Root, YieldsAt, Count;
    if bound == 0 {
      return n;
    }
    var j := Grows(s, w, x, n, bound - 1);
    assert SelectedYieldsAfter(s, w, x, j);
    var i: nat :| i >= j && Root(s, w, i) == x && YieldsAt(s, w, i);
    CountsNeverDrop(s, w, x, j, i);
    OneMoreKey(s, w, i, x);
    k := i + 1;
  }

  /** ... and that of several together. */
  lemma {:induction false} AllGrow<T>(s: Selection<T>, w: Answers<T>, S: set<T>, xs: seq<T>, n: nat, bound: nat)
    returns (k: nat)
    requires Valid(s) && forall x | x in xs :: x in s.heap && (x in S ==> YieldsForever(s, w, x))
    ensures k >= n && forall x | x in xs && x in S :: Run(s, w, k).key[x].taskCount >= bound
    decreases |xs|
  {
    hide Run, Count, YieldsForever, Root;
    if xs == [] {
      return n;
    }
    assert xs == [xs[0]] + xs[1..];
    var j := AllGrow(s, w, S, xs[1..], n, bound);
    k := j;
    if xs[0] in S {
      k := Grows(s, w, xs[0], j, bound);
    }
    forall x | x in xs && x in S ensures Run(s, w, k).key[x].taskCount >= bound {
      CountsNeverDrop(s, w, x, j, k);
    }
  }

  // ----- a set that ranks below everything outside

  /** Every member of S with at least `bound` tasks is outranked by everything outside S. */
  ghost predicate Bounds<T>(s: Selection<T>, S: set<T>, bound: nat)
    requires Valid(s)
  {
    forall x | x in s.heap && x !in S :: MAX_WEIGHT * (1 + s.key[x].taskCount) <= bound
  }

  ghost predicate OutsidersOnTop<T>(h: seq<T>, key: map<T, Key>, S: set<T>)
    requires KeysCover(h, key)
  {
    forall e, f | e in h && e in S && f in h && f !in S :: Outranks(key[f], key[e])
  }

  ghost predicate Dominated<T>(s: Selection<T>, S: set<T>)
    requires Valid(s)
  {
    OutsidersOnTop(s.heap, s.key, S)
  }

  lemma {:induction false} GrownAreDominated<T>(s: Selection<T>, S: set<T>, bound: nat)
    requires Valid(s) && Bounds(s, S, bound)
    requires forall e | e in s.heap && e in S :: s.key[e].taskCount >= bound
    ensures Dominated(s, S)
  {
    forall e, f | e in s.heap && e in S && f in s.heap && f !in S ensures Outranks(s.key[f], s.key[e]) {
      RankBelow(s.key[f], s.key[e]);
    }
  }

  lemma RankBelow(f: Key, e: Key)
    requires MAX_WEIGHT * (1 + f.taskCount) <= e.taskCount
    ensures Outranks(f, e)
  {
    var w := Weight(e.priority);
    assert w * (1 + f.taskCount) <= MAX_WEIGHT * (1 + f.taskCount) by {
      assert (MAX_WEIGHT - w) * (1 + f.taskCount) >= 0;
    }
    assert Weight(f.priority) * (1 + e.taskCount) >= 1 + e.taskCount;
  }

  ghost function SomeBound<T>(h: seq<T>, key: map<T, Key>): (b: nat)
    requires KeysCover(h, key)
    ensures forall x | x in h :: MAX_WEIGHT * (1 + key[x].taskCount) <= b
  {
    if h == [] then 0
    else
      var rest := SomeBound(h[1..], key);
      var b := MAX_WEIGHT * (1 + key[h[0]].taskCount);
      if b < rest then rest else b
  }

  // ----- how an element outside S climbs once S is dominated

  /** A sift-down of a member of S either brings an outsider into the parent position of
      an outsider at m, or touches neither m nor its parent. */
  lemma {:induction false} SiftMeetsOutsider<T>(h: seq<T>, key: map<T, Key>, S: set<T>, i: nat, p: nat, m: nat)
    requires KeysCover(h, key) && OutsidersOnTop(h, key, S) && i < m < |h| && Below(p, m)
    requires h[i] in S && h[m] !in S
    ensures var r := Down(h, key, i, |h|); r[p] !in S || (p != i && r[p] == h[p] && r[m] == h[m])
    decreases |h| - i
  {
    hide Outranks, OutsidersOnTop;
    var n := |h|;
    if 2 * i + 1 < n {
      var j := TopChild(h, key, i, n);
      if p == i {
        OutsiderChildWins(h, key, S, i, m);
      } else if Outranks(key[h[j]], key[h[i]]) {
        SwapPermutes(h, i, j);
        if j < m {
          SwapKeepsOrder(h, key, S, i, j);
          SiftMeetsOutsider(Swap(h, i, j), key, S, j, p, m);
        }
      }
    }
  }

  lemma SwapKeepsOrder<T>(h: seq<T>, key: map<T, Key>, S: set<T>, i: nat, j: nat)
    requires KeysCover(h, key) && OutsidersOnTop(h, key, S) && i < |h| && j < |h|
    ensures KeysCover(Swap(h, i, j), key) && OutsidersOnTop(Swap(h, i, j), key, S)
  {
    SwapPermutes(h, i, j);
  }

  lemma OutsiderChildWins<T>(h: seq<T>, key: map<T, Key>, S: set<T>, i: nat, m: nat)
    requires KeysCover(h, key) && OutsidersOnTop(h, key, S)
    requires 0 < m < |h| && Below(i, m) && h[i] in S && h[m] !in S
    ensures var j := TopChild(h, key, i, |h|); h[j] !in S && Outranks(key[h[j]], key[h[i]])
  {
    assert h[i] in h && h[2 * i + 1] in h;
    if 2 * i + 2 < |h| {
      assert h[2 * i + 2] in h;
    }
  }

  lemma {:induction false} DominatedStays<T>(s: Selection<T>, S: set<T>, counted: bool)
    requires Valid(s) && Dominated(s, S) && s.heap[0] in S
    ensures Dominated(Step(s, counted), S)
  {
    var r := Step(s, counted);
    forall e, f | e in r.heap && e in S && f in r.heap && f !in S ensures Outranks(r.key[f], r.key[e]) {
      assert Outranks(s.key[f], s.key[e]);
      MoreTasksRankLower(s.key[f], s.key[e]);
    }
  }

  lemma MoreTasksRankLower(f: Key, e: Key)
    requires Outranks(f, e)
    ensures Outranks(f, Bump(e))
  {
    assert Weight(f.priority) * (1 + Bump(e).taskCount) == Weight(f.priority) * (1 + e.taskCount) + Weight(f.priority);
  }

  ghost predicate OutsiderBefore<T>(s: Selection<T>, S: set<T>, m: nat)
    requires Valid(s)
  {
    exists q: nat :: q < m && q < |s.heap| && s.heap[q] !in S
  }

  lemma OneStepNearOutsider<T>(s: Selection<T>, S: set<T>, m: nat, counted: bool)
    requires Valid(s) && Dominated(s, S) && s.heap[0] in S
    requires 0 < m < |s.heap| && s.heap[m] !in S
    ensures OutsiderBefore(Step(s, counted), S, m) || ((m - 1) / 2 != 0 && SameAt(s.heap, Step(s, counted).heap, m))
  {
    SiftMeetsOutsider(s.heap, s.key, S, 0, (m - 1) / 2, m);
    var t := Step(s, counted);
    if t.heap[(m - 1) / 2] !in S {
      assert OutsiderBefore(t, S, m);
    }
  }

  ghost predicate SameAt<T>(h: seq<T>, g: seq<T>, m: nat)
    requires 0 < m < |h|
  {
    |g| == |h| && g[m] == h[m] && g[(m - 1) / 2] == h[(m - 1) / 2]
  }

  /** Until an outsider is selected or moves closer to the root, the outsider at m and the element
      above it stay where they are. */
  lemma {:induction false} ParentIsFrozen<T>(s: Selection<T>, w: Answers<T>, S: set<T>, m: nat, n: nat, k: nat)
    returns (j: nat)
    requires Valid(s) && n <= k && Dominated(Run(s, w, n), S)
    requires 0 < m < |Run(s, w, n).heap| && Run(s, w, n).heap[m] !in S
    ensures n <= j <= k && Dominated(Run(s, w, j), S)
    ensures
      || Root(s, w, j) !in S || OutsiderBefore(Run(s, w, j), S, m)
      || (j == k && SameAt(Run(s, w, n).heap, Run(s, w, k).heap, m))
    decreases k - n
  {
    hide Step, Dominated, OutsiderBefore;
    if n == k || Root(s, w, n) !in S {
      return n;
    }
    var counted := YieldsAt(s, w, n);
    assert Run(s, w, n + 1) == Step(Run(s, w, n), counted);
    OneStepNearOutsider(Run(s, w, n), S, m, counted);
    DominatedStays(Run(s, w, n), S, counted);
    if OutsiderBefore(Run(s, w, n + 1), S, m) {
      return n + 1;
    }
    j := ParentIsFrozen(s, w, S, m, n + 1, k);
  }

  /** Once S is dominated, the element above an outsider cannot reach the root without letting the
      outsider climb. */
  lemma {:induction false} Climbs<T>(s: Selection<T>, w: Answers<T>, S: set<T>, m: nat, n: nat) returns (k: nat)
    requires Valid(s) && Dominated(Run(s, w, n), S)
    requires m < |Run(s, w, n).heap| && Run(s, w, n).heap[m] !in S
    requires forall e | e in S && e in s.heap :: Recurs(s, w, e)
    ensures k >= n && Root(s, w, k) !in S
    decreases m
  {
    hide Step, Run, Count, YieldsAt, Dominated;
    RootIsFirst(s, w, n);
    if Root(s, w, n) !in S {
      return n;
    }
    var e := Run(s, w, n).heap[(m - 1) / 2];
    assert e in Run(s, w, n).heap;
    if e !in S {
      k := Climbs(s, w, S, (m - 1) / 2, n);
      return;
    }
    assert SelectedAfter(s, w, e, n);
    var i: nat :| i >= n && Root(s, w, i) == e;
    var j := ParentIsFrozen(s, w, S, m, n, i);
    if Root(s, w, j) !in S {
      return j;
    }
    if !OutsiderBefore(Run(s, w, j), S, m) {
      RootIsFirst(s, w, i);
      FirstPosition(Run(s, w, i).heap, (m - 1) / 2);
      j := NearOutsiderClimbs(s, w, S, m, i);
    }
    var q: nat :| q < m && q < |Run(s, w, j).heap| && Run(s, w, j).heap[q] !in S;
    k := Climbs(s, w, S, q, j);
  }

  lemma FirstPosition<T>(h: seq<T>, p: nat)
    requires Distinct(h) && p < |h| && h[p] == h[0]
    ensures p == 0
  {
  }

  lemma RootIsFirst<T>(s: Selection<T>, w: Answers<T>, k: nat)
    requires Valid(s)
    ensures Root(s, w, k) == Run(s, w, k).heap[0]
  {
  }

  lemma NearOutsiderClimbs<T>(s: Selection<T>, w: Answers<T>, S: set<T>, m: nat, i: nat) returns (j: nat)
    requires Valid(s) && Dominated(Run(s, w, i), S) && Root(s, w, i) in S
    requires 0 < m <= 2 && m < |Run(s, w, i).heap| && Run(s, w, i).heap[m] !in S
    ensures j == i + 1 && Dominated(Run(s, w, j), S) && OutsiderBefore(Run(s, w, j), S, m)
  {
    hide Step, Dominated;
    j := i + 1;
    var t, counted := Run(s, w, i), YieldsAt(s, w, i);
    assert Run(s, w, j) == Step(t, counted);
    OneStepNearOutsider(t, S, m, counted);
    DominatedStays(t, S, counted);
  }

  // ----- the selection leaves every proper subset of the generators

  ghost predicate HasOutsider<T>(h: seq<T>, S: set<T>) {
    exists x :: x in h && x !in S
  }

  /** By induction on S: every single member of S is selected again and again unless the selection
      leaves S. So the members' counts grow until S lies below everything outside. */
  lemma {:induction false} LeavesSet<T>(s: Selection<T>, w: Answers<T>, S: set<T>, n: nat) returns (k: nat)
    requires Valid(s) && HasOutsider(s.heap, S) && forall x | x in s.heap :: KeepsYielding(w, x)
    ensures k >= n && Root(s, w, k) !in S
    decreases S
  {
    hide Run, Root, Count, YieldsAt, KeepsYielding;
    if i: nat :| i >= n && Root(s, w, i) !in S {
      return i;
    }
    forall e | e in S && e in s.heap ensures Recurs(s, w, e) {
      forall m: nat ensures SelectedAfter(s, w, e, m) {
        var i := LeavesSet(s, w, S - {e}, if m < n then n else m);
        assert Root(s, w, i) == e;
      }
    }
    k := StayEnds(s, w, S, n);
  }

  lemma StayEnds<T>(s: Selection<T>, w: Answers<T>, S: set<T>, n: nat) returns (k: nat)
    requires Valid(s) && HasOutsider(s.heap, S) && forall x | x in s.heap :: KeepsYielding(w, x)
    requires forall e | e in S && e in s.heap :: Recurs(s, w, e)
    ensures k >= n && Root(s, w, k) !in S
  {
    hide Run, Root, Count, YieldsAt, KeepsYielding, Recurs, YieldsForever;
    if i: nat :| i >= n && Root(s, w, i) !in S {
      return i;
    }
    var now := Run(s, w, n);
    var bound := SomeBound(now.heap, now.key);
    forall e | e in S && e in s.heap ensures YieldsForever(s, w, e) {
      RecurringYields(s, w, e);
    }
    var j := AllGrow(s, w, S, s.heap, n, bound);
    var later := Run(s, w, j);
    forall x | x in later.heap && x !in S ensures later.key[x] == now.key[x] {
      KeyStays(s, w, x, n, j);
    }
    GrownAreDominated(later, S, bound);
    var x :| x in s.heap && x !in S;
    assert x in later.heap;
    var m :| 0 <= m < |later.heap| && later.heap[m] == x;
    k := Climbs(s, w, S, m, j);
  }

  // ----- main results

  /** Every generator is selected again after any number of selections when each of them keeps
      yielding, whatever runs fail in between. */
  lemma {:induction false} EveryGeneratorIsSelectedAgain<T>(s: Selection<T>, w: Answers<T>, x: T, after: nat)
    requires Valid(s) && x in s.heap && forall y | y in s.heap :: KeepsYielding(w, y)
    ensures exists k: nat :: k >= after && Root(s, w, k) == x
  {
    var others := (set y | y in s.heap) - {x};
    var k := LeavesSet(s, w, others, after);
    assert Root(s, w, k) == x;
  }

  /** So the task count of every generator passes any bound. */
  lemma {:induction false} EveryTaskCountGrows<T>(s: Selection<T>, w: Answers<T>, x: T, tasks: nat) returns (k: nat)
    requires Valid(s) && x in s.heap && forall y | y in s.heap :: KeepsYielding(w, y)
    ensures Run(s, w, k).key[x].taskCount >= tasks
  {
    forall n: nat ensures SelectedAfter(s, w, x, n) {
      EveryGeneratorIsSelectedAgain(s, w, x, n);
    }
    RecurringYields(s, w, x);
    k := Grows(s, w, x, 0, tasks);
  }

  // ----- the condition is exact

  /** A time from which those of xs that do not yield for ever yield no more. */
  lemma {:induction false} QuietFrom<T>(s: Selection<T>, w: Answers<T>, xs: seq<T>) returns (n: nat)
    requires Valid(s)
    ensures forall x, k: nat | x in xs && !YieldsForever(s, w, x) && k >= n :: Root(s, w, k) == x ==> !YieldsAt(s, w, k)
  {
    hide Run, Root, Count, YieldsAt;
    n := 0;
    if xs != [] {
      assert xs == [xs[0]] + xs[1..];
      n := QuietFrom(s, w, xs[1..]);
      if !YieldsForever(s, w, xs[0]) {
        var m: nat :| !SelectedYieldsAfter(s, w, xs[0], m);
        n := if n < m then m else n;
      }
    }
  }

  /** One of the elements of F is outranked by none of them. */
  lemma {:induction false} BestOf<T>(h: seq<T>, key: map<T, Key>, F: set<T>) returns (b: T)
    requires KeysCover(h, key) && exists x :: x in h && x in F
    ensures b in h && b in F && forall x | x in h && x in F :: !Outranks(key[x], key[b])
  {
    hide Outranks;
    assert h == [h[0]] + h[1..];
    if x :| x in h[1..] && x in F {
      b := BestOf(h[1..], key, F);
      if h[0] in F && Outranks(key[h[0]], key[b]) {
        forall x | x in h[1..] && x in F ensures !Outranks(key[x], key[h[0]]) {
          OutranksOrders(key[x], key[h[0]], key[b]);
        }
        b := h[0];
      }
    } else {
      b := h[0];
    }
    OutranksOrders(key[b], key[b], key[b]);
  }

  lemma OutranksOrders(a: Key, b: Key, c: Key)
    ensures Outranks(a, b) && Outranks(b, c) ==> Outranks(a, c)
    ensures Outranks(a, b) ==> !Outranks(b, a)
  {
    hide Weight;
    if Outranks(a, b) && Outranks(b, c) {
      QuotientsOrder(Weight(a.priority), 1 + a.taskCount, Weight(b.priority), 1 + b.taskCount,
                     Weight(c.priority), 1 + c.taskCount);
    }
  }

  lemma QuotientsOrder(u: int, a: int, v: int, b: int, w: int, c: int)
    requires a > 0 && b > 0 && c > 0 && u * b > v * a && v * c > w * b
    ensures u * c > w * a
  {
    var d := u * c - w * a;
    Scale(u * b - v * a, c);
    Scale(v * c - w * b, a);
    assert d * b == (u * b - v * a) * c + (v * c - w * b) * a;
    Scale(d, b);
  }

  lemma Scale(x: int, y: int)
    requires y > 0
    ensures x > 0 <==> x * y > 0
  {
  }

  /** Nothing moves any more: the root fails and nothing outranks it. */
  lemma {:induction false} Stuck<T>(s: Selection<T>, w: Answers<T>, n: nat, k: nat)
    requires Valid(s) && n <= k
    requires forall i: nat | i >= n && Root(s, w, i) == Root(s, w, n) :: !YieldsAt(s, w, i)
    requires Unbeaten(Run(s, w, n).heap, Run(s, w, n).key)
    ensures Run(s, w, k) == Run(s, w, n)
    decreases k
  {
    hide Run, Root, Count, YieldsAt, Unbeaten;
    if n < k {
      Stuck(s, w, n, k - 1);
      OneMore(s, w, n);
      OneMore(s, w, k - 1);
      UnbeatenStays(Run(s, w, n).heap, Run(s, w, n).key);
    }
  }

  lemma UnbeatenStays<T>(h: seq<T>, key: map<T, Key>)
    requires h != [] && KeysCover(h, key) && Unbeaten(h, key)
    ensures Down(h, key, 0, |h|) == h
  {
    if 1 < |h| {
      var j := TopChild(h, key, 0, |h|);
    }
  }

  /** Neither child outranks the root. */
  ghost predicate Unbeaten<T>(h: seq<T>, key: map<T, Key>)
    requires h != [] && KeysCover(h, key)
  {
    forall j | 1 <= j <= 2 && j < |h| :: !Outranks(key[h[j]], key[h[0]])
  }

  /** A generator that stops yielding leads to one that is not selected again: the counts of those that
      go on yielding grow until the best of the others outranks them, and that one stays at the root. */
  lemma SilentGeneratorStarvesSome<T>(s: Selection<T>, w: Answers<T>, x: T) returns (z: T)
    requires Valid(s) && |s.heap| > 1 && x in s.heap && !YieldsForever(s, w, x)
    ensures z in s.heap && !Recurs(s, w, z)
  {
    hide Run, Root, Count, YieldsAt, YieldsForever, Outranks;
    var silent := set y | y in s.heap && !YieldsForever(s, w, y);
    var others := (set y | y in s.heap) - silent;
    var n := QuietFrom(s, w, s.heap);
    var now := Run(s, w, n);
    var bound := SomeBound(now.heap, now.key);
    var b := BestOf(now.heap, now.key, silent);
    if !Recurs(s, w, b) {
      return b;
    }
    var j := AllGrow(s, w, others, s.heap, n, bound);
    assert SelectedAfter(s, w, b, j);
    var k: nat :| k >= j && Root(s, w, k) == b;
    var r := Run(s, w, k);
    RootIsFirst(s, w, k);
    forall y | y in r.heap ensures !Outranks(r.key[y], r.key[b]) {
      KeyStays(s, w, b, n, k);
      if y in silent {
        KeyStays(s, w, y, n, k);
      } else {
        CountsNeverDrop(s, w, y, j, k);
        RankBelow(r.key[b], r.key[y]);
        OutranksOrders(r.key[b], r.key[y], r.key[y]);
      }
    }
    z := if s.heap[0] == b then s.heap[1] else s.heap[0];
    forall i: nat | i >= k ensures Root(s, w, i) != z {
      Stuck(s, w, k, i);
      RootIsFirst(s, w, i);
    }
    assert !SelectedAfter(s, w, z, k);
  }

  /** Every generator is selected again and again if and only if every one keeps yielding. */
  lemma FairIffAllKeepYielding<T>(s: Selection<T>, w: Answers<T>)
    requires Valid(s) && |s.heap| > 1
    ensures (forall x | x in s.heap :: Recurs(s, w, x)) <==> (forall x | x in s.heap :: KeepsYielding(w, x))
  {
    hide Run, Root, Count, YieldsAt, YieldsForever, KeepsYielding;
    if forall x | x in s.heap :: KeepsYielding(w, x) {
      forall x, n: nat | x in s.heap ensures SelectedAfter(s, w, x, n) {
        EveryGeneratorIsSelectedAgain(s, w, x, n);
      }
    }
    if x :| x in s.heap && !KeepsYielding(w, x) {
      if YieldsForever(s, w, x) {
        YieldingAnswers(s, w, x);
      } else {
        var z := SilentGeneratorStarvesSome(s, w, x);
      }
    }
  }

  /** The answers when Next always fails for the generators in F and never for the others. */
  function FailingIn<T(==)>(F: set<T>): Answers<T> {
    (x, j) => x !in F
  }

  /** In particular: with generators whose Next always fails, some generator starves. */
  lemma FairIffNoneFails<T>(s: Selection<T>, F: set<T>)
    requires Valid(s) && |s.heap| > 1
    ensures (forall x | x in s.heap :: Recurs(s, FailingIn(F), x)) <==> (forall x | x in s.heap :: x !in F)
  {
    var w := FailingIn(F);
    FairIffAllKeepYielding(s, w);
    forall x | x in s.heap ensures KeepsYielding(w, x) <==> x !in F {
      if x !in F {
        forall n: nat ensures YieldsAfter(w, x, n) {
          assert w(x, n);
        }
      } else {
        assert !YieldsAfter(w, x, 0);
      }
    }
  }

  /** For instance: a failing root that neither child outranks is selected for ever, and nothing else is. */
  lemma {:induction false} FailingRootStarvesTheRest<T>(s: Selection<T>, w: Answers<T>, k: nat)
    requires Valid(s) && forall j: nat :: !w(s.heap[0], j)
    requires Unbeaten(s.heap, s.key)
    ensures Run(s, w, k) == s
  {
    hide Count;
    Stuck(s, w, 0, k);
  }
}
