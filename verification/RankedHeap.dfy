/**
 The ranking of task generators and the container/heap operations the scheduler
 uses, as functions of a heap sequence and of a table with every element's key.

 A generator ranks by 10^priority / (1 + taskCount), larger first; quotients are
 compared here by cross multiplication, so without rounding.
 */
module RankedHeap {

  datatype Priority = LowPriority | MediumPriority | HighPriority

  datatype Key = Key(priority: Priority, taskCount: nat)

  const MAX_WEIGHT: nat := 100

  function Weight(p: Priority): nat {
    match p
    case LowPriority => 1
    case MediumPriority => 10
    case HighPriority => MAX_WEIGHT
  }

  /** a has the larger quotient: `Less` of the source, since larger ranks come first. */
  predicate Outranks(a: Key, b: Key) {
    Weight(a.priority) * (1 + b.taskCount) > Weight(b.priority) * (1 + a.taskCount)
  }

  predicate KeysCover<T(==)>(h: seq<T>, key: map<T, Key>) {
    forall x | x in h :: x in key
  }

  ghost predicate Distinct<T>(h: seq<T>) {
    forall i, j | 0 <= i < j < |h| :: h[i] != h[j]
  }

  function Swap<T>(h: seq<T>, i: nat, j: nat): seq<T>
    requires i < |h| && j < |h|
  {
    h[i := h[j]][j := h[i]]
  }

  /** The child of i that may have to move up: the left one unless the right one outranks it. */
  function TopChild<T(==)>(h: seq<T>, key: map<T, Key>, i: nat, n: nat): (j: nat)
    requires 2 * i + 1 < n <= |h| && KeysCover(h, key)
    ensures i < j < n && (j == 2 * i + 1 || j == 2 * i + 2)
  {
    if 2 * i + 2 < n && Outranks(key[h[2 * i + 2]], key[h[2 * i + 1]]) then 2 * i + 2 else 2 * i + 1
  }

  /** Sift-down of element i within the first n elements. */
  function Down<T(==)>(h: seq<T>, key: map<T, Key>, i: nat, n: nat): (r: seq<T>)
    requires n <= |h| && KeysCover(h, key)
    ensures |r| == |h| && multiset(r) == multiset(h) && KeysCover(r, key)
    ensures forall k | 0 <= k < |h| && (k < i || n <= k) :: r[k] == h[k]
    decreases n - i
  {
    if n <= 2 * i + 1 then h
    else
      var j := TopChild(h, key, i, n);
      if !Outranks(key[h[j]], key[h[i]]) then h
      else
        SwapPermutes(h, i, j);
        Down(Swap(h, i, j), key, j, n)
  }

  /** Sift-up of element j. */
  function Up<T(==)>(h: seq<T>, key: map<T, Key>, j: nat): (r: seq<T>)
    requires j < |h| && KeysCover(h, key)
    ensures |r| == |h| && multiset(r) == multiset(h) && KeysCover(r, key)
    decreases j
  {
    if j == 0 || !Outranks(key[h[j]], key[h[(j - 1) / 2]]) then h
    else
      SwapPermutes(h, (j - 1) / 2, j);
      Up(Swap(h, (j - 1) / 2, j), key, (j - 1) / 2)
  }

  lemma SwapPermutes<T>(h: seq<T>, i: nat, j: nat)
    requires i < |h| && j < |h|
    ensures multiset(Swap(h, i, j)) == multiset(h)
    ensures forall x :: x in Swap(h, i, j) <==> x in h
  {
    var r := Swap(h, i, j);
    forall x ensures x in r <==> x in h {
      assert x in r <==> x in multiset(r);
      assert x in h <==> x in multiset(h);
    }
  }

  /** One turn of the sift-down loop. */
  lemma DownTurn<T>(h: seq<T>, key: map<T, Key>, i: nat, j: nat, n: nat)
    requires 2 * i + 1 < n <= |h| && KeysCover(h, key) && j == TopChild(h, key, i, n)
    ensures KeysCover(Swap(h, i, j), key)
    ensures Down(h, key, i, n) == if Outranks(key[h[j]], key[h[i]]) then Down(Swap(h, i, j), key, j, n) else h
  {
    SwapPermutes(h, i, j);
  }

  lemma DownAtLeaf<T>(h: seq<T>, key: map<T, Key>, i: nat, n: nat)
    requires n <= 2 * i + 1 && n <= |h| && KeysCover(h, key)
    ensures Down(h, key, i, n) == h
  {
  }

  /** One turn of the sift-up loop. */
  lemma UpTurn<T>(h: seq<T>, key: map<T, Key>, j: nat)
    requires j < |h| && KeysCover(h, key)
    ensures j == 0 ==> Up(h, key, j) == h
    ensures j > 0 ==> KeysCover(Swap(h, (j - 1) / 2, j), key)
    ensures j > 0 ==>
      Up(h, key, j) == if Outranks(key[h[j]], key[h[(j - 1) / 2]])
                       then Up(Swap(h, (j - 1) / 2, j), key, (j - 1) / 2) else h
  {
    if j > 0 {
      SwapPermutes(h, (j - 1) / 2, j);
    }
  }

  /** Two sequences with the same multiset have the same elements, and one is
      free of repetitions exactly when the other is. */
  lemma PermutationFacts<T>(a: seq<T>, b: seq<T>)
    requires multiset(a) == multiset(b)
    ensures |a| == |b|
    ensures forall x :: x in a <==> x in b
    ensures Distinct(a) ==> Distinct(b)
  {
    assert |multiset(a)| == |a| && |multiset(b)| == |b|;
    forall x ensures x in a <==> x in b {
      assert x in a <==> x in multiset(a);
      assert x in b <==> x in multiset(b);
    }
    if Distinct(a) {
      forall i, j | 0 <= i < j < |b| ensures b[i] != b[j] {
        if b[i] == b[j] {
          RepetitionCounts(b, i, j);
          DistinctOnce(a, b[i]);
        }
      }
    }
  }

  lemma RepetitionCounts<T>(s: seq<T>, i: nat, j: nat)
    requires i < j < |s| && s[i] == s[j]
    ensures multiset(s)[s[i]] >= 2
  {
    assert s == s[..i] + [s[i]] + s[i + 1..j] + [s[j]] + s[j + 1..];
  }

  lemma {:induction false} DistinctOnce<T>(a: seq<T>, x: T)
    requires Distinct(a)
    ensures multiset(a)[x] == if x in a then 1 else 0
  {
    if a != [] {
      assert a == [a[0]] + a[1..];
      DistinctOnce(a[1..], x);
    }
  }

  // ----- what the heap is for

  /** getRanking: ten to the power of the priority's number, over one more than the task count. */
  ghost function Rank(k: Key): real {
    var power := match k.priority
      case LowPriority => 1.0
      case MediumPriority => 10.0
      case HighPriority => 10.0 * 10.0;
    power / (1 + k.taskCount) as real
  }

  lemma OutranksIsLargerRank(a: Key, b: Key)
    ensures Outranks(a, b) <==> Rank(a) > Rank(b)
  {
    var x, y := Weight(a.priority) as real, Weight(b.priority) as real;
    var m, n := (1 + a.taskCount) as real, (1 + b.taskCount) as real;
    QuotientsCompare(x, m, y, n);
    assert x * n == (Weight(a.priority) * (1 + b.taskCount)) as real;
    assert y * m == (Weight(b.priority) * (1 + a.taskCount)) as real;
  }

  lemma QuotientsCompare(x: real, m: real, y: real, n: real)
    requires m > 0.0 && n > 0.0
    ensures x / m > y / n <==> x * n > y * m
  {
    var p, q := x / m, y / n;
    assert x == p * m && y == q * n;
    assert x * n - y * m == (p - q) * (m * n);
    assert m * n > 0.0;
    if p > q {
      assert (p - q) * (m * n) > 0.0;
    } else {
      assert (q - p) * (m * n) >= 0.0;
    }
  }

  /** m is a child position of p. */
  predicate Below(p: nat, m: nat) {
    m == 2 * p + 1 || m == 2 * p + 2
  }

  ghost predicate Above<T>(h: seq<T>, key: map<T, Key>, c: nat, p: nat)
    requires c < |h| && p < |h| && KeysCover(h, key)
  {
    Rank(key[h[c]]) > Rank(key[h[p]])
  }

  /** No element of the first n outranks its parent. */
  ghost predicate HeapOrdered<T>(h: seq<T>, key: map<T, Key>, n: nat)
    requires n <= |h| && KeysCover(h, key)
  {
    forall p: nat, c: nat | Below(p, c) && c < n :: !Above(h, key, c, p)
  }

  /** Heap order but for the children of i, which are in order with the parent of i. */
  ghost predicate OrderedButBelow<T>(h: seq<T>, key: map<T, Key>, i: nat, n: nat)
    requires n <= |h| && KeysCover(h, key)
  {
    && (forall p: nat, c: nat | Below(p, c) && c < n && p != i :: !Above(h, key, c, p))
    && (forall g: nat, c: nat | Below(g, i) && Below(i, c) && c < n :: !Above(h, key, c, g))
  }

  /** Heap order but between j and its parent, which is in order with the children of j. */
  ghost predicate OrderedButAt<T>(h: seq<T>, key: map<T, Key>, j: nat)
    requires KeysCover(h, key)
  {
    && (forall p: nat, c: nat | Below(p, c) && c < |h| && c != j :: !Above(h, key, c, p))
    && (forall g: nat, c: nat | Below(g, j) && Below(j, c) && c < |h| :: !Above(h, key, c, g))
  }

  /** Sift-down repairs a heap whose root, or any one element, has come to rank too low. */
  lemma {:induction false} DownRestoresOrder<T>(h: seq<T>, key: map<T, Key>, i: nat, n: nat)
    requires n <= |h| && KeysCover(h, key) && OrderedButBelow(h, key, i, n)
    ensures HeapOrdered(Down(h, key, i, n), key, n)
    decreases n - i
  {
    hide Rank, Down, Outranks;
    if n <= 2 * i + 1 {
      assert forall c: nat | Below(i, c) :: c >= n;
      DownAtLeaf(h, key, i, n);
    } else {
      var j := TopChild(h, key, i, n);
      DownTurn(h, key, i, j, n);
      TopChildIsTop(h, key, i, n);
      OutranksIsLargerRank(key[h[j]], key[h[i]]);
      if Outranks(key[h[j]], key[h[i]]) {
        assert Above(h, key, j, i);
        SwappedDown(h, key, i, j, n);
        DownRestoresOrder(Swap(h, i, j), key, j, n);
      }
    }
  }

  lemma TopChildIsTop<T>(h: seq<T>, key: map<T, Key>, i: nat, n: nat)
    requires 2 * i + 1 < n <= |h| && KeysCover(h, key)
    ensures forall c: nat | Below(i, c) && c < n :: !Above(h, key, c, TopChild(h, key, i, n))
  {
    hide Rank, Outranks;
    if 2 * i + 2 < n {
      OutranksIsLargerRank(key[h[2 * i + 2]], key[h[2 * i + 1]]);
    }
  }

  lemma SwappedDown<T>(h: seq<T>, key: map<T, Key>, i: nat, j: nat, n: nat)
    requires 2 * i + 1 < n <= |h| && KeysCover(h, key) && OrderedButBelow(h, key, i, n)
    requires j == TopChild(h, key, i, n) && Above(h, key, j, i)
    requires forall c: nat | Below(i, c) && c < n :: !Above(h, key, c, j)
    ensures KeysCover(Swap(h, i, j), key) && OrderedButBelow(Swap(h, i, j), key, j, n)
  {
    hide Rank;
    SwapPermutes(h, i, j);
    var g := Swap(h, i, j);
    assert Below(i, j);
    forall p: nat, c: nat | Below(p, c) && c < n && p != j ensures !Above(g, key, c, p) {
      assert p != i && c != i ==> !Above(h, key, c, p);
      assert c == i ==> Below(p, i) && Below(i, j);
    }
    forall q: nat, c: nat | Below(q, j) && Below(j, c) && c < n ensures !Above(g, key, c, q) {
      assert q == i && !Above(h, key, c, j);
    }
  }

  /** Sift-up repairs a heap whose element j has come to rank too high. */
  lemma {:induction false} UpRestoresOrder<T>(h: seq<T>, key: map<T, Key>, j: nat)
    requires j < |h| && KeysCover(h, key) && OrderedButAt(h, key, j)
    ensures HeapOrdered(Up(h, key, j), key, |h|)
    decreases j
  {
    hide Rank, Up, Outranks;
    UpTurn(h, key, j);
    if j > 0 {
      var p := (j - 1) / 2;
      OutranksIsLargerRank(key[h[j]], key[h[p]]);
      assert Below(p, j);
      if Outranks(key[h[j]], key[h[p]]) {
        SwappedUp(h, key, j, p);
        UpRestoresOrder(Swap(h, p, j), key, p);
      }
    }
  }

  lemma SwappedUp<T>(h: seq<T>, key: map<T, Key>, j: nat, p: nat)
    requires 0 < j < |h| && p == (j - 1) / 2 && KeysCover(h, key) && OrderedButAt(h, key, j) && Above(h, key, j, p)
    ensures KeysCover(Swap(h, p, j), key) && OrderedButAt(Swap(h, p, j), key, p)
  {
    hide Rank;
    SwapPermutes(h, p, j);
    var g := Swap(h, p, j);
    assert Below(p, j);
    forall q: nat, c: nat | Below(q, c) && c < |g| && c != p ensures !Above(g, key, c, q) {
      assert c != j ==> !Above(h, key, c, q);
    }
    forall q: nat, c: nat | Below(q, p) && Below(p, c) && c < |g| ensures !Above(g, key, c, q) {
      assert !Above(h, key, p, q);
      assert c != j ==> !Above(h, key, c, p);
    }
  }

  /** Pushing an element onto an ordered heap leaves an ordered heap. */
  lemma PushKeepsOrder<T>(h: seq<T>, key: map<T, Key>, x: T)
    requires KeysCover(h, key) && x in key && HeapOrdered(h, key, |h|)
    ensures KeysCover(h + [x], key) && HeapOrdered(Up(h + [x], key, |h|), key, |h| + 1)
  {
    hide Rank, Up;
    var g := h + [x];
    forall p: nat, c: nat | Below(p, c) && c < |g| && c != |h| ensures !Above(g, key, c, p) {
      assert !Above(h, key, c, p);
    }
    UpRestoresOrder(g, key, |h|);
  }

  /** The heap after a pop: the last element takes the root's place and is sifted down. */
  ghost function Popped<T>(h: seq<T>, key: map<T, Key>): (r: seq<T>)
    requires h != [] && KeysCover(h, key)
  {
    var n := |h| - 1;
    SwapPermutes(h, 0, n);
    Down(Swap(h, 0, n), key, 0, n)[..n]
  }

  lemma PoppedIs<T>(h: seq<T>, key: map<T, Key>)
    requires h != [] && KeysCover(h, key)
    ensures var n := |h| - 1; KeysCover(Swap(h, 0, n), key) && Popped(h, key) == Down(Swap(h, 0, n), key, 0, n)[..n]
    ensures |Swap(h, 0, |h| - 1)| == |h| && Swap(h, 0, |h| - 1)[|h| - 1] == h[0]
  {
    hide Down;
    SwapPermutes(h, 0, |h| - 1);
  }

  /** Popping from an ordered heap leaves an ordered heap. */
  lemma PopKeepsOrder<T>(h: seq<T>, key: map<T, Key>)
    requires h != [] && KeysCover(h, key) && HeapOrdered(h, key, |h|)
    ensures KeysCover(Popped(h, key), key) && HeapOrdered(Popped(h, key), key, |h| - 1)
  {
    hide Rank, Down, Swap, Popped;
    PoppedIs(h, key);
    LastAtRoot(h, key);
    DownRestoresOrder(Swap(h, 0, |h| - 1), key, 0, |h| - 1);
    PrefixOrdered(Down(Swap(h, 0, |h| - 1), key, 0, |h| - 1), key, |h| - 1);
  }

  lemma LastAtRoot<T>(h: seq<T>, key: map<T, Key>)
    requires h != [] && KeysCover(h, key) && HeapOrdered(h, key, |h|) && KeysCover(Swap(h, 0, |h| - 1), key)
    ensures OrderedButBelow(Swap(h, 0, |h| - 1), key, 0, |h| - 1)
  {
    hide Rank;
    forall p: nat, c: nat | Below(p, c) && c < |h| - 1 && p != 0 ensures !Above(Swap(h, 0, |h| - 1), key, c, p) {
      assert !Above(h, key, c, p);
    }
  }

  lemma PrefixOrdered<T>(h: seq<T>, key: map<T, Key>, n: nat)
    requires n <= |h| && KeysCover(h, key) && HeapOrdered(h, key, n)
    ensures KeysCover(h[..n], key) && HeapOrdered(h[..n], key, n)
  {
    hide Rank;
    forall p: nat, c: nat | Below(p, c) && c < n ensures !Above(h[..n], key, c, p) {
      assert !Above(h, key, c, p);
    }
  }

  /** The root of an ordered heap ranks at least as high as everything in it. */
  lemma {:induction false} RootRanksHighest<T>(h: seq<T>, key: map<T, Key>, k: nat)
    requires k < |h| && KeysCover(h, key) && HeapOrdered(h, key, |h|)
    ensures !Above(h, key, k, 0)
  {
    hide Rank;
    if k > 0 {
      RootRanksHighest(h, key, (k - 1) / 2);
      assert Below((k - 1) / 2, k);
    }
  }
}
