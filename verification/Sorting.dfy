/**
 sort.Slice and sort.Strings: a slice is put in order in place. Which of several orders it
 gets when elements tie is not part of the contract.
 */
module Sorting {

  /** No element comes before one that precedes it. */
  ghost predicate Ordered<T>(s: seq<T>, before: (T, T) -> bool) {
    forall i, j | 0 <= i < j < |s| :: !before(s[j], s[i])
  }

  /** On the elements of s, `before` is a strict order up to ties. */
  ghost predicate OrdersElements<T>(s: seq<T>, before: (T, T) -> bool) {
    && (forall x, y | x in s && y in s :: before(x, y) ==> !before(y, x))
    && (forall x, y, z | x in s && y in s && z in s :: before(x, z) ==> before(x, y) || before(y, z))
  }

  ghost predicate Permutation<T>(s: seq<T>, t: seq<T>) {
    |s| == |t| && multiset(s) == multiset(t)
  }

  lemma SameElements<T>(s: seq<T>, t: seq<T>)
    requires Permutation(s, t)
    ensures forall x | x in s :: x in t
    ensures forall x | x in t :: x in s
  {
    forall x | x in s ensures x in t {
      assert x in multiset(s) && x in multiset(t);
    }
    forall x | x in t ensures x in s {
      assert x in multiset(t) && x in multiset(s);
    }
  }

  function Insert<T>(s: seq<T>, x: T, before: (T, T) -> bool): seq<T> {
    if s == [] || before(x, s[0]) then [x] + s else [s[0]] + Insert(s[1..], x, before)
  }

  function Sorted<T>(s: seq<T>, before: (T, T) -> bool): seq<T> {
    if s == [] then [] else Insert(Sorted(s[1..], before), s[0], before)
  }

  lemma {:induction false} InsertPermutes<T>(s: seq<T>, x: T, before: (T, T) -> bool)
    ensures Permutation(Insert(s, x, before), [x] + s)
  {
    if s != [] && !before(x, s[0]) {
      InsertPermutes(s[1..], x, before);
      assert s == [s[0]] + s[1..];
      assert Insert(s, x, before) == [s[0]] + Insert(s[1..], x, before);
    }
  }

  lemma {:induction false} InsertOrders<T>(s: seq<T>, x: T, before: (T, T) -> bool)
    requires Ordered(s, before) && OrdersElements([x] + s, before)
    ensures Ordered(Insert(s, x, before), before)
  {
    var r := Insert(s, x, before);
    assert x in [x] + s;
    if s == [] {
    } else if before(x, s[0]) {
      forall i, j | 0 <= i < j < |r| ensures !before(r[j], r[i]) {
        if i == 0 {
          assert r[j] in [x] + s && s[0] in [x] + s;
          assert j > 1 ==> !before(s[j - 1], s[0]);
        }
      }
    } else {
      var rest := Insert(s[1..], x, before);
      assert forall y | y in [x] + s[1..] :: y in [x] + s;
      InsertOrders(s[1..], x, before);
      InsertPermutes(s[1..], x, before);
      SameElements(rest, [x] + s[1..]);
      forall i, j | 0 <= i < j < |r| ensures !before(r[j], r[i]) {
        assert r[j] == rest[j - 1] && rest[j - 1] in rest;
        if i == 0 {
          assert r[j] == x || r[j] in s[1..];
        } else {
          assert r[i] == rest[i - 1];
        }
      }
    }
  }

  lemma {:induction false} SortedIsSorted<T>(s: seq<T>, before: (T, T) -> bool)
    requires OrdersElements(s, before)
    ensures Ordered(Sorted(s, before), before) && Permutation(Sorted(s, before), s)
  {
    if s != [] {
      var rest := Sorted(s[1..], before);
      SortedIsSorted(s[1..], before);
      SameElements(rest, s[1..]);
      forall y | y in [s[0]] + rest ensures y in s {
        assert y == s[0] || y in s[1..];
      }
      InsertOrders(rest, s[0], before);
      InsertPermutes(rest, s[0], before);
      assert s == [s[0]] + s[1..];
    }
  }

  method Sort<T>(a: array<T>, before: (T, T) -> bool)
    requires OrdersElements(a[..], before)
    modifies a
    ensures Ordered(a[..], before) && Permutation(a[..], old(a[..]))
  {
    var s := Sorted(a[..], before);
    SortedIsSorted(a[..], before);
    for i := 0 to a.Length
      invariant a[..i] == s[..i]
    {
      a[i] := s[i];
    }
    assert a[..] == s;
  }
}
