/**
 Listing tags page by page: a request names the page size n and the last tag of the page
 before; the answer's Link header names the last tag it contains.
 */
module TagPaging {
  import opened GoText
  import opened Optional
  import Sorting

  /** The answers of ListTags; Page carries the tag in the Link header, if there is one.
      IndexPanic is an index expression out of range. */
  datatype Response = BadRequest | NotFound | IndexPanic | Page(tags: seq<string>, next: Option<string>)

  // ----- the order of sort.Strings

  predicate Before(a: string, b: string) {
    if b == "" then false
    else if a == "" then true
    else if a[0] == b[0] then Before(a[1..], b[1..])
    else a[0] < b[0]
  }

  lemma {:induction false} BeforeAsymmetric(a: string, b: string)
    requires Before(a, b)
    ensures !Before(b, a) && a != b
  {
    if a != "" && a[0] == b[0] {
      BeforeAsymmetric(a[1..], b[1..]);
    }
  }

  lemma {:induction false} BeforeSplits(a: string, b: string, c: string)
    requires Before(a, c)
    ensures Before(a, b) || Before(b, c)
  {
    if a != "" && b != "" && a[0] == b[0] == c[0] {
      BeforeSplits(a[1..], b[1..], c[1..]);
    }
  }

  lemma {:induction false} BeforeTotal(a: string, b: string)
    requires a != b
    ensures Before(a, b) || Before(b, a)
  {
    if a != "" && b != "" && a[0] == b[0] {
      assert a == [a[0]] + a[1..] && b == [b[0]] + b[1..];
      BeforeTotal(a[1..], b[1..]);
    }
  }

  lemma BeforeOrders(s: seq<string>)
    ensures Sorting.OrdersElements(s, Before)
  {
    forall x, y | x in s && y in s && Before(x, y) ensures !Before(y, x) {
      BeforeAsymmetric(x, y);
    }
    forall x, y, z | x in s && y in s && z in s && Before(x, z) ensures Before(x, y) || Before(y, z) {
      BeforeSplits(x, y, z);
    }
  }

  /** The lexicographic order: behind a common prefix, a ends or has the smaller character. */
  ghost predicate Lexicographic(a: string, b: string) {
    exists k | 0 <= k <= |a| && k <= |b| && a[..k] == b[..k] ::
      k < |b| && (k == |a| || a[k] < b[k])
  }

  lemma {:induction false} BeforeMeaning(a: string, b: string)
    ensures Before(a, b) <==> Lexicographic(a, b)
  {
    if a != "" && b != "" {
      forall k | 0 < k <= |a| && k <= |b| && a[..k] == b[..k] ensures a[0] == b[0] {
        assert a[..k][0] == b[..k][0];
      }
    }
    if b == "" {
    } else if a == "" {
      assert a[..0] == b[..0];
    } else if a[0] == b[0] {
      BeforeMeaning(a[1..], b[1..]);
      if k :| 0 <= k <= |a| - 1 && k <= |b| - 1 && a[1..][..k] == b[1..][..k] && k < |b| - 1 &&
              (k == |a| - 1 || a[1..][k] < b[1..][k]) {
        assert a[..k + 1] == [a[0]] + a[1..][..k] && b[..k + 1] == [b[0]] + b[1..][..k];
      }
      if k :| 0 <= k <= |a| && k <= |b| && a[..k] == b[..k] && k < |b| && (k == |a| || a[k] < b[k]) {
        assert k > 0;
        assert a[1..][..k - 1] == a[..k][1..] && b[1..][..k - 1] == b[..k][1..];
      }
    } else {
      assert a[..0] == b[..0];
    }
  }

  ghost predicate Distinct(s: seq<string>) {
    forall i, j | 0 <= i < j < |s| :: s[i] != s[j]
  }

  ghost predicate SortedTags(s: seq<string>) {
    Sorting.Ordered(s, Before)
  }

  // ----- one request

  /** The value of a sum in 64-bit two's complement. */
  function Wrap64(x: int): int {
    (x + 0x8000_0000_0000_0000) % 0x1_0000_0000_0000_0000 - 0x8000_0000_0000_0000
  }

  /** The index after the first occurrence of `last`; the empty tag stands for the beginning. */
  function StartIndex(s: seq<string>, last: string): (start: Option<nat>)
    ensures start.Some? ==> start.value <= |s|
  {
    if last == "" then Some(0) else IndexAfter(s, last)
  }

  function IndexAfter(s: seq<string>, last: string): (i: Option<nat>)
    ensures i.Some? <==> last in s
    ensures i.Some? ==> 0 < i.value <= |s| && s[i.value - 1] == last && last !in s[..i.value - 1]
  {
    if s == [] then None
    else if s[0] == last then Some(1)
    else
      var rest := IndexAfter(s[1..], last);
      if rest == None then None else Some(rest.value + 1)
  }

  /** What a request for n tags (all, without n) after `last` asks of the sorted tags. */
  function Answer(s: seq<string>, n: Option<int64>, last: string): Response
    requires n.Some? ==> n.value >= 0
  {
    var start := StartIndex(s, last);
    if start == None then NotFound
    else if n == Some(0) then Page([], None)
    else if n == None || Wrap64(start.value + n.value as int) >= |s| then Page(s[start.value..], None)
    else
      var stop := Wrap64(Wrap64(start.value + n.value as int) - 1);
      if start.value <= stop + 1 && 0 <= stop < |s| then Page(s[start.value..stop + 1], Some(s[stop]))
      else IndexPanic
  }

  predicate BadQuery(nQuery: seq<string>, lastQuery: seq<string>) {
    || |nQuery| > 1 || |lastQuery| > 1
    || (|nQuery| == 1 && (ParseInt64(nQuery[0]) == None || ParseInt64(nQuery[0]).value < 0))
  }

  /** The tags begin behind the first occurrence of `last`, or at the beginning when that is empty. */
  ghost predicate StartsBehind(tags: seq<string>, last: string, start: nat) {
    if last == "" then start == 0
    else 0 < start <= |tags| && tags[start - 1] == last && last !in tags[..start - 1]
  }

  /** What a request for n tags behind `last` gets of the sorted tags: not found for an unknown last tag; without n
      all that follow; with n = 0 an empty page; else n of them with a link when more follow, and the
      rest without one when not. Only a sum beyond 64 bits panics. */
  ghost predicate Answers(tags: seq<string>, n: Option<int>, last: string, r: Response) {
    if last != "" && last !in tags then r == NotFound
    else exists start: nat | StartsBehind(tags, last, start) ::
      match n
      case None => r == Page(tags[start..], None)
      case Some(k) =>
        if k == 0 then r == Page([], None)
        else if start + k > 0x7fff_ffff_ffff_ffff then r == IndexPanic
        else if start + k < |tags| then
          0 < k && r == Page(tags[start..start + k], Some(tags[start + k - 1]))
        else r == Page(tags[start..], None)
  }

  lemma AnswerMeaning(s: seq<string>, n: Option<int64>, last: string)
    requires |s| <= MAX_INT64 && (n.Some? ==> n.value >= 0)
    ensures Answers(s, if n.Some? then Some(n.value as int) else None, last, Answer(s, n, last))
  {
    hide Wrap64;
    var start := StartIndex(s, last);
    if start.Some? {
      assert StartsBehind(s, last, start.value);
      if n.Some? && n.value > 0 {
        PanicsExactlyOnOverflow(s, n, last);
        if start.value + n.value as int <= MAX_INT64 {
          WrapNothing(start.value + n.value as int);
          WrapNothing(start.value + n.value as int - 1);
        }
      }
    }
  }

  /** ListTags from its query parameters on; `tags` is the slice the store returned. */
  method ListTags(tags: array<string>, nQuery: seq<string>, lastQuery: seq<string>) returns (r: Response)
    requires tags.Length <= MAX_INT64
    modifies tags
    ensures r == BadRequest <==> BadQuery(nQuery, lastQuery)
    ensures r != BadRequest ==> SortedTags(tags[..]) && Sorting.Permutation(tags[..], old(tags[..]))
    ensures r != BadRequest ==> r == Answer(tags[..], if nQuery == [] then None else ParseInt64(nQuery[0]),
                                            if lastQuery == [] then "" else lastQuery[0])
    ensures r == BadRequest <==>
      || |nQuery| > 1 || |lastQuery| > 1
      || (|nQuery| == 1 && (ParseInt64(nQuery[0]) == None || ParseInt64(nQuery[0]).value < 0))
    ensures r != BadRequest ==> forall i, j | 0 <= i < j < tags.Length :: !Lexicographic(tags[j], tags[i])
    ensures r != BadRequest ==>
      Answers(tags[..], if nQuery == [] then None else Some(ParseInt64(nQuery[0]).value as int),
              if lastQuery == [] then "" else lastQuery[0], r)
  {
    hide Answers, Lexicographic, Before;
    var paginate, numTags: int64 := false, -1;
    if |nQuery| > 0 {
      if |nQuery| != 1 {
        return BadRequest;
      }
      var nQuery1 := ParseInt64(nQuery[0]);
      if nQuery1 == None {
        return BadRequest;
      }
      numTags, paginate := nQuery1.value, true;
      if numTags < 0 {
        return BadRequest;
      }
    }
    var last := "";
    if |lastQuery| > 0 {
      if |lastQuery| != 1 {
        return BadRequest;
      }
      last := lastQuery[0];
    }
    BeforeOrders(tags[..]);
    Sorting.Sort(tags, Before);
    r := PageOf(tags, paginate, numTags, last);
    AnswerMeaning(tags[..], if paginate then Some(numTags) else None, last);
    forall i, j | 0 <= i < j < tags.Length ensures !Lexicographic(tags[j], tags[i]) {
      BeforeMeaning(tags[j], tags[i]);
      assert !Before(tags[..][j], tags[..][i]);
    }
  }

  /** The index of the first tag returned. */
  method FindStart(tags: array<string>, last: string) returns (startIndex: nat, found: bool)
    requires last != ""
    ensures StartIndex(tags[..], last) == if found then Some(startIndex) else None
  {
    for i := 0 to tags.Length
      invariant last !in tags[..i]
    {
      if tags[i] == last {
        FirstOccurrence(tags[..], last, i);
        return i + 1, true;
      }
    }
    FirstOccurrence(tags[..], last, tags.Length);
    return 0, false;
  }

  /** The index arithmetic of ListTags, in 64 bits. */
  method PageOf(tags: array<string>, paginate: bool, numTags: int64, last: string) returns (r: Response)
    requires tags.Length <= MAX_INT64 && (paginate ==> numTags >= 0)
    ensures r == Answer(tags[..], if paginate then Some(numTags) else None, last) && r != BadRequest
  {
    hide Wrap64;
    var startIndex := 0;
    assert last == "" ==> StartIndex(tags[..], last) == Some(0);
    if last != "" {
      var found;
      startIndex, found := FindStart(tags, last);
      if !found {
        return NotFound;
      }
    }
    hide StartIndex;
    if paginate && numTags == 0 {
      return Page([], None);
    }
    var stopIndex: int := tags.Length - 1;
    var next: Option<string> := None;
    if paginate && Wrap64(startIndex + numTags as int) < tags.Length {
      stopIndex := Wrap64(Wrap64(startIndex + numTags as int) - 1);
      if !(0 <= stopIndex < tags.Length) {
        return IndexPanic;
      }
      next := Some(tags[stopIndex]);
    }
    if !(startIndex <= stopIndex + 1) {
      return IndexPanic;
    }
    assert tags[startIndex..stopIndex + 1] == tags[..][startIndex..stopIndex + 1];
    r := Page(tags[startIndex..stopIndex + 1], next);
  }

  lemma {:induction false} FirstOccurrence(s: seq<string>, last: string, i: nat)
    requires i <= |s| && last !in s[..i] && (i < |s| ==> s[i] == last)
    ensures IndexAfter(s, last) == if i < |s| then Some(i + 1) else None
  {
    if s != [] && i > 0 {
      assert s[..i][0] == s[0] && s[1..][..i - 1] == s[..i][1..];
      FirstOccurrence(s[1..], last, i - 1);
    }
  }

  /** The one hazard of the index arithmetic: a request panics exactly when the sum of the start
      index and n does not fit 64 bits. */
  lemma PanicsExactlyOnOverflow(s: seq<string>, n: Option<int64>, last: string)
    requires |s| <= MAX_INT64 && (n.Some? ==> n.value >= 0)
    ensures Answer(s, n, last) == IndexPanic <==>
      var start := StartIndex(s, last); start.Some? && n.Some? && start.value + n.value as int > MAX_INT64
  {
    hide Wrap64, StartIndex;
    var start := StartIndex(s, last);
    if start.Some? && n.Some? && n.value > 0 {
      var sum := start.value + n.value as int;
      if sum <= MAX_INT64 {
        WrapNothing(sum);
        WrapNothing(sum - 1);
      } else {
        WrapAround(sum);
        WrapBelow(Wrap64(sum));
      }
    }
  }

  /** For instance the second page of a two-tag repository with the largest n a request can name. */
  lemma OverflowPanics()
    ensures Answer(["a", "b"], Some(MAX_INT64 as int64), "a") == IndexPanic
  {
    assert IndexAfter(["a", "b"], "a") == Some(1);
    PanicsExactlyOnOverflow(["a", "b"], Some(MAX_INT64 as int64), "a");
  }

  // ----- following the Link headers

  ghost function Concat(pages: seq<seq<string>>): seq<string> {
    if pages == [] then [] else pages[0] + Concat(pages[1..])
  }

  /** The pages a client gets that follows at most `requests` Link headers; None when it is not
      done by then, or gets no page. */
  ghost function Walk(s: seq<string>, n: int64, last: string, requests: nat): Option<seq<seq<string>>>
    requires n > 0
    decreases requests
  {
    if requests == 0 then None
    else
      match Answer(s, Some(n), last)
      case Page(tags, None) => Some([tags])
      case Page(tags, Some(next)) =>
        var rest := Walk(s, n, next, requests - 1);
        if rest == None then None else Some([tags] + rest.value)
      case _ => None
  }

  /** `last` is what a client that has the first i tags sends. */
  ghost predicate Continues(s: seq<string>, i: nat, last: string) {
    i <= |s| && if i == 0 then last == "" else last == s[i - 1] && last != ""
  }

  lemma StartsWhereItEnded(s: seq<string>, i: nat, last: string)
    requires Distinct(s) && Continues(s, i, last)
    ensures StartIndex(s, last) == Some(i)
  {
    if i > 0 {
      assert last !in s[..i - 1];
      FirstOccurrence(s, last, i - 1);
    }
  }

  lemma EmptyTagIsFirst(s: seq<string>, i: nat)
    requires SortedTags(s) && Distinct(s) && i < |s| && s[i] == ""
    ensures i == 0
  {
    if i > 0 {
      BeforeTotal(s[0], s[i]);
    }
  }

  lemma AnswerAt(s: seq<string>, n: int64, i: nat, last: string)
    requires n > 0 && |s| + n as int <= MAX_INT64 && StartIndex(s, last) == Some(i)
    ensures Answer(s, Some(n), last) ==
      if i + n as int < |s| then Page(s[i..i + n as int], Some(s[i + n as int - 1])) else Page(s[i..], None)
  {
    WrapNothing(i + n as int);
    WrapNothing(i + n as int - 1);
    hide Wrap64;
  }

  lemma WrapNothing(x: int)
    requires 0 <= x <= MAX_INT64
    ensures Wrap64(x) == x
  {
  }

  /** A sum of two values beyond the largest one turns negative. */
  lemma WrapAround(x: int)
    requires MAX_INT64 < x <= 2 * MAX_INT64
    ensures Wrap64(x) == x - 0x1_0000_0000_0000_0000 < 0
  {
  }

  lemma WrapBelow(x: int)
    requires -MAX_INT64 - 1 <= x < 0
    ensures Wrap64(x - 1) < 0 || Wrap64(x - 1) == MAX_INT64
  {
  }

  lemma ConcatCons(page: seq<string>, rest: seq<seq<string>>)
    ensures Concat([page] + rest) == page + Concat(rest)
  {
    assert ([page] + rest)[1..] == rest;
  }

  /** From any position the walk gets all remaining tags, each page making progress. */
  lemma {:induction false} WalkFrom(s: seq<string>, n: int64, i: nat, last: string, requests: nat)
    requires SortedTags(s) && Distinct(s) && n > 0 && |s| + n as int <= MAX_INT64
    requires Continues(s, i, last) && requests > |s| - i
    requires i > 0 || n > 1 || "" !in s || |s| == 1
    ensures Walk(s, n, last, requests).Some? && Concat(Walk(s, n, last, requests).value) == s[i..]
    decreases requests
  {
    hide Answer, StartIndex, Concat, SortedTags, Distinct;
    StartsWhereItEnded(s, i, last);
    AnswerAt(s, n, i, last);
    if i + n as int < |s| {
      var stop := i + n as int - 1;
      if s[stop] == "" {
        EmptyTagIsFirst(s, stop);
      }
      WalkFrom(s, n, stop + 1, s[stop], requests - 1);
      assert s[i..] == s[i..stop + 1] + s[stop + 1..];
      ConcatCons(s[i..stop + 1], Walk(s, n, s[stop], requests - 1).value);
    } else {
      ConcatOne(s[i..]);
    }
  }

  lemma ConcatOne(page: seq<string>)
    ensures Concat([page]) == page
  {
    assert [page][1..] == [];
    assert page + [] == page;
  }

  /** The walk gets every tag exactly once, in order, if and only if it does not stand still: with
      one tag a page, a first tag that is empty looks like the beginning again. */
  lemma WalkIsComplete(s: seq<string>, n: int64)
    requires SortedTags(s) && Distinct(s) && n > 0 && (2 * |s| <= MAX_INT64 || |s| + n as int <= MAX_INT64)
    ensures if n == 1 && "" in s && |s| > 1 then forall requests: nat :: Walk(s, n, "", requests) == None
            else forall requests: nat | requests > |s| ::
              Walk(s, n, "", requests).Some? && Concat(Walk(s, n, "", requests).value) == s
  {
    hide Walk, Concat, SortedTags, Distinct;
    if n == 1 && "" in s && |s| > 1 {
      forall requests: nat ensures Walk(s, n, "", requests) == None {
        WalkStandsStill(s, requests);
      }
    } else {
      forall requests: nat | requests > |s|
        ensures Walk(s, n, "", requests).Some? && Concat(Walk(s, n, "", requests).value) == s
      {
        if |s| + n as int <= MAX_INT64 {
          WalkFrom(s, n, 0, "", requests);
        } else {
          EverythingAtOnce(s, n, requests);
        }
      }
    }
  }

  /** A page size that would overflow on a later page leaves no later page. */
  lemma EverythingAtOnce(s: seq<string>, n: int64, requests: nat)
    requires n > 0 && |s| <= n as int && requests > 0
    ensures Walk(s, n, "", requests) == Some([s]) && Concat([s]) == s
  {
    hide Wrap64, Concat;
    WrapNothing(n as int);
    assert s[0..] == s;
    ConcatOne(s);
  }

  lemma {:induction false} WalkStandsStill(s: seq<string>, requests: nat)
    requires SortedTags(s) && Distinct(s) && "" in s && |s| > 1 && |s| < MAX_INT64
    ensures Walk(s, 1, "", requests) == None
    decreases requests
  {
    hide Answer, SortedTags, Distinct;
    var i :| 0 <= i < |s| && s[i] == "";
    EmptyTagIsFirst(s, i);
    AnswerAt(s, 1, 0, "");
    if requests > 0 {
      WalkStandsStill(s, requests - 1);
    }
  }
}
