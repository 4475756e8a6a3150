/**
 The Range header of blob requests (sections 14.1.2 and 15.3.7.2 of RFC 9110): reading the
 header, clamping every spec to the blob, and coalescing the ranges in place.
 */
module ByteRanges {
  import opened GoText
  import opened Optional
  import Sorting

  /** Inclusive positions, in 64-bit arithmetic. */
  datatype HttpRange = HttpRange(start: int64, end: int64) {
    function Length(): int64
      requires 0 <= start <= end < MAX_INT64 as int64
    {
      end - start + 1
    }
  }

  const MAX_RANGE_SPEC_COUNT: nat := 16

  // ----- positions covered

  ghost predicate Has(r: HttpRange, b: int) {
    r.start as int <= b <= r.end as int
  }

  ghost predicate Covers(s: seq<HttpRange>, b: int) {
    exists i :: 0 <= i < |s| && Has(s[i], b)
  }

  /** Inside a blob of that size. */
  predicate Inside(r: HttpRange, size: int) {
    0 <= r.start <= r.end && (r.end as int) < size
  }

  predicate AllInside(s: seq<HttpRange>, size: int) {
    forall i | 0 <= i < |s| :: Inside(s[i], size)
  }

  /** Sorted by start, pairwise disjoint and not adjacent. */
  ghost predicate NormalForm(s: seq<HttpRange>) {
    && (forall i | 0 <= i < |s| :: s[i].start <= s[i].end)
    && (forall i, j | 0 <= i < j < |s| :: s[i].end as int + 1 < s[j].start as int)
  }

  /** A set of positions has at most one normal form. */
  lemma {:induction false} NormalFormUnique(s: seq<HttpRange>, t: seq<HttpRange>)
    requires NormalForm(s) && NormalForm(t) && forall b :: Covers(s, b) <==> Covers(t, b)
    ensures s == t
  {
    if s != [] {
      FirstIsCovered(s);
    }
    if t != [] {
      FirstIsCovered(t);
    }
    if s != [] && t != [] {
      FirstIsLeast(s, t);
      FirstIsLeast(t, s);
      FirstEndsFirst(s, t);
      FirstEndsFirst(t, s);
      assert s[0] == t[0];
      forall b ensures Covers(s[1..], b) <==> Covers(t[1..], b) {
        RestCovers(s, b);
        RestCovers(t, b);
      }
      NormalFormUnique(s[1..], t[1..]);
      assert s == [s[0]] + s[1..] && t == [t[0]] + t[1..];
    }
  }

  lemma FirstIsCovered(s: seq<HttpRange>)
    requires s != [] && NormalForm(s)
    ensures Covers(s, s[0].start as int)
  {
    assert Has(s[0], s[0].start as int);
  }

  lemma FirstIsLeast(s: seq<HttpRange>, t: seq<HttpRange>)
    requires s != [] && t != [] && NormalForm(s) && NormalForm(t)
    requires Covers(s, t[0].start as int)
    ensures s[0].start <= t[0].start
  {
    var i :| 0 <= i < |s| && Has(s[i], t[0].start as int);
    assert i == 0 || s[0].end as int + 1 < s[i].start as int;
  }

  lemma FirstEndsFirst(s: seq<HttpRange>, t: seq<HttpRange>)
    requires s != [] && t != [] && NormalForm(s) && NormalForm(t) && s[0].start == t[0].start
    requires forall b :: Covers(s, b) <==> Covers(t, b)
    ensures t[0].end <= s[0].end
  {
    var b := s[0].end as int + 1;
    GapAfterFirst(s);
    assert !Covers(t, b);
    assert !Has(t[0], b);
  }

  lemma GapAfterFirst(s: seq<HttpRange>)
    requires s != [] && NormalForm(s)
    ensures !Covers(s, s[0].end as int + 1)
  {
    var b := s[0].end as int + 1;
    forall i | 0 <= i < |s| ensures !Has(s[i], b) {
      assert i == 0 || b < s[i].start as int;
    }
  }

  lemma RestCovers(s: seq<HttpRange>, b: int)
    requires s != [] && NormalForm(s)
    ensures Covers(s[1..], b) <==> Covers(s, b) && s[0].end as int < b
  {
    if Covers(s[1..], b) {
      var i :| 0 <= i < |s[1..]| && Has(s[1..][i], b);
      assert Has(s[i + 1], b);
    }
    if Covers(s, b) && s[0].end as int < b {
      var i :| 0 <= i < |s| && Has(s[i], b);
      assert Has(s[1..][i - 1], b);
    }
  }

  // ----- lengths

  ghost function TotalLength(s: seq<HttpRange>): int {
    if s == [] then 0 else TotalLength(s[..|s| - 1]) + (s[|s| - 1].end as int - s[|s| - 1].start as int + 1)
  }

  /** No byte is asked for twice, so all ranges together are no longer than the blob. */
  lemma {:induction false} NormalFormDoesNotAmplify(s: seq<HttpRange>, size: int)
    requires NormalForm(s) && size >= 0 && AllInside(s, size)
    ensures 0 <= TotalLength(s) <= size
  {
    if s != [] {
      var front := s[..|s| - 1];
      assert AllInside(front, s[|s| - 1].start as int);
      NormalFormDoesNotAmplify(front, s[|s| - 1].start as int);
    }
  }

  // ----- coalescing

  predicate StartsBefore(x: HttpRange, y: HttpRange) {
    if x.start == y.start then x.end < y.end else x.start < y.start
  }

  /** The merged ranges after one more range of the sorted list. */
  function Merged(done: seq<HttpRange>, r: HttpRange): (t: seq<HttpRange>)
    requires AllInside(done, MAX_INT64) && Inside(r, MAX_INT64)
    ensures 0 < |t| <= |done| + 1 && AllInside(t, MAX_INT64)
  {
    if done == [] then [r]
    else
      var last := done[|done| - 1];
      if r.start <= last.end + 1 then
        done[|done| - 1 := HttpRange(last.start, if last.end < r.end then r.end else last.end)]
      else done + [r]
  }

  function Coalesced(s: seq<HttpRange>): (t: seq<HttpRange>)
    requires AllInside(s, MAX_INT64)
    ensures |t| <= |s| && (s != [] ==> t != []) && AllInside(t, MAX_INT64)
  {
    if s == [] then [] else Merged(Coalesced(s[..|s| - 1]), s[|s| - 1])
  }

  /** Merging a list sorted by start gives the normal form of its positions. */
  lemma {:induction false} CoalescedIsNormalForm(s: seq<HttpRange>)
    requires AllInside(s, MAX_INT64)
    requires forall i, j | 0 <= i < j < |s| :: s[i].start <= s[j].start
    ensures NormalForm(Coalesced(s))
    ensures forall b :: Covers(Coalesced(s), b) <==> Covers(s, b)
    ensures s != [] ==> Coalesced(s)[|Coalesced(s)| - 1].start <= s[|s| - 1].start
  {
    if s != [] {
      hide Merged, NormalForm, Covers, Has, Coalesced;
      var front, r := s[..|s| - 1], s[|s| - 1];
      CoalescedNext(s, |s| - 1);
      assert s[..|s|] == s;
      CoalescedIsNormalForm(front);
      assert s == front + [r];
      CoversAppended(front, r);
      MergedIsNormalForm(Coalesced(front), r);
    }
  }

  lemma MergedIsNormalForm(done: seq<HttpRange>, r: HttpRange)
    requires AllInside(done, MAX_INT64) && Inside(r, MAX_INT64) && NormalForm(done)
    requires done != [] ==> done[|done| - 1].start <= r.start
    ensures var t := Merged(done, r); NormalForm(t) && t[|t| - 1].start <= r.start
    ensures forall b :: Covers(Merged(done, r), b) <==> Covers(done, b) || Has(r, b)
  {
    if done != [] && r.start <= done[|done| - 1].end + 1 {
      CoversMerged(done, r);
    } else {
      CoversAppended(done, r);
      assert Merged(done, r) == done + [r];
    }
  }

  function Last(s: seq<HttpRange>): HttpRange
    requires s != []
  {
    s[|s| - 1]
  }

  /** One turn of the loop: reads element i, and writes no element after it. */
  method MergeNext(a: array<HttpRange>, n: nat, i: nat) returns (n': nat)
    requires n <= i < a.Length && AllInside(a[..n], MAX_INT64) && Inside(a[i], MAX_INT64)
    modifies a
    ensures n' <= i + 1
    ensures a[..n'] == Merged(old(a[..n]), old(a[i]))
    ensures a[i + 1..] == old(a[i + 1..])
  {
    n' := n;
    var httpRange := a[i];
    if n == 0 {
      a[0] := httpRange;
      n' := 1;
    } else if httpRange.start <= Last(a[..n]).end + 1 {
      a[n - 1] := HttpRange(a[n - 1].start, if a[n - 1].end < httpRange.end then httpRange.end else a[n - 1].end);
    } else {
      a[n] := httpRange;
      n' := n + 1;
    }
  }

  /** Sorts the ranges and writes the merged ones into the prefix of the very array they are read
      from; the result is a[..n]. */
  method CoalesceRanges(a: array<HttpRange>) returns (n: nat)
    requires AllInside(a[..], MAX_INT64)
    modifies a
    ensures n <= a.Length && (a.Length > 0 ==> n > 0)
    ensures NormalForm(a[..n]) && AllInside(a[..n], MAX_INT64)
    ensures forall b :: Covers(a[..n], b) <==> Covers(old(a[..]), b)
  {
    SortByStart(a);
    ghost var sorted := a[..];
    CoalescedIsNormalForm(sorted);
    n := MergeSorted(a);
  }

  method SortByStart(a: array<HttpRange>)
    requires AllInside(a[..], MAX_INT64)
    modifies a
    ensures AllInside(a[..], MAX_INT64)
    ensures forall i, j | 0 <= i < j < a.Length :: a[..][i].start <= a[..][j].start
    ensures forall b :: Covers(a[..], b) <==> Covers(old(a[..]), b)
  {
    Sorting.Sort(a, StartsBefore);
    SortedRanges(old(a[..]), a[..]);
  }

  method MergeSorted(a: array<HttpRange>) returns (n: nat)
    requires AllInside(a[..], MAX_INT64)
    modifies a
    ensures n <= a.Length && a[..n] == Coalesced(old(a[..]))
  {
    hide Coalesced, Merged;
    ghost var sorted := a[..];
    n := 0;
    EmptyCoalesced();
    for i := 0 to a.Length
      invariant n <= i
      invariant a[i..] == sorted[i..]
      invariant a[..n] == Coalesced(sorted[..i])
    {
      CoalescedNext(sorted, i);
      assert a[i] == a[i..][0] == sorted[i];
      n := MergeNext(a, n, i);
    }
    assert sorted[..a.Length] == sorted;
  }

  lemma EmptyCoalesced()
    ensures Coalesced([]) == []
  {
  }

  lemma CoalescedNext(s: seq<HttpRange>, i: nat)
    requires i < |s| && AllInside(s, MAX_INT64)
    ensures Coalesced(s[..i + 1]) == Merged(Coalesced(s[..i]), s[i])
  {
    assert s[..i + 1][..i] == s[..i];
  }

  lemma SortedRanges(given: seq<HttpRange>, sorted: seq<HttpRange>)
    requires Sorting.Permutation(sorted, given) && Sorting.Ordered(sorted, StartsBefore)
    requires AllInside(given, MAX_INT64)
    ensures AllInside(sorted, MAX_INT64)
    ensures forall i, j | 0 <= i < j < |sorted| :: sorted[i].start <= sorted[j].start
    ensures forall b :: Covers(sorted, b) <==> Covers(given, b)
  {
    Sorting.SameElements(sorted, given);
    forall i | 0 <= i < |sorted| ensures Inside(sorted[i], MAX_INT64) {
      assert sorted[i] in given;
    }
    forall b ensures Covers(sorted, b) <==> Covers(given, b) {
      if i :| 0 <= i < |sorted| && Has(sorted[i], b) {
        assert sorted[i] in given;
      }
      if i :| 0 <= i < |given| && Has(given[i], b) {
        assert given[i] in sorted;
      }
    }
  }

  lemma CoversAppended(s: seq<HttpRange>, r: HttpRange)
    ensures forall b :: Covers(s + [r], b) <==> Covers(s, b) || Has(r, b)
  {
    forall b ensures Covers(s + [r], b) <==> Covers(s, b) || Has(r, b) {
      if i :| 0 <= i < |s| && Has(s[i], b) {
        assert Has((s + [r])[i], b);
      }
      if Has(r, b) {
        assert Has((s + [r])[|s|], b);
      }
    }
  }

  /** Merging r into the last range adds exactly r's positions. */
  lemma CoversMerged(s: seq<HttpRange>, r: HttpRange)
    requires s != [] && NormalForm(s) && r.start <= r.end
    requires var last := s[|s| - 1]; last.start <= r.start && r.start as int <= last.end as int + 1
    ensures var last := s[|s| - 1];
      var t := s[|s| - 1 := HttpRange(last.start, if last.end < r.end then r.end else last.end)];
      forall b :: Covers(t, b) <==> Covers(s, b) || Has(r, b)
  {
    var last := s[|s| - 1];
    var merged := HttpRange(last.start, if last.end < r.end then r.end else last.end);
    var t := s[|s| - 1 := merged];
    assert s == s[..|s| - 1] + [last] && t == s[..|s| - 1] + [merged];
    CoversAppended(s[..|s| - 1], last);
    CoversAppended(s[..|s| - 1], merged);
  }

  // ----- the header

  /** One spec of the header: the last bytes of the blob, or those from a first position on. */
  datatype ByteRangeSpec = Suffix(length: int64) | From(first: int64) | Closed(first: int64, last: int64)

  /** The positions a spec names in a blob of the given size (section 14.1.2). */
  ghost predicate Names(spec: ByteRangeSpec, size: int, b: int) {
    && 0 <= b < size
    && match spec
       case Suffix(length) => size - length as int <= b
       case From(first) => first as int <= b
       case Closed(first, last) => first as int <= b <= last as int
  }

  ghost predicate NamesSome(spec: ByteRangeSpec, size: int) {
    exists b :: Names(spec, size, b)
  }

  /** The syntax of a spec; numbers are read as strconv.ParseInt reads them, sign included. */
  function ReadSpec(text: string): Option<ByteRangeSpec> {
    var i := IndexOf(text, '-');
    if i == |text| then None
    else
      var end := ParseInt64(text[i + 1..]);
      if i == 0 then if end == None then None else Some(Suffix(end.value))
      else
        var start := ParseInt64(text[..i]);
        if start == None then None
        else if text[i + 1..] == "" then Some(From(start.value))
        else if end == None then None
        else Some(Closed(start.value, end.value))
  }

  /** A spec is a text with a dash: nothing before the first dash and a number behind it, or a number before it and
      nothing or a number behind it. */
  lemma SpecMeaning(text: string, spec: ByteRangeSpec)
    ensures ReadSpec(text) == Some(spec) <==>
      exists before, behind | text == before + "-" + behind && '-' !in before ::
        match spec
        case Suffix(length) => before == "" && ParseInt64(behind) == Some(length)
        case From(first) => before != "" && behind == "" && ParseInt64(before) == Some(first)
        case Closed(first, last) =>
          before != "" && behind != "" && ParseInt64(before) == Some(first) && ParseInt64(behind) == Some(last)
  {
    hide IndexOf, ParseInt64;
    var i := IndexOf(text, '-');
    if i < |text| {
      var before, behind := text[..i], text[i + 1..];
      assert text == before + "-" + behind;
    }
    forall before, behind | text == before + "-" + behind && '-' !in before
      ensures before == text[..i] && i < |text| && behind == text[i + 1..]
    {
      CutAtDash(before, behind);
    }
    EmptyIsNoNumber();
  }

  lemma EmptyIsNoNumber()
    ensures ParseInt64("") == None
  {
  }

  ghost predicate GoodSpec(part: string, size: int) {
    var spec := ReadSpec(TrimSpace(part));
    spec.Some? && NamesSome(spec.value, size)
  }

  ghost predicate PartNames(part: string, size: int, b: int) {
    var spec := ReadSpec(TrimSpace(part));
    spec.Some? && Names(spec.value, size, b)
  }

  ghost predicate PartsName(parts: seq<string>, size: int, b: int) {
    exists i :: 0 <= i < |parts| && PartNames(parts[i], size, b)
  }

  lemma PartsNameAppended(parts: seq<string>, part: string, size: int, b: int)
    ensures PartsName(parts + [part], size, b) <==> PartsName(parts, size, b) || PartNames(part, size, b)
  {
    if i :| 0 <= i < |parts| && PartNames(parts[i], size, b) {
      assert PartNames((parts + [part])[i], size, b);
    }
    assert (parts + [part])[|parts|] == part;
  }

  /** The part of the loop of parseRangeHeader that reads one spec and clamps it to the blob. */
  method ParseSpec(part: string, size: int64) returns (r: Option<HttpRange>)
    requires size > 0
    ensures r.Some? <==> GoodSpec(part, size as int)
    ensures r.Some? ==> Inside(r.value, size as int)
    ensures r.Some? ==> forall b :: Has(r.value, b) <==> PartNames(part, size as int, b)
  {
    var rangeSpec := TrimSpace(part);
    var dash := IndexOf(rangeSpec, '-');
    if dash == |rangeSpec| {
      return None;
    }
    var startStr, endStr := rangeSpec[..dash], rangeSpec[dash + 1..];
    var start, end: int64;
    if startStr == "" {
      var suffixLen := ParseInt64(endStr);
      if suffixLen == None || suffixLen.value <= 0 {
        return None;
      }
      start := if suffixLen.value > size then 0 else size - suffixLen.value;
      end := size - 1;
    } else {
      var parsedStart := ParseInt64(startStr);
      if parsedStart == None || parsedStart.value < 0 {
        StartNotNegative(rangeSpec, dash);
        return None;
      }
      start := parsedStart.value;
      if endStr == "" {
        end := size - 1;
      } else {
        var parsedEnd := ParseInt64(endStr);
        if parsedEnd == None || parsedEnd.value < start {
          return None;
        }
        end := if parsedEnd.value < size - 1 then parsedEnd.value else size - 1;
      }
    }
    if start >= size || start > end {
      return None;
    }
    r := Some(HttpRange(start, end));
    assert PartNames(part, size as int, start as int);
    assert NamesSome(ReadSpec(rangeSpec).value, size as int);
  }

  /** No start can be negative: what stands before the first '-' has no sign '-'. */
  lemma StartNotNegative(text: string, dash: nat)
    requires dash == IndexOf(text, '-') < |text| && dash > 0
    ensures var start := ParseInt64(text[..dash]); start.Some? ==> start.value >= 0
  {
    assert text[..dash][0] in text[..dash];
  }

  const PREFIX := "bytes="

  ghost predicate Acceptable(contentRange: string, size: int) {
    && size > 0 && PREFIX <= contentRange && contentRange != PREFIX
    && var parts := Split(contentRange[|PREFIX|..], ',');
    |parts| <= MAX_RANGE_SPEC_COUNT && forall p | p in parts :: GoodSpec(p, size)
  }

  ghost predicate HeaderNames(contentRange: string, size: int, b: int) {
    PREFIX <= contentRange && PartsName(Split(contentRange[|PREFIX|..], ','), size, b)
  }

  /** A header is accepted exactly when it has at most 16 specs and every one of them names a byte of
      the blob; the answer is the normal form of exactly the bytes named, no longer than the blob. */
  method ParseRangeHeader(contentRange: string, size: int64) returns (r: Option<seq<HttpRange>>)
    ensures r.Some? <==> Acceptable(contentRange, size as int)
    ensures r.Some? ==> 1 <= |r.value| <= MAX_RANGE_SPEC_COUNT
    ensures r.Some? ==> AllInside(r.value, size as int) && NormalForm(r.value)
    ensures r.Some? ==> forall b :: Covers(r.value, b) <==> HeaderNames(contentRange, size as int, b)
    ensures r.Some? ==> 0 < TotalLength(r.value) <= size as int
    ensures r.Some? ==> "bytes=" <= contentRange
    ensures r.Some? ==> |r.value| <= 16 && forall i | 0 <= i < |r.value| ::
              0 <= r.value[i].start <= r.value[i].end < size
    ensures r.Some? ==> forall i, j | 0 <= i < j < |r.value| :: r.value[i].end as int + 1 < r.value[j].start as int
  {
    if size <= 0 || !(PREFIX <= contentRange) {
      return None;
    }
    var rangeSet := contentRange[|PREFIX|..];
    CountSplits(rangeSet, ',');
    if rangeSet == "" || Count(rangeSet, ',') + 1 > MAX_RANGE_SPEC_COUNT {
      assert rangeSet == "" ==> contentRange == PREFIX;
      return None;
    }
    var parts := Split(rangeSet, ',');
    var ranges := ParseSpecs(parts, size);
    if ranges == None {
      return None;
    }
    var a := new HttpRange[|ranges.value|](i requires 0 <= i < |ranges.value| => ranges.value[i]);
    assert a[..] == ranges.value;
    var n := CoalesceRanges(a);
    r := Some(a[..n]);
    NormalFormStaysInside(r.value, ranges.value, size as int);
    NormalFormDoesNotAmplify(r.value, size as int);
    TotalPositive(r.value);
  }

  method ParseSpecs(parts: seq<string>, size: int64) returns (r: Option<seq<HttpRange>>)
    requires size > 0
    ensures r.Some? <==> forall p | p in parts :: GoodSpec(p, size as int)
    ensures r.Some? ==> |r.value| == |parts| && AllInside(r.value, size as int)
    ensures r.Some? ==> forall b :: Covers(r.value, b) <==> PartsName(parts, size as int, b)
  {
    hide GoodSpec, PartNames, PartsName, Inside, Covers, Has;
    var ranges: seq<HttpRange> := [];
    NothingCovered();
    NothingNamed(size as int);
    for i := 0 to |parts|
      invariant |ranges| == i && AllInside(ranges, size as int)
      invariant forall p | p in parts[..i] :: GoodSpec(p, size as int)
      invariant forall b :: Covers(ranges, b) <==> PartsName(parts[..i], size as int, b)
    {
      assert parts[..i + 1] == parts[..i] + [parts[i]];
      var range := ParseSpec(parts[i], size);
      if range == None {
        assert parts[i] in parts;
        return None;
      }
      CoversAppended(ranges, range.value);
      forall b ensures Covers(ranges + [range.value], b) <==> PartsName(parts[..i + 1], size as int, b) {
        PartsNameAppended(parts[..i], parts[i], size as int, b);
      }
      ranges := ranges + [range.value];
    }
    assert parts[..|parts|] == parts;
    r := Some(ranges);
  }

  lemma NothingNamed(size: int)
    ensures forall b :: !PartsName([], size, b)
  {
  }

  lemma NothingCovered()
    ensures forall b :: !Covers([], b)
  {
  }

  /** The ends of a normal form are covered, so it stays inside any blob its positions stay inside. */
  lemma NormalFormStaysInside(s: seq<HttpRange>, t: seq<HttpRange>, size: int)
    requires AllInside(s, MAX_INT64) && AllInside(t, size) && forall b :: Covers(s, b) <==> Covers(t, b)
    ensures AllInside(s, size)
  {
    forall i | 0 <= i < |s| ensures Inside(s[i], size) {
      assert Has(s[i], s[i].end as int) && Covers(s, s[i].end as int);
      var j :| 0 <= j < |t| && Has(t[j], s[i].end as int);
      assert Inside(t[j], size);
    }
  }

  lemma TotalPositive(s: seq<HttpRange>)
    requires NormalForm(s) && s != [] && AllInside(s, MAX_INT64)
    ensures TotalLength(s) > 0
  {
    NormalFormDoesNotAmplify(s[..|s| - 1], MAX_INT64);
  }

  // ----- headers as RFC 9110 writes them

  predicate WellFormed(spec: ByteRangeSpec) {
    match spec
    case Suffix(length) => length >= 0
    case From(first) => first >= 0
    case Closed(first, last) => first >= 0 && last >= 0
  }

  function FormatSpec(spec: ByteRangeSpec): string
    requires WellFormed(spec)
  {
    match spec
    case Suffix(length) => "-" + FormatNat(length as nat)
    case From(first) => FormatNat(first as nat) + "-"
    case Closed(first, last) => FormatNat(first as nat) + "-" + FormatNat(last as nat)
  }

  function FormatSpecs(specs: seq<ByteRangeSpec>): (parts: seq<string>)
    requires forall s | s in specs :: WellFormed(s)
    ensures |parts| == |specs|
    ensures forall i | 0 <= i < |specs| :: WellFormed(specs[i]) && parts[i] == FormatSpec(specs[i])
  {
    if specs == [] then [] else [FormatSpec(specs[0])] + FormatSpecs(specs[1..])
  }

  function FormatHeader(specs: seq<ByteRangeSpec>): string
    requires specs != [] && forall s | s in specs :: WellFormed(s)
  {
    PREFIX + Join(FormatSpecs(specs), ',')
  }

  lemma FormattedChars(spec: ByteRangeSpec)
    requires WellFormed(spec)
    ensures FormatSpec(spec) != "" && forall c | c in FormatSpec(spec) :: IsDigit(c) || c == '-'
  {
  }

  lemma TrimFormatted(spec: ByteRangeSpec)
    requires WellFormed(spec)
    ensures TrimSpace(FormatSpec(spec)) == FormatSpec(spec)
  {
    hide FormatSpec, TrimSpace;
    var text := FormatSpec(spec);
    FormattedChars(spec);
    assert text[0] in text && text[|text| - 1] in text;
    TrimNothing(text);
  }

  lemma CutAtDash(before: string, behind: string)
    requires '-' !in before
    ensures var text := before + "-" + behind;
      IndexOf(text, '-') == |before| < |text| && text[..|before|] == before && text[|before| + 1..] == behind
  {
    hide IndexOf;
    IndexOfFirst(before, '-', behind);
    assert before + "-" + behind == before + ['-'] + behind;
  }

  lemma ReadFormatted(spec: ByteRangeSpec)
    requires WellFormed(spec)
    ensures ReadSpec(TrimSpace(FormatSpec(spec))) == Some(spec)
  {
    hide IndexOf, ParseInt64, FormatNat, TrimSpace;
    TrimFormatted(spec);
    match spec
    case Suffix(length) =>
      ParseFormatInt64(length as nat);
      CutAtDash("", FormatNat(length as nat));
      assert "" + "-" + FormatNat(length as nat) == FormatSpec(spec);
    case From(first) =>
      ParseFormatInt64(first as nat);
      CutAtDash(FormatNat(first as nat), "");
      assert FormatNat(first as nat) + "-" + "" == FormatSpec(spec);
    case Closed(first, last) =>
      ParseFormatInt64(first as nat);
      ParseFormatInt64(last as nat);
      CutAtDash(FormatNat(first as nat), FormatNat(last as nat));
  }

  /** Every header the standard's grammar writes for a list of specs is read as exactly that list. */
  lemma HeaderRoundTrip(specs: seq<ByteRangeSpec>)
    requires specs != [] && forall s | s in specs :: WellFormed(s)
    ensures var parts := Split(FormatHeader(specs)[|PREFIX|..], ',');
      && PREFIX <= FormatHeader(specs) && |parts| == |specs|
      && forall i | 0 <= i < |specs| :: ReadSpec(TrimSpace(parts[i])) == Some(specs[i])
  {
    var parts := FormatSpecs(specs);
    forall p | p in parts ensures ',' !in p {
      var i :| 0 <= i < |parts| && parts[i] == p;
      FormattedChars(specs[i]);
    }
    SplitJoin(parts, ',');
    assert FormatHeader(specs)[|PREFIX|..] == Join(parts, ',');
    forall i | 0 <= i < |specs| ensures ReadSpec(TrimSpace(parts[i])) == Some(specs[i]) {
      ReadFormatted(specs[i]);
    }
  }

  /** So such a header is accepted exactly when it has at most 16 specs and each names a byte, and
      the bytes named are those its specs name. */
  lemma FormattedHeaderMeaning(specs: seq<ByteRangeSpec>, size: int)
    requires specs != [] && forall s | s in specs :: WellFormed(s)
    ensures Acceptable(FormatHeader(specs), size) <==>
      size > 0 && |specs| <= MAX_RANGE_SPEC_COUNT && forall s | s in specs :: NamesSome(s, size)
    ensures forall b :: HeaderNames(FormatHeader(specs), size, b) <==> exists s :: s in specs && Names(s, size, b)
  {
    hide ReadSpec, TrimSpace, GoodSpec, PartsName, NamesSome, Names, Split;
    HeaderRoundTrip(specs);
    PartsMean(Split(FormatHeader(specs)[|PREFIX|..], ','), specs, size);
    HeaderNotBare(specs);
  }

  lemma PartsMean(parts: seq<string>, specs: seq<ByteRangeSpec>, size: int)
    requires |parts| == |specs| && forall i | 0 <= i < |specs| :: ReadSpec(TrimSpace(parts[i])) == Some(specs[i])
    ensures (forall p | p in parts :: GoodSpec(p, size)) <==> (forall s | s in specs :: NamesSome(s, size))
    ensures forall b :: PartsName(parts, size, b) <==> exists s :: s in specs && Names(s, size, b)
  {
    hide ReadSpec, TrimSpace, NamesSome, Names;
    forall i | 0 <= i < |specs|
      ensures parts[i] in parts && specs[i] in specs && GoodSpec(parts[i], size) == NamesSome(specs[i], size)
    {
    }
    forall b ensures PartsName(parts, size, b) <==> exists s :: s in specs && Names(s, size, b) {
      forall i | 0 <= i < |specs| ensures PartNames(parts[i], size, b) == Names(specs[i], size, b) {
      }
    }
  }

  lemma HeaderNotBare(specs: seq<ByteRangeSpec>)
    requires specs != [] && forall s | s in specs :: WellFormed(s)
    ensures PREFIX <= FormatHeader(specs) && FormatHeader(specs) != PREFIX
  {
    hide FormatSpec;
    FormattedChars(specs[0]);
    assert |Join(FormatSpecs(specs), ',')| >= |FormatSpecs(specs)[0]| > 0;
  }

  /** White space around the specs changes nothing: neither whether the header is accepted, nor its bytes. */
  lemma PaddedHeaderMeaning(specs: seq<ByteRangeSpec>, texts: seq<string>, size: int)
    requires specs != [] && |texts| == |specs| && forall s | s in specs :: WellFormed(s)
    requires forall i | 0 <= i < |specs| :: Padded(texts[i], FormatSpec(specs[i]))
    ensures var header := "bytes=" + Join(texts, ',');
      && (Acceptable(header, size) <==>
            size > 0 && |specs| <= 16 && forall s | s in specs :: NamesSome(s, size))
      && forall b :: HeaderNames(header, size, b) <==> exists s :: s in specs && Names(s, size, b)
  {
    hide ReadSpec, TrimSpace, GoodSpec, PartsName, NamesSome, Names, Split, FormatSpec, Padded;
    forall i | 0 <= i < |specs|
      ensures ',' !in texts[i] && texts[i] != "" && ReadSpec(TrimSpace(texts[i])) == Some(specs[i])
    {
      PaddedText(texts[i], specs[i]);
    }
    SplitJoin(texts, ',');
    var header := "bytes=" + Join(texts, ',');
    assert header[..|PREFIX|] == PREFIX && header[|PREFIX|..] == Join(texts, ',');
    assert |Join(texts, ',')| >= |texts[0]| > 0;
    PartsMean(texts, specs, size);
  }

  ghost predicate Padded(text: string, s: string) {
    exists a, b :: AllSpace(a) && AllSpace(b) && text == a + s + b
  }

  lemma PaddedText(text: string, spec: ByteRangeSpec)
    requires WellFormed(spec) && Padded(text, FormatSpec(spec))
    ensures ',' !in text && text != "" && ReadSpec(TrimSpace(text)) == Some(spec)
  {
    hide FormatSpec, TrimSpace, ReadSpec;
    var s := FormatSpec(spec);
    var a, b :| AllSpace(a) && AllSpace(b) && text == a + s + b;
    FormattedChars(spec);
    assert s[0] in s && s[|s| - 1] in s;
    TrimPadded(a, s, b);
    TrimFormatted(spec);
    ReadFormatted(spec);
    assert forall c | c in text :: c in a || c in s || c in b;
  }
}
