/**
 The tag= query parameters of a manifest push by digest: the handler normalizes them before it
 writes them, authorization sorts the same raw values into existing and new tags.
 */
module QueryTags {
  import opened GoText
  import opened Optional

  const TAG_MAX_LEN: nat := 128

  datatype Normalized = EmptyTag | InvalidTag | Tags(tags: seq<string>)

  predicate IsTagStart(c: char) {
    'a' <= c <= 'z' || 'A' <= c <= 'Z' || '0' <= c <= '9' || c == '_'
  }

  predicate IsTagChar(c: char) {
    IsTagStart(c) || c == '.' || c == '-'
  }

  /** The tag grammar of the distribution specification. */
  predicate IsDistributionSpecTag(s: string) {
    0 < |s| <= TAG_MAX_LEN && IsTagStart(s[0]) && forall c | c in s[1..] :: IsTagChar(c)
  }

  /** The grammar in code points: 1 to 128 digits, capital and small letters and underscores, from the second one on
      dots and hyphens too. */
  lemma TagGrammar(s: string)
    ensures IsDistributionSpecTag(s) <==>
      && 1 <= |s| <= 128
      && forall i | 0 <= i < |s| ::
           var c := s[i] as int;
           || 48 <= c <= 57 || 65 <= c <= 90 || 97 <= c <= 122 || c == 95
           || (i > 0 && (c == 45 || c == 46))
  {
    if |s| > 0 {
      assert forall i | 1 <= i < |s| :: s[i] == s[1..][i - 1] && s[i] in s[1..];
      forall c | c in s[1..] ensures exists i :: 1 <= i < |s| && s[i] == c {
        var i :| 0 <= i < |s| - 1 && s[1..][i] == c;
        assert s[i + 1] == c;
      }
      assert (forall c | c in s[1..] :: IsTagChar(c)) <==> (forall i | 1 <= i < |s| :: IsTagChar(s[i]));
    }
  }

  // ----- sequences of tags

  function Cleaned(raw: seq<string>): (s: seq<string>)
    ensures |s| == |raw|
  {
    if raw == [] then [] else Cleaned(raw[..|raw| - 1]) + [TrimSpace(raw[|raw| - 1])]
  }

  /** The first occurrences of s, in order. */
  function Dedup(s: seq<string>): seq<string> {
    if s == [] then []
    else
      var front, last := Dedup(s[..|s| - 1]), s[|s| - 1];
      if last in front then front else front + [last]
  }

  function Filter(s: seq<string>, keep: string -> bool): seq<string> {
    if s == [] then []
    else
      var front, last := Filter(s[..|s| - 1], keep), s[|s| - 1];
      if keep(last) then front + [last] else front
  }

  ghost predicate Distinct(s: seq<string>) {
    forall i, j | 0 <= i < j < |s| :: s[i] != s[j]
  }

  lemma {:induction false} DedupElements(s: seq<string>)
    ensures Distinct(Dedup(s)) && forall t :: t in Dedup(s) <==> t in s
  {
    if s != [] {
      DedupElements(s[..|s| - 1]);
      assert s == s[..|s| - 1] + [s[|s| - 1]];
    }
  }

  /** Dedup keeps the order of first occurrences: each element is new at a later place than the one before it. */
  lemma {:induction false} DedupOrder(s: seq<string>) returns (at: seq<nat>)
    ensures |at| == |Dedup(s)| && forall i | 0 <= i < |at| :: at[i] < |s| && s[at[i]] == Dedup(s)[i]
    ensures forall i | 0 <= i < |at| :: Dedup(s)[i] !in s[..at[i]]
    ensures forall i, j | 0 <= i < j < |at| :: at[i] < at[j]
  {
    at := [];
    if s != [] {
      var front, last := s[..|s| - 1], s[|s| - 1];
      at := DedupOrder(front);
      DedupElements(front);
      assert forall i | 0 <= i < |at| :: s[..at[i]] == front[..at[i]];
      if last !in Dedup(front) {
        at := at + [|s| - 1];
      }
    }
  }

  lemma {:induction false} FilterElements(s: seq<string>, keep: string -> bool)
    ensures forall t :: t in Filter(s, keep) <==> t in s && keep(t)
  {
    if s != [] {
      FilterElements(s[..|s| - 1], keep);
      assert s == s[..|s| - 1] + [s[|s| - 1]];
    }
  }

  lemma FilterAppend(s: seq<string>, t: string, keep: string -> bool)
    ensures Filter(s + [t], keep) == if keep(t) then Filter(s, keep) + [t] else Filter(s, keep)
  {
    assert (s + [t])[..|s|] == s;
  }

  lemma DedupAppend(s: seq<string>, t: string)
    ensures Dedup(s + [t]) == if t in Dedup(s) then Dedup(s) else Dedup(s) + [t]
  {
    assert (s + [t])[..|s|] == s;
  }

  lemma CleanedAppend(raw: seq<string>, t: string)
    ensures Cleaned(raw + [t]) == Cleaned(raw) + [TrimSpace(t)]
  {
    assert (raw + [t])[..|raw|] == raw;
  }

  /** Taking first occurrences and selecting commute. */
  lemma {:induction false} DedupFilter(s: seq<string>, keep: string -> bool)
    ensures Dedup(Filter(s, keep)) == Filter(Dedup(s), keep)
  {
    if s == [] {
      NothingToDedup();
      NothingToFilter(keep);
    } else {
      hide Dedup, Filter, Distinct;
      var front, last := s[..|s| - 1], s[|s| - 1];
      assert s == front + [last];
      DedupFilter(front, keep);
      FilterAppend(front, last, keep);
      DedupAppend(front, last);
      FilterElements(front, keep);
      DedupElements(front);
      DedupElements(Filter(front, keep));
      if keep(last) {
        DedupAppend(Filter(front, keep), last);
      }
      FilterAppend(Dedup(front), last, keep);
    }
  }

  // ----- the handler

  ghost predicate FirstBad(cleaned: seq<string>, i: int) {
    && 0 <= i < |cleaned| && !IsDistributionSpecTag(cleaned[i])
    && forall k | 0 <= k < i :: IsDistributionSpecTag(cleaned[k])
  }

  /** Trims, checks and deduplicates; the first bad value decides the error. */
  method NormalizeManifestExtraTags(raw: seq<string>) returns (r: Normalized)
    ensures r.Tags? <==> forall t | t in Cleaned(raw) :: IsDistributionSpecTag(t)
    ensures r.Tags? ==> r.tags == Dedup(Cleaned(raw))
    ensures !r.Tags? ==> exists i :: FirstBad(Cleaned(raw), i) && (r == EmptyTag <==> Cleaned(raw)[i] == "")
  {
    hide IsDistributionSpecTag, TrimSpace, Dedup;
    var seen: set<string> := {};
    var out: seq<string> := [];
    NothingToDedup();
    for i := 0 to |raw|
      invariant out == Dedup(Cleaned(raw[..i]))
      invariant forall t :: t in seen <==> t in out
      invariant forall t | t in Cleaned(raw[..i]) :: IsDistributionSpecTag(t)
    {
      var cleanedTag := TrimSpace(raw[i]);
      assert raw[..i + 1] == raw[..i] + [raw[i]];
      CleanedAppend(raw[..i], raw[i]);
      DedupAppend(Cleaned(raw[..i]), cleanedTag);
      CleanedAt(raw, i);
      CleanedPrefix(raw, i);
      EmptyIsNoTag();
      assert !IsDistributionSpecTag(cleanedTag) ==> FirstBad(Cleaned(raw), i) by {
        assert forall k | 0 <= k < i :: Cleaned(raw)[k] == Cleaned(raw)[..i][k];
      }
      if cleanedTag == "" {
        return EmptyTag;
      }
      if !IsDistributionSpecTag(cleanedTag) {
        return InvalidTag;
      }
      if cleanedTag !in seen {
        seen := seen + {cleanedTag};
        out := out + [cleanedTag];
      }
    }
    assert raw[..|raw|] == raw;
    r := Tags(out);
  }

  lemma NothingToDedup()
    ensures Dedup([]) == []
  {
  }

  lemma EmptyIsNoTag()
    ensures !IsDistributionSpecTag("")
  {
  }

  lemma {:induction false} CleanedAt(raw: seq<string>, i: nat)
    requires i < |raw|
    ensures Cleaned(raw)[i] == TrimSpace(raw[i])
  {
    if i < |raw| - 1 {
      CleanedAt(raw[..|raw| - 1], i);
    }
  }

  lemma CleanedPrefix(raw: seq<string>, i: nat)
    requires i <= |raw|
    ensures Cleaned(raw[..i]) == Cleaned(raw)[..i]
  {
    forall k | 0 <= k < i ensures Cleaned(raw[..i])[k] == Cleaned(raw)[k] {
      CleanedAt(raw[..i], k);
      CleanedAt(raw, k);
    }
  }

  // ----- authorization

  /** Splits the valid values into those the repository has and those it has not. */
  method ClassifyDigestQueryTags(existingRepoTags: seq<string>, rawTagQuery: seq<string>)
    returns (existing: seq<string>, newTags: seq<string>)
    ensures existing == Dedup(Filter(Filter(Cleaned(rawTagQuery), IsDistributionSpecTag), t => t in existingRepoTags))
    ensures newTags == Dedup(Filter(Filter(Cleaned(rawTagQuery), IsDistributionSpecTag), t => t !in existingRepoTags))
  {
    hide IsDistributionSpecTag, TrimSpace, Dedup, Filter;
    ghost var isOld, isNew := t => t in existingRepoTags, t => t !in existingRepoTags;
    ghost var valid: seq<string> := [];
    existing, newTags := [], [];
    var seenExisting: set<string>, seenNew: set<string> := {}, {};
    NothingToDedup();
    NothingToFilter(IsDistributionSpecTag);
    NothingToFilter(isOld);
    NothingToFilter(isNew);
    for i := 0 to |rawTagQuery|
      invariant valid == Filter(Cleaned(rawTagQuery[..i]), IsDistributionSpecTag)
      invariant existing == Dedup(Filter(valid, isOld)) && newTags == Dedup(Filter(valid, isNew))
      invariant forall t :: t in seenExisting <==> t in existing
      invariant forall t :: t in seenNew <==> t in newTags
    {
      var cleanedTag := TrimSpace(rawTagQuery[i]);
      assert rawTagQuery[..i + 1] == rawTagQuery[..i] + [rawTagQuery[i]];
      CleanedAppend(rawTagQuery[..i], rawTagQuery[i]);
      FilterAppend(Cleaned(rawTagQuery[..i]), cleanedTag, IsDistributionSpecTag);
      EmptyIsNoTag();
      if cleanedTag == "" || !IsDistributionSpecTag(cleanedTag) {
        continue;
      }
      FilterAppend(valid, cleanedTag, isOld);
      FilterAppend(valid, cleanedTag, isNew);
      DedupAppend(Filter(valid, isOld), cleanedTag);
      DedupAppend(Filter(valid, isNew), cleanedTag);
      valid := valid + [cleanedTag];
      if cleanedTag in existingRepoTags {
        if cleanedTag !in seenExisting {
          seenExisting := seenExisting + {cleanedTag};
          existing := existing + [cleanedTag];
        }
        continue;
      }
      if cleanedTag !in seenNew {
        seenNew := seenNew + {cleanedTag};
        newTags := newTags + [cleanedTag];
      }
    }
    assert rawTagQuery[..|rawTagQuery|] == rawTagQuery;
  }

  lemma NothingToFilter(keep: string -> bool)
    ensures Filter([], keep) == []
  {
  }

  lemma {:induction false} FilterAll(s: seq<string>, keep: string -> bool)
    requires forall t | t in s :: keep(t)
    ensures Filter(s, keep) == s
  {
    if s != [] {
      FilterAll(s[..|s| - 1], keep);
      assert s == s[..|s| - 1] + [s[|s| - 1]];
    }
  }

  /** When the handler accepts the query, the two classes are exactly the tags it will write: its
      output split by membership in the repository, in its order, without repetition. */
  lemma ClassesPartitionWrittenTags(existingRepoTags: seq<string>, raw: seq<string>)
    requires forall t | t in Cleaned(raw) :: IsDistributionSpecTag(t)
    ensures var written := Dedup(Cleaned(raw));
      var existing := Dedup(Filter(Filter(Cleaned(raw), IsDistributionSpecTag), t => t in existingRepoTags));
      var newTags := Dedup(Filter(Filter(Cleaned(raw), IsDistributionSpecTag), t => t !in existingRepoTags));
      && existing == Filter(written, t => t in existingRepoTags)
      && newTags == Filter(written, t => t !in existingRepoTags)
      && Distinct(written) && Distinct(existing) && Distinct(newTags)
      && (forall t :: t in written <==> t in existing || t in newTags)
      && (forall t :: !(t in existing && t in newTags))
  {
    var isOld, isNew := t => t in existingRepoTags, t => t !in existingRepoTags;
    var cleaned := Cleaned(raw);
    FilterAll(cleaned, IsDistributionSpecTag);
    DedupFilter(cleaned, isOld);
    DedupFilter(cleaned, isNew);
    DedupElements(cleaned);
    DedupElements(Filter(cleaned, isOld));
    DedupElements(Filter(cleaned, isNew));
    FilterElements(Dedup(cleaned), isOld);
    FilterElements(Dedup(cleaned), isNew);
  }
}
