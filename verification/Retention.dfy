/**
 Tag retention: candidates are grouped by the first tag policy that matches them, and a group's
 candidates are retained when any of the policy's rules selects them. The rules that keep the
 latest ones sort the group in place and return a prefix of the slice they were given.

 Glob and regular expression matching are given functions; a timestamp is an integer.
 */
module Retention {
  import opened Optional
  import opened Sorting

  datatype Statistics = Statistics(push: int, pull: int)

  datatype Descriptor = Descriptor(digest: string, mediaType: string)

  datatype RepoMeta = RepoMeta(name: string, tags: map<string, Descriptor>, statistics: map<string, Statistics>)

  datatype KeepTagsPolicy = KeepTagsPolicy(
    patterns: seq<string>, mostRecentlyPulledCount: int, mostRecentlyPushedCount: int,
    pulledWithin: Option<int>, pushedWithin: Option<int>)

  datatype RetentionPolicy = RetentionPolicy(repositories: seq<string>, keepTags: seq<KeepTagsPolicy>)

  datatype Rule = LatestPull(count: int) | LatestPush(count: int) | DaysPull(duration: int) | DaysPush(duration: int)

  datatype RetainedBy = Nothing | Patterns | ByRule(rule: Rule)

  /** Whether a pattern matches a repository, and whether an expression matches a tag. */
  datatype Matchers = Matchers(glob: (string, string) -> bool, regex: (string, string) -> bool)

  class Candidate {
    const tag: string
    const digestStr: string
    const pushTimestamp: int
    const pullTimestamp: int
    var retainedBy: RetainedBy

    constructor (tag: string, digestStr: string, stats: Statistics)
      ensures this.tag == tag && this.digestStr == digestStr && retainedBy == Nothing
      ensures pushTimestamp == stats.push && pullTimestamp == stats.pull
    {
      this.tag, this.digestStr := tag, digestStr;
      pushTimestamp, pullTimestamp := stats.push, stats.pull;
      retainedBy := Nothing;
    }
  }

  function Min(a: int, b: int): int {
    if a < b then a else b
  }

  ghost function Elements(s: seq<Candidate>): set<Candidate> {
    set c | c in s
  }

  ghost function TagsOf(s: seq<Candidate>): set<string> {
    set c | c in s :: c.tag
  }

  /** s holds one candidate for each of these tags, with the tag's timestamps. */
  ghost predicate Represents(s: seq<Candidate>, stats: map<string, Statistics>, tags: set<string>) {
    && (forall i, j | 0 <= i < j < |s| :: s[i].tag != s[j].tag)
    && TagsOf(s) == tags
    && forall c | c in s :: c.tag in stats && stats[c.tag] == Statistics(c.pushTimestamp, c.pullTimestamp)
  }

  // ----- the meaning of a rule

  /** What the latest rules compare. */
  function Stamp(rule: Rule, s: Statistics): int {
    if rule.LatestPull? then s.pull else s.push
  }

  /** The days rules: pushed, or for the pull rule pulled or pushed, after the moment. */
  predicate Recent(rule: Rule, s: Statistics, now: int)
    requires rule.DaysPull? || rule.DaysPush?
  {
    s.push > now - rule.duration || (rule.DaysPull? && s.pull > now - rule.duration)
  }

  /** chosen is a selection that the rule may make from the group: as many as it keeps, none older
      than one left out; for the days rules, exactly the recent ones. */
  ghost predicate IsSelection(rule: Rule, stats: map<string, Statistics>, group: set<string>, chosen: set<string>,
                              now: int)
    requires group <= stats.Keys
  {
    chosen <= group &&
    match rule
    case LatestPull(n) => |chosen| == Min(n, |group|) && NoneOlder(rule, stats, group, chosen)
    case LatestPush(n) => |chosen| == Min(n, |group|) && NoneOlder(rule, stats, group, chosen)
    case _ => forall t | t in group :: t in chosen <==> Recent(rule, stats[t], now)
  }

  ghost predicate NoneOlder(rule: Rule, stats: map<string, Statistics>, group: set<string>, chosen: set<string>)
    requires group <= stats.Keys && chosen <= group
  {
    forall c, d | c in chosen && d in group && d !in chosen :: Stamp(rule, stats[d]) <= Stamp(rule, stats[c])
  }

  /** A count below zero makes the prefix expression panic. */
  predicate Panics(rule: Rule) {
    (rule.LatestPull? || rule.LatestPush?) && rule.count < 0
  }

  // ----- rules

  function After(rule: Rule): (Candidate, Candidate) -> bool {
    if rule.LatestPull? then (x: Candidate, y: Candidate) => x.pullTimestamp > y.pullTimestamp
    else (x: Candidate, y: Candidate) => x.pushTimestamp > y.pushTimestamp
  }

  /** Sorts the group's own array, marks the first ones and returns the length of the prefix. */
  method PerformLatest(rule: Rule, candidates: array<Candidate>) returns (upper: Option<nat>)
    requires rule.LatestPull? || rule.LatestPush?
    modifies candidates, Elements(candidates[..])`retainedBy
    ensures Permutation(candidates[..], old(candidates[..])) && Ordered(candidates[..], After(rule))
    ensures upper.None? <==> rule.count < 0
    ensures upper.Some? ==> upper.value == Min(rule.count, candidates.Length)
    ensures upper.Some? ==> forall c | c in candidates[..upper.value] :: c.retainedBy == ByRule(rule)
    ensures forall c | c in old(candidates[..]) && (upper.None? || c !in candidates[..upper.value]) ::
      c.retainedBy == old(c.retainedBy)
  {
    Sort(candidates, After(rule));
    SameElements(candidates[..], old(candidates[..]));
    ghost var sorted := candidates[..];
    var end := Min(rule.count, candidates.Length);
    if end < 0 {
      return None;
    }
    for i := 0 to end
      invariant forall k | 0 <= k < i :: candidates[k].retainedBy == ByRule(rule)
      invariant forall c | c in old(candidates[..]) && c !in candidates[..i] :: c.retainedBy == old(c.retainedBy)
      invariant candidates[..] == sorted
    {
      candidates[i].retainedBy := ByRule(rule);
    }
    upper := Some(end);
  }

  method PerformDays(rule: Rule, candidates: array<Candidate>, now: int) returns (filtered: seq<Candidate>)
    requires rule.DaysPull? || rule.DaysPush?
    modifies Elements(candidates[..])`retainedBy
    ensures forall c ::
      c in filtered <==> c in candidates[..] && Recent(rule, Statistics(c.pushTimestamp, c.pullTimestamp), now)
    ensures forall c | c in candidates[..] :: c.retainedBy == if c in filtered then ByRule(rule) else old(c.retainedBy)
  {
    filtered := [];
    for i := 0 to candidates.Length
      invariant forall c ::
        c in filtered <==> c in candidates[..i] && Recent(rule, Statistics(c.pushTimestamp, c.pullTimestamp), now)
      invariant forall c | c in candidates[..] ::
        c.retainedBy == if c in filtered then ByRule(rule) else old(c.retainedBy)
    {
      var candidate := candidates[i];
      assert candidate in candidates[..];
      if Recent(rule, Statistics(candidate.pushTimestamp, candidate.pullTimestamp), now) {
        candidate.retainedBy := ByRule(rule);
        filtered := filtered + [candidate];
      }
    }
  }

  // ----- selections

  lemma {:induction false} DistinctTagsCount(s: seq<Candidate>)
    requires forall i, j | 0 <= i < j < |s| :: s[i].tag != s[j].tag
    ensures |TagsOf(s)| == |s|
  {
    if s != [] {
      var front, last := s[..|s| - 1], s[|s| - 1];
      DistinctTagsCount(front);
      assert s == front + [last];
      assert TagsOf(s) == TagsOf(front) + {last.tag};
      assert last.tag !in TagsOf(front);
    }
  }

  lemma {:induction false} OccursOnce(s: seq<Candidate>, c: Candidate)
    requires forall i, j | 0 <= i < j < |s| :: s[i].tag != s[j].tag
    ensures multiset(s)[c] <= 1
  {
    if s != [] {
      var front, last := s[..|s| - 1], s[|s| - 1];
      assert s == front + [last];
      OccursOnce(front, c);
      if c == last {
        assert c !in front;
      }
    }
  }

  lemma OccursTwice(s: seq<Candidate>, i: nat, j: nat)
    requires i < j < |s| && s[i] == s[j]
    ensures multiset(s)[s[i]] >= 2
  {
    assert s == s[..i] + [s[i]] + s[i + 1..j] + [s[i]] + s[j + 1..];
  }

  lemma RepresentsPermuted(s: seq<Candidate>, t: seq<Candidate>, stats: map<string, Statistics>, tags: set<string>)
    requires Represents(s, stats, tags) && Permutation(t, s)
    ensures Represents(t, stats, tags) && Elements(t) == Elements(s)
  {
    SameElements(t, s);
    forall i, j | 0 <= i < j < |t| ensures t[i].tag != t[j].tag {
      assert t[i] in s && t[j] in s;
      if t[i] == t[j] {
        OccursTwice(t, i, j);
        OccursOnce(s, t[i]);
      }
    }
  }

  lemma PrefixIsSelection(rule: Rule, s: seq<Candidate>, stats: map<string, Statistics>, tags: set<string>, upper: nat,
                          now: int)
    requires rule.LatestPull? || rule.LatestPush?
    requires Represents(s, stats, tags) && Ordered(s, After(rule)) && upper == Min(rule.count, |s|)
    ensures IsSelection(rule, stats, tags, TagsOf(s[..upper]), now)
  {
    DistinctTagsCount(s);
    DistinctTagsCount(s[..upper]);
    var chosen := TagsOf(s[..upper]);
    forall c | c in s[..upper] ensures c in s {
    }
    assert chosen <= tags;
    forall c, d | c in chosen && d in tags && d !in chosen ensures Stamp(rule, stats[d]) <= Stamp(rule, stats[c]) {
      var i :| 0 <= i < upper && s[i].tag == c;
      var j :| 0 <= j < |s| && s[j].tag == d;
      assert s[j] in s && s[i] in s;
      assert forall k | 0 <= k < upper :: s[k] in s[..upper] && s[k].tag in chosen;
      assert !After(rule)(s[j], s[i]);
    }
  }

  lemma RecentIsSelection(rule: Rule, s: seq<Candidate>, filtered: seq<Candidate>, stats: map<string, Statistics>,
                          tags: set<string>, now: int)
    requires rule.DaysPull? || rule.DaysPush?
    requires Represents(s, stats, tags)
    requires forall c :: c in filtered <==> c in s && Recent(rule, Statistics(c.pushTimestamp, c.pullTimestamp), now)
    ensures IsSelection(rule, stats, tags, TagsOf(filtered), now)
  {
    forall t | t in tags ensures t in TagsOf(filtered) <==> Recent(rule, stats[t], now) {
      var c :| c in s && c.tag == t;
      forall d | d in s && d.tag == t ensures d == c {
      }
    }
  }

  /** The selections of a policy's rules, each from the whole group. */
  ghost predicate AreSelections(rules: seq<Rule>, stats: map<string, Statistics>, group: set<string>,
                                chosen: seq<set<string>>, clock: nat -> int)
    requires group <= stats.Keys
  {
    |chosen| == |rules| && forall k | 0 <= k < |rules| :: IsSelection(rules[k], stats, group, chosen[k], clock(k))
  }

  ghost predicate InSome(t: string, chosen: seq<set<string>>) {
    exists k | 0 <= k < |chosen| :: t in chosen[k]
  }

  /** One rule; the candidates it selects are copied out of the group's array. */
  method Perform(rule: Rule, group: array<Candidate>, now: int, ghost stats: map<string, Statistics>,
                 ghost tags: set<string>)
    returns (selected: Option<seq<Candidate>>)
    requires Represents(group[..], stats, tags)
    modifies group, Elements(group[..])`retainedBy
    ensures Represents(group[..], stats, tags) && Elements(group[..]) == old(Elements(group[..]))
    ensures selected.None? <==> Panics(rule)
    ensures selected.Some? ==> forall c | c in selected.value :: c in group[..] && c.retainedBy == ByRule(rule)
    ensures selected.Some? ==> IsSelection(rule, stats, tags, TagsOf(selected.value), now)
  {
    hide IsSelection, Represents;
    if rule.LatestPull? || rule.LatestPush? {
      var upper := PerformLatest(rule, group);
      RepresentsPermuted(old(group[..]), group[..], stats, tags);
      if upper.None? {
        return None;
      }
      PrefixIsSelection(rule, group[..], stats, tags, upper.value, now);
      assert forall c | c in group[..][..upper.value] :: c in group[..];
      selected := Some(group[..upper.value]);
      assert group[..upper.value] == group[..][..upper.value];
    } else {
      var filtered := PerformDays(rule, group, now);
      RecentIsSelection(rule, group[..], filtered, stats, tags, now);
      selected := Some(filtered);
    }
  }

  /** Each rule sorts the array that the next one is given; what was selected before stays. */
  method ApplyRules(rules: seq<Rule>, group: array<Candidate>, clock: nat -> int,
                    ghost stats: map<string, Statistics>, ghost tags: set<string>)
    returns (retained: Option<seq<Candidate>>, ghost chosen: seq<set<string>>)
    requires Represents(group[..], stats, tags) && tags <= stats.Keys
    modifies group, Elements(group[..])`retainedBy
    ensures retained.None? <==> exists k | 0 <= k < |rules| :: Panics(rules[k])
    ensures retained.Some? ==> AreSelections(rules, stats, tags, chosen, clock)
    ensures retained.Some? ==> forall t :: t in TagsOf(retained.value) <==> InSome(t, chosen)
  {
    hide IsSelection, Represents;
    chosen := [];
    var rulesCandidates: seq<Candidate> := [];
    for k := 0 to |rules|
      invariant Represents(group[..], stats, tags) && Elements(group[..]) == old(Elements(group[..]))
      invariant AreSelections(rules[..k], stats, tags, chosen, clock)
      invariant forall t :: t in TagsOf(rulesCandidates) <==> InSome(t, chosen)
      invariant forall i | 0 <= i < k :: !Panics(rules[i])
    {
      var ruleCandidates := Perform(rules[k], group, clock(k), stats, tags);
      if ruleCandidates.None? {
        return None, chosen;
      }
      TagsAppended(rulesCandidates, ruleCandidates.value);
      InSomeAppended(chosen, TagsOf(ruleCandidates.value));
      rulesCandidates := rulesCandidates + ruleCandidates.value;
      chosen := chosen + [TagsOf(ruleCandidates.value)];
    }
    assert rules[..|rules|] == rules;
    retained := Some(rulesCandidates);
  }

  lemma TagsAppended(s: seq<Candidate>, t: seq<Candidate>)
    ensures TagsOf(s + t) == TagsOf(s) + TagsOf(t)
  {
    forall c | c in s || c in t ensures c in s + t {
    }
  }

  lemma InSomeAppended(chosen: seq<set<string>>, last: set<string>)
    ensures forall t :: InSome(t, chosen + [last]) <==> InSome(t, chosen) || t in last
  {
    forall t ensures InSome(t, chosen + [last]) <==> InSome(t, chosen) || t in last {
      if InSome(t, chosen) {
        var k :| 0 <= k < |chosen| && t in chosen[k];
        assert t in (chosen + [last])[k];
      }
      if t in last {
        assert t in (chosen + [last])[|chosen|];
      }
    }
  }

  // ----- policies

  function GetRules(policy: KeepTagsPolicy): seq<Rule> {
    (if policy.mostRecentlyPulledCount != 0 then [LatestPull(policy.mostRecentlyPulledCount)] else []) +
    (if policy.mostRecentlyPushedCount != 0 then [LatestPush(policy.mostRecentlyPushedCount)] else []) +
    (if policy.pulledWithin.Some? then [DaysPull(policy.pulledWithin.value)] else []) +
    (if policy.pushedWithin.Some? then [DaysPush(policy.pushedWithin.value)] else [])
  }

  predicate MatchesRepo(m: Matchers, policy: RetentionPolicy, repo: string) {
    exists p | p in policy.repositories :: m.glob(p, repo)
  }

  /** No expression at all matches every tag. */
  predicate MatchesTag(m: Matchers, policy: KeepTagsPolicy, tag: string) {
    policy.patterns == [] || exists p | p in policy.patterns :: m.regex(p, tag)
  }

  /** The tag policies of the first retention policy for the repository, none when there is no such. */
  function KeepTagsFor(m: Matchers, policies: seq<RetentionPolicy>, repo: string): seq<KeepTagsPolicy> {
    if policies == [] then []
    else if MatchesRepo(m, policies[0], repo) then policies[0].keepTags
    else KeepTagsFor(m, policies[1..], repo)
  }

  method GetRepoPolicy(m: Matchers, policies: seq<RetentionPolicy>, repo: string)
    returns (keepTags: seq<KeepTagsPolicy>)
    ensures keepTags == KeepTagsFor(m, policies, repo)
  {
    for i := 0 to |policies|
      invariant KeepTagsFor(m, policies, repo) == KeepTagsFor(m, policies[i..], repo)
    {
      assert policies[i..][1..] == policies[i + 1..];
      for k := 0 to |policies[i].repositories|
        invariant forall j | 0 <= j < k :: !m.glob(policies[i].repositories[j], repo)
      {
        if m.glob(policies[i].repositories[k], repo) {
          assert policies[i].repositories[k] in policies[i].repositories;
          return policies[i].keepTags;
        }
      }
    }
    keepTags := [];
  }

  ghost predicate IsFirstMatch(m: Matchers, keepTags: seq<KeepTagsPolicy>, tag: string, id: nat) {
    id < |keepTags| && MatchesTag(m, keepTags[id], tag) && forall j | 0 <= j < id :: !MatchesTag(m, keepTags[j], tag)
  }

  method GetTagPolicy(m: Matchers, tag: string, keepTags: seq<KeepTagsPolicy>) returns (id: Option<nat>)
    ensures id.Some? ==> IsFirstMatch(m, keepTags, tag, id.value)
    ensures id.None? ==> forall j: nat :: !IsFirstMatch(m, keepTags, tag, j)
  {
    for i := 0 to |keepTags|
      invariant forall j | 0 <= j < i :: !MatchesTag(m, keepTags[j], tag)
    {
      if MatchesTag(m, keepTags[i], tag) {
        return Some(i);
      }
    }
    id := None;
  }

  // ----- candidates and groups

  /** The statistics of the tags that have any. */
  function StatsOf(meta: RepoMeta): map<string, Statistics> {
    map t | t in meta.tags && meta.tags[t].digest in meta.statistics :: meta.statistics[meta.tags[t].digest]
  }

  method GetCandidates(meta: RepoMeta) returns (candidates: seq<Candidate>)
    ensures Represents(candidates, StatsOf(meta), StatsOf(meta).Keys)
    ensures forall c | c in candidates :: fresh(c)
  {
    candidates := [];
    var rest := meta.tags.Keys;
    while rest != {}
      invariant rest <= meta.tags.Keys
      invariant Represents(candidates, StatsOf(meta), StatsOf(meta).Keys - rest)
      invariant forall c | c in candidates :: fresh(c)
      decreases rest
    {
      var tag :| tag in rest;
      rest := rest - {tag};
      var desc := meta.tags[tag];
      if desc.digest in meta.statistics {
        var candidate := new Candidate(tag, desc.digest, meta.statistics[desc.digest]);
        RepresentsAppended(candidates, candidate, StatsOf(meta), StatsOf(meta).Keys - rest - {tag});
        candidates := candidates + [candidate];
        assert StatsOf(meta).Keys - rest - {tag} + {tag} == StatsOf(meta).Keys - rest;
      } else {
        assert StatsOf(meta).Keys - rest == StatsOf(meta).Keys - rest - {tag};
      }
    }
  }

  lemma RepresentsAppended(s: seq<Candidate>, c: Candidate, stats: map<string, Statistics>, tags: set<string>)
    requires Represents(s, stats, tags) && c.tag !in tags
    requires c.tag in stats && stats[c.tag] == Statistics(c.pushTimestamp, c.pullTimestamp)
    ensures Represents(s + [c], stats, tags + {c.tag})
  {
    TagsAppended(s, [c]);
    assert forall d | d in s :: d.tag in TagsOf(s);
  }

  ghost function GroupTags(m: Matchers, keepTags: seq<KeepTagsPolicy>, tags: set<string>, id: nat): set<string> {
    set t | t in tags && IsFirstMatch(m, keepTags, t, id)
  }

  ghost predicate AreGroups(m: Matchers, keepTags: seq<KeepTagsPolicy>, stats: map<string, Statistics>,
                            tags: set<string>, groups: map<nat, seq<Candidate>>) {
    && (forall id | id in groups :: groups[id] != [] && Represents(groups[id], stats, GroupTags(m, keepTags, tags, id)))
    && (forall id: nat | id !in groups :: GroupTags(m, keepTags, tags, id) == {})
  }

  ghost predicate Matched(m: Matchers, keepTags: seq<KeepTagsPolicy>, tag: string) {
    exists id: nat :: IsFirstMatch(m, keepTags, tag, id)
  }

  method GroupCandidatesByTagPolicy(m: Matchers, keepTags: seq<KeepTagsPolicy>, candidates: seq<Candidate>,
                                    ghost stats: map<string, Statistics>)
    returns (groups: map<nat, seq<Candidate>>)
    requires Represents(candidates, stats, stats.Keys)
    modifies Elements(candidates)`retainedBy
    ensures AreGroups(m, keepTags, stats, stats.Keys, groups)
    ensures Within(groups, candidates)
    ensures forall c | c in candidates ::
      c.retainedBy == if Matched(m, keepTags, c.tag) then Patterns else old(c.retainedBy)
  {
    hide AreGroups, Represents, IsFirstMatch, TagsOf;
    groups := map[];
    NoGroups(m, keepTags, stats);
    for i := 0 to |candidates|
      invariant AreGroups(m, keepTags, stats, TagsOf(candidates[..i]), groups)
      invariant Within(groups, candidates)
      invariant forall c | c in candidates[..i] ::
        c.retainedBy == if Matched(m, keepTags, c.tag) then Patterns else old(c.retainedBy)
      invariant forall c | c in candidates && c !in candidates[..i] :: c.retainedBy == old(c.retainedBy)
    {
      var candidate := candidates[i];
      assert candidates[..i + 1] == candidates[..i] + [candidate];
      NextRepresented(candidates, stats, i);
      var id := GetTagPolicy(m, candidate.tag, keepTags);
      assert Matched(m, keepTags, candidate.tag) <==> id.Some?;
      AddToGroup(m, keepTags, stats, TagsOf(candidates[..i]), groups, candidate, id);
      if id.None? {
        continue;
      }
      candidate.retainedBy := Patterns;
      var group := if id.value in groups then groups[id.value] else [];
      groups := groups[id.value := group + [candidate]];
    }
    assert candidates[..|candidates|] == candidates;
    AllRepresented(candidates, stats);
  }

  ghost predicate Within(groups: map<nat, seq<Candidate>>, candidates: seq<Candidate>) {
    forall id | id in groups :: forall c | c in groups[id] :: c in candidates
  }

  lemma NoGroups(m: Matchers, keepTags: seq<KeepTagsPolicy>, stats: map<string, Statistics>)
    ensures AreGroups(m, keepTags, stats, TagsOf([]), map[])
  {
  }

  lemma NextRepresented(s: seq<Candidate>, stats: map<string, Statistics>, i: nat)
    requires Represents(s, stats, stats.Keys) && i < |s|
    ensures TagsOf(s[..i + 1]) == TagsOf(s[..i]) + {s[i].tag} && s[i] !in s[..i]
    ensures s[i].tag !in TagsOf(s[..i])
    ensures s[i].tag in stats && stats[s[i].tag] == Statistics(s[i].pushTimestamp, s[i].pullTimestamp)
  {
    assert s[..i + 1] == s[..i] + [s[i]];
    TagsAppended(s[..i], [s[i]]);
  }

  lemma AllRepresented(s: seq<Candidate>, stats: map<string, Statistics>)
    requires Represents(s, stats, stats.Keys)
    ensures TagsOf(s) == stats.Keys
  {
  }

  lemma FirstMatchUnique(m: Matchers, keepTags: seq<KeepTagsPolicy>, tag: string, i: nat, j: nat)
    requires IsFirstMatch(m, keepTags, tag, i) && IsFirstMatch(m, keepTags, tag, j)
    ensures i == j
  {
  }

  lemma AddToGroup(m: Matchers, keepTags: seq<KeepTagsPolicy>, stats: map<string, Statistics>, tags: set<string>,
                   groups: map<nat, seq<Candidate>>, c: Candidate, id: Option<nat>)
    requires AreGroups(m, keepTags, stats, tags, groups) && c.tag !in tags
    requires c.tag in stats && stats[c.tag] == Statistics(c.pushTimestamp, c.pullTimestamp)
    requires id.Some? ==> IsFirstMatch(m, keepTags, c.tag, id.value)
    requires id.None? ==> forall j: nat :: !IsFirstMatch(m, keepTags, c.tag, j)
    ensures
      AreGroups(m, keepTags, stats, tags + {c.tag},
        if id.None? then groups
        else groups[id.value := (if id.value in groups then groups[id.value] else []) + [c]])
  {
    hide Represents, IsFirstMatch;
    forall j: nat
      ensures GroupTags(m, keepTags, tags + {c.tag}, j) ==
              if id == Some(j) then GroupTags(m, keepTags, tags, j) + {c.tag} else GroupTags(m, keepTags, tags, j)
    {
      if id.Some? && IsFirstMatch(m, keepTags, c.tag, j) {
        FirstMatchUnique(m, keepTags, c.tag, id.value, j);
      }
    }
    if id.Some? {
      if id.value !in groups {
        NothingRepresented(stats);
      }
      var group := if id.value in groups then groups[id.value] else [];
      RepresentsAppended(group, c, stats, GroupTags(m, keepTags, tags, id.value));
    }
  }

  lemma NothingRepresented(stats: map<string, Statistics>)
    ensures Represents([], stats, {})
  {
  }

  // ----- what is retained

  /** The selections that the rules of policy id made from its group. */
  ghost predicate SelectedFrom(m: Matchers, keepTags: seq<KeepTagsPolicy>, stats: map<string, Statistics>,
                               clock: (nat, nat) -> int, chosen: map<nat, seq<set<string>>>, id: nat) {
    && id in chosen && id < |keepTags|
    && AreSelections(GetRules(keepTags[id]), stats, GroupTags(m, keepTags, stats.Keys, id), chosen[id],
                     (k: nat) => clock(id, k))
  }

  /** The policy id is the first that matches t, and it has no rules or one of its rules selects t. */
  ghost predicate KeptBy(m: Matchers, keepTags: seq<KeepTagsPolicy>, chosen: map<nat, seq<set<string>>>, t: string,
                         id: nat) {
    IsFirstMatch(m, keepTags, t, id) && (GetRules(keepTags[id]) == [] || (id in chosen && InSome(t, chosen[id])))
  }

  ghost predicate KeptAmong(m: Matchers, keepTags: seq<KeepTagsPolicy>, stats: map<string, Statistics>,
                            chosen: map<nat, seq<set<string>>>, ids: set<nat>, t: string) {
    t in stats && exists id | id in ids :: KeptBy(m, keepTags, chosen, t, id)
  }

  ghost predicate Kept(m: Matchers, keepTags: seq<KeepTagsPolicy>, stats: map<string, Statistics>,
                       chosen: map<nat, seq<set<string>>>, t: string) {
    t in stats && exists id: nat :: KeptBy(m, keepTags, chosen, t, id)
  }

  ghost predicate CanPanic(keepTags: seq<KeepTagsPolicy>, id: nat) {
    id < |keepTags| && exists rule | rule in GetRules(keepTags[id]) :: Panics(rule)
  }

  ghost predicate FullySelected(m: Matchers, keepTags: seq<KeepTagsPolicy>, stats: map<string, Statistics>,
                                clock: (nat, nat) -> int, chosen: map<nat, seq<set<string>>>) {
    forall id: nat | GroupTags(m, keepTags, stats.Keys, id) != {} ::
      SelectedFrom(m, keepTags, stats, clock, chosen, id)
  }

  ghost predicate PanicPossible(m: Matchers, keepTags: seq<KeepTagsPolicy>, stats: map<string, Statistics>) {
    exists id: nat :: GroupTags(m, keepTags, stats.Keys, id) != {} && CanPanic(keepTags, id)
  }

  /** The tags retained under these selections: those of the index without statistics, and those a
      selection keeps. */
  ghost predicate Retains(m: Matchers, keepTags: seq<KeepTagsPolicy>, stats: map<string, Statistics>,
                          clock: (nat, nat) -> int,
                          actualTags: seq<string>, chosen: map<nat, seq<set<string>>>, tags: seq<string>) {
    && FullySelected(m, keepTags, stats, clock, chosen)
    && forall t :: t in tags <==> (t in actualTags && t !in stats) || Kept(m, keepTags, stats, chosen, t)
  }

  datatype Verdict = Retained(tags: seq<string>) | Cancelled | Panicked

  method AddUnlessPresent(retainTags: seq<string>, candidates: seq<Candidate>) returns (r: seq<string>)
    ensures forall t :: t in r <==> t in retainTags || t in TagsOf(candidates)
    ensures |retainTags| <= |r| && r[..|retainTags|] == retainTags
    ensures forall i, j | 0 <= i < j < |r| && |retainTags| <= j :: r[i] != r[j]
  {
    r := retainTags;
    for i := 0 to |candidates|
      invariant forall t :: t in r <==> t in retainTags || t in TagsOf(candidates[..i])
      invariant |retainTags| <= |r| && r[..|retainTags|] == retainTags
      invariant forall i, j | 0 <= i < j < |r| && |retainTags| <= j :: r[i] != r[j]
    {
      assert candidates[..i + 1] == candidates[..i] + [candidates[i]];
      TagsAppended(candidates[..i], [candidates[i]]);
      if candidates[i].tag !in r {
        r := r + [candidates[i].tag];
      }
    }
    assert candidates[..|candidates|] == candidates;
  }

  method TagsWithoutStatistics(actualTags: seq<string>, candidates: seq<Candidate>) returns (retainTags: seq<string>)
    ensures forall t :: t in retainTags <==> t in actualTags && t !in TagsOf(candidates)
  {
    retainTags := [];
    for i := 0 to |actualTags|
      invariant forall t :: t in retainTags <==> t in actualTags[..i] && t !in TagsOf(candidates)
    {
      var found := false;
      for k := 0 to |candidates|
        invariant found <==> exists j | 0 <= j < k :: candidates[j].tag == actualTags[i]
      {
        if candidates[k].tag == actualTags[i] {
          found := true;
        }
      }
      assert found <==> actualTags[i] in TagsOf(candidates);
      assert actualTags[..i + 1] == actualTags[..i] + [actualTags[i]];
      if !found {
        retainTags := retainTags + [actualTags[i]];
      }
    }
    assert actualTags[..|actualTags|] == actualTags;
  }

  /** One group: the candidates to retain, by the rules if there are any, by name alone if not. */
  method RetainGroup(keepTags: seq<KeepTagsPolicy>, id: nat, candidates: seq<Candidate>, clock: (nat, nat) -> int,
                     ghost stats: map<string, Statistics>, ghost tags: set<string>)
    returns (retained: Option<seq<Candidate>>, ghost chosen: seq<set<string>>)
    requires id < |keepTags| && Represents(candidates, stats, tags) && tags <= stats.Keys
    modifies Elements(candidates)`retainedBy
    ensures retained.None? <==> CanPanic(keepTags, id)
    ensures retained.Some? ==> AreSelections(GetRules(keepTags[id]), stats, tags, chosen, (k: nat) => clock(id, k))
    ensures retained.Some? ==> forall t :: t in TagsOf(retained.value) <==>
                                           if GetRules(keepTags[id]) == [] then t in tags else InSome(t, chosen)
  {
    hide IsSelection;
    var rules := GetRules(keepTags[id]);
    hide GetRules;
    var group := new Candidate[|candidates|](k requires 0 <= k < |candidates| => candidates[k]);
    assert group[..] == candidates;
    retained, chosen := ApplyRules(rules, group, (k: nat) => clock(id, k), stats, tags);
    if |rules| == 0 {
      retained := Some(candidates);
    }
  }

  lemma NoneKept(m: Matchers, keepTags: seq<KeepTagsPolicy>, stats: map<string, Statistics>)
    ensures forall t :: !KeptAmong(m, keepTags, stats, map[], {}, t)
  {
  }

  lemma GroupOf(m: Matchers, keepTags: seq<KeepTagsPolicy>, stats: map<string, Statistics>,
                groups: map<nat, seq<Candidate>>, id: nat)
    requires AreGroups(m, keepTags, stats, stats.Keys, groups) && id in groups
    ensures Represents(groups[id], stats, GroupTags(m, keepTags, stats.Keys, id))
    ensures var group := GroupTags(m, keepTags, stats.Keys, id); id < |keepTags| && group <= stats.Keys && group != {}
  {
    assert groups[id][0].tag in TagsOf(groups[id]);
  }

  lemma KeptWith(m: Matchers, keepTags: seq<KeepTagsPolicy>, stats: map<string, Statistics>, clock: (nat, nat) -> int,
                 chosen: map<nat, seq<set<string>>>, id: nat, selected: seq<set<string>>)
    requires id < |keepTags| && id !in chosen
    requires AreSelections(GetRules(keepTags[id]), stats, GroupTags(m, keepTags, stats.Keys, id), selected,
                           (k: nat) => clock(id, k))
    ensures SelectedFrom(m, keepTags, stats, clock, chosen[id := selected], id)
    ensures forall j | j in chosen && SelectedFrom(m, keepTags, stats, clock, chosen, j) ::
              SelectedFrom(m, keepTags, stats, clock, chosen[id := selected], j)
    ensures forall t ::
              KeptAmong(m, keepTags, stats, chosen[id := selected], chosen.Keys + {id}, t) <==>
              || KeptAmong(m, keepTags, stats, chosen, chosen.Keys, t)
              || if GetRules(keepTags[id]) == [] then t in GroupTags(m, keepTags, stats.Keys, id)
                 else InSome(t, selected)
  {
    hide GetRules, IsFirstMatch;
    var now := chosen[id := selected];
    forall t
      ensures KeptAmong(m, keepTags, stats, now, chosen.Keys + {id}, t) <==>
              KeptAmong(m, keepTags, stats, chosen, chosen.Keys, t) || (t in stats && KeptBy(m, keepTags, now, t, id))
    {
      forall j | j in chosen ensures KeptBy(m, keepTags, now, t, j) <==> KeptBy(m, keepTags, chosen, t, j) {
      }
    }
    forall t | InSome(t, selected) ensures t in GroupTags(m, keepTags, stats.Keys, id) {
      var k :| 0 <= k < |selected| && t in selected[k];
      assert IsSelection(GetRules(keepTags[id])[k], stats, GroupTags(m, keepTags, stats.Keys, id), selected[k],
                         clock(id, k));
    }
  }

  lemma PanicHere(m: Matchers, keepTags: seq<KeepTagsPolicy>, stats: map<string, Statistics>, id: nat)
    requires GroupTags(m, keepTags, stats.Keys, id) != {} && CanPanic(keepTags, id)
    ensures PanicPossible(m, keepTags, stats)
  {
  }

  lemma NoPanicAnywhere(m: Matchers, keepTags: seq<KeepTagsPolicy>, stats: map<string, Statistics>, ids: set<nat>)
    requires forall id: nat | GroupTags(m, keepTags, stats.Keys, id) != {} :: id in ids && !CanPanic(keepTags, id)
    ensures !PanicPossible(m, keepTags, stats)
  {
  }

  lemma EveryGroupVisited(m: Matchers, keepTags: seq<KeepTagsPolicy>, stats: map<string, Statistics>,
                          groups: map<nat, seq<Candidate>>, chosen: map<nat, seq<set<string>>>)
    requires AreGroups(m, keepTags, stats, stats.Keys, groups)
    ensures forall t :: KeptAmong(m, keepTags, stats, chosen, groups.Keys, t) <==> Kept(m, keepTags, stats, chosen, t)
    ensures forall id: nat | GroupTags(m, keepTags, stats.Keys, id) != {} :: id in groups
  {
    forall t, id: nat | t in stats && KeptBy(m, keepTags, chosen, t, id) ensures id in groups {
      assert t in GroupTags(m, keepTags, stats.Keys, id);
    }
  }

  method GetRetainedTagsFromMetaDB(m: Matchers, policies: seq<RetentionPolicy>, done: nat -> bool,
                                   clock: (nat, nat) -> int, repoMeta: RepoMeta, actualTags: seq<string>)
    returns (r: Verdict)
    ensures r.Cancelled? ==> exists i :: done(i)
    ensures r.Panicked? ==> PanicPossible(m, KeepTagsFor(m, policies, repoMeta.name), StatsOf(repoMeta))
    ensures r.Retained? ==>
              !PanicPossible(m, KeepTagsFor(m, policies, repoMeta.name), StatsOf(repoMeta)) &&
              exists chosen ::
                Retains(m, KeepTagsFor(m, policies, repoMeta.name), StatsOf(repoMeta), clock, actualTags, chosen,
                        r.tags)
    ensures r.Panicked? ==> NegativeCountApplies(m, policies, repoMeta)
    ensures r.Retained? ==> !NegativeCountApplies(m, policies, repoMeta)
    ensures r.Retained? ==> ByConfiguration(m, policies, repoMeta, clock, actualTags, r.tags)
  {
    hide AreGroups, AreSelections, KeptAmong, Kept, SelectedFrom, Represents, CanPanic;
    hide StatsOf, KeepTagsFor, TagsOf, GroupTags, PanicPossible, NegativeCountApplies, ByConfiguration;
    PanicMeaning(m, policies, repoMeta);
    ghost var stats := StatsOf(repoMeta);
    ghost var chosen: map<nat, seq<set<string>>> := map[];
    var candidates := GetCandidates(repoMeta);
    var retainTags := TagsWithoutStatistics(actualTags, candidates);
    AllRepresented(candidates, stats);
    var keepTags := GetRepoPolicy(m, policies, repoMeta.name);
    var grouped := GroupCandidatesByTagPolicy(m, keepTags, candidates, stats);
    var rest, steps := grouped.Keys, 0;
    NoneKept(m, keepTags, stats);
    assert grouped.Keys - rest == {};
    while rest != {}
      invariant rest <= grouped.Keys
      invariant forall id | id in grouped.Keys - rest ::
                  SelectedFrom(m, keepTags, stats, clock, chosen, id) && !CanPanic(keepTags, id)
      invariant chosen.Keys == grouped.Keys - rest
      invariant forall t :: t in retainTags <==>
                            || (t in actualTags && t !in stats)
                            || KeptAmong(m, keepTags, stats, chosen, grouped.Keys - rest, t)
      decreases rest
    {
      var id :| id in rest;
      if done(steps) {
        return Cancelled;
      }
      steps := steps + 1;
      GroupOf(m, keepTags, stats, grouped, id);
      ghost var tags := GroupTags(m, keepTags, stats.Keys, id);
      assert forall c | c in Elements(grouped[id]) :: fresh(c);
      var retained, selected := RetainGroup(keepTags, id, grouped[id], clock, stats, tags);
      if retained.None? {
        PanicHere(m, keepTags, stats, id);
        return Panicked;
      }
      KeptWith(m, keepTags, stats, clock, chosen, id, selected);
      assert grouped.Keys - rest + {id} == grouped.Keys - (rest - {id});
      rest := rest - {id};
      chosen := chosen[id := selected];
      retainTags := AddUnlessPresent(retainTags, retained.value);
    }
    assert grouped.Keys - rest == grouped.Keys;
    EveryGroupVisited(m, keepTags, stats, grouped, chosen);
    NoPanicAnywhere(m, keepTags, stats, grouped.Keys);
    assert Retains(m, keepTags, stats, clock, actualTags, chosen, retainTags);
    RetainsByConfiguration(m, policies, repoMeta, clock, actualTags, chosen, retainTags);
    r := Retained(retainTags);
  }

  // ----- consequences

  lemma SubsetSize<T>(a: set<T>, b: set<T>)
    requires a <= b
    ensures |a| <= |b| && (|a| == |b| ==> a == b)
  {
    assert b == a + (b - a);
  }

  ghost function Newer(rule: Rule, stats: map<string, Statistics>, group: set<string>, t: string): set<string>
    requires group <= stats.Keys && t in group
  {
    set d | d in group && Stamp(rule, stats[d]) > Stamp(rule, stats[t])
  }

  ghost function Level(rule: Rule, stats: map<string, Statistics>, group: set<string>, t: string): set<string>
    requires group <= stats.Keys && t in group
  {
    set d | d in group && d != t && Stamp(rule, stats[d]) == Stamp(rule, stats[t])
  }

  /** Whatever the sort does with ties: n newer ones keep a tag out, and it is in when fewer than n
      are newer or of the same moment. */
  lemma RankDecides(rule: Rule, stats: map<string, Statistics>, group: set<string>, chosen: set<string>, now: int,
                    t: string)
    requires (rule.LatestPull? || rule.LatestPush?) && rule.count >= 0
    requires group <= stats.Keys && t in group && IsSelection(rule, stats, group, chosen, now)
    ensures |Newer(rule, stats, group, t)| >= rule.count ==> t !in chosen
    ensures |Newer(rule, stats, group, t)| + |Level(rule, stats, group, t)| < rule.count ==> t in chosen
  {
    var newer, level := Newer(rule, stats, group, t), Level(rule, stats, group, t);
    if t in chosen {
      SubsetSize(newer + {t}, chosen);
    } else {
      assert newer !! level;
      SubsetSize(chosen, newer + level);
      SubsetSize(chosen, group);
    }
  }

  ghost predicate DistinctStamps(rule: Rule, stats: map<string, Statistics>, group: set<string>)
    requires group <= stats.Keys
  {
    forall s, t | s in group && t in group && s != t :: Stamp(rule, stats[s]) != Stamp(rule, stats[t])
  }

  /** With distinct moments a selection is determined. */
  lemma SelectionDetermined(rule: Rule, stats: map<string, Statistics>, group: set<string>, chosen: set<string>,
                            other: set<string>, now: int)
    requires group <= stats.Keys && DistinctStamps(rule, stats, group) && !Panics(rule)
    requires IsSelection(rule, stats, group, chosen, now) && IsSelection(rule, stats, group, other, now)
    ensures chosen == other
  {
    forall t | t in group ensures t in chosen <==> t in other {
      if rule.LatestPull? || rule.LatestPush? {
        assert Level(rule, stats, group, t) == {};
        RankDecides(rule, stats, group, chosen, now, t);
        RankDecides(rule, stats, group, other, now, t);
      }
    }
  }

  ghost predicate GroupsHaveDistinctStamps(m: Matchers, keepTags: seq<KeepTagsPolicy>, stats: map<string, Statistics>) {
    forall id: nat, rule | id < |keepTags| && rule in GetRules(keepTags[id]) ::
      DistinctStamps(rule, stats, GroupTags(m, keepTags, stats.Keys, id))
  }

  /** With distinct moments, what is kept does not depend on the order in which the groups were
      visited or the sort left them. */
  lemma RetentionDetermined(m: Matchers, keepTags: seq<KeepTagsPolicy>, stats: map<string, Statistics>,
                            clock: (nat, nat) -> int,
                            chosen: map<nat, seq<set<string>>>, other: map<nat, seq<set<string>>>, t: string)
    requires GroupsHaveDistinctStamps(m, keepTags, stats) && !PanicPossible(m, keepTags, stats)
    requires FullySelected(m, keepTags, stats, clock, chosen) && FullySelected(m, keepTags, stats, clock, other)
    ensures Kept(m, keepTags, stats, chosen, t) <==> Kept(m, keepTags, stats, other, t)
  {
    hide IsFirstMatch, GetRules, IsSelection, DistinctStamps;
    forall id: nat | t in stats && IsFirstMatch(m, keepTags, t, id)
      ensures KeptBy(m, keepTags, chosen, t, id) <==> KeptBy(m, keepTags, other, t, id)
    {
      var group := GroupTags(m, keepTags, stats.Keys, id);
      assert t in group;
      var rules := GetRules(keepTags[id]);
      assert SelectedFrom(m, keepTags, stats, clock, chosen, id) && SelectedFrom(m, keepTags, stats, clock, other, id);
      forall k | 0 <= k < |rules| ensures chosen[id][k] == other[id][k] {
        assert rules[k] in rules;
        SelectionDetermined(rules[k], stats, group, chosen[id][k], other[id][k], clock(id, k));
      }
      assert chosen[id] == other[id];
    }
  }

  /** A count rule is a floor for its group, whatever the other rules do. */
  lemma CountIsRetained(m: Matchers, keepTags: seq<KeepTagsPolicy>, stats: map<string, Statistics>,
                        clock: (nat, nat) -> int, chosen: map<nat, seq<set<string>>>, id: nat, rule: Rule)
    requires FullySelected(m, keepTags, stats, clock, chosen)
    requires id < |keepTags| && rule in GetRules(keepTags[id]) && (rule.LatestPull? || rule.LatestPush?)
    ensures
      var group := GroupTags(m, keepTags, stats.Keys, id);
      |set t | t in group && Kept(m, keepTags, stats, chosen, t)| >= Min(rule.count, |group|)
  {
    hide IsFirstMatch, GetRules;
    var group := GroupTags(m, keepTags, stats.Keys, id);
    var kept := set t | t in group && Kept(m, keepTags, stats, chosen, t);
    if group != {} {
      assert SelectedFrom(m, keepTags, stats, clock, chosen, id);
      var k :| 0 <= k < |GetRules(keepTags[id])| && GetRules(keepTags[id])[k] == rule;
      assert IsSelection(rule, stats, group, chosen[id][k], clock(id, k));
      forall t | t in chosen[id][k] ensures t in kept {
        assert InSome(t, chosen[id]);
        assert KeptBy(m, keepTags, chosen, t, id);
      }
      SubsetSize(chosen[id][k], kept);
    }
  }

  /** A tag is retained by at most one policy, the first that matches it. */
  lemma LaterPoliciesDoNotCount(m: Matchers, keepTags: seq<KeepTagsPolicy>, stats: map<string, Statistics>,
                                chosen: map<nat, seq<set<string>>>, t: string, id: nat)
    requires IsFirstMatch(m, keepTags, t, id) && t in stats
    ensures Kept(m, keepTags, stats, chosen, t) <==> KeptBy(m, keepTags, chosen, t, id)
  {
    forall j: nat | IsFirstMatch(m, keepTags, t, j) ensures j == id {
      FirstMatchUnique(m, keepTags, t, j, id);
    }
  }

  // ----- in terms of the configuration alone

  ghost predicate HasStatistics(meta: RepoMeta, t: string) {
    t in meta.tags && meta.tags[t].digest in meta.statistics
  }

  ghost function StatisticsOf(meta: RepoMeta, t: string): Statistics
    requires HasStatistics(meta, t)
  {
    meta.statistics[meta.tags[t].digest]
  }

  /** The first retention policy with a pattern for the repository. */
  ghost predicate FirstPolicyFor(m: Matchers, policies: seq<RetentionPolicy>, repo: string, q: nat) {
    && q < |policies| && (exists p | p in policies[q].repositories :: m.glob(p, repo))
    && forall j, p | 0 <= j < q && p in policies[j].repositories :: !m.glob(p, repo)
  }

  /** The first tag policy with an expression for the tag, or without any expression. */
  ghost predicate FirstTagPolicy(m: Matchers, keepTags: seq<KeepTagsPolicy>, t: string, id: nat) {
    && id < |keepTags| && (keepTags[id].patterns == [] || exists p | p in keepTags[id].patterns :: m.regex(p, t))
    && forall j | 0 <= j < id :: keepTags[j].patterns != [] && forall p | p in keepTags[j].patterns :: !m.regex(p, t)
  }

  /** The tags with statistics that fall under the same tag policy. */
  ghost function Peers(m: Matchers, keepTags: seq<KeepTagsPolicy>, meta: RepoMeta, id: nat): set<string> {
    set u | u in meta.tags && HasStatistics(meta, u) && FirstTagPolicy(m, keepTags, u, id)
  }

  ghost predicate AllUnset(p: KeepTagsPolicy) {
    p.mostRecentlyPulledCount == 0 && p.mostRecentlyPushedCount == 0 && p.pulledWithin == None && p.pushedWithin == None
  }

  /** The policy keeps the tag whatever ties and the clock readings of its at most four rules do: it sets nothing,
      or the tag was pulled or pushed within pulledWithin, or pushed within pushedWithin, or fewer than the
      count of its peers were pulled, or pushed, no earlier. */
  ghost predicate MustKeep(m: Matchers, keepTags: seq<KeepTagsPolicy>, meta: RepoMeta, clock: (nat, nat) -> int,
                           id: nat, t: string)
    requires id < |keepTags| && HasStatistics(meta, t)
  {
    var p, s, peers := keepTags[id], StatisticsOf(meta, t), Peers(m, keepTags, meta, id);
    || AllUnset(p)
    || (p.pulledWithin.Some? && forall k: nat | k < 4 ::
          s.pull > clock(id, k) - p.pulledWithin.value || s.push > clock(id, k) - p.pulledWithin.value)
    || (p.pushedWithin.Some? && forall k: nat | k < 4 :: s.push > clock(id, k) - p.pushedWithin.value)
    || |set u | u in peers && u != t && StatisticsOf(meta, u).pull >= s.pull| < p.mostRecentlyPulledCount
    || |set u | u in peers && u != t && StatisticsOf(meta, u).push >= s.push| < p.mostRecentlyPushedCount
  }

  /** The policy sets something, and the tag meets nothing that it sets. */
  ghost predicate MustDrop(m: Matchers, keepTags: seq<KeepTagsPolicy>, meta: RepoMeta, clock: (nat, nat) -> int,
                           id: nat, t: string)
    requires id < |keepTags| && HasStatistics(meta, t)
  {
    var p, s, peers := keepTags[id], StatisticsOf(meta, t), Peers(m, keepTags, meta, id);
    && !AllUnset(p)
    && (p.pulledWithin.Some? ==> forall k: nat | k < 4 ::
          s.pull <= clock(id, k) - p.pulledWithin.value && s.push <= clock(id, k) - p.pulledWithin.value)
    && (p.pushedWithin.Some? ==> forall k: nat | k < 4 :: s.push <= clock(id, k) - p.pushedWithin.value)
    && (p.mostRecentlyPulledCount != 0 ==>
          |set u | u in peers && StatisticsOf(meta, u).pull > s.pull| >= p.mostRecentlyPulledCount)
    && (p.mostRecentlyPushedCount != 0 ==>
          |set u | u in peers && StatisticsOf(meta, u).push > s.push| >= p.mostRecentlyPushedCount)
  }

  lemma {:induction false} PolicyFor(m: Matchers, policies: seq<RetentionPolicy>, repo: string, q: nat)
    requires FirstPolicyFor(m, policies, repo, q)
    ensures KeepTagsFor(m, policies, repo) == policies[q].keepTags
  {
    if q > 0 {
      assert forall j | 0 <= j < |policies| - 1 :: policies[1..][j] == policies[j + 1];
      PolicyFor(m, policies[1..], repo, q - 1);
    }
  }

  lemma {:induction false} NoPolicyFor(m: Matchers, policies: seq<RetentionPolicy>, repo: string)
    requires forall q: nat :: !FirstPolicyFor(m, policies, repo, q)
    ensures KeepTagsFor(m, policies, repo) == []
  {
    if policies != [] {
      assert !FirstPolicyFor(m, policies, repo, 0);
      forall q: nat ensures !FirstPolicyFor(m, policies[1..], repo, q) {
        assert !FirstPolicyFor(m, policies, repo, q + 1);
        assert forall j | 0 <= j < |policies| - 1 :: policies[1..][j] == policies[j + 1];
        if FirstPolicyFor(m, policies[1..], repo, q) {
          forall j, p | 0 <= j < q + 1 && p in policies[j].repositories ensures !m.glob(p, repo) {
            assert j > 0 ==> policies[1..][j - 1] == policies[j];
          }
        }
      }
      NoPolicyFor(m, policies[1..], repo);
    }
  }

  lemma FirstMatchMeaning(m: Matchers, keepTags: seq<KeepTagsPolicy>, t: string, id: nat)
    ensures IsFirstMatch(m, keepTags, t, id) <==> FirstTagPolicy(m, keepTags, t, id)
  {
  }

  lemma GroupMeaning(m: Matchers, keepTags: seq<KeepTagsPolicy>, meta: RepoMeta, id: nat)
    ensures GroupTags(m, keepTags, StatsOf(meta).Keys, id) == Peers(m, keepTags, meta, id)
    ensures forall t | t in Peers(m, keepTags, meta, id) ::
      t in StatsOf(meta) && StatsOf(meta)[t] == StatisticsOf(meta, t)
  {
    hide IsFirstMatch, FirstTagPolicy;
    forall t ensures t in GroupTags(m, keepTags, StatsOf(meta).Keys, id) <==> t in Peers(m, keepTags, meta, id) {
      FirstMatchMeaning(m, keepTags, t, id);
    }
  }

  /** One rule, in terms of its field. */
  lemma RuleMeaning(rule: Rule, m: Matchers, keepTags: seq<KeepTagsPolicy>, meta: RepoMeta, id: nat,
                    chosen: set<string>,
                    now: int, t: string)
    requires var group := Peers(m, keepTags, meta, id);
      group <= StatsOf(meta).Keys && t in group && IsSelection(rule, StatsOf(meta), group, chosen, now) && !Panics(rule)
    ensures RuleDecides(rule, m, keepTags, meta, id, now, t, chosen)
  {
    hide NoneOlder, Peers;
    var group, stats := Peers(m, keepTags, meta, id), StatsOf(meta);
    GroupMeaning(m, keepTags, meta, id);
    if rule.LatestPull? {
      CountMeaning(rule, stats, group, chosen, now, t);
      assert (set u | u in group && u != t && Stamp(rule, stats[u]) >= Stamp(rule, stats[t]))
          == set u | u in group && u != t && StatisticsOf(meta, u).pull >= StatisticsOf(meta, t).pull;
      assert (set u | u in group && Stamp(rule, stats[u]) > Stamp(rule, stats[t]))
          == set u | u in group && StatisticsOf(meta, u).pull > StatisticsOf(meta, t).pull;
    } else if rule.LatestPush? {
      CountMeaning(rule, stats, group, chosen, now, t);
      assert (set u | u in group && u != t && Stamp(rule, stats[u]) >= Stamp(rule, stats[t]))
          == set u | u in group && u != t && StatisticsOf(meta, u).push >= StatisticsOf(meta, t).push;
      assert (set u | u in group && Stamp(rule, stats[u]) > Stamp(rule, stats[t]))
          == set u | u in group && StatisticsOf(meta, u).push > StatisticsOf(meta, t).push;
    }
  }

  lemma CountMeaning(rule: Rule, stats: map<string, Statistics>, group: set<string>, chosen: set<string>, now: int,
                     t: string)
    requires (rule.LatestPull? || rule.LatestPush?) && rule.count >= 0
    requires group <= stats.Keys && t in group && IsSelection(rule, stats, group, chosen, now)
    ensures |set u | u in group && u != t && Stamp(rule, stats[u]) >= Stamp(rule, stats[t])| < rule.count ==>
      t in chosen
    ensures |set u | u in group && Stamp(rule, stats[u]) > Stamp(rule, stats[t])| >= rule.count ==> t !in chosen
  {
    RankDecides(rule, stats, group, chosen, now, t);
    var newer, level := Newer(rule, stats, group, t), Level(rule, stats, group, t);
    assert newer !! level;
    assert newer + level == set u | u in group && u != t && Stamp(rule, stats[u]) >= Stamp(rule, stats[t]);
    assert newer == set u | u in group && Stamp(rule, stats[u]) > Stamp(rule, stats[t]);
  }

  /** The rules of a policy are those of its fields that are set, at most four. */
  lemma RulesMeaning(p: KeepTagsPolicy)
    ensures |GetRules(p)| <= 4 && (GetRules(p) == [] <==> AllUnset(p))
    ensures forall rule :: rule in GetRules(p) <==>
      match rule
      case LatestPull(n) => n == p.mostRecentlyPulledCount && n != 0
      case LatestPush(n) => n == p.mostRecentlyPushedCount && n != 0
      case DaysPull(d) => p.pulledWithin == Some(d)
      case DaysPush(d) => p.pushedWithin == Some(d)
  {
  }

  /** What is kept under a tag policy, by the fields of that policy. */
  lemma KeptMeaning(m: Matchers, keepTags: seq<KeepTagsPolicy>, meta: RepoMeta, clock: (nat, nat) -> int,
                    chosen: map<nat, seq<set<string>>>, t: string, id: nat)
    requires FullySelected(m, keepTags, StatsOf(meta), clock, chosen) && !PanicPossible(m, keepTags, StatsOf(meta))
    requires HasStatistics(meta, t) && FirstTagPolicy(m, keepTags, t, id)
    ensures MustKeep(m, keepTags, meta, clock, id, t) ==> Kept(m, keepTags, StatsOf(meta), chosen, t)
    ensures MustDrop(m, keepTags, meta, clock, id, t) ==> !Kept(m, keepTags, StatsOf(meta), chosen, t)
  {
    hide IsFirstMatch, GetRules, IsSelection, FullySelected, PanicPossible, StatsOf;
    var group, stats, rules := Peers(m, keepTags, meta, id), StatsOf(meta), GetRules(keepTags[id]);
    FirstMatchMeaning(m, keepTags, t, id);
    assert t in group;
    GroupMeaning(m, keepTags, meta, id);
    RulesMeaning(keepTags[id]);
    LaterPoliciesDoNotCount(m, keepTags, stats, chosen, t, id);
    SelectedHere(m, keepTags, stats, clock, chosen, id);
    forall k | 0 <= k < |rules| ensures rules[k] in rules && !Panics(rules[k]) {
    }
    hide MustKeep, MustDrop;
    if MustKeep(m, keepTags, meta, clock, id, t) {
      KeptByField(m, keepTags, meta, clock, chosen[id], t, id);
    }
    if MustDrop(m, keepTags, meta, clock, id, t) {
      DroppedByFields(m, keepTags, meta, clock, chosen[id], t, id);
    }
  }

  lemma SelectedHere(m: Matchers, keepTags: seq<KeepTagsPolicy>, stats: map<string, Statistics>,
                     clock: (nat, nat) -> int,
                     chosen: map<nat, seq<set<string>>>, id: nat)
    requires FullySelected(m, keepTags, stats, clock, chosen) && !PanicPossible(m, keepTags, stats)
    requires id < |keepTags| && GroupTags(m, keepTags, stats.Keys, id) != {}
    ensures SelectedFrom(m, keepTags, stats, clock, chosen, id)
    ensures forall rule | rule in GetRules(keepTags[id]) :: !Panics(rule)
  {
    hide GetRules, SelectedFrom;
  }

  ghost predicate SelectedBy(m: Matchers, keepTags: seq<KeepTagsPolicy>, meta: RepoMeta, clock: (nat, nat) -> int,
                             selections: seq<set<string>>, id: nat)
  {
    && id < |keepTags| && Peers(m, keepTags, meta, id) <= StatsOf(meta).Keys
    && AreSelections(GetRules(keepTags[id]), StatsOf(meta), Peers(m, keepTags, meta, id), selections,
                     (k: nat) => clock(id, k))
    && forall rule | rule in GetRules(keepTags[id]) :: !Panics(rule)
  }

  lemma KeptByField(m: Matchers, keepTags: seq<KeepTagsPolicy>, meta: RepoMeta, clock: (nat, nat) -> int,
                    selections: seq<set<string>>, t: string, id: nat)
    requires SelectedBy(m, keepTags, meta, clock, selections, id) && t in Peers(m, keepTags, meta, id)
    requires MustKeep(m, keepTags, meta, clock, id, t)
    ensures GetRules(keepTags[id]) == [] || InSome(t, selections)
  {
    hide GetRules, IsSelection, StatsOf, FirstTagPolicy;
    var p, rules := keepTags[id], GetRules(keepTags[id]);
    RulesMeaning(p);
    forall k | 0 <= k < |rules| ensures RuleDecides(rules[k], m, keepTags, meta, id, clock(id, k), t, selections[k]) {
      assert rules[k] in rules;
      RuleMeaning(rules[k], m, keepTags, meta, id, selections[k], clock(id, k), t);
    }
    var s, peers := StatisticsOf(meta, t), Peers(m, keepTags, meta, id);
    if AllUnset(p) {
    } else if p.pulledWithin.Some? && forall k: nat | k < 4 ::
        s.pull > clock(id, k) - p.pulledWithin.value || s.push > clock(id, k) - p.pulledWithin.value {
      assert DaysPull(p.pulledWithin.value) in rules;
    } else if p.pushedWithin.Some? && forall k: nat | k < 4 :: s.push > clock(id, k) - p.pushedWithin.value {
      assert DaysPush(p.pushedWithin.value) in rules;
    } else if |set u | u in peers && u != t && StatisticsOf(meta, u).pull >= s.pull| < p.mostRecentlyPulledCount {
      assert LatestPull(p.mostRecentlyPulledCount) in rules;
    } else {
      assert LatestPush(p.mostRecentlyPushedCount) in rules;
    }
  }

  ghost predicate RuleDecides(rule: Rule, m: Matchers, keepTags: seq<KeepTagsPolicy>, meta: RepoMeta, id: nat,
                              now: int, t: string, chosen: set<string>)
    requires t in Peers(m, keepTags, meta, id)
  {
    var group, s := Peers(m, keepTags, meta, id), StatisticsOf(meta, t);
    match rule
    case DaysPull(d) => t in chosen <==> s.pull > now - d || s.push > now - d
    case DaysPush(d) => t in chosen <==> s.push > now - d
    case LatestPull(n) =>
      && (|set u | u in group && u != t && StatisticsOf(meta, u).pull >= s.pull| < n ==> t in chosen)
      && (|set u | u in group && StatisticsOf(meta, u).pull > s.pull| >= n ==> t !in chosen)
    case LatestPush(n) =>
      && (|set u | u in group && u != t && StatisticsOf(meta, u).push >= s.push| < n ==> t in chosen)
      && (|set u | u in group && StatisticsOf(meta, u).push > s.push| >= n ==> t !in chosen)
  }

  lemma DroppedByFields(m: Matchers, keepTags: seq<KeepTagsPolicy>, meta: RepoMeta, clock: (nat, nat) -> int,
                        selections: seq<set<string>>, t: string, id: nat)
    requires SelectedBy(m, keepTags, meta, clock, selections, id) && t in Peers(m, keepTags, meta, id)
    requires MustDrop(m, keepTags, meta, clock, id, t)
    ensures GetRules(keepTags[id]) != [] && !InSome(t, selections)
  {
    hide GetRules, IsSelection, StatsOf, FirstTagPolicy;
    var rules := GetRules(keepTags[id]);
    RulesMeaning(keepTags[id]);
    forall k | 0 <= k < |rules| ensures t !in selections[k] {
      assert rules[k] in rules;
      RuleMeaning(rules[k], m, keepTags, meta, id, selections[k], clock(id, k), t);
    }
  }

  /** What is retained, for every tag, by the configuration and the recorded statistics alone. */
  ghost predicate ByConfiguration(m: Matchers, policies: seq<RetentionPolicy>, meta: RepoMeta, clock: (nat, nat) -> int,
                                  actualTags: seq<string>, tags: seq<string>) {
    && (forall t | !HasStatistics(meta, t) :: t in tags <==> t in actualTags)
    && (forall t, q: nat, id: nat | HasStatistics(meta, t) && FirstPolicyFor(m, policies, meta.name, q) &&
                                    FirstTagPolicy(m, policies[q].keepTags, t, id) ::
          && (MustKeep(m, policies[q].keepTags, meta, clock, id, t) ==> t in tags)
          && (MustDrop(m, policies[q].keepTags, meta, clock, id, t) ==> t !in tags))
    && (forall t | HasStatistics(meta, t) && t in tags ::
          exists q: nat, id: nat ::
            FirstPolicyFor(m, policies, meta.name, q) && FirstTagPolicy(m, policies[q].keepTags, t, id))
  }

  /** A tag with statistics falls under a tag policy with a count below zero. */
  ghost predicate NegativeCountApplies(m: Matchers, policies: seq<RetentionPolicy>, meta: RepoMeta) {
    exists t, q: nat, id: nat ::
      && HasStatistics(meta, t) && FirstPolicyFor(m, policies, meta.name, q)
      && FirstTagPolicy(m, policies[q].keepTags, t, id)
      && (policies[q].keepTags[id].mostRecentlyPulledCount < 0 || policies[q].keepTags[id].mostRecentlyPushedCount < 0)
  }

  lemma RetainsByConfiguration(m: Matchers, policies: seq<RetentionPolicy>, meta: RepoMeta, clock: (nat, nat) -> int,
                               actualTags: seq<string>, chosen: map<nat, seq<set<string>>>, tags: seq<string>)
    requires var keepTags := KeepTagsFor(m, policies, meta.name);
      Retains(m, keepTags, StatsOf(meta), clock, actualTags, chosen, tags) && !PanicPossible(m, keepTags, StatsOf(meta))
    ensures ByConfiguration(m, policies, meta, clock, actualTags, tags)
  {
    hide KeepTagsFor, MustKeep, MustDrop, Kept, PanicPossible, FullySelected;
    var keepTags, stats := KeepTagsFor(m, policies, meta.name), StatsOf(meta);
    forall t ensures t in stats <==> HasStatistics(meta, t) {
    }
    forall t | !HasStatistics(meta, t) ensures t in tags <==> t in actualTags {
      KeptHasStatistics(m, keepTags, stats, chosen, t);
    }
    forall t, q: nat, id: nat | HasStatistics(meta, t) && FirstPolicyFor(m, policies, meta.name, q) &&
                                FirstTagPolicy(m, policies[q].keepTags, t, id)
      ensures MustKeep(m, policies[q].keepTags, meta, clock, id, t) ==> t in tags
      ensures MustDrop(m, policies[q].keepTags, meta, clock, id, t) ==> t !in tags
    {
      PolicyFor(m, policies, meta.name, q);
      KeptMeaning(m, keepTags, meta, clock, chosen, t, id);
    }
    forall t | HasStatistics(meta, t) && t in tags
      ensures exists q: nat, id: nat ::
                FirstPolicyFor(m, policies, meta.name, q) && FirstTagPolicy(m, policies[q].keepTags, t, id)
    {
      var q, id := KeptUnder(m, policies, meta, chosen, t);
    }
  }

  lemma KeptHasStatistics(m: Matchers, keepTags: seq<KeepTagsPolicy>, stats: map<string, Statistics>,
                          chosen: map<nat, seq<set<string>>>, t: string)
    ensures Kept(m, keepTags, stats, chosen, t) ==> t in stats
  {
  }

  lemma KeptUnder(m: Matchers, policies: seq<RetentionPolicy>, meta: RepoMeta, chosen: map<nat, seq<set<string>>>,
                  t: string)
    returns (q: nat, id: nat)
    requires Kept(m, KeepTagsFor(m, policies, meta.name), StatsOf(meta), chosen, t)
    ensures FirstPolicyFor(m, policies, meta.name, q) && FirstTagPolicy(m, policies[q].keepTags, t, id)
  {
    hide IsFirstMatch, FirstTagPolicy, FirstPolicyFor, KeepTagsFor;
    var keepTags := KeepTagsFor(m, policies, meta.name);
    id :| KeptBy(m, keepTags, chosen, t, id);
    FirstMatchMeaning(m, keepTags, t, id);
    q := PolicyOfTags(m, policies, meta.name, t, id);
  }

  lemma PolicyOfTags(m: Matchers, policies: seq<RetentionPolicy>, repo: string, t: string, id: nat) returns (q: nat)
    requires FirstTagPolicy(m, KeepTagsFor(m, policies, repo), t, id)
    ensures FirstPolicyFor(m, policies, repo, q) && policies[q].keepTags == KeepTagsFor(m, policies, repo)
  {
    hide FirstPolicyFor, KeepTagsFor;
    if p: nat :| FirstPolicyFor(m, policies, repo, p) {
      PolicyFor(m, policies, repo, p);
      q := p;
    } else {
      NoPolicyFor(m, policies, repo);
      assert false;
    }
  }

  lemma PanicMeaning(m: Matchers, policies: seq<RetentionPolicy>, meta: RepoMeta)
    ensures PanicPossible(m, KeepTagsFor(m, policies, meta.name), StatsOf(meta)) <==>
      NegativeCountApplies(m, policies, meta)
  {
    hide KeepTagsFor, StatsOf, GetRules, IsFirstMatch, Peers, GroupTags;
    var keepTags, stats := KeepTagsFor(m, policies, meta.name), StatsOf(meta);
    if id: nat :| GroupTags(m, keepTags, stats.Keys, id) != {} && CanPanic(keepTags, id) {
      GroupMeaning(m, keepTags, meta, id);
      var t :| t in Peers(m, keepTags, meta, id);
      PeerMeaning(m, keepTags, meta, id, t);
      var q := PolicyOfTags(m, policies, meta.name, t, id);
      RulesMeaning(keepTags[id]);
    }
    if NegativeCountApplies(m, policies, meta) {
      var t, q: nat, id: nat :|
        && HasStatistics(meta, t) && FirstPolicyFor(m, policies, meta.name, q)
        && FirstTagPolicy(m, policies[q].keepTags, t, id)
        && (policies[q].keepTags[id].mostRecentlyPulledCount < 0
            || policies[q].keepTags[id].mostRecentlyPushedCount < 0);
      PolicyFor(m, policies, meta.name, q);
      GroupMeaning(m, keepTags, meta, id);
      PeerMeaning(m, keepTags, meta, id, t);
      var p := keepTags[id];
      RulesMeaning(p);
      var rule := if p.mostRecentlyPulledCount < 0 then LatestPull(p.mostRecentlyPulledCount)
                  else LatestPush(p.mostRecentlyPushedCount);
      assert rule in GetRules(p) && Panics(rule);
      assert CanPanic(keepTags, id);
    }
  }

  lemma PeerMeaning(m: Matchers, keepTags: seq<KeepTagsPolicy>, meta: RepoMeta, id: nat, t: string)
    ensures t in Peers(m, keepTags, meta, id) <==> HasStatistics(meta, t) && FirstTagPolicy(m, keepTags, t, id)
    ensures FirstTagPolicy(m, keepTags, t, id) ==> id < |keepTags|
  {
  }

  /** For instance: a count below zero and one tag for it to select from. */
  method NegativeCountPanics() returns (r: Verdict)
    ensures r == Panicked
  {
    var m := Matchers((p, repo) => true, (p, tag) => true);
    var keepTags := [KeepTagsPolicy([], -1, 0, None, None)];
    var meta := RepoMeta("repo", map["v1" := Descriptor("digest", "")], map["digest" := Statistics(0, 0)]);
    var policies := [RetentionPolicy(["**"], keepTags)];
    r := GetRetainedTagsFromMetaDB(m, policies, k => false, (id, k) => 0, meta, []);
    assert "**" in policies[0].repositories && KeepTagsFor(m, policies, "repo") == keepTags;
    assert IsFirstMatch(m, keepTags, "v1", 0);
    assert "v1" in GroupTags(m, keepTags, StatsOf(meta).Keys, 0);
    assert LatestPull(-1) in GetRules(keepTags[0]);
    assert CanPanic(keepTags, 0);
  }
}
