/**
 Authorization by configuration: per request, the policies of the longest matching pattern and
 the admin policy decide; for the catalog, a table of patterns is precomputed per action.

 Glob matching and the evaluation of policy conditions are taken as given functions.
 */
module AccessControl {
  import opened Optional

  /** The five actions the registry asks about; a policy may name any other. */
  datatype Action = Read | Create | Update | Delete | DetectManifestCollision | Custom(name: string)

  datatype Condition = Condition(expression: string, message: string)

  datatype Policy = Policy(users: seq<string>, actions: seq<Action>, groups: seq<string>, conditions: seq<Condition>)

  datatype PolicyGroup = PolicyGroup(policies: seq<Policy>, defaultPolicy: seq<Action>, anonymousPolicy: seq<Action>)

  datatype Config = Config(repositories: map<string, PolicyGroup>, adminPolicy: Policy)

  datatype Request = Request(
    username: string, groups: seq<string>, admin: bool, action: Action, repository: string, reference: string)

  datatype GlobResult = Matched | Unmatched | BadPattern

  /** The value of a condition; Broken is one that cannot be looked up or evaluated. */
  datatype Verdict = Holds | Fails | Broken

  datatype World = World(glob: (string, string) -> GlobResult, evaluate: (string, Request) -> Verdict)

  const METHOD_ACTIONS: seq<Action> := [Read, Create, Update, Delete]
  const BEHAVIOUR_ACTIONS: seq<Action> := [DetectManifestCollision]

  // ----- conditions

  predicate ConditionsHold(w: World, policy: Policy, req: Request) {
    forall c | c in policy.conditions :: w.evaluate(c.expression, req) == Holds
  }

  /** The message of the first condition that does not hold, unless that one is broken. */
  function Denial(w: World, conditions: seq<Condition>, req: Request): string {
    if conditions == [] then ""
    else match w.evaluate(conditions[0].expression, req)
      case Holds => Denial(w, conditions[1..], req)
      case Fails => conditions[0].message
      case Broken => ""
  }

  method PolicyConditionsMet(w: World, policy: Policy, req: Request) returns (ok: bool, reason: string)
    ensures ok <==> ConditionsHold(w, policy, req)
    ensures reason == Denial(w, policy.conditions, req)
  {
    for i := 0 to |policy.conditions|
      invariant forall k | 0 <= k < i :: w.evaluate(policy.conditions[k].expression, req) == Holds
      invariant Denial(w, policy.conditions, req) == Denial(w, policy.conditions[i..], req)
    {
      var cond := policy.conditions[i];
      assert cond in policy.conditions;
      assert policy.conditions[i..][1..] == policy.conditions[i + 1..];
      var verdict := w.evaluate(cond.expression, req);
      if verdict == Broken {
        return false, "";
      }
      if verdict == Fails {
        return false, cond.message;
      }
    }
    return true, "";
  }

  // ----- one policy group

  predicate NamesUser(policy: Policy, req: Request) {
    req.username in policy.users && req.action in policy.actions
  }

  predicate NamesGroup(policy: Policy, req: Request) {
    (exists g | g in policy.groups :: g in req.groups) && req.action in policy.actions
  }

  /** What a policy group grants: some policy names the user or one of its groups and its
      conditions hold, or the default or the anonymous policy has the action. */
  predicate Permitted(w: World, req: Request, group: PolicyGroup) {
    || (exists p | p in group.policies :: (NamesUser(p, req) || NamesGroup(p, req)) && ConditionsHold(w, p, req))
    || (req.action in group.defaultPolicy && req.username != "")
    || (req.action in group.anonymousPolicy && req.username == "")
  }

  function Select(policies: seq<Policy>, names: Policy -> bool): seq<Policy> {
    if policies == [] then []
    else
      var front, last := Select(policies[..|policies| - 1], names), policies[|policies| - 1];
      if names(last) then front + [last] else front
  }

  /** The message of the last consulted policy that has one. */
  function LastDenial(w: World, consulted: seq<Policy>, req: Request): string {
    if consulted == [] then ""
    else
      var d := Denial(w, consulted[|consulted| - 1].conditions, req);
      if d != "" then d else LastDenial(w, consulted[..|consulted| - 1], req)
  }

  /** The policies that name the user, then those that name one of its groups. */
  function Consulted(req: Request, group: PolicyGroup): seq<Policy> {
    Select(group.policies, p => NamesUser(p, req)) + Select(group.policies, p => NamesGroup(p, req))
  }

  lemma SelectAppend(policies: seq<Policy>, p: Policy, names: Policy -> bool)
    ensures Select(policies + [p], names) == if names(p) then Select(policies, names) + [p] else Select(policies, names)
  {
    assert (policies + [p])[..|policies|] == policies;
  }

  lemma LastDenialAppend(w: World, consulted: seq<Policy>, p: Policy, req: Request)
    ensures LastDenial(w, consulted + [p], req) ==
      var d := Denial(w, p.conditions, req); if d != "" then d else LastDenial(w, consulted, req)
  {
    assert (consulted + [p])[..|consulted|] == consulted;
  }

  /** Goes through the policies that `names` selects until one grants. */
  method Consult(w: World, req: Request, policies: seq<Policy>, names: Policy -> bool, ghost earlier: seq<Policy>,
                 lastDenyReason: string)
    returns (ok: bool, reason: string)
    requires lastDenyReason == LastDenial(w, earlier, req)
    ensures ok <==> exists p | p in policies :: names(p) && ConditionsHold(w, p, req)
    ensures reason == if ok then "" else LastDenial(w, earlier + Select(policies, names), req)
  {
    hide LastDenial, ConditionsHold, Denial;
    reason := lastDenyReason;
    assert earlier + Select(policies[..0], names) == earlier;
    for i := 0 to |policies|
      invariant forall k | 0 <= k < i :: names(policies[k]) ==> !ConditionsHold(w, policies[k], req)
      invariant reason == LastDenial(w, earlier + Select(policies[..i], names), req)
    {
      var policy := policies[i];
      assert policy in policies && policies[..i + 1] == policies[..i] + [policy];
      SelectAppend(policies[..i], policy, names);
      if !names(policy) {
        continue;
      }
      ghost var consulted := Select(policies[..i], names);
      assert earlier + (consulted + [policy]) == earlier + consulted + [policy];
      LastDenialAppend(w, earlier + consulted, policy, req);
      var met, denial := PolicyConditionsMet(w, policy, req);
      if met {
        return true, "";
      }
      reason := if denial != "" then denial else reason;
    }
    assert policies[..|policies|] == policies;
    ok := false;
  }

  method IsPermitted(w: World, req: Request, group: PolicyGroup) returns (ok: bool, reason: string)
    ensures ok <==> Permitted(w, req, group)
    ensures reason == if ok then "" else LastDenial(w, Consulted(req, group), req)
    ensures ok <==> GroupGrants(w, req, group)
    ensures !ok ==> LastReason(w, req, group, reason)
  {
    hide ConditionsHold, Denial, NamesUser, NamesGroup, GroupGrants, LastReason;
    PermittedMeaning(w, req, group);
    LastDenialMeaning(w, req, group);
    var byUser, byGroup := p => NamesUser(p, req), p => NamesGroup(p, req);
    var policies := group.policies;
    ok, reason := Consult(w, req, policies, byUser, [], "");
    assert [] + Select(policies, byUser) == Select(policies, byUser);
    if ok {
      return;
    }
    ok, reason := Consult(w, req, policies, byGroup, Select(policies, byUser), reason);
    if ok {
      return;
    }
    if req.action in group.defaultPolicy && req.username != "" {
      return true, "";
    }
    if req.action in group.anonymousPolicy && req.username == "" {
      return true, "";
    }
  }

  // ----- the same in terms of the lists and conditions

  ghost predicate Lists(policy: Policy, req: Request) {
    && req.action in policy.actions
    && (req.username in policy.users || exists g | g in policy.groups :: g in req.groups)
  }

  ghost predicate AllHold(w: World, policy: Policy, req: Request) {
    forall i | 0 <= i < |policy.conditions| :: w.evaluate(policy.conditions[i].expression, req) == Holds
  }

  /** A policy lists the request's action and its user or one of the user's groups, and all its conditions hold;
      or the action is among those of everybody with a name, or of everybody without. */
  ghost predicate GroupGrants(w: World, req: Request, group: PolicyGroup) {
    || (exists p | p in group.policies :: Lists(p, req) && AllHold(w, p, req))
    || (req.username != "" && req.action in group.defaultPolicy)
    || (req.username == "" && req.action in group.anonymousPolicy)
  }

  ghost predicate FirstFailure(w: World, conditions: seq<Condition>, req: Request, i: int, message: string) {
    && 0 <= i < |conditions| && w.evaluate(conditions[i].expression, req) == Fails && conditions[i].message == message
    && forall j | 0 <= j < i :: w.evaluate(conditions[j].expression, req) == Holds
  }

  /** The message of the policy's first condition that does not hold, if that one is not broken. */
  ghost predicate Denies(w: World, policy: Policy, req: Request, message: string) {
    message != "" && SomeFailure(w, policy.conditions, req, message)
  }

  ghost predicate SomeFailure(w: World, conditions: seq<Condition>, req: Request, message: string) {
    exists i :: FirstFailure(w, conditions, req, i, message)
  }

  ghost predicate ByGroup(policy: Policy, req: Request) {
    req.action in policy.actions && exists g | g in policy.groups :: g in req.groups
  }

  ghost predicate ByUser(policy: Policy, req: Request) {
    req.action in policy.actions && req.username in policy.users
  }

  /** The message of the last policy listed by group that has one, else of the last one listed by user. */
  ghost predicate LastReason(w: World, req: Request, group: PolicyGroup, reason: string) {
    || LastOf(w, req, group.policies, p => ByGroup(p, req), reason)
    || (NoneOf(w, req, group.policies, p => ByGroup(p, req)) &&
        (LastOf(w, req, group.policies, p => ByUser(p, req), reason) ||
         (NoneOf(w, req, group.policies, p => ByUser(p, req)) && reason == "")))
  }

  ghost predicate LastOf(w: World, req: Request, policies: seq<Policy>, listed: Policy -> bool, reason: string) {
    exists i | 0 <= i < |policies| ::
      && listed(policies[i]) && Denies(w, policies[i], req, reason)
      && forall j, m | i < j < |policies| && listed(policies[j]) :: !Denies(w, policies[j], req, m)
  }

  ghost predicate NoneOf(w: World, req: Request, policies: seq<Policy>, listed: Policy -> bool) {
    forall j, m | 0 <= j < |policies| && listed(policies[j]) :: !Denies(w, policies[j], req, m)
  }

  lemma ConditionsMeaning(w: World, policy: Policy, req: Request)
    ensures ConditionsHold(w, policy, req) <==> AllHold(w, policy, req)
    ensures forall m :: Denies(w, policy, req, m) <==> m != "" && Denial(w, policy.conditions, req) == m
  {
    forall m ensures Denies(w, policy, req, m) <==> m != "" && Denial(w, policy.conditions, req) == m {
      if m != "" {
        DenialMeaning(w, policy.conditions, req, m);
      }
    }
  }

  lemma {:induction false} DenialMeaning(w: World, conditions: seq<Condition>, req: Request, m: string)
    requires m != ""
    ensures Denial(w, conditions, req) == m <==> SomeFailure(w, conditions, req, m)
  {
    if conditions == [] {
    } else if w.evaluate(conditions[0].expression, req) == Holds {
      DenialMeaning(w, conditions[1..], req, m);
      forall i ensures FirstFailure(w, conditions, req, i, m) <==> FirstFailure(w, conditions[1..], req, i - 1, m) {
        FailureBehind(w, conditions, req, i, m);
      }
      if SomeFailure(w, conditions[1..], req, m) {
        var i :| FirstFailure(w, conditions[1..], req, i, m);
        assert FirstFailure(w, conditions[1..], req, i + 1 - 1, m);
        assert FirstFailure(w, conditions, req, i + 1, m);
      }
    } else {
      forall i ensures FirstFailure(w, conditions, req, i, m) ==> i == 0 {
      }
      assert FirstFailure(w, conditions, req, 0, conditions[0].message) <==>
             w.evaluate(conditions[0].expression, req) == Fails;
    }
  }

  lemma FailureBehind(w: World, conditions: seq<Condition>, req: Request, i: int, m: string)
    requires conditions != [] && w.evaluate(conditions[0].expression, req) == Holds
    ensures FirstFailure(w, conditions, req, i, m) <==> FirstFailure(w, conditions[1..], req, i - 1, m)
  {
    var rest := conditions[1..];
    if FirstFailure(w, conditions, req, i, m) {
      forall j | 0 <= j < i - 1 ensures w.evaluate(rest[j].expression, req) == Holds {
        assert rest[j] == conditions[j + 1];
      }
    }
    if FirstFailure(w, rest, req, i - 1, m) {
      forall j | 0 <= j < i ensures w.evaluate(conditions[j].expression, req) == Holds {
        assert j > 0 ==> conditions[j] == rest[j - 1];
      }
    }
  }

  lemma PermittedMeaning(w: World, req: Request, group: PolicyGroup)
    ensures Permitted(w, req, group) <==> GroupGrants(w, req, group)
  {
    hide ConditionsHold, AllHold;
    forall p | p in group.policies
      ensures (NamesUser(p, req) || NamesGroup(p, req)) && ConditionsHold(w, p, req) <==>
        Lists(p, req) && AllHold(w, p, req)
    {
      ConditionsMeaning(w, p, req);
    }
  }

  lemma LastDenialMeaning(w: World, req: Request, group: PolicyGroup)
    ensures LastReason(w, req, group, LastDenial(w, Consulted(req, group), req))
  {
    hide LastDenial, Select, NamesUser, NamesGroup, ByUser, ByGroup, LastOf, NoneOf;
    var policies := group.policies;
    var byUser, byGroup := Select(policies, p => NamesUser(p, req)), Select(policies, p => NamesGroup(p, req));
    LastDenialSplits(w, byUser, byGroup, req);
    SelectDenial(w, req, policies, p => NamesGroup(p, req));
    SelectDenial(w, req, policies, p => NamesUser(p, req));
    NamesMeaning(req);
    SameListed(w, req, policies, p => NamesGroup(p, req), p => ByGroup(p, req));
    SameListed(w, req, policies, p => NamesUser(p, req), p => ByUser(p, req));
  }

  lemma NamesMeaning(req: Request)
    ensures forall p: Policy :: (NamesUser(p, req) <==> ByUser(p, req)) && (NamesGroup(p, req) <==> ByGroup(p, req))
  {
  }

  lemma SameListed(w: World, req: Request, policies: seq<Policy>, f: Policy -> bool, g: Policy -> bool)
    requires forall p :: f(p) == g(p)
    ensures forall m :: LastOf(w, req, policies, f, m) <==> LastOf(w, req, policies, g, m)
    ensures NoneOf(w, req, policies, f) <==> NoneOf(w, req, policies, g)
  {
    hide Denies;
    forall m ensures LastOf(w, req, policies, f, m) <==> LastOf(w, req, policies, g, m) {
    }
  }

  lemma {:induction false} LastDenialSplits(w: World, a: seq<Policy>, b: seq<Policy>, req: Request)
    ensures LastDenial(w, a + b, req) ==
      if LastDenial(w, b, req) != "" then LastDenial(w, b, req) else LastDenial(w, a, req)
    decreases |b|
  {
    if b == [] {
      assert a + b == a;
    } else {
      var last := |b| - 1;
      assert (a + b)[..|a| + last] == a + b[..last] && (a + b)[|a| + last] == b[last];
      LastDenialSplits(w, a, b[..last], req);
    }
  }

  lemma OneMorePolicy(w: World, req: Request, front: seq<Policy>, last: Policy, listed: Policy -> bool)
    ensures forall m | listed(last) && Denies(w, last, req, m) :: LastOf(w, req, front + [last], listed, m)
    ensures !listed(last) || (forall m :: !Denies(w, last, req, m)) ==>
      && (NoneOf(w, req, front, listed) ==> NoneOf(w, req, front + [last], listed))
      && (forall m | LastOf(w, req, front, listed, m) :: LastOf(w, req, front + [last], listed, m))
  {
    hide Denies;
    var policies := front + [last];
    assert policies[|front|] == last && forall j | 0 <= j < |front| :: policies[j] == front[j];
  }

  lemma {:induction false} SelectDenial(w: World, req: Request, policies: seq<Policy>, names: Policy -> bool)
    ensures var d := LastDenial(w, Select(policies, names), req);
      if d == "" then NoneOf(w, req, policies, names) else LastOf(w, req, policies, names, d)
  {
    if policies != [] {
      hide Denies, Denial, LastOf, NoneOf, LastDenial, Select;
      var front, last := policies[..|policies| - 1], policies[|policies| - 1];
      assert policies == front + [last];
      SelectDenial(w, req, front, names);
      SelectAppend(front, last, names);
      LastDenialAppend(w, Select(front, names), last, req);
      ConditionsMeaning(w, last, req);
      OneMorePolicy(w, req, front, last, names);
    }
  }

  // ----- the longest matching pattern

  predicate Matches(w: World, pattern: string, repository: string) {
    w.glob(pattern, repository) == Matched
  }

  /** A possible outcome of going through the patterns in some order: a longest one that matches, and
      the empty string when no other pattern does. */
  ghost predicate IsLongest(w: World, patterns: set<string>, repository: string, p: string) {
    && (p != "" ==> p in patterns && w.glob(p, repository) == Matched)
    && forall q | q in patterns && w.glob(q, repository) == Matched :: |q| <= |p|
  }

  ghost predicate UniqueLongest(w: World, patterns: set<string>, repository: string) {
    forall p, q | IsLongest(w, patterns, repository, p) && IsLongest(w, patterns, repository, q) :: p == q
  }

  /** Ranging over a map visits its keys in an arbitrary order. */
  method LongestMatch(w: World, patterns: set<string>, repository: string) returns (longest: string)
    ensures IsLongest(w, patterns, repository, longest)
  {
    longest := "";
    var rest := patterns;
    while rest != {}
      invariant rest <= patterns
      invariant longest != "" ==> longest in patterns && Matches(w, longest, repository)
      invariant forall q | q in patterns - rest && Matches(w, q, repository) :: |q| <= |longest|
      decreases rest
    {
      var pattern :| pattern in rest;
      rest := rest - {pattern};
      if Matches(w, pattern, repository) && |pattern| > |longest| {
        longest := pattern;
      }
    }
  }

  // ----- the decision per request

  predicate IsAdminUser(config: Config, username: string, groups: seq<string>) {
    username in config.adminPolicy.users || exists g | g in groups :: g in config.adminPolicy.groups
  }

  predicate AdminNames(config: Config, req: Request) {
    IsAdminUser(config, req.username, req.groups) && req.action in config.adminPolicy.actions
  }

  /** The decision when p is the longest matching pattern. */
  predicate Granted(w: World, config: Config, req: Request, p: string) {
    || (p in config.repositories && Permitted(w, req, config.repositories[p]))
    || (AdminNames(config, req) && ConditionsHold(w, config.adminPolicy, req))
  }

  /** The admin policy's denial takes precedence over the repository's. */
  function DenyReason(w: World, config: Config, req: Request, p: string): string {
    var admin := if AdminNames(config, req) then Denial(w, config.adminPolicy.conditions, req) else "";
    if admin != "" then admin
    else if p in config.repositories then LastDenial(w, Consulted(req, config.repositories[p]), req)
    else ""
  }

  ghost predicate Decision(w: World, config: Config, req: Request, p: string, ok: bool, reason: string) {
    && IsLongest(w, config.repositories.Keys, req.repository, p)
    && (ok <==> Granted(w, config, req, p))
    && reason == if ok then "" else DenyReason(w, config, req, p)
  }

  /** The decision in terms of the lists and conditions of the group of p and of the admin policy. */
  ghost predicate ListsGrant(w: World, config: Config, req: Request, p: string) {
    || (p in config.repositories && GroupGrants(w, req, config.repositories[p]))
    || (&& req.action in config.adminPolicy.actions
        && (req.username in config.adminPolicy.users || exists g | g in req.groups :: g in config.adminPolicy.groups)
        && AllHold(w, config.adminPolicy, req))
  }

  lemma GrantedMeaning(w: World, config: Config, req: Request, p: string)
    ensures Granted(w, config, req, p) <==> ListsGrant(w, config, req, p)
  {
    hide Permitted, GroupGrants, AllHold, ConditionsHold;
    ConditionsMeaning(w, config.adminPolicy, req);
    if p in config.repositories {
      PermittedMeaning(w, req, config.repositories[p]);
    }
  }

  /** The admin policy's denial if it lists the request and has one, else that of the group of p. */
  ghost predicate ListsDeny(w: World, config: Config, req: Request, p: string, reason: string) {
    var admin := config.adminPolicy;
    var named := && req.action in admin.actions
      && (req.username in admin.users || exists g | g in req.groups :: g in admin.groups);
    if named && exists m :: Denies(w, admin, req, m) then Denies(w, admin, req, reason)
    else if p in config.repositories then LastReason(w, req, config.repositories[p], reason)
    else reason == ""
  }

  lemma DenyReasonMeaning(w: World, config: Config, req: Request, p: string)
    ensures ListsDeny(w, config, req, p, DenyReason(w, config, req, p))
  {
    hide Denial, Denies, LastDenial, LastReason, Consulted;
    ConditionsMeaning(w, config.adminPolicy, req);
    if p in config.repositories {
      LastDenialMeaning(w, req, config.repositories[p]);
    }
    if AdminNames(config, req) && Denial(w, config.adminPolicy.conditions, req) != "" {
      assert Denies(w, config.adminPolicy, req, Denial(w, config.adminPolicy.conditions, req));
    }
  }

  /** p is a longest matching pattern, and the lists of its group and of the admin policy give the answer. */
  ghost predicate DecisionByLists(w: World, config: Config, req: Request, p: string, ok: bool, reason: string) {
    && IsLongest(w, config.repositories.Keys, req.repository, p)
    && (ok <==> ListsGrant(w, config, req, p))
    && (if ok then reason == "" else ListsDeny(w, config, req, p, reason))
  }

  /** No policy, default, anonymous or admin list has the action. */
  ghost predicate Unlisted(config: Config, action: Action) {
    && action !in config.adminPolicy.actions
    && forall p | p in config.repositories ::
         var group := config.repositories[p];
         && action !in group.defaultPolicy && action !in group.anonymousPolicy
         && forall policy | policy in group.policies :: action !in policy.actions
  }

  /** An action that no list has is never granted. */
  lemma UnlistedIsNeverGranted(w: World, config: Config, req: Request, p: string)
    requires Unlisted(config, req.action)
    ensures !Granted(w, config, req, p)
  {
    GrantedMeaning(w, config, req, p);
  }

  method Can(w: World, config: Config, req: Request) returns (ok: bool, reason: string)
    ensures exists p :: Decision(w, config, req, p, ok, reason)
    ensures exists p :: DecisionByLists(w, config, req, p, ok, reason)
    ensures Unlisted(config, req.action) ==> !ok
  {
    hide ListsGrant, ListsDeny, Unlisted, Permitted, ConditionsHold, Denial, LastDenial, Consulted, IsLongest;
    hide IsAdminUser;
    var longest := LongestMatch(w, config.repositories.Keys, req.repository);
    ok, reason := false, "";
    if longest in config.repositories {
      ok, reason := IsPermitted(w, req, config.repositories[longest]);
    }
    if !ok && AdminNames(config, req) {
      var met, denial := PolicyConditionsMet(w, config.adminPolicy, req);
      if met {
        ok, reason := true, "";
      } else if denial != "" {
        reason := denial;
      }
    }
    assert Decision(w, config, req, longest, ok, reason);
    GrantedMeaning(w, config, req, longest);
    DenyReasonMeaning(w, config, req, longest);
    assert DecisionByLists(w, config, req, longest, ok, reason);
    if Unlisted(config, req.action) {
      UnlistedIsNeverGranted(w, config, req, longest);
    }
  }
}
