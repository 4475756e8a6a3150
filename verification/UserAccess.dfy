/**
 What a request's handlers know about its user: the name and groups that authentication found, and
 the pattern tables that authorization precomputed. The tables are compared with the decision per
 request of module AccessControl.
 */
module UserAccess {
  import opened Optional
  import opened AccessControl

  const ACTIONS: set<Action> := {Read, Create, Update, Delete, DetectManifestCollision}

  datatype AuthnInfo = AuthnInfo(username: string, groups: seq<string>)

  datatype AuthzInfo = AuthzInfo(isAdmin: bool, globPatterns: Option<map<Action, map<string, bool>>>)

  class UserAccessControl {
    var authnInfo: Option<AuthnInfo>
    var authzInfo: Option<AuthzInfo>

    /** The configuration that the attached permission evaluator decides by. */
    var permissionEvaluator: Option<Config>

    constructor ()
      ensures authnInfo == None && authzInfo == None && permissionEvaluator == None
      ensures GetUsername() == "" && GetGroups() == [] && IsAdmin() && GlobPatterns() == None
    {
      authnInfo, authzInfo, permissionEvaluator := None, None, None;
    }

    method SetUsername(username: string)
      modifies this`authnInfo
      ensures GetUsername() == username && GetGroups() == old(GetGroups())
    {
      authnInfo := Some(AuthnInfo(username, GetGroups()));
    }

    method AddGroups(groups: seq<string>)
      modifies this`authnInfo
      ensures GetUsername() == old(GetUsername()) && GetGroups() == old(GetGroups()) + groups
    {
      authnInfo := Some(AuthnInfo(GetUsername(), GetGroups() + groups));
    }

    function GetUsername(): string
      reads this
    {
      if authnInfo.Some? then authnInfo.value.username else ""
    }

    function GetGroups(): seq<string>
      reads this
    {
      if authnInfo.Some? then authnInfo.value.groups else []
    }

    /** Without authorization everybody is admin. */
    predicate IsAdmin()
      reads this
    {
      authzInfo.None? || authzInfo.value.isAdmin
    }

    function GlobPatterns(): Option<map<Action, map<string, bool>>>
      reads this
    {
      if authzInfo.Some? then authzInfo.value.globPatterns else None
    }

    method SetIsAdmin(isAdmin: bool)
      modifies this`authzInfo
      ensures authzInfo.Some? && IsAdmin() == isAdmin && GlobPatterns() == old(GlobPatterns())
      ensures authzInfo.value.isAdmin == isAdmin
    {
      authzInfo := Some(AuthzInfo(isAdmin, GlobPatterns()));
    }

    /** A table set on a value that has none makes the user an admin no longer. */
    method SetGlobPatterns(action: Action, patterns: map<string, bool>)
      modifies this`authzInfo
      ensures authzInfo.Some? && IsAdmin() == (old(authzInfo).Some? && old(IsAdmin()))
      ensures GlobPatterns() == Some(TablesOf(old(GlobPatterns()))[action := patterns])
    {
      var isAdmin := authzInfo.Some? && authzInfo.value.isAdmin;
      authzInfo := Some(AuthzInfo(isAdmin, Some(TablesOf(GlobPatterns())[action := patterns])));
    }

    method SetPermissionEvaluator(config: Config)
      modifies this`permissionEvaluator
      ensures permissionEvaluator == Some(config)
    {
      permissionEvaluator := Some(config);
    }

    ghost predicate Decides(w: World, action: Action, repository: string, ok: bool)
      reads this
    {
      if authzInfo.None? || authzInfo.value.isAdmin || authzInfo.value.globPatterns.None? then
        ok == (action == Read || action == Create || action == Update || action == Delete)
      else
        var tables := authzInfo.value.globPatterns.value;
        var table := if action in tables then tables[action] else map[];
        exists p :: IsLongest(w, table.Keys, repository, p) && ok == (p in table && table[p])
    }

    method Can(w: World, action: Action, repository: string) returns (ok: bool)
      ensures Decides(w, action, repository, ok)
    {
      var defaultRet := false;
      if action in BEHAVIOUR_ACTIONS {
        defaultRet := false;
      } else if action in METHOD_ACTIONS {
        defaultRet := true;
      }
      if IsAdmin() || GlobPatterns().None? {
        return defaultRet;
      }
      var table := TableOf(GlobPatterns().value, action);
      var longest := LongestMatch(w, table.Keys, repository);
      ok := TableGrants(table, longest);
    }

    function RequestFor(action: Action, repository: string, reference: string): Request
      reads this
    {
      Request(GetUsername(), GetGroups(), IsAdmin(), action, repository, reference)
    }

    ghost predicate DecidesOnResource(w: World, action: Action, repository: string, reference: string, ok: bool)
      reads this
    {
      match permissionEvaluator
      case None => Decides(w, action, repository, ok)
      case Some(config) =>
        exists p, reason ::
          Decision(w, config, Request(GetUsername(), GetGroups(), IsAdmin(), action, repository, reference), p, ok,
                   reason)
    }

    method CanOnResource(w: World, action: Action, repository: string, reference: string) returns (ok: bool)
      ensures DecidesOnResource(w, action, repository, reference, ok)
    {
      if permissionEvaluator.Some? {
        var reason;
        ok, reason := AccessControl.Can(w, permissionEvaluator.value, RequestFor(action, repository, reference));
      } else {
        ok := Can(w, action, repository);
      }
    }

    /** The admin flag and the tables of these actions are the ones that config gives this user. */
    ghost predicate PreparedFor(config: Config, actions: set<Action>)
      reads this
    {
      && authzInfo.Some?
      && (IsAdmin() <==>
            GetUsername() in config.adminPolicy.users || exists g | g in GetGroups() :: g in config.adminPolicy.groups)
      && forall action | action in actions ::
           && GlobPatterns().Some?
           && action in GlobPatterns().value
           && GlobPatterns().value[action] ==
             Table(config, Request(GetUsername(), GetGroups(), IsAdmin(), action, "", ""))
    }

    ghost predicate Prepared(config: Config)
      reads this
    {
      GlobPatterns().Some? && PreparedFor(config, ACTIONS)
    }
  }

  function TablesOf(globPatterns: Option<map<Action, map<string, bool>>>): map<Action, map<string, bool>> {
    if globPatterns.Some? then globPatterns.value else map[]
  }

  function TableOf(globPatterns: map<Action, map<string, bool>>, action: Action): map<string, bool> {
    if action in globPatterns then globPatterns[action] else map[]
  }

  predicate TableGrants(table: map<string, bool>, p: string) {
    p in table && table[p]
  }

  predicate DefaultRet(action: Action) {
    action in METHOD_ACTIONS
  }

  // ----- the tables

  /** A policy group lists a user for an action when it would grant it with every condition holding. */
  predicate Listed(req: Request, group: PolicyGroup) {
    || (exists p | p in group.policies :: NamesUser(p, req) || NamesGroup(p, req))
    || (req.action in group.defaultPolicy && req.username != "")
    || (req.action in group.anonymousPolicy && req.username == "")
  }

  function Table(config: Config, req: Request): (table: map<string, bool>)
    ensures table.Keys == config.repositories.Keys
  {
    map p | p in config.repositories :: Listed(req, config.repositories[p])
  }

  /** What a prepared user has: for each of the five actions the table of config. */
  lemma PreparedMeaning(userAc: UserAccessControl, config: Config, action: Action)
    requires userAc.Prepared(config) && !action.Custom?
    ensures userAc.authzInfo.Some? && userAc.authzInfo.value.globPatterns.Some?
    ensures var tables := userAc.authzInfo.value.globPatterns.value;
      action in tables &&
      tables[action] ==
        Table(config, Request(userAc.GetUsername(), userAc.GetGroups(), userAc.IsAdmin(), action, "", ""))
  {
    assert action in ACTIONS;
  }

  /** The table has every pattern, and says whether its group lists the user and the action, or has the action for
      everybody with a name, or without. */
  lemma TableMeaning(config: Config, req: Request)
    ensures Table(config, req).Keys == config.repositories.Keys
    ensures forall p | p in config.repositories ::
      var group := config.repositories[p];
      Table(config, req)[p] <==>
      || (exists policy | policy in group.policies :: Lists(policy, req))
      || (req.username != "" && req.action in group.defaultPolicy)
      || (req.username == "" && req.action in group.anonymousPolicy)
  {
    forall p, policy | p in config.repositories && policy in config.repositories[p].policies
      ensures Lists(policy, req) <==> NamesUser(policy, req) || NamesGroup(policy, req)
    {
    }
  }

  method GetGlobPatterns(config: Config, req: Request) returns (globPatterns: map<string, bool>)
    ensures globPatterns == Table(config, req)
  {
    globPatterns := map[];
    var rest := config.repositories.Keys;
    while rest != {}
      invariant rest <= config.repositories.Keys
      invariant globPatterns.Keys == config.repositories.Keys - rest
      invariant forall p | p in globPatterns :: globPatterns[p] == Listed(req, config.repositories[p])
      decreases rest
    {
      var pattern :| pattern in rest;
      rest := rest - {pattern};
      var listed := ListedBy(req, config.repositories[pattern]);
      globPatterns := globPatterns[pattern := listed];
    }
  }

  method ListedBy(req: Request, group: PolicyGroup) returns (listed: bool)
    ensures listed <==> Listed(req, group)
  {
    listed := false;
    if req.username == "" {
      listed := req.action in group.anonymousPolicy;
    } else {
      listed := req.action in group.defaultPolicy;
    }
    ghost var plain := listed;
    for i := 0 to |group.policies|
      invariant listed <==> plain || exists k | 0 <= k < i :: NamesUser(group.policies[k], req)
    {
      if NamesUser(group.policies[i], req) {
        listed := true;
      }
    }
    ghost var byUser := listed;
    for g := 0 to |req.groups|
      invariant listed <==> byUser || exists p | p in group.policies :: NamesOneOf(p, req, req.groups[..g])
    {
      ghost var before := listed;
      for i := 0 to |group.policies|
        invariant listed <==> before || exists k | 0 <= k < i :: InGroup(group.policies[k], req, req.groups[g])
      {
        if InGroup(group.policies[i], req, req.groups[g]) {
          listed := true;
        }
      }
      assert req.groups[..g + 1] == req.groups[..g] + [req.groups[g]];
      forall p | p in group.policies
        ensures NamesOneOf(p, req, req.groups[..g + 1]) <==>
          NamesOneOf(p, req, req.groups[..g]) || InGroup(p, req, req.groups[g])
      {
      }
      assert forall p | p in group.policies :: exists k | 0 <= k < |group.policies| :: group.policies[k] == p;
    }
    assert req.groups[..|req.groups|] == req.groups;
    assert forall p | p in group.policies :: NamesOneOf(p, req, req.groups) <==> NamesGroup(p, req);
  }

  predicate InGroup(policy: Policy, req: Request, group: string) {
    group in policy.groups && req.action in policy.actions
  }

  predicate NamesOneOf(policy: Policy, req: Request, groups: seq<string>) {
    exists g | g in groups :: InGroup(policy, req, g)
  }

  ghost predicate SameOutside(before: map<Action, map<string, bool>>, after: map<Action, map<string, bool>>,
                              actions: set<Action>) {
    forall a | a !in actions :: (a in before <==> a in after) && TableOf(before, a) == TableOf(after, a)
  }

  method UpdateTable(config: Config, userAc: UserAccessControl, action: Action,
                     ghost before: map<Action, map<string, bool>>, ghost done: set<Action>)
    requires userAc.PreparedFor(config, done) && SameOutside(before, TablesOf(userAc.GlobPatterns()), done)
    modifies userAc`authzInfo
    ensures userAc.PreparedFor(config, done + {action}) && userAc.GlobPatterns().Some?
    ensures SameOutside(before, TablesOf(userAc.GlobPatterns()), done + {action})
  {
    hide Table, IsAdminUser;
    var table := GetGlobPatterns(config, userAc.RequestFor(action, "", ""));
    userAc.SetGlobPatterns(action, table);
  }

  lemma SameWithin(tables: map<Action, map<string, bool>>)
    ensures SameOutside(tables, tables, {})
  {
  }

  lemma AllFive()
    ensures {} + {Read} + {Create} + {Update} + {Delete} + {DetectManifestCollision} == ACTIONS
  {
  }

  lemma AllPrepared(userAc: UserAccessControl, config: Config)
    requires userAc.GlobPatterns().Some? && userAc.PreparedFor(config, ACTIONS)
    ensures userAc.Prepared(config)
  {
  }

  method UpdateAdmin(config: Config, userAc: UserAccessControl)
    modifies userAc`authzInfo
    ensures userAc.PreparedFor(config, {}) && userAc.GlobPatterns() == old(userAc.GlobPatterns())
  {
    var isAdmin := IsAdminUser(config, userAc.GetUsername(), userAc.GetGroups());
    userAc.SetIsAdmin(isAdmin);
  }

  method UpdateUserAccessControl(config: Config, userAc: UserAccessControl)
    modifies userAc`authzInfo
    ensures userAc.Prepared(config)
    ensures SameOutside(TablesOf(old(userAc.GlobPatterns())), TablesOf(userAc.GlobPatterns()), ACTIONS)
  {
    hide *;
    UpdateAdmin(config, userAc);
    SameWithin(TablesOf(userAc.GlobPatterns()));
    AllFive();
    ghost var before, done: set<Action> := TablesOf(userAc.GlobPatterns()), {};
    UpdateTable(config, userAc, Read, before, done);
    done := done + {Read};
    UpdateTable(config, userAc, Create, before, done);
    done := done + {Create};
    UpdateTable(config, userAc, Update, before, done);
    done := done + {Update};
    UpdateTable(config, userAc, Delete, before, done);
    done := done + {Delete};
    UpdateTable(config, userAc, DetectManifestCollision, before, done);
    done := done + {DetectManifestCollision};
    AllPrepared(userAc, config);
  }

  // ----- the tables against the decision per request

  /** What the table says when p is the longest matching pattern. */
  predicate Shown(config: Config, req: Request, p: string) {
    if IsAdminUser(config, req.username, req.groups) then DefaultRet(req.action) else TableGrants(Table(config, req), p)
  }

  function Permissive(w: World): World {
    w.(evaluate := (e, r) => Holds)
  }

  /** What is permitted is listed, and what is listed is permitted once every condition holds. */
  lemma ListedIsPermittedWithoutConditions(w: World, req: Request, group: PolicyGroup)
    ensures Permitted(w, req, group) ==> Listed(req, group)
    ensures Listed(req, group) <==> Permitted(Permissive(w), req, group)
  {
    forall p | p in group.policies ensures ConditionsHold(Permissive(w), p, req) {
    }
  }

  /** For a user who is not an admin the table is exact for a registry whose conditions all hold. */
  lemma TableIsPermissiveDecision(w: World, config: Config, req: Request, p: string)
    requires !IsAdminUser(config, req.username, req.groups)
    ensures Shown(config, req, p) <==> Granted(Permissive(w), config, req, p)
  {
    if p in config.repositories {
      ListedIsPermittedWithoutConditions(w, req, config.repositories[p]);
    }
  }

  lemma GrantedIsShown(w: World, config: Config, req: Request, p: string)
    requires req.action in METHOD_ACTIONS && Granted(w, config, req, p)
    ensures Shown(config, req, p)
  {
    if p in config.repositories {
      ListedIsPermittedWithoutConditions(w, req, config.repositories[p]);
    }
  }

  ghost predicate Unconditional(config: Config) {
    forall q, policy | q in config.repositories && policy in config.repositories[q].policies :: policy.conditions == []
  }

  /** Policies without conditions: the table decides as the request will, for who is not an admin. */
  lemma UnconditionalTableIsExact(w: World, config: Config, req: Request, p: string)
    requires Unconditional(config) && !IsAdminUser(config, req.username, req.groups)
    ensures Shown(config, req, p) <==> Granted(w, config, req, p)
  {
    if p in config.repositories {
      forall policy | policy in config.repositories[p].policies ensures ConditionsHold(w, policy, req) {
        assert policy.conditions == [];
      }
    }
  }

  ghost predicate LongestIn(w: World, config: Config, req: Request, p: string) {
    IsLongest(w, config.repositories.Keys, req.repository, p)
  }

  /** However conditions evaluate and whichever of several longest patterns each side picks, what is granted is
      shown. */
  ghost predicate NeverUnderLists(w: World, config: Config, req: Request) {
    forall evaluate: (string, Request) -> Verdict, p, q
      | LongestIn(w, config, req, p) && LongestIn(w, config, req, q) &&
        Granted(w.(evaluate := evaluate), config, req, p)
      :: Shown(config, req, q)
  }

  /** The patterns that tie for the longest agree on whether they list the user. */
  ghost predicate TiesAgree(w: World, config: Config, req: Request) {
    forall p, q | LongestIn(w, config, req, p) && LongestIn(w, config, req, q) ::
      Shown(config, req, p) == Shown(config, req, q)
  }

  /** For the four method actions, hiding a repository that the user may use takes two longest
      matching patterns of which only one lists the user, and then it can happen. */
  lemma NeverUnderListsIffTiesAgree(w: World, config: Config, req: Request)
    requires req.action in METHOD_ACTIONS
    ensures NeverUnderLists(w, config, req) <==> TiesAgree(w, config, req)
  {
    if TiesAgree(w, config, req) {
      forall evaluate: (string, Request) -> Verdict, p, q
        | LongestIn(w, config, req, p) && LongestIn(w, config, req, q) &&
          Granted(w.(evaluate := evaluate), config, req, p)
        ensures Shown(config, req, q)
      {
        GrantedIsShown(w.(evaluate := evaluate), config, req, p);
      }
    }
    if NeverUnderLists(w, config, req) && !IsAdminUser(config, req.username, req.groups) {
      forall p, q | LongestIn(w, config, req, p) && LongestIn(w, config, req, q) && Shown(config, req, p)
        ensures Shown(config, req, q)
      {
        TableIsPermissiveDecision(w, config, req, p);
        var everything: (string, Request) -> Verdict := Permissive(w).evaluate;
        assert Granted(w.(evaluate := everything), config, req, p);
      }
    }
  }

  /** A unique longest pattern: what the enforcing decision grants, the prepared user is shown. */
  lemma CatalogNeverUnderLists(w: World, config: Config, userAc: UserAccessControl, action: Action,
                               repository: string, reference: string, shown: bool)
    requires userAc.Prepared(config) && userAc.permissionEvaluator == Some(config)
    requires action in METHOD_ACTIONS && UniqueLongest(w, config.repositories.Keys, repository)
    requires userAc.DecidesOnResource(w, action, repository, reference, true)
    requires userAc.Decides(w, action, repository, shown)
    ensures shown
  {
    hide Table, Granted, Listed;
    var req := userAc.RequestFor(action, repository, reference);
    var p, reason :| Decision(w, config, req, p, true, reason);
    GrantedIsShown(w, config, req, p);
    TableIgnoresResource(config, userAc.RequestFor(action, "", ""), req);
  }

  /** At the time the tables are built neither the repository nor the reference is known. */
  lemma TableIgnoresResource(config: Config, r: Request, s: Request)
    requires r.username == s.username && r.groups == s.groups && r.action == s.action
    ensures Table(config, r) == Table(config, s)
  {
    forall policy: Policy
      ensures NamesUser(policy, r) == NamesUser(policy, s) && NamesGroup(policy, r) == NamesGroup(policy, s)
    {
    }
  }

  /** Two patterns of the same length match; the request may be decided by the one that grants and
      the catalog by the one that does not list. */
  lemma TieCanUnderList(w: World)
    requires w.glob("a*", "ab") == Matched && w.glob("*b", "ab") == Matched
    ensures exists config: Config, req: Request, p: string, q: string ::
              Hides(w, config, req, p, q)
  {
    var open := PolicyGroup([], [Read], []);
    var closed := PolicyGroup([], [], []);
    var config := Config(map["a*" := open, "*b" := closed], Policy([], [], [], []));
    var req := Request("alice", [], false, Read, "ab", "latest");
    assert Read in METHOD_ACTIONS;
    assert Hides(w, config, req, "a*", "*b");
  }

  ghost predicate Hides(w: World, config: Config, req: Request, p: string, q: string) {
    && req.action in METHOD_ACTIONS && LongestIn(w, config, req, p) && LongestIn(w, config, req, q)
    && Granted(w, config, req, p) && !Shown(config, req, q)
  }
}
