/**
 A manifest push: the checks that authorization demands, and the tags that the handler behind it
 then writes.
 */
module ManifestWrite {
  import opened AccessControl
  import opened GoText
  import opened QueryTags

  const MAX_MANIFEST_DIGEST_QUERY_TAGS: nat := (8192 - 2048) / (|"tag="| + TAG_MAX_LEN + 1)

  /** A permission that the push needs, on a tag or on the digest. */
  datatype Check = Check(action: Action, reference: string)

  /** The outcome of listing the repository's tags for authorization. */
  datatype Listing = Found(tags: seq<string>) | RepoNotFound | StoreFailed

  function Checks(action: Action, tags: seq<string>): (checks: seq<Check>)
    ensures |checks| == |tags| && forall k | 0 <= k < |tags| :: checks[k] == Check(action, tags[k])
  {
    seq(|tags|, k requires 0 <= k < |tags| => Check(action, tags[k]))
  }

  function ValidTags(rawTagQuery: seq<string>): seq<string> {
    Dedup(Filter(Cleaned(rawTagQuery), IsDistributionSpecTag))
  }

  /** Which checks a push needs. The digest itself needs create when there is a new tag or no tag
      at all, update when there is an existing one. */
  predicate Needed(isDigest: string -> bool, repoTags: seq<string>, reference: string, rawTagQuery: seq<string>,
                   c: Check) {
    if !isDigest(reference) then
      c == Check(if reference in repoTags then Update else Create, reference)
    else
      var tags := ValidTags(rawTagQuery);
      || (c.reference in tags && c.action == if c.reference in repoTags then Update else Create)
      || (c == Check(Create, reference) && (tags == [] || exists t | t in tags :: t !in repoTags))
      || (c == Check(Update, reference) && exists t | t in tags :: t in repoTags)
  }

  method ManifestWriteAuthzChecks(isDigest: string -> bool, repoTags: seq<string>, reference: string,
                                  rawTagQuery: seq<string>)
    returns (checks: seq<Check>)
    ensures forall c :: c in checks <==> Needed(isDigest, repoTags, reference, rawTagQuery, c)
  {
    if !isDigest(reference) {
      var action := Create;
      if reference in repoTags {
        action := Update;
      }
      return [Check(action, reference)];
    }
    var existing, newTags := ClassifyDigestQueryTags(repoTags, rawTagQuery);
    ClassElements(repoTags, rawTagQuery, existing, newTags);
    hide *;
    checks := AppendChecks([], Update, existing);
    checks := AppendChecks(checks, Create, newTags);
    if |newTags| > 0 || |existing| == 0 {
      checks := checks + [Check(Create, reference)];
    }
    if |existing| > 0 {
      checks := checks + [Check(Update, reference)];
    }
    forall c: Check ensures c in checks <==> Needed(isDigest, repoTags, reference, rawTagQuery, c) {
      NeededByClass(isDigest, repoTags, reference, rawTagQuery, existing, newTags, c);
    }
  }

  method AppendChecks(earlier: seq<Check>, action: Action, tags: seq<string>) returns (checks: seq<Check>)
    ensures |checks| == |earlier| + |tags| && checks[..|earlier|] == earlier
    ensures forall k | 0 <= k < |tags| :: checks[|earlier| + k] == Check(action, tags[k])
    ensures forall c :: c in checks <==> c in earlier || (c.action == action && c.reference in tags)
  {
    checks := earlier;
    for k := 0 to |tags|
      invariant checks == earlier + Checks(action, tags[..k])
    {
      checks := checks + [Check(action, tags[k])];
    }
    assert tags[..|tags|] == tags;
    ChecksElements(action, tags);
  }

  lemma ChecksElements(action: Action, tags: seq<string>)
    ensures forall c :: c in Checks(action, tags) <==> c.action == action && c.reference in tags
  {
    forall c: Check | c.action == action && c.reference in tags ensures c in Checks(action, tags) {
      var k :| 0 <= k < |tags| && tags[k] == c.reference;
      assert Checks(action, tags)[k] == c;
    }
  }

  ghost predicate Classes(repoTags: seq<string>, rawTagQuery: seq<string>, existing: seq<string>,
                          newTags: seq<string>) {
    && (forall t :: t in existing <==> t in ValidTags(rawTagQuery) && t in repoTags)
    && (forall t :: t in newTags <==> t in ValidTags(rawTagQuery) && t !in repoTags)
  }

  lemma ClassElements(repoTags: seq<string>, rawTagQuery: seq<string>, existing: seq<string>, newTags: seq<string>)
    requires existing == Dedup(Filter(Filter(Cleaned(rawTagQuery), IsDistributionSpecTag), t => t in repoTags))
    requires newTags == Dedup(Filter(Filter(Cleaned(rawTagQuery), IsDistributionSpecTag), t => t !in repoTags))
    ensures Classes(repoTags, rawTagQuery, existing, newTags)
  {
    hide IsDistributionSpecTag, Dedup, Filter;
    var valid := Filter(Cleaned(rawTagQuery), IsDistributionSpecTag);
    var isOld, isNew := t => t in repoTags, t => t !in repoTags;
    DedupElements(valid);
    DedupElements(Filter(valid, isOld));
    DedupElements(Filter(valid, isNew));
    FilterElements(valid, isOld);
    FilterElements(valid, isNew);
  }

  lemma NeededByClass(isDigest: string -> bool, repoTags: seq<string>, reference: string, rawTagQuery: seq<string>,
                      existing: seq<string>, newTags: seq<string>, c: Check)
    requires isDigest(reference) && Classes(repoTags, rawTagQuery, existing, newTags)
    ensures Needed(isDigest, repoTags, reference, rawTagQuery, c) <==>
            || (c.action == Update && c.reference in existing)
            || (c.action == Create && c.reference in newTags)
            || (c == Check(Create, reference) && (|newTags| > 0 || |existing| == 0))
            || (c == Check(Update, reference) && |existing| > 0)
  {
    hide ValidTags;
    var tags := ValidTags(rawTagQuery);
    if tags != [] {
      assert tags[0] in existing || tags[0] in newTags;
    }
    if |existing| > 0 {
      assert existing[0] in existing;
    }
    if |newTags| > 0 {
      assert newTags[0] in newTags;
    }
  }

  // ----- the middleware

  function ReferenceRequest(req: Request, c: Check): Request {
    req.(action := c.action, reference := c.reference)
  }

  /** The decision per request can grant this check, and can deny it with this reason. */
  ghost predicate Grantable(w: World, config: Config, req: Request, c: Check) {
    exists p, reason :: Decision(w, config, ReferenceRequest(req, c), p, true, reason)
  }

  ghost predicate Deniable(w: World, config: Config, req: Request, c: Check, reason: string) {
    exists p :: Decision(w, config, ReferenceRequest(req, c), p, false, reason)
  }

  /** The user of the request may do this to this reference of its repository. */
  ghost predicate MayDo(w: World, config: Config, req: Request, action: Action, reference: string) {
    exists p, reason ::
      Decision(
        w, config, Request(req.username, req.groups, req.admin, action, req.repository, reference), p, true, reason)
  }

  lemma GrantableMeaning(w: World, config: Config, req: Request, c: Check)
    ensures Grantable(w, config, req, c) <==> MayDo(w, config, req, c.action, c.reference)
  {
    assert ReferenceRequest(req, c) ==
      Request(req.username, req.groups, req.admin, c.action, req.repository, c.reference);
  }

  /** What no list has, nobody may do. */
  lemma UnlistedMayNotBeDone(w: World, config: Config, req: Request, action: Action, reference: string)
    requires Unlisted(config, action)
    ensures !MayDo(w, config, req, action, reference)
  {
    hide Granted, Unlisted;
    forall p
      ensures !Granted(w, config, Request(req.username, req.groups, req.admin, action, req.repository, reference), p)
    {
      UnlistedIsNeverGranted(
        w, config, Request(req.username, req.groups, req.admin, action, req.repository, reference), p);
    }
  }

  method AuthorizeManifestWrite(w: World, config: Config, isDigest: string -> bool, req: Request, repoTags: seq<string>,
                                rawTagQuery: seq<string>)
    returns (reason: string, allowed: bool)
    ensures allowed ==>
              forall c | Needed(isDigest, repoTags, req.reference, rawTagQuery, c) :: Grantable(w, config, req, c)
    ensures !allowed ==>
              exists c ::
                Needed(isDigest, repoTags, req.reference, rawTagQuery, c) && Deniable(w, config, req, c, reason)
  {
    hide Needed, Decision;
    var checks := ManifestWriteAuthzChecks(isDigest, repoTags, req.reference, rawTagQuery);
    for k := 0 to |checks|
      invariant forall i | 0 <= i < k :: Grantable(w, config, req, checks[i])
    {
      assert checks[k] in checks;
      var can, denied := Can(w, config, ReferenceRequest(req, checks[k]));
      if !can {
        assert Deniable(w, config, req, checks[k], denied);
        return denied, false;
      }
    }
    return "", true;
  }

  // ----- the handler

  datatype Handled = TooManyTags | BadTag | TagsNeedDigest | Writes(tags: seq<string>)

  predicate Accepts(isDigest: string -> bool, reference: string, rawTagQuery: seq<string>) {
    && |rawTagQuery| <= MAX_MANIFEST_DIGEST_QUERY_TAGS
    && (forall t | t in Cleaned(rawTagQuery) :: IsDistributionSpecTag(t))
    && (rawTagQuery == [] || isDigest(reference))
  }

  /** The tags that a push names: the one in its path, or those of the query next to a digest. */
  function NamedTags(isDigest: string -> bool, reference: string, rawTagQuery: seq<string>): seq<string> {
    if isDigest(reference) then Dedup(Cleaned(rawTagQuery)) else [reference]
  }

  method UpdateManifestTags(isDigest: string -> bool, reference: string, rawTagQuery: seq<string>) returns (r: Handled)
    ensures r.Writes? <==> Accepts(isDigest, reference, rawTagQuery)
    ensures r == TooManyTags <==> |rawTagQuery| > 46
    ensures r == BadTag <==> |rawTagQuery| <= 46 && exists t | t in Cleaned(rawTagQuery) :: !IsDistributionSpecTag(t)
    ensures r.Writes? ==> r.tags == NamedTags(isDigest, reference, rawTagQuery)
  {
    hide IsDistributionSpecTag, Dedup;
    var digestQueryTags := [];
    NothingToDedup();
    DedupElements(Cleaned(rawTagQuery));
    if |rawTagQuery| > 0 {
      assert Cleaned(rawTagQuery)[0] in Cleaned(rawTagQuery);
      if |rawTagQuery| > MAX_MANIFEST_DIGEST_QUERY_TAGS {
        return TooManyTags;
      }
      var normalized := NormalizeManifestExtraTags(rawTagQuery);
      if !normalized.Tags? {
        return BadTag;
      }
      digestQueryTags := normalized.tags;
    }
    if |digestQueryTags| > 0 && !isDigest(reference) {
      return TagsNeedDigest;
    }
    r := Writes(if isDigest(reference) then digestQueryTags else [reference]);
  }

  // ----- the whole push

  datatype PushOutcome = ServerError | Denied(reason: string) | Refused(handled: Handled) | Pushed(tags: seq<string>)

  function TagsForAuthz(listing: Listing): seq<string> {
    if listing.Found? then listing.tags else []
  }

  /** Writing the tag t is a right of the user: update when the repository has the tag, create when not. */
  ghost predicate MayWrite(w: World, config: Config, req: Request, repoTags: seq<string>, t: string) {
    Grantable(w, config, req, Check(if t in repoTags then Update else Create, t))
  }

  ghost predicate DigestMayBeWritten(w: World, config: Config, req: Request, repoTags: seq<string>, tags: seq<string>) {
    && (tags == [] || (exists t | t in tags :: t !in repoTags) ==>
          Grantable(w, config, req, Check(Create, req.reference)))
    && ((exists t | t in tags :: t in repoTags) ==> Grantable(w, config, req, Check(Update, req.reference)))
  }

  /** For a push that the handler accepts, all the checks together say just that every tag it will
      write may be written, and the digest too. */
  lemma EveryWrittenTagAuthorized(w: World, config: Config, isDigest: string -> bool, req: Request,
                                  repoTags: seq<string>, rawTagQuery: seq<string>)
    requires Accepts(isDigest, req.reference, rawTagQuery)
    ensures Distinct(NamedTags(isDigest, req.reference, rawTagQuery))
    ensures
      var tags := NamedTags(isDigest, req.reference, rawTagQuery);
      (forall c | Needed(isDigest, repoTags, req.reference, rawTagQuery, c) :: Grantable(w, config, req, c)) <==>
      (forall t | t in tags :: MayWrite(w, config, req, repoTags, t)) &&
      (isDigest(req.reference) ==> DigestMayBeWritten(w, config, req, repoTags, tags))
  {
    hide IsDistributionSpecTag, Dedup, Grantable;
    var tags := NamedTags(isDigest, req.reference, rawTagQuery);
    if isDigest(req.reference) {
      FilterAll(Cleaned(rawTagQuery), IsDistributionSpecTag);
      DedupElements(Cleaned(rawTagQuery));
      assert tags == ValidTags(rawTagQuery);
    }
    if forall c | Needed(isDigest, repoTags, req.reference, rawTagQuery, c) :: Grantable(w, config, req, c) {
      forall t | t in tags ensures MayWrite(w, config, req, repoTags, t) {
        var action := if t in repoTags then Update else Create;
        assert Needed(isDigest, repoTags, req.reference, rawTagQuery, Check(action, t));
      }
      if isDigest(req.reference) {
        assert tags == [] || (exists t | t in tags :: t !in repoTags) ==>
            Needed(isDigest, repoTags, req.reference, rawTagQuery, Check(Create, req.reference));
        assert (exists t | t in tags :: t in repoTags) ==>
            Needed(isDigest, repoTags, req.reference, rawTagQuery, Check(Update, req.reference));
      }
    }
    if (forall t | t in tags :: MayWrite(w, config, req, repoTags, t)) &&
       (isDigest(req.reference) ==> DigestMayBeWritten(w, config, req, repoTags, tags))
    {
      forall c | Needed(isDigest, repoTags, req.reference, rawTagQuery, c) ensures Grantable(w, config, req, c) {
        assert c.reference in tags ==> MayWrite(w, config, req, repoTags, c.reference);
      }
    }
  }

  /** A push to a tag writes that tag; a push to a digest the values of the query without white space at
      their ends, each once. */
  ghost predicate NamesItsTags(isDigest: string -> bool, reference: string, rawTagQuery: seq<string>,
                               tags: seq<string>) {
    if !isDigest(reference) then tags == [reference]
    else
      && (forall i, j | 0 <= i < j < |tags| :: tags[i] != tags[j])
      && forall t :: t in tags <==> exists i | 0 <= i < |rawTagQuery| :: TrimSpace(rawTagQuery[i]) == t
  }

  /** Every tag written may be updated by name if the repository has it and created by name if not; a digest may
      be created when one of its tags is new or it has none, and updated when one of them is not new. */
  ghost predicate RightsByName(w: World, config: Config, isDigest: string -> bool, req: Request, repoTags: seq<string>,
                               tags: seq<string>) {
    && (forall t | t in tags && t in repoTags :: MayDo(w, config, req, Update, t))
    && (forall t | t in tags && t !in repoTags :: MayDo(w, config, req, Create, t))
    && (isDigest(req.reference) && (tags == [] || exists t | t in tags :: t !in repoTags) ==>
          MayDo(w, config, req, Create, req.reference))
    && (isDigest(req.reference) && (exists t | t in tags :: t in repoTags) ==>
      MayDo(w, config, req, Update, req.reference))
  }

  lemma TagsMeaning(listing: Listing)
    ensures TagsForAuthz(listing) == if listing.Found? then listing.tags else []
  {
  }

  lemma NamedMeaning(isDigest: string -> bool, reference: string, rawTagQuery: seq<string>)
    ensures NamesItsTags(isDigest, reference, rawTagQuery, NamedTags(isDigest, reference, rawTagQuery))
  {
    hide Dedup, TrimSpace;
    if isDigest(reference) {
      DedupElements(Cleaned(rawTagQuery));
      forall i | 0 <= i < |rawTagQuery| ensures Cleaned(rawTagQuery)[i] == TrimSpace(rawTagQuery[i]) {
        CleanedAt(rawTagQuery, i);
      }
    }
  }

  lemma WrittenMeaning(w: World, config: Config, isDigest: string -> bool, req: Request, repoTags: seq<string>,
                       rawTagQuery: seq<string>, tags: seq<string>)
    requires tags == NamedTags(isDigest, req.reference, rawTagQuery)
    requires forall t | t in tags :: MayWrite(w, config, req, repoTags, t)
    requires isDigest(req.reference) ==> DigestMayBeWritten(w, config, req, repoTags, tags)
    ensures NamesItsTags(isDigest, req.reference, rawTagQuery, tags)
    ensures RightsByName(w, config, isDigest, req, repoTags, tags)
    ensures Unlisted(config, Update) ==> forall t | t in tags :: t !in repoTags
    ensures Unlisted(config, Create) ==> forall t | t in tags :: t in repoTags
  {
    hide Grantable, NamedTags, NamesItsTags, MayDo, Unlisted;
    NamedMeaning(isDigest, req.reference, rawTagQuery);
    forall c: Check ensures Grantable(w, config, req, c) <==> MayDo(w, config, req, c.action, c.reference) {
      GrantableMeaning(w, config, req, c);
    }
    forall t | t in tags
      ensures t in repoTags ==> MayDo(w, config, req, Update, t) && !Unlisted(config, Update)
      ensures t !in repoTags ==> MayDo(w, config, req, Create, t) && !Unlisted(config, Create)
    {
      assert MayWrite(w, config, req, repoTags, t);
      var action := if t in repoTags then Update else Create;
      GrantableMeaning(w, config, req, Check(action, t));
      if Unlisted(config, action) {
        UnlistedMayNotBeDone(w, config, req, action, t);
      }
    }
    GrantableMeaning(w, config, req, Check(Create, req.reference));
    GrantableMeaning(w, config, req, Check(Update, req.reference));
  }

  /** The middleware and then the handler, on a push to req.reference. */
  method PushManifest(w: World, config: Config, isDigest: string -> bool, req: Request, listing: Listing,
                      rawTagQuery: seq<string>)
    returns (r: PushOutcome)
    ensures r.ServerError? <==> listing.StoreFailed?
    ensures r.Pushed? ==> r.tags == NamedTags(isDigest, req.reference, rawTagQuery) && Distinct(r.tags)
    ensures r.Pushed? ==> forall t | t in r.tags :: MayWrite(w, config, req, TagsForAuthz(listing), t)
    ensures r.Pushed? && isDigest(req.reference) ==> DigestMayBeWritten(w, config, req, TagsForAuthz(listing), r.tags)
    ensures r.Denied? ==>
              exists c | Needed(isDigest, TagsForAuthz(listing), req.reference, rawTagQuery, c) ::
                Deniable(w, config, req, c, r.reason)
    ensures r.Refused? ==> !Accepts(isDigest, req.reference, rawTagQuery)
    ensures r.Pushed? ==>
              NamesItsTags(isDigest, req.reference, rawTagQuery, r.tags) &&
              RightsByName(w, config, isDigest, req, if listing.Found? then listing.tags else [], r.tags)
    ensures r.Pushed? && Unlisted(config, Update) ==>
              forall t | t in r.tags :: t !in if listing.Found? then listing.tags else []
    ensures r.Pushed? && Unlisted(config, Create) ==>
              forall t | t in r.tags :: t in if listing.Found? then listing.tags else []
  {
    hide *;
    if listing.StoreFailed? {
      return ServerError;
    }
    var repoTags := TagsForAuthz(listing);
    var reason, allowed := AuthorizeManifestWrite(w, config, isDigest, req, repoTags, rawTagQuery);
    if !allowed {
      return Denied(reason);
    }
    var handled := UpdateManifestTags(isDigest, req.reference, rawTagQuery);
    if !handled.Writes? {
      return Refused(handled);
    }
    EveryWrittenTagAuthorized(w, config, isDigest, req, repoTags, rawTagQuery);
    assert repoTags == if listing.Found? then listing.tags else [] by {
      TagsMeaning(listing);
    }
    WrittenMeaning(w, config, isDigest, req, repoTags, rawTagQuery, handled.tags);
    r := Pushed(handled.tags);
  }
}
