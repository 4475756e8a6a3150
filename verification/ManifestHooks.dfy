/**
 The metadb hooks around manifest pushes: a push that adds several tags is a transaction over
 two stores, the image store's index and metadb, whose calls may fail one by one.

 The stores are modelled by the tags they map. A call that fails changes nothing. Which
 calls fail, and whether an empty repository layout is removed, is decided from outside.
 */
module ManifestHooks {
  import opened Optional

  type Tag = string
  type Digest = string

  /** What metadb records of a tag; the empty media type stands for an image manifest. */
  datatype Descriptor = Descriptor(digest: Digest, mediaType: string)

  /** What a manifest under a reference is to metadb: only images are recorded under their tag. */
  datatype Kind = Image | Signature | Referrers

  const MEDIA_TYPE_IMAGE_MANIFEST := "application/vnd.oci.image.manifest.v1+json"

  /** A call made for a tag, with its number among all calls. */
  datatype Call = Call(number: nat, tag: Tag, ok: bool)

  datatype DeleteResult = Deleted | ManifestNotFound | DeleteFailed

  /** The outside of one run: which calls fail, when an idle repository is removed, how
      manifests are classified and which digests parse. */
  datatype World = World(
    fails: nat -> bool, idle: nat -> bool, kind: (Tag, Digest) -> Kind, parses: Digest -> bool)

  /** The snapshot entry of a tag, if it has one. */
  function Prior(meta: map<Tag, Descriptor>, world: World, tag: Tag): Option<Descriptor> {
    if tag !in meta || meta[tag].digest == "" || !world.parses(meta[tag].digest) then None
    else Some(if meta[tag].mediaType == "" then meta[tag].(mediaType := MEDIA_TYPE_IMAGE_MANIFEST) else meta[tag])
  }

  /** The snapshot has the tags that metadb records under a digest that is there and parses, with that digest and their
      media type, an empty one standing for an image manifest. */
  lemma PriorMeaning(meta: map<Tag, Descriptor>, world: World, tag: Tag)
    ensures Prior(meta, world, tag).Some? <==>
            tag in meta && meta[tag].digest != "" && world.parses(meta[tag].digest)
    ensures Prior(meta, world, tag).Some? ==>
            && Prior(meta, world, tag).value.digest == meta[tag].digest
            && Prior(meta, world, tag).value.mediaType ==
               if meta[tag].mediaType == "" then "application/vnd.oci.image.manifest.v1+json" else meta[tag].mediaType
  {
  }

  class Registry {
    const world: World
    /** The image store's index, tag to digest. */
    var store: map<Tag, Digest>
    /** metadb's record of the same repository. */
    var meta: map<Tag, Descriptor>
    /** Number of calls made so far, and those that were made for a tag. */
    var calls: nat
    ghost var log: seq<Call>

    constructor (world: World, store: map<Tag, Digest>, meta: map<Tag, Descriptor>)
      ensures this.world == world && this.store == store && this.meta == meta && calls == 0 && log == []
    {
      this.world, this.store, this.meta, calls, log := world, store, meta, 0, [];
    }

    /** Every call made for the tag since `from` succeeded. */
    ghost predicate OkFor(tag: Tag, from: nat)
      reads this`log
    {
      forall i | from <= i < |log| && log[i].tag == tag :: log[i].ok
    }

    /** From n0 calls to n1, the log gained calls that were made, each once and with the answer of the world. */
    ghost predicate Extends(l0: seq<Call>, n0: nat, l1: seq<Call>, n1: nat) {
      && n0 <= n1 && l0 <= l1
      && (forall i | |l0| <= i < |l1| :: Answered(l1[i]) && n0 <= l1[i].number < n1)
      && (forall i, j | |l0| <= i < j < |l1| :: l1[i].number < l1[j].number)
    }

    predicate Answered(call: Call) {
      call.ok <==> !world.fails(call.number)
    }

    lemma ExtendsOn(l0: seq<Call>, n0: nat, l1: seq<Call>, n1: nat, l2: seq<Call>, n2: nat)
      requires Extends(l0, n0, l1, n1) && Extends(l1, n1, l2, n2)
      ensures Extends(l0, n0, l2, n2)
      ensures forall i | |l0| <= i < |l2| :: i < |l1| <==> l2[i].number < n1
    {
      hide Answered;
      forall i | |l0| <= i < |l2|
        ensures Answered(l2[i]) && n0 <= l2[i].number < n2 && (i < |l1| <==> l2[i].number < n1)
      {
        assert i < |l1| ==> l2[i] == l1[i];
      }
      forall i, j | |l0| <= i < j < |l2| ensures l2[i].number < l2[j].number {
        assert i < |l1| ==> l2[i] == l1[i];
        assert j < |l1| ==> l2[j] == l1[j];
      }
    }

    lemma NoCalls(l: seq<Call>, n: nat, n': nat)
      requires n <= n'
      ensures Extends(l, n, l, n')
    {
    }

    twostate predicate LogsCalls()
      reads this`log, this`calls
    {
      old(log) <= log && old(calls) <= calls && Extends(old(log), old(calls), log, calls)
    }

    /** All the calls logged since are for this tag. */
    twostate predicate Logged(tag: Tag)
      reads this`log, this`calls
    {
      LogsCalls() && forall i | |old(log)| <= i < |log| :: log[i].tag == tag
    }

    /** When no call failed, none that was logged did. */
    twostate lemma NoFailureLogged()
      requires LogsCalls()
      ensures (forall k | old(calls) <= k < calls :: !world.fails(k)) ==> forall t :: OkFor(t, |old(log)|)
    {
    }

    // ----- the stores' own operations

    method Attempt(tag: Tag) returns (ok: bool)
      modifies this`calls, this`log
      ensures OneCall(tag, ok)
    {
      ok := !world.fails(calls);
      log := log + [Call(calls, tag, ok)];
      calls := calls + 1;
    }

    /** Just one call was made, for the tag, with this outcome. */
    twostate predicate OneCall(tag: Tag, new ok: bool)
      reads this`log, this`calls
    {
      && log == old(log) + [Call(old(calls), tag, ok)]
      && calls == old(calls) + 1 && ok == !world.fails(old(calls))
    }

    twostate lemma OneCallLogged(tag: Tag, new ok: bool)
      requires OneCall(tag, ok)
      ensures Logged(tag)
    {
    }

    method DeleteImageManifest(tag: Tag) returns (r: DeleteResult)
      modifies this`calls, this`log, this`store
      ensures OneCall(tag, r != DeleteFailed)
      ensures store == if r == DeleteFailed then old(store) else old(store) - {tag}
      ensures r == ManifestNotFound ==> tag !in old(store)
    {
      var ok := Attempt(tag);
      if !ok {
        return DeleteFailed;
      }
      r := if tag in store then Deleted else ManifestNotFound;
      store := store - {tag};
    }

    method PutImageManifest(tag: Tag, digest: Digest) returns (ok: bool)
      modifies this`calls, this`log, this`store
      ensures OneCall(tag, ok)
      ensures store == if ok then old(store)[tag := digest] else old(store)
    {
      ok := Attempt(tag);
      if ok {
        store := store[tag := digest];
      }
    }

    /** Records the tag, unless the manifest is a signature, which metadb keeps elsewhere. */
    method SetImageMetaFromInput(tag: Tag, mediaType: string, digest: Digest) returns (ok: bool)
      modifies this`calls, this`log, this`meta
      ensures OneCall(tag, ok)
      ensures meta == if ok && world.kind(tag, digest) == Image then old(meta)[tag := Descriptor(digest, mediaType)]
                      else old(meta)
    {
      ok := Attempt(tag);
      if ok && world.kind(tag, digest) == Image {
        meta := meta[tag := Descriptor(digest, mediaType)];
      }
    }

    method RemoveRepoReference(tag: Tag) returns (ok: bool)
      modifies this`calls, this`log, this`meta
      ensures OneCall(tag, ok)
      ensures meta == if ok then old(meta) - {tag} else old(meta)
    {
      ok := Attempt(tag);
      if ok {
        meta := meta - {tag};
      }
    }

    /** Removes the layout of a repository left without tags, and then its metadb record; either
        may fail, and whether anything else keeps the layout is not visible here. */
    method ReleaseIdleRepository()
      modifies this`calls, this`meta
      ensures meta == old(meta) || (store == map[] && meta == map[])
      ensures calls >= old(calls)
    {
      var removed := store == map[] && world.idle(calls);
      calls := calls + 1;
      if removed {
        var metaGone := !world.fails(calls);
        calls := calls + 1;
        if metaGone {
          meta := map[];
        }
      }
    }

    // ----- the hooks

    /** How many calls the updates of these tags make when none fails. */
    function UpdateCalls(tags: seq<Tag>, digest: Digest): nat {
      if tags == [] then 0
      else
        var last := |tags| - 1;
        UpdateCalls(tags[..last], digest) + if world.kind(tags[last], digest) == Referrers then 0 else 1
    }

    lemma NothingToUpdate(digest: Digest)
      ensures UpdateCalls([], digest) == 0
    {
    }

    lemma UpdateCallsNext(tags: seq<Tag>, i: nat, digest: Digest)
      requires i < |tags|
      ensures UpdateCalls(tags[..i + 1], digest) == UpdateCalls(tags[..i], digest) + UpdateCalls([tags[i]], digest)
      ensures UpdateCalls([tags[i]], digest) <= 1
    {
      assert tags[..i + 1][..i] == tags[..i] && [tags[i]][..0] == [];
    }

    lemma {:induction false} UpdateCallsGrow(tags: seq<Tag>, i: nat, digest: Digest)
      requires i <= |tags|
      ensures UpdateCalls(tags[..i], digest) <= UpdateCalls(tags, digest)
      decreases |tags| - i
    {
      if i == |tags| {
        assert tags[..i] == tags;
      } else {
        UpdateCallsNext(tags, i, digest);
        UpdateCallsGrow(tags, i + 1, digest);
      }
    }

    /** When metadb does not take the manifest, its tag leaves the index again. */
    method OnUpdateManifest(tag: Tag, mediaType: string, digest: Digest) returns (ok: bool)
      modifies this`calls, this`log, this`store, this`meta
      ensures Logged(tag)
      ensures ok ==> store == old(store)
      ensures !ok ==> meta == old(meta) && (store == old(store) || store == old(store) - {tag})
      ensures meta == if ok && world.kind(tag, digest) == Image then old(meta)[tag := Descriptor(digest, mediaType)]
                      else old(meta)
      ensures OkFor(tag, |old(log)|) ==> ok
      ensures calls == old(calls) + (if !ok then 2 else UpdateCalls([tag], digest))
      ensures ok <==> UpdateCalls([tag], digest) == 0 || !world.fails(old(calls))
    {
      assert [tag][..0] == [];
      if world.kind(tag, digest) == Referrers {
        return true;
      }
      ok := SetImageMetaFromInput(tag, mediaType, digest);
      if !ok {
        var _ := DeleteImageManifest(tag);
        assert !log[|old(log)|].ok;
      }
    }

    /** The index has already lost the tag. Checking whether the manifest is a signature comes first;
        when metadb does not let go of the tag, the tag is put back into the index. */
    method OnDeleteManifest(tag: Tag, digest: Digest) returns (ok: bool)
      modifies this`calls, this`log, this`store, this`meta
      ensures Logged(tag)
      ensures forall t | t != tag :: t in store <==> t in old(store)
      ensures forall t | t != tag && t in store :: store[t] == old(store)[t]
      ensures forall t | t in meta :: t in old(meta) && meta[t] == old(meta)[t]
      ensures store != map[] ==> forall t | t != tag && t in old(meta) :: t in meta
      ensures OkFor(tag, |old(log)|) ==> store == old(store)
      ensures OkFor(tag, |old(log)|) && world.kind(tag, digest) == Image ==> tag !in meta
    {
      if world.kind(tag, digest) == Referrers {
        ReleaseIdleRepository();
        return true;
      }
      hide Extends;
      var release;
      ok, release := DropRecord(tag, digest);
      if release {
        ghost var l, n := log, calls;
        ReleaseIdleRepository();
        NoCalls(l, n, calls);
        ExtendsOn(old(log), old(calls), l, n, log, calls);
      }
    }

    /** What comes before the repository may be released. */
    method DropRecord(tag: Tag, digest: Digest) returns (ok: bool, release: bool)
      requires world.kind(tag, digest) != Referrers
      modifies this`calls, this`log, this`store, this`meta
      ensures Logged(tag)
      ensures store == old(store) || (store == old(store)[tag := digest] && !ok)
      ensures meta == old(meta) || (meta == old(meta) - {tag} && world.kind(tag, digest) == Image)
      ensures OkFor(tag, |old(log)|) ==> store == old(store) && release
      ensures OkFor(tag, |old(log)|) && world.kind(tag, digest) == Image ==> tag !in meta
    {
      ok := Attempt(tag);
      if !ok {
        assert !log[|old(log)|].ok;
        return false, false;
      }
      if world.kind(tag, digest) == Signature {
        ok := Attempt(tag);
        return ok, true;
      }
      ok := RemoveRepoReference(tag);
      if !ok {
        var _ := PutImageManifest(tag, digest);
        assert !log[|old(log)| + 1].ok;
      }
      release := ok;
    }

    // ----- rolling back

    /** Both stores agree with `goal` on the tag. */
    predicate Points(tag: Tag, goal: Option<Descriptor>)
      reads this`store, this`meta
    {
      match goal
      case None => tag !in store && tag !in meta
      case Some(d) => tag in store && store[tag] == d.digest && tag in meta && meta[tag] == d
    }

    /** The first phase: every tag of the push leaves the index, last one first. */
    method DeleteTags(tags: seq<Tag>)
      modifies this`calls, this`log, this`store
      ensures LogsCalls()
      ensures forall t | t in store :: t in old(store) && store[t] == old(store)[t]
      ensures forall t | t in old(store) && t !in tags :: t in store
      ensures forall t | t in tags && OkFor(t, |old(log)|) :: t !in store
    {
      var i := |tags|;
      while i > 0
        invariant 0 <= i <= |tags| && LogsCalls()
        invariant forall t | t in store :: t in old(store) && store[t] == old(store)[t]
        invariant forall t | t in old(store) && t !in tags :: t in store
        invariant forall t | t in tags[i..] && OkFor(t, |old(log)|) :: t !in store
      {
        i := i - 1;
        assert tags[i..] == [tags[i]] + tags[i + 1..];
        label before:
        var r := DeleteImageManifest(tags[i]);
        LogGrew@before(|old(log)|);
        assert OkFor(tags[i], |old(log)|) ==> log[|log| - 1].ok;
      }
    }

    /** A longer log leaves fewer tags without a failure. */
    twostate lemma LogGrew(new from: nat)
      requires old(log) <= log
      ensures forall t | OkFor(t, from) :: old(OkFor(t, from))
    {
      forall t | OkFor(t, from) ensures old(OkFor(t, from)) {
        forall i | from <= i < |old(log)| && old(log)[i].tag == t ensures old(log)[i].ok {
          assert log[i] == old(log)[i];
        }
      }
    }

    /** Both stores map the tag as they did. */
    twostate predicate KeptInStore(tag: Tag)
      reads this`store
    {
      (tag in store <==> tag in old(store)) && (tag in store ==> store[tag] == old(store)[tag])
    }

    twostate predicate KeptInMeta(tag: Tag)
      reads this`meta
    {
      (tag in meta <==> tag in old(meta)) && (tag in meta ==> meta[tag] == old(meta)[tag])
    }

    /** The second phase: metadb forgets the tags it had already recorded for the new digest. */
    method RevertMeta(applied: seq<Tag>, digest: Digest)
      modifies this`calls, this`log, this`store, this`meta
      ensures LogsCalls()
      ensures forall t | t !in applied || OkFor(t, |old(log)|) :: KeptInStore(t)
      ensures forall t | t !in applied && t in meta :: KeptInMeta(t)
      ensures (exists u :: u in old(store) && u !in applied) ==> forall t | t !in applied :: KeptInMeta(t)
      ensures forall t | t in applied && OkFor(t, |old(log)|) && world.kind(t, digest) == Image :: t !in meta
    {
      hide Extends;
      NoCalls(log, calls, calls);
      var i := |applied|;
      while i > 0
        invariant 0 <= i <= |applied| && LogsCalls()
        invariant forall t | t !in applied || OkFor(t, |old(log)|) :: KeptInStore(t)
        invariant forall t | t in meta :: t in old(meta) && meta[t] == old(meta)[t]
        invariant (exists u :: u in old(store) && u !in applied) ==> forall t | t !in applied :: KeptInMeta(t)
        invariant forall t | t in applied[i..] && OkFor(t, |old(log)|) && world.kind(t, digest) == Image :: t !in meta
      {
        i := i - 1;
        assert applied[i..] == [applied[i]] + applied[i + 1..];
        ghost var l, n := log, calls;
        label before:
        var ok := OnDeleteManifest(applied[i], digest);
        ExtendsOn(old(log), old(calls), l, n, log, calls);
        LogGrew@before(|old(log)|);
        assert OkFor(applied[i], |old(log)|) ==> OkFor(applied[i], |old@before(log)|);
        if u :| u in old(store) && u !in applied {
          assert KeptInStore(u);
        }
      }
    }

    /** The third phase: every snapshot entry is pushed again. */
    method RestorePriors(tags: seq<Tag>, priors: map<Tag, Descriptor>)
      modifies this`calls, this`log, this`store, this`meta
      ensures LogsCalls()
      ensures forall t | t !in tags || t !in priors :: KeptInStore(t) && KeptInMeta(t)
      ensures forall t | t in tags && t in priors && OkFor(t, |old(log)|) && world.kind(t, priors[t].digest) == Image ::
        Points(t, Some(priors[t]))
    {
      for i := 0 to |tags|
        invariant LogsCalls()
        invariant forall t | t !in tags || t !in priors :: KeptInStore(t) && KeptInMeta(t)
        invariant forall t | t in tags[..i] && t in priors && OkFor(t, |old(log)|) &&
                             world.kind(t, priors[t].digest) == Image ::
          Points(t, Some(priors[t]))
      {
        assert tags[..i + 1] == tags[..i] + [tags[i]];
        label before:
        RestorePrior(tags[i], priors);
        LogGrew@before(|old(log)|);
        assert OkFor(tags[i], |old(log)|) ==> OkFor(tags[i], |old@before(log)|);
        forall t | t !in tags || t !in priors ensures KeptInStore(t) && KeptInMeta(t) {
          assert t != tags[i] ==> KeptInStore@before(t) && KeptInMeta@before(t);
        }
        forall t | t in tags[..i] && t in priors && OkFor(t, |old(log)|) && world.kind(t, priors[t].digest) == Image
          ensures Points(t, Some(priors[t]))
        {
          assert t != tags[i] ==>
            KeptInStore@before(t) && KeptInMeta@before(t) && old@before(Points(t, Some(priors[t])));
        }
      }
    }

    method RestorePrior(tag: Tag, priors: map<Tag, Descriptor>)
      modifies this`calls, this`log, this`store, this`meta
      ensures Logged(tag)
      ensures forall t | t != tag :: KeptInStore(t) && KeptInMeta(t)
      ensures tag !in priors ==> store == old(store) && meta == old(meta)
      ensures tag in priors && OkFor(tag, |old(log)|) && world.kind(tag, priors[tag].digest) == Image ==>
        Points(tag, Some(priors[tag]))
    {
      if tag !in priors {
        return;
      }
      hide Extends;
      var prior := priors[tag];
      var put := PutPrior(tag, prior);
      if !put {
        return;
      }
      label put:
      ghost var l, n := log, calls;
      var ok := OnUpdateManifest(tag, prior.mediaType, prior.digest);
      ExtendsOn(old(log), old(calls), l, n, log, calls);
      assert OkFor(tag, |old(log)|) ==> OkFor(tag, |l|);
    }

    /** Loads the manifest of the snapshot entry and pushes it under the tag. */
    method PutPrior(tag: Tag, prior: Descriptor) returns (ok: bool)
      modifies this`calls, this`log, this`store
      ensures Logged(tag)
      ensures store == if ok then old(store)[tag := prior.digest] else old(store)
      ensures OkFor(tag, |old(log)|) ==> ok
    {
      ok := Attempt(tag);
      if !ok {
        assert !log[|old(log)|].ok;
        return;
      }
      ok := PutImageManifest(tag, prior.digest);
      assert !ok ==> !log[|old(log)| + 1].ok;
    }

    // ----- the transaction

    method PriorTagManifests(tags: seq<Tag>) returns (priors: map<Tag, Descriptor>)
      ensures forall t :: t in priors <==> t in tags && Prior(meta, world, t).Some?
      ensures forall t | t in priors :: Prior(meta, world, t) == Some(priors[t])
    {
      priors := map[];
      for i := 0 to |tags|
        invariant forall t :: t in priors <==> t in tags[..i] && Prior(meta, world, t).Some?
        invariant forall t | t in priors :: Prior(meta, world, t) == Some(priors[t])
      {
        assert tags[..i + 1] == tags[..i] + [tags[i]];
        var prior := Prior(meta, world, tags[i]);
        if prior.Some? {
          priors := priors[tags[i] := prior.value];
        }
      }
    }

    method RollbackDigestManifestTags(tags: seq<Tag>, applied: seq<Tag>, digest: Digest, priors: map<Tag, Descriptor>)
      requires forall t | t in applied :: t in tags
      modifies this`calls, this`log, this`store, this`meta
      ensures LogsCalls()
      ensures forall t | t !in tags :: KeptInStore(t)
      ensures forall t | t !in tags && t in meta :: KeptInMeta(t)
      ensures (exists u :: u in old(store) && u !in tags) ==> forall t | t !in tags :: KeptInMeta(t)
      ensures forall t | t in tags && t in priors && OkFor(t, |old(log)|) && world.kind(t, priors[t].digest) == Image ::
        Points(t, Some(priors[t]))
      ensures forall t | t in tags && t !in priors && OkFor(t, |old(log)|) :: t !in store
      ensures forall t | t in tags && t !in priors && OkFor(t, |old(log)|) && world.kind(t, digest) == Image ::
        t in meta ==> t !in applied && t in old(meta)
      ensures (forall k | old(calls) <= k < calls :: !world.fails(k)) ==> forall t :: OkFor(t, |old(log)|)
    {
      hide Extends;
      DeleteTags(tags);
      label deleted:
      ghost var l, n := log, calls;
      RevertMeta(applied, digest);
      ExtendsOn(old(log), old(calls), l, n, log, calls);
      l, n := log, calls;
      label reverted:
      LogGrew@deleted(|old(log)|);
      assert forall t | OkFor(t, |old(log)|) :: OkFor(t, |old@deleted(log)|);
      if |priors| == 0 {
        NoFailureLogged();
        return;
      }
      RestorePriors(tags, priors);
      ExtendsOn(old(log), old(calls), l, n, log, calls);
      NoFailureLogged();
      LogGrew@reverted(|old(log)|);
      assert forall t | OkFor(t, |old(log)|) :: OkFor(t, |old@reverted(log)|);
    }

    /** The pushed manifest, and the one a rollback would put back, are plain images under the tag. */
    predicate PlainImage(before: map<Tag, Descriptor>, tag: Tag, digest: Digest) {
      && world.kind(tag, digest) == Image
      && var prior := Prior(before, world, tag);
      (prior.Some? ==> world.kind(tag, prior.value.digest) == Image)
    }

    /** The tag is back where the snapshot saw it: at its prior digest in both stores, or, when
        metadb did not know it, in neither. A record without a usable digest cannot be put back:
        its tag is gone from the index. */
    predicate Undone(before: map<Tag, Descriptor>, tag: Tag)
      reads this`store, this`meta
    {
      var prior := Prior(before, world, tag);
      if prior.Some? || tag !in before then Points(tag, prior) else tag !in store
    }

    /** The updates, tag by tag, until one fails. */
    method UpdateEach(tags: seq<Tag>, mediaType: string, digest: Digest) returns (applied: nat)
      modifies this`calls, this`log, this`store, this`meta
      ensures applied <= |tags| && LogsCalls()
      ensures forall t | t !in tags :: KeptInStore(t)
      ensures applied == |tags| ==> store == old(store)
      ensures forall t | t in tags[..applied] && world.kind(t, digest) == Image ::
        t in meta && meta[t] == Descriptor(digest, mediaType)
      ensures forall t | t !in tags[..applied] || world.kind(t, digest) != Image :: KeptInMeta(t)
      ensures var n := UpdateCalls(tags[..applied], digest);
        && (forall k | old(calls) <= k < old(calls) + n :: !world.fails(k))
        && calls == old(calls) + n + (if applied < |tags| then 2 else 0)
        && (applied < |tags| ==> world.fails(old(calls) + n) && n < UpdateCalls(tags, digest))
    {
      hide UpdateCalls, Extends, OkFor;
      NoCalls(log, calls, calls);
      NothingToUpdate(digest);
      for i := 0 to |tags|
        invariant LogsCalls() && store == old(store)
        invariant forall t | t in tags[..i] && world.kind(t, digest) == Image ::
          t in meta && meta[t] == Descriptor(digest, mediaType)
        invariant forall t | t !in tags[..i] || world.kind(t, digest) != Image :: KeptInMeta(t)
        invariant calls == old(calls) + UpdateCalls(tags[..i], digest)
        invariant forall k | old(calls) <= k < calls :: !world.fails(k)
      {
        ghost var l, n := log, calls;
        assert tags[..i + 1] == tags[..i] + [tags[i]];
        UpdateCallsNext(tags, i, digest);
        UpdateCallsGrow(tags, i + 1, digest);
        var ok := OnUpdateManifest(tags[i], mediaType, digest);
        ExtendsOn(old(log), old(calls), l, n, log, calls);
        if !ok {
          return i;
        }
      }
      assert tags[..|tags|] == tags;
      applied := |tags|;
    }

    /** In terms of the records alone: a tag that metadb had under a usable digest is back at it in both stores,
        with its media type, an empty one standing for an image manifest; a tag that metadb did not have is
        in neither; a tag under an unusable digest has left the index. */
    ghost predicate BackAsBefore(before: map<Tag, Descriptor>, tag: Tag)
      reads this`store, this`meta
    {
      && (tag !in before ==> tag !in store && tag !in meta)
      && (tag in before && (before[tag].digest == "" || !world.parses(before[tag].digest)) ==> tag !in store)
      && (tag in before && before[tag].digest != "" && world.parses(before[tag].digest) ==>
            && tag in store && store[tag] == before[tag].digest
            && tag in meta && meta[tag].digest == before[tag].digest
            && meta[tag].mediaType ==
               if before[tag].mediaType == "" then "application/vnd.oci.image.manifest.v1+json"
               else before[tag].mediaType)
    }

    /** Images under the pushed digest, and under the one they had if it is usable. */
    ghost predicate ImageBothTimes(before: map<Tag, Descriptor>, tag: Tag, digest: Digest) {
      && world.kind(tag, digest) == Image
      && (tag in before && before[tag].digest != "" && world.parses(before[tag].digest) ==>
            world.kind(tag, before[tag].digest) == Image)
    }

    lemma UndoneIsBackAsBefore(before: map<Tag, Descriptor>, tag: Tag, digest: Digest)
      requires ImageBothTimes(before, tag, digest)
      ensures PlainImage(before, tag, digest)
      ensures Undone(before, tag) ==> BackAsBefore(before, tag)
    {
    }

    /** The whole transaction. It is recorded when neither the snapshot nor an update fails. When an update
        fails, the result is the state before the push for every plain image tag none of whose rollback
        calls failed, whichever tag failed and whatever happened to the other tags; tags outside the push
        never move. The rollback begins with call number `at`, and with entry `from` of the log. */
    method OnUpdateManifestDigestTags(tags: seq<Tag>, mediaType: string, digest: Digest)
      returns (result: PushResult, ghost at: nat, ghost from: nat)
      modifies this`calls, this`log, this`store, this`meta
      ensures LogsCalls()
      ensures result == SnapshotFailed <==> tags != [] && world.fails(old(calls))
      ensures result == SnapshotFailed ==> store == old(store) && meta == old(meta)
      ensures result == Recorded <==> tags == [] || NoneFails(old(calls), UpdateCalls(tags, digest) + 1)
      ensures result == Recorded ==> store == old(store)
      ensures result == Recorded ==> forall t | t in tags && world.kind(t, digest) == Image ::
        t in meta && meta[t] == Descriptor(digest, mediaType)
      ensures result == Recorded ==> forall t | t !in tags || world.kind(t, digest) != Image :: KeptInMeta(t)
      ensures result == RolledBack ==>
        && old(calls) + 3 <= at <= calls && world.fails(at - 2) && NoneFails(old(calls), at - 2 - old(calls))
        && |old(log)| <= from <= |log|
        && forall i | |old(log)| <= i < |log| :: i < from <==> log[i].number < at
      ensures result == RolledBack ==> forall t | t in tags && OkFor(t, from) && PlainImage(old(meta), t, digest) ::
        Undone(old(meta), t)
      ensures result == RolledBack && NoneFails(at, calls - at) ==>
        forall t | t in tags && PlainImage(old(meta), t, digest) :: Undone(old(meta), t)
      ensures result == RolledBack && (forall k | at <= k < calls :: !world.fails(k)) ==>
        forall t | t in tags && ImageBothTimes(old(meta), t, digest) :: BackAsBefore(old(meta), t)
      ensures forall t | t !in tags :: KeptInStore(t)
      ensures (exists u :: u in old(store) && u !in tags) ==> forall t | t !in tags :: KeptInMeta(t)
    {
      hide Undone, UpdateCalls, Extends, BackAsBefore, ImageBothTimes;
      NoCalls(log, calls, calls);
      NoCalls(log, calls, calls + 1);
      at, from := calls, |log|;
      if |tags| == 0 {
        return Recorded, at, from;
      }
      var fails := world.fails(calls);
      calls := calls + 1;
      if fails {
        return SnapshotFailed, at, from;
      }
      var priors := PriorTagManifests(tags);
      ghost var n := calls;
      var applied := UpdateEach(tags, mediaType, digest);
      ExtendsOn(old(log), old(calls), old(log), n, log, calls);
      at, from := calls, |log|;
      ghost var l := log;
      if applied == |tags| {
        assert tags[..applied] == tags;
        return Recorded, at, from;
      }
      label failed:
      RollbackDigestManifestTags(tags, tags[..applied], digest, priors);
      ExtendsOn(old(log), old(calls), l, at, log, calls);
      ghost var made := UpdateCalls(tags[..applied], digest);
      assert at == old(calls) + made + 3 && NoneFails(old(calls), made + 1);
      forall t | t in tags && OkFor(t, from) && PlainImage(old(meta), t, digest) ensures Undone(old(meta), t) {
        UndoneBy(old(meta), old@failed(meta), tags, tags[..applied], digest, priors, t);
      }
      forall t | t in tags && OkFor(t, from) && ImageBothTimes(old(meta), t, digest)
        ensures BackAsBefore(old(meta), t)
      {
        UndoneIsBackAsBefore(old(meta), t, digest);
      }
      result := RolledBack;
    }

    lemma UndoneBy(before: map<Tag, Descriptor>, failed: map<Tag, Descriptor>, tags: seq<Tag>, applied: seq<Tag>,
                   digest: Digest, priors: map<Tag, Descriptor>, t: Tag)
      requires t in tags && PlainImage(before, t, digest)
      requires t in priors <==> Prior(before, world, t).Some?
      requires t in priors ==> Prior(before, world, t) == Some(priors[t])
      requires t !in applied ==> (t in failed <==> t in before)
      requires t in priors && world.kind(t, priors[t].digest) == Image ==> Points(t, Some(priors[t]))
      requires t !in priors ==> t !in store && (t in meta ==> t !in applied && t in failed)
      ensures Undone(before, t)
    {
    }

    ghost predicate NoneFails(first: nat, n: nat) {
      forall k | first <= k < first + n :: !world.fails(k)
    }

    /** A tag that metadb records under a digest that does not parse, in a push whose first update fails and
        whose rollback does not: afterwards the tag is out of the index. */
    static method UnusableDigestIsLost(digest: Digest) returns (r: Registry, result: PushResult)
      ensures fresh(r) && result == RolledBack && "v1" !in r.store
    {
      var world := World(k => k == 1, k => false, (t, d) => Image, d => d != "bad");
      r := new Registry(world, map["v1" := digest], map["v1" := Descriptor("bad", "")]);
      ghost var at, from;
      result, at, from := r.OnUpdateManifestDigestTags(["v1"], MEDIA_TYPE_IMAGE_MANIFEST, digest);
      assert r.UpdateCalls(["v1"], digest) == 1 by {
        assert ["v1"][..0] == [];
      }
      assert world.fails(1) && !r.NoneFails(0, 2);
      assert "v1" in ["v1"];
    }
  }

  datatype PushResult = Recorded | SnapshotFailed | RolledBack
}
