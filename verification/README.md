# zot: verified models of the stateful core

zot is a container image registry. This project models the parts of it that carry state or
interleave, and proves what they are for.

| module | models |
|---|---|
| `RankedHeap`, `NoStarvation`, `Generators`, `Scheduler` | the background scheduler: a heap of task generators whose keys change while they sit in it, three bounded task queues, the channel to the workers |
| `WorkerPool` | the dispatching loop, the workers and Shutdown as interleaved steps |
| `TaskPlaces` | the two halves of a task's way put together |
| `Watcher`, `HTPasswd` | the htpasswd watcher: Run, Close, ChangeFile and the loop goroutines as interleaved steps, and the object whose critical sections do what the steps say |
| `ManifestHooks` | a manifest push with several tags: a transaction over the image store and metadb whose calls may fail |
| `ByteRanges`, `MultipartBody` | the Range header (sections 14.1.2 and 15.3.7.2 of RFC 9110) and the multipart answer to it |
| `TagPaging` | the paginated tag list |
| `Retention` | tag retention: rules that sort a group in place and keep a prefix of it |
| `AccessControl`, `UserAccess`, `ManifestWrite`, `QueryTags` | the decision per request, the precomputed pattern tables, the checks of a manifest push and the tags it writes |
| `Sorting`, `GoText`, `Optional` | sort.Slice, the used parts of strings and strconv, an option type |

What the program asks its environment is a parameter: the clock and `IsReady` are a stream of
readings, failing calls are chosen by a function, map iteration is an arbitrary choice. Glob and
regular expression matching and condition evaluation are given functions.

## Findings

Places where the code does less than its design suggests. Each is a theorem of the project.

- A generator is dropped for good exactly when the second reading of its state, after it has left the
  heap, is "ready" although the first was not (`Scheduler.Scheduler.RunScheduler`, with a witness in
  `Scheduler.Scheduler.DropsAGenerator`). When the two states read in a turn agree, none is.
- Selection is fair if and only if every generator in the heap keeps yielding
  (`NoStarvation.FairIffAllKeepYielding`), although the heap order is broken below the root: one whose
  Next fails for ever makes some generator starve, and runs that fail in between do no harm.
- A poll of the htpasswd file can be trusted if and only if no two versions of files have the same fingerprint
  (`Watcher.PollsAreSoundIffFingerprintsDiffer`). Across paths too: a poll that began before ChangeFile
  compares its stat with the baseline of the new file.
- A tag that metadb records with an unusable digest is not put back by the rollback of a failed push; it
  is gone from the index (`ManifestHooks.Registry.OnUpdateManifestDigestTags`,
  with a run in `ManifestHooks.Registry.UnusableDigestIsLost`).
- A tag list request panics exactly when start index plus page size leaves 64 bits
  (`TagPaging.PanicsExactlyOnOverflow`), for instance for the second page with the largest page size.
- With page size 1 and an empty first tag the walk along the Link headers never ends
  (`TagPaging.WalkIsComplete`).
- The catalog can hide a repository that the user may use if and only if patterns of equal length
  tie and disagree (`UserAccess.NeverUnderListsIffTiesAgree`).
- A negative retention count panics on the prefix expression (`Retention.GetRetainedTagsFromMetaDB`,
  `Retention.NegativeCountPanics`).

## Model

| member | source | states |
|---|---|---|
| RankedHeap.Down | pkg/scheduler/scheduler.go:29-37 | the heap's sift-down over generators ranked by priority and task count only moves elements and touches no position before the start or from the limit on |
| RankedHeap.Up | pkg/scheduler/scheduler.go:29-49 | the heap's sift-up only moves elements |
| RankedHeap.OutranksIsLargerRank | pkg/scheduler/scheduler.go:29-31 | one key comes before another exactly when its quotient of a power of ten by the priority over one more than the task count is the larger one |
| RankedHeap.DownRestoresOrder | pkg/scheduler/scheduler.go:338-356 | sift-down makes a heap of one in which a single element has come to rank too low, as the root does by yielding |
| RankedHeap.UpRestoresOrder | pkg/scheduler/scheduler.go:39-49 | sift-up makes a heap of one in which a single element ranks too high for its place |
| RankedHeap.PushKeepsOrder | pkg/scheduler/scheduler.go:39-49 | a generator submitted to a heap leaves a heap |
| RankedHeap.PopKeepsOrder | pkg/scheduler/scheduler.go:51-60 | a heap without its root is a heap again |
| RankedHeap.RootRanksHighest | pkg/scheduler/scheduler.go:333-336 | in a heap nothing has a larger rank than the root |
| NoStarvation.SiftMeetsOutsider | pkg/scheduler/scheduler.go:333-356 | when every generator outside a set outranks every one inside, a sift-down that starts at an inside generator either brings an outside one to the parent of an outside one or leaves both where they were: what holds although heap order does not |
| NoStarvation.LeavesSet | pkg/scheduler/scheduler.go:333-356 | while every generator keeps yielding, a set of generators cannot keep the selection to itself for ever from any time on when there is another one |
| NoStarvation.EveryGeneratorIsSelectedAgain | pkg/scheduler/scheduler.go:333-356 | from any heap whatever its order, with always ready generators none of which fails for ever, each comes to the root again after any number of selections, whatever runs fail in between |
| NoStarvation.SilentGeneratorStarvesSome | pkg/scheduler/scheduler.go:462-469 | when some generator yields only finitely often, some generator stops coming to the root |
| NoStarvation.FairIffAllKeepYielding | pkg/scheduler/scheduler.go:333-356 | the exact condition, on the answers of Next alone: among two or more generators every one is selected again and again if and only if, for every one, infinitely many of its runs yield |
| NoStarvation.FairIffNoneFails | pkg/scheduler/scheduler.go:462-469 | in particular, with a set whose Next always fails and others that never do, selection is fair if and only if the set has no member in the heap |
| NoStarvation.EveryTaskCountGrows | pkg/scheduler/scheduler.go:487-488 | under the same condition the task count of every generator, which counts the retries of a held task too, passes any bound |
| NoStarvation.FailingRootStarvesTheRest | pkg/scheduler/scheduler.go:462-469 | while Next of a root that no child outranks fails, the heap never changes |
| Generators.StateMeaning | pkg/scheduler/scheduler.go:506-522 | on the fields: done when it is one-shot, finished and holds no task; ready when IsReady says so and it is not periodic, finished, without a held task and within its interval; waiting otherwise |
| Generators.RunMeaning | pkg/scheduler/scheduler.go:455-500 | a run case by case: the task held, or else the one Next gives for this generator, goes to the end of a queue of fewer than 400 and is held at 400; the count rises; a finished Next sets it to 0 and records the time; a failing one changes nothing |
| Generators.RunKeepsOrder | pkg/scheduler/scheduler.go:455-500 | a run of generate keeps: what Next produced, in order, is what went to the workers, then what is queued, then the task held for a retry |
| Generators.RunSparesOthers | pkg/scheduler/scheduler.go:455-500 | and leaves every other generator's tasks in the queue as they were |
| Scheduler.Scheduler.HeapDown | pkg/scheduler/scheduler.go:33-37 | the swapping loop computes the specified sift-down and keeps each index field equal to the position in the heap |
| Scheduler.Scheduler.HeapUp | pkg/scheduler/scheduler.go:33-37 | the same for sift-up |
| Scheduler.Scheduler.HeapPush | pkg/scheduler/scheduler.go:39-49 | adds just the generator, sifted up from the end, with indices right |
| Scheduler.Scheduler.HeapPop | pkg/scheduler/scheduler.go:51-60 | removes just the root, whose index becomes -1; the rest is the popped heap of PopKeepsOrder |
| Scheduler.Scheduler.PushReadyGenerators | pkg/scheduler/scheduler.go:296-319 | ends; a waiting generator stays when it is not due by its fields at any reading (for instance within its interval), and leaves for the heap, no longer done, when it is due at all; those that leave were due at some reading, those that stay were not in the last scan |
| Scheduler.Scheduler.Generate | pkg/scheduler/scheduler.go:455-500 | new state of the generator and of its queue; other queues unchanged; all generators' tasks still in order |
| Scheduler.Scheduler.ServeRoot | pkg/scheduler/scheduler.go:333-356 | by the fields of the root: it runs if and only if it is due at the first reading; else a finished one-shot generator without a held task is done, one that is due at the second reading is dropped, any other waits; a run that does not finish is one selection step of the fairness theorem, yielding or failing |
| Scheduler.Scheduler.GenerateTasks | pkg/scheduler/scheduler.go:321-357 | keeps the invariant (each generator once in the heap, the waiting list, the done list or among the dropped ones, index equal to position, tasks in order); what runs was due by its fields at some reading of this call; first the heap gets waiting generators that are ready at some reading, all that are at every one and none that is at none, and stays in order if it was; then its root runs, as a step of the fairness theorem when it does not finish, or is done, dropped or waits as its state says (with nothing waiting, on its fields); only the parked root can be dropped |
| Scheduler.Scheduler.TakeHighest | pkg/scheduler/scheduler.go:359-383 | takes the first task of the highest priority that has one |
| Scheduler.Scheduler.DispatchTurn | pkg/scheduler/scheduler.go:259-293 | one turn of the loop never blocks on the send, sends at most one task, none when the channel is full, keeps the invariant, runs only a generator that its fields made due in this turn, and drops the generator it parked exactly when that generator, standing as it is left, is ready by the second reading and was not by the first; those dropped before are untouched |
| Scheduler.Scheduler.WorkerReceives | pkg/scheduler/scheduler.go:130 | a worker gets the oldest task sent and not yet received |
| Scheduler.Scheduler.SubmitTask | pkg/scheduler/scheduler.go:398-418 | the task is queued at the end unless the queue is full or the scheduler stops; nothing else moves |
| Scheduler.Scheduler.SubmitGenerator | pkg/scheduler/scheduler.go:530-547 | adds one new generator to the heap and keeps the invariant |
| Scheduler.Scheduler.RunScheduler | pkg/scheduler/scheduler.go:239-294 | any interleaving of turns, workers, submissions and the raising of the shutdown flag keeps the invariant, takes back no sent task and never blocks; the generators dropped are exactly those that a turn parked with a second state of ready, and each still stands as it did then; when the two states agree in each turn none is dropped, and with none dropped each generator is in exactly one of heap, waiting list and done list |
| Scheduler.AgreeingStatesDropNone | pkg/scheduler/scheduler.go:336-350 | a run in which the two states read of each parked generator agree drops nobody, whatever the clock does |
| Scheduler.SteadyDropsNone | pkg/scheduler/scheduler.go:336-350 | in particular when the readings themselves agree within each turn |
| Scheduler.Scheduler.DropsAGenerator | pkg/scheduler/scheduler.go:344-352 | a run in which the only generator ends up in no list |
| Scheduler.Scheduler.RunSelections | pkg/scheduler/scheduler.go:321-357 | k calls on always ready generators, some of which always fail, take the heap through k steps of the fairness theorem |
| Scheduler.Scheduler.RunAnySelections | pkg/scheduler/scheduler.go:321-357 | the same for any answers of Next that do not finish a generator, per run of each generator: a run counts when Next yields, and when it fails only if a task was still held from that generator's run before or from the beginning |
| WorkerPool.SendNeverBlocks | pkg/scheduler/scheduler.go:274-290 | in every reachable state the loop's send finds room in an open channel |
| WorkerPool.WorkingTasksBounded | pkg/scheduler/scheduler.go:130-156 | the working counter and the wait group stay between 0 and the number of workers |
| WorkerPool.ReleasedMeansAllExecuted | pkg/scheduler/scheduler.go:219-226 | workers receive in sending order; when the wait group is released the channel is closed and empty and the finished tasks are exactly the sent ones |
| TaskPlaces.EveryTaskInOnePlace | pkg/scheduler/scheduler.go:455-500 | each task that Next produced is held by its generator, queued or sent, only once; each task sent is in the channel, with one worker or executed, only once, in every reachable state of the pool |
| WorkerPool.ShutdownMakesProgress | pkg/scheduler/scheduler.go:219-237 | after cancellation each step brings the end nearer |
| WorkerPool.ShutdownNeverStuck | pkg/scheduler/scheduler.go:219-237 | and one is possible until loop and workers are gone |
| Watcher.RunKeepsInvariant | pkg/api/htpasswd.go:193-255 | every run of interleaved steps keeps the life cycle, mutex and credential invariants |
| Watcher.AtMostOneActiveLoop | pkg/api/htpasswd.go:193-255 | at most one loop has not cleared its state, and the stopped marker names it |
| Watcher.DoneClosedOnce | pkg/api/htpasswd.go:644-681 | no done channel is closed twice, whatever Run and Close calls interleave |
| Watcher.RunStartsWhenNoLoopActive | pkg/api/htpasswd.go:193-232 | Run starts a generation exactly when no loop is active |
| Watcher.CloseReturnsAfterCleanup | pkg/api/htpasswd.go:644-681 | a Close returns only after the loop it captured cleared its state and went |
| Watcher.ContinuingStepsRunOut | pkg/api/htpasswd.go:234-353 | what has begun takes finitely many steps |
| Watcher.CloseNeverStuck | pkg/api/htpasswd.go:644-681 | while a Close is open one of them is possible: nothing blocks with the mutex held |
| Watcher.ClosesReturn | pkg/api/htpasswd.go:644-681 | once no poll, reload, call or file event begins any more, the rest is a bounded number of steps, and when it is done no Close is open |
| Watcher.CredentialsFollowPath | pkg/api/htpasswd.go:489-604 | whenever the mutex is free the credentials come from the watched path, and without a path there are none |
| Watcher.BaselineNeverAhead | pkg/api/htpasswd.go:502-516 | baseline version ≤ loaded version ≤ file version in every reachable state with the mutex free |
| Watcher.UnchangedMeansCurrent | pkg/api/htpasswd.go:518-556 | a poll that answers "unchanged" implies credentials no older than what it saw, when fingerprints tell versions apart |
| Watcher.SameFingerprintHidesChange | pkg/api/htpasswd.go:518-556 | for any two versions of a file with equal fingerprints, a run in which the poll misses the change |
| Watcher.SameFingerprintHidesFile | pkg/api/htpasswd.go:525-556 | for any two files with equal fingerprints, a run in which a poll that began before ChangeFile takes the one for the other |
| Watcher.PollsAreSoundIffFingerprintsDiffer | pkg/api/htpasswd.go:518-556 | the exact condition: every "unchanged" answer in every reachable state is right if and only if fingerprints tell any two versions of files apart |
| Watcher.FailedChangeChangesNothing | pkg/api/htpasswd.go:576-584 | a failing ChangeFile leaves path, baseline and credentials as it found them under the mutex, under any interleaving |
| Watcher.SuccessfulChangeInstalls | pkg/api/htpasswd.go:576-604 | a successful one leaves the new path with credentials from it and a baseline not ahead of them |
| Watcher.NoWatcherLeaks | pkg/api/htpasswd.go:644-681 | every inotify watcher that a run has opened is closed once none is at work and no Close holds one that it is about to close |
| HTPasswd.LastEntryWins | pkg/api/htpasswd.go:58-65 | a user's hash is that of the user's last line, whichever other lines there are |
| HTPasswd.CutIsFirstColon | pkg/api/htpasswd.go:61 | a line is split at its first colon, and lines without one are no entry |
| HTPasswd.HTPasswd.Reload | pkg/api/htpasswd.go:47-78 | replaces the map by the file's, or leaves it when the file cannot be opened |
| HTPasswd.HTPasswdWatcher.Run | pkg/api/htpasswd.go:193-232 | refines the Run step of the protocol; the error exactly when a generation is running or draining |
| HTPasswd.HTPasswdWatcher.TakeForClose | pkg/api/htpasswd.go:657-662 | refines the first step of Close: takes the channels and leaves the stopped marker |
| HTPasswd.HTPasswdWatcher.Cleanup | pkg/api/htpasswd.go:237-255 | refines the loop's cleanup step, with the inotify watcher that it closes |
| HTPasswd.HTPasswdWatcher.ReloadWatchedFile | pkg/api/htpasswd.go:489-516 | one whole reload: nothing when the file cannot be read, else its credentials with the earlier stat as baseline |
| HTPasswd.HTPasswdWatcher.FingerprintChanged | pkg/api/htpasswd.go:539-556 | the comparison of file identity, size and time refines the step of the poll; a reported change is a change; no change means credentials from the watched file at least as new as what the stat saw, when fingerprints tell versions apart |
| HTPasswd.HTPasswdWatcher.ChangeFile | pkg/api/htpasswd.go:559-604 | path, baseline and credentials after one whole change of file, its failure included |
| HTPasswd.ReloadBegins | pkg/api/htpasswd.go:494-507 | a reload takes the mutex and the stat of the watched file at that moment |
| HTPasswd.ReloadIsAtomic | pkg/api/htpasswd.go:489-516 | whatever else happens between the steps of a reload, its net effect is that of the whole section on that stat and on the version that it then reads |
| HTPasswd.ChangeIsAtomic | pkg/api/htpasswd.go:559-604 | the same for ChangeFile, with the stat of its beginning, the version it reads and the answer it gives |
| ManifestHooks.Registry.OnUpdateManifest | pkg/meta/hooks.go:152-177 | metadb gets the tag, or on failure keeps its records while the tag at most leaves the index |
| ManifestHooks.Registry.OnDeleteManifest | pkg/meta/hooks.go:222-293 | without a failing call the tag leaves metadb and the index is unchanged; other tags keep what they had |
| ManifestHooks.PriorMeaning | pkg/meta/hooks.go:58-78 | the snapshot has a tag if and only if metadb has it with a digest that is there and parses; with that digest, and its media type or the one of an image manifest when that is empty |
| ManifestHooks.Registry.PriorTagManifests | pkg/meta/hooks.go:35-81 | the snapshot holds exactly the tags of the push that PriorMeaning describes, and nothing of others |
| ManifestHooks.Registry.RollbackDigestManifestTags | pkg/meta/hooks.go:89-147 | unless a call for the tag failed, and none has when none of the calls made fails: a tag of the snapshot is back in both stores; one outside it has left the index, and metadb too if the push had recorded it there; tags outside the push keep their index entry |
| ManifestHooks.Registry.UpdateEach | pkg/meta/hooks.go:200-214 | the updates stop at the first failing one, with exactly the tags before it recorded |
| ManifestHooks.Registry.OnUpdateManifestDigestTags | pkg/meta/hooks.go:184-217 | recorded if and only if neither the snapshot nor an update fails; else nothing is tried or, from the call after the failing one on, everything is rolled back: with no failing call from there on, for every tag that is an image under both digests, whichever tag failed: one that metadb had under a digest that parses is back in both stores at that digest and media type, one that metadb did not have is in neither, and otherwise each one is whose own calls succeeded, each failing call being logged for one tag; duplicates allowed |
| ManifestHooks.Registry.UnusableDigestIsLost | pkg/meta/hooks.go:60-67 | a push that loses a tag: metadb has it under a digest that does not parse, the first update fails and no later call does; the push is rolled back and the tag is out of the index |
| ByteRanges.NormalFormUnique | pkg/api/routes.go:1372-1401 | sorted, disjoint, non-adjacent ranges are determined by the positions they cover |
| ByteRanges.NormalFormDoesNotAmplify | pkg/api/routes.go:1372-1401 | and their lengths add up to no more than the blob |
| ByteRanges.CoalescedIsNormalForm | pkg/api/routes.go:1381-1400 | merging a list sorted by start gives the normal form of its positions |
| ByteRanges.MergeNext | pkg/api/routes.go:1383-1398 | one turn of the loop merges one element and writes no element that is still to be read |
| ByteRanges.CoalesceRanges | pkg/api/routes.go:1372-1401 | sorting and merging within one array gives the normal form of the array's positions |
| ByteRanges.SpecMeaning | pkg/api/routes.go:1318-1354 | a spec is a text split at its first dash: nothing before it and a number behind, or a number before it and nothing or a number behind |
| ByteRanges.ParseSpec | pkg/api/routes.go:1315-1362 | one spec is accepted exactly when it names a byte of the blob, and gives the bytes it names after clamping |
| ByteRanges.ParseRangeHeader | pkg/api/routes.go:1299-1370 | accepted exactly when the text begins with "bytes=", there are at most 16 specs and each names a byte; the answer covers exactly those bytes, in normal form, within the blob, no longer than it |
| ByteRanges.FormattedHeaderMeaning | pkg/api/routes.go:1299-1370 | for every header that the grammar of section 14.1.2 of RFC 9110 writes, acceptance and bytes are those of the listed specs |
| ByteRanges.PaddedHeaderMeaning | pkg/api/routes.go:1313 | white space around the specs changes neither acceptance nor bytes |
| ByteRanges.HeaderRoundTrip | pkg/api/routes.go:1304-1360 | parsing what was formatted gives the specs back |
| GoText.TrimMeaning | pkg/api/routes.go:1313 | trimming takes all white space from both ends and nothing else |
| GoText.NumberMeaning | pkg/api/routes.go:1326 | a number is an optional sign and at least one digit, its value the decimal one, refused beyond 64 bits |
| GoText.JoinSplit | pkg/api/routes.go:1309 | the parts of a split text, joined, give the text again, and no part has the separator |
| MultipartBody.PartHeaderReadsBack | pkg/api/routes.go:1447-1460 | Content-Range is "bytes first-last/total" with decimal numbers that read back as start, end and size; Content-Type is there exactly when there is a media type |
| MultipartBody.PartBytes | pkg/api/routes.go:1508-1546 | behind the parts before it and its header text, each part has the bytes of the blob from its start on |
| MultipartBody.DeclaredLengthIsExact | pkg/api/routes.go:1420-1445 | headers written alone plus the range lengths is the length of the interleaved body |
| MultipartBody.ComputeMultipartBodyLength | pkg/api/routes.go:1420-1445 | computes the headers' bytes plus the ranges' lengths |
| MultipartBody.StreamRanges | pkg/api/routes.go:1508-1546 | writes a prefix of the body, no more than the receiver takes; the whole body exactly when every range delivers and the receiver takes all of it; after a failing range at least the closing text is missing |
| MultipartBody.WriteMultipartRanges | pkg/api/routes.go:1489-1551 | the client gets as many bytes as declared exactly when every range delivers and it does not hang up before, and never other bytes than the body's |
| TagPaging.ListTags | pkg/api/routes.go:337-441 | bad request exactly for a repeated parameter or an n that is no number or negative; else the tags are sorted in place, lexicographically, and the answer is that of AnswerMeaning |
| TagPaging.AnswerMeaning | pkg/api/routes.go:395-439 | an unknown last is not found; without n every tag behind last, or every tag when that is empty, without a link; with n = 0 an empty page without one; else n tags with a link to the last of them when more follow, all that follow when not; a sum beyond 64 bits panics |
| TagPaging.BeforeMeaning | pkg/api/routes.go:393 | the order of the tags: behind a common prefix one ends or has the smaller character |
| TagPaging.PanicsExactlyOnOverflow | pkg/api/routes.go:426-439 | an index panic exactly when start index plus page size leaves 64 bits |
| TagPaging.OverflowPanics | pkg/api/routes.go:426-439 | such a request, on two tags |
| TagPaging.WalkIsComplete | pkg/api/routes.go:322-442 | for every page size and any list of at most half the 64-bit range, following the Link header from the first page gives all tags, each once and in order, unless the page size is 1 and an empty tag comes first, and then it never ends |
| TagPaging.WalkFrom | pkg/api/routes.go:395-441 | from any position the walk gives the remaining tags |
| Sorting.Sort | pkg/retention/rules.go:90-93 | puts an array in order, keeping its elements |
| Retention.PerformLatest | pkg/retention/rules.go:90-134 | sorts the shared array, marks exactly the returned prefix, panics exactly for a negative count |
| Retention.PerformDays | pkg/retention/rules.go:33-76 | selects and marks exactly the recent candidates |
| Retention.PrefixIsSelection | pkg/retention/rules.go:90-134 | the prefix of the sorted group has min(count, n) tags, none older than one left out |
| Retention.Perform | pkg/retention/rules.go:33-134 | a rule makes an allowed selection from its group and the group stays the same candidates |
| Retention.ApplyRules | pkg/retention/retention.go:217-224 | what is retained is the union of one selection per rule, each made from the whole group although every rule reorders the array |
| Retention.GroupCandidatesByTagPolicy | pkg/retention/retention.go:372-401 | each candidate is in the group of the first policy that matches it, those without one are in none |
| Retention.GetCandidates | pkg/retention/candidate.go:11-39 | one candidate for every tag with statistics, with its timestamps |
| Retention.GetRetainedTagsFromMetaDB | pkg/retention/retention.go:166-263 | on the configuration and the recorded statistics alone: a tag without statistics is retained exactly when it is in the index; one with statistics falls under the first tag policy that matches it of the first policy for the repository, and is kept when that sets nothing, when it was pulled or pushed within pulledWithin, pushed within pushedWithin, or is within a count by rank, and not kept when it meets nothing that is set or falls under none; for each group, one selection per rule; cancelled only when the context was, panicked only, and never retained, for a negative count that applies to a tag |
| Retention.RulesMeaning | pkg/retention/retention.go:100-122 | a set field of a policy is exactly one rule: latest pull and latest push for a count that is not 0, days pulled and days pushed for a duration |
| Retention.KeptMeaning | pkg/retention/retention.go:205-241 | what each of the four fields does to a tag, with ties and clock readings left open |
| Retention.RetainsByConfiguration | pkg/retention/retention.go:166-263 | the same for all tags at once, with the policies found by their patterns |
| Retention.PanicMeaning | pkg/retention/rules.go:95-134 | the panic is possible exactly when a tag with statistics falls under a policy with a count below zero |
| Retention.NegativeCountPanics | pkg/retention/rules.go:95-98 | a policy with count -1 and one tag: the panic |
| Retention.RankDecides | pkg/retention/rules.go:90-134 | whatever the unstable sort does, a tag with count newer ones is out and one with fewer newer or level ones is in |
| Retention.RetentionDetermined | pkg/retention/retention.go:205-241 | with distinct timestamps what is kept depends on no order |
| Retention.CountIsRetained | pkg/retention/retention.go:217-224 | at least min(count, n) tags of a group with a count rule are kept |
| Retention.LaterPoliciesDoNotCount | pkg/retention/retention.go:361-371 | only the first matching policy decides |
| AccessControl.IsPermitted | pkg/api/authz.go:499-615 | permitted exactly when a policy that lists the action and the user or one of the groups has all conditions hold, or the default list has the action and there is a name, or the anonymous list and there is none; else the message of the last policy listed by group that denies with one, or else of the last one listed by user |
| AccessControl.Can | pkg/api/authz.go:137-194 | for a longest matching pattern (any of them on a tie) grants exactly by the lists and conditions of its group or of the admin policy; the admin denial goes first; an action that no list has is denied |
| AccessControl.GrantedMeaning | pkg/api/authz.go:137-194 | the grant in terms of the lists of users, groups and actions and of the conditions |
| AccessControl.DenyReasonMeaning | pkg/api/authz.go:160-194 | the reason in the same terms: of the admin policy if it lists the request and denies with a message, else of the group |
| AccessControl.DenialMeaning | pkg/api/authz.go:507-534 | a policy denies with the message of its first condition that does not hold, with none when that one is broken |
| AccessControl.UnlistedIsNeverGranted | pkg/api/authz.go:537-600 | an action that no policy, default, anonymous or admin list has is never granted |
| UserAccess.GetGlobPatterns | pkg/api/authz.go:76-132 | the table has every pattern, and says whether its group lists the user |
| UserAccess.TableMeaning | pkg/api/authz.go:76-132 | the table in terms of the lists: a policy lists the action with the user or a group, or the default or the anonymous list has it |
| UserAccess.UserAccessControl.Can | pkg/requestcontext/user_access_control.go:179-197 | the table's answer for a longest matching pattern, and the defaults for admins and without tables |
| UserAccess.UserAccessControl.SetGlobPatterns | pkg/requestcontext/user_access_control.go:165-175 | one action's table changes; without authorization so far the user is admin no longer |
| UserAccess.UpdateUserAccessControl | pkg/api/authz.go:231-255 | the admin flag and the five tables are those of the configuration, other tables stay |
| UserAccess.PreparedMeaning | pkg/api/authz.go:231-255 | a user prepared with a configuration has that table for each of the five actions |
| UserAccess.TableIsPermissiveDecision | pkg/api/authz.go:98-108 | for a user who is no admin the table decides exactly as the request would with all conditions holding |
| UserAccess.UnconditionalTableIsExact | pkg/api/authz.go:76-194 | so it equals the decision per request when policies carry no conditions |
| UserAccess.NeverUnderListsIffTiesAgree | pkg/api/authz.go:98-108 | for the four method actions, nothing granted is hidden, however conditions evaluate and ties fall, if and only if tied longest patterns agree on listing the user |
| UserAccess.CatalogNeverUnderLists | pkg/requestcontext/user_access_control.go:208-214 | with a unique longest pattern, what the evaluator grants on a resource the prepared user is shown |
| UserAccess.TieCanUnderList | pkg/api/authz.go:142-151 | a configuration in which a tie hides a readable repository |
| QueryTags.NormalizeManifestExtraTags | pkg/api/routes.go:957-981 | accepted exactly when every value is a tag after trimming; then the first occurrences in order; else the first bad value decides the error |
| QueryTags.ClassifyDigestQueryTags | pkg/api/authz.go:885-918 | the valid values split by membership in the repository, first occurrences in order |
| QueryTags.ClassesPartitionWrittenTags | pkg/api/authz.go:885-918 | on an accepted query the two classes are the handler's tags, split: disjoint, without repetition, in order |
| QueryTags.DedupFilter | pkg/api/authz.go:885-918 | taking first occurrences commutes with selecting |
| QueryTags.DedupOrder | pkg/api/authz.go:885-918 | first occurrences: every value once, in the order in which they first come |
| QueryTags.TagGrammar | pkg/regexp/regexp.go:42-53 | a tag is 1 to 128 characters, the first a letter, digit or underscore, the others these or dots and hyphens |
| ManifestWrite.ManifestWriteAuthzChecks | pkg/api/authz.go:813-862 | the checks of a push are exactly: update or create for each tag it names, and for the digest create, update or both |
| ManifestWrite.AuthorizeManifestWrite | pkg/api/authz.go:867-879 | allowed only if every check is granted, denied only with the reason of a check that is not |
| ManifestWrite.GrantableMeaning | pkg/api/authz.go:867-879 | a check is granted if and only if the decision grants its own action on its own reference to the user of the request |
| ManifestWrite.UnlistedMayNotBeDone | pkg/api/authz.go:867-879 | an action that no list has cannot be granted on any reference |
| ManifestWrite.UpdateManifestTags | pkg/api/routes.go:817-850 | which pushes the handler refuses for their tag parameters (more than 46, then a value outside the grammar, then values next to a tag), and which tags it writes |
| ManifestWrite.EveryWrittenTagAuthorized | pkg/api/authz.go:793-862 | for an accepted push, passing all checks is the same as having the right to write each tag by name, and the digest |
| ManifestWrite.PushManifest | pkg/api/authz.go:708-738 | middleware then handler: the tags written are the one of the path, or the trimmed values next to a digest, each once; for each of them the decision grants Update on it when the repository has it and Create when not, and for the digest Create or Update likewise; where no list has Update a push writes no existing tag, where none has Create no new one; the reason of a denial is that of a needed check |

## Left out

- HTTP plumbing, logging, metrics (and the metrics worker), events, configuration loading, the user interface and the benchmark tool.
- Image store and metadb drivers: a call has its effect on the tag map or fails without one.
- RankedHeap.Outranks: ranks are compared as exact quotients, not as float64 values.
- Generators.RunKeepsOrder: task counts are unbounded, not 64-bit.
- Scheduler.Scheduler.SubmitTask: a task that finds its queue full is dropped, so it is outside the exactly-once claim, as in the code; priorities other than the three are not modelled.
- Scheduler.Scheduler.RunScheduler: an event is one turn or call, as the generators' lock and the channels make it; finer interleavings of workers and Shutdown, with the end of the loop and the closing of the channel, are the subject of WorkerPool. A second concurrent Shutdown is not modelled.
- NoStarvation.EveryGeneratorIsSelectedAgain: stated for generators that are always ready and do not finish; one that finishes starts its count again and leaves the heap.
- NoStarvation.EveryTaskCountGrows: speaks of the task count, which a retry on a full queue raises too, not of the number of tasks queued.
- Watcher.ClosesReturn: says nothing of a loop that begins polls and reloads without end instead of taking its stop signal.
- Watcher.CredentialsFollowPath: reading a file is one step that sees one version; what fsnotify delivers and the debounce timer are an arbitrary choice of the next reload, and adding and removing watches is not modelled.
- HTPasswd.HTPasswd.Reload: the file is given as the lines the scanner yields, and a read error part way is not distinguished from the end of the file, as in the code.
- HTPasswd.HTPasswdWatcher.ReloadWatchedFile: the stat and the content are parameters of the section; that its steps are not disturbed in between is ReloadIsAtomic.
- HTPasswd.HTPasswdWatcher.ChangeFile: the same, with ChangeIsAtomic; moving the fsnotify watches to the new path is not modelled, since the poll works without them.
- HTPasswd.HTPasswdWatcher.TakeForClose: the debounce timer that Close stops is not modelled; a reload may begin at any time.
- Password verification (bcrypt, SHA) is not modelled.
- ManifestHooks.Registry.OnUpdateManifestDigestTags: claims hold for tags under which the pushed and the prior manifest are plain images and whose rollback calls succeed; signature records and referrers are given by a function, and removing an idle repository is possible only when the index is empty.
- ByteRanges.ParseSpec: numbers are read as strconv.ParseInt reads them, so "+5" is accepted, and one unsatisfiable spec rejects the whole header; section 14.1.2 of RFC 9110 would accept the satisfiable rest.
- MultipartBody.ComputeMultipartBodyLength: the total is not bounded to 64 bits, and its error returns are not modelled, since the boundary comes from a writer and a counter takes every write; the writer is given by its part header, which depends on the header and on being first, and its closing text.
- TagPaging.ListTags: the store's listing and its error are not modelled; characters stand for bytes.
- Retention.PerformDays: the clock is an integer that does not overflow; each rule of each policy has its own reading.
- Retention.GroupCandidatesByTagPolicy: the cache of compiled expressions is not modelled.
- Retention by index alone and of untagged manifests: the same rules without groups.
- AccessControl.Can: the value of a condition depends on the request alone, so all conditions of a request see the same clock; patterns are measured in characters.
- UserAccess.UserAccessControl.CanOnResource: its evaluator is given by the configuration it decides by.
- Sharing of the permission structures between copies of a UserAccessControl value is not modelled.
- ManifestWrite.PushManifest: digest parsing is a given function; bearer tokens, which bypass the middleware, and the handler's other refusals (media type, body size, unsigned manifests) are not modelled, nor are tags that change between the check and the write.
- Sync, scrub, garbage collection, search and the other extensions.
