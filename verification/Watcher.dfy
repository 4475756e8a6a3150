/**
 The htpasswd watcher: Run, Close and ChangeFile calls, the loop goroutines they start and
 stop, and the file system, as one state machine. A step is one critical section, one
 channel operation or one file access; everything interleaves.

 A generation is one successful Run. Its done channel, its stopped channel and its loop
 goroutine share its number.
 */
module Watcher {
  import opened Optional

  type Path = string

  /** What a stat of a file identifies: its path and the version of its content. */
  datatype FileInfo = FileInfo(path: Path, version: nat)

  /** What a poll compares of two stats: the file's identity, its size and its modification time. */
  datatype Fingerprint = Fingerprint(file: int, size: int, modTime: int)

  datatype Creds = NoCreds | Loaded(path: Path, version: nat)

  /** A loop goroutine: at its select; in checkFileChanged; in reloadWatchedFile (from
      ReloadStat on with mu held); past its select loop; past its cleanup; gone. */
  datatype Loop =
    | Selecting
    | Polling(path: Path)
    | Seen(info: FileInfo)
    | WantsReload
    | ReloadStat(reloadInfo: Option<FileInfo>)
    | ReloadHas(reloadInfo: Option<FileInfo>, version: nat)
    | ReloadStored(reloadInfo: Option<FileInfo>)
    | Leaving
    | Cleaned
    | Exited

  /** A Close or ChangeFile call. ChangeFile holds mu until it has answered; `before` is the
      state it found when it took mu. */
  datatype Call =
    | CloseCaptured(watcher: Option<nat>, done: Option<nat>, stopped: Option<nat>)
    | CloseSignals(done: Option<nat>, stopped: Option<nat>)
    | CloseWaits(stopped: Option<nat>)
    | CloseReturned
    | ChangeStat(path: Path, info: Option<FileInfo>, before: Config)
    | ChangeHas(path: Path, info: Option<FileInfo>, version: nat, before: Config)
    | ChangeStored(path: Path, info: Option<FileInfo>)
    | ChangeReturned(ok: bool)

  datatype Config = Config(filePath: Path, fileInfo: Option<FileInfo>, creds: Creds)

  datatype Owner = LoopOwner(n: nat) | CallOwner(c: nat)

  datatype System = System(
    config: Config, pristine: bool,
    mu: Option<Owner>, done: Option<nat>, stopped: Option<nat>, watcher: Option<nat>,
    loops: seq<Loop>, calls: seq<Call>,
    closedDone: set<nat>, closedWatchers: set<nat>, panicked: bool,
    files: map<Path, nat>, nextVersion: nat)

  datatype Step =
    // the outside
    | WriteFile(path: Path)
    | RemoveFile(path: Path)
    | WatcherBreaks(n: nat)
    // beginnings
    | RunCall(inotify: bool)
    | CloseCall
    | ChangeCall(path: Path)
    | StartPoll(n: nat)
    | StartReload(n: nat)
    // the rest of what was begun
    | PollStat(n: nat)
    | PollCompare(n: nat)
    | ReloadLock(n: nat)
    | ReloadRead(n: nat)
    | ReloadStore(n: nat)
    | ReloadFinish(n: nat)
    | LoopLeave(n: nat)
    | LoopCleanup(n: nat)
    | LoopCloseStopped(n: nat)
    | CloseWatcher(c: nat)
    | CloseDone(c: nat)
    | CloseWait(c: nat)
    | ChangeRead(c: nat)
    | ChangeStore(c: nat)
    | ChangeFinish(c: nat)

  ghost function Init(filePath: Path): System {
    System(Config(filePath, None, NoCreds), true, None, None, None, None, [], [], {}, {}, false, map[], 0)
  }

  ghost function Stat(s: System, path: Path): Option<FileInfo> {
    if path in s.files then Some(FileInfo(path, s.files[path])) else None
  }

  ghost predicate LoopAt(s: System, n: nat) { n < |s.loops| }
  ghost predicate CallAt(s: System, c: nat) { c < |s.calls| }

  ghost predicate Enabled(s: System, step: Step) {
    match step
    case WriteFile(path) => path != ""
    case RemoveFile(_) => true
    case WatcherBreaks(_) => true
    case RunCall(_) => s.mu == None
    case CloseCall => s.mu == None
    case ChangeCall(_) => s.mu == None
    case StartPoll(n) => LoopAt(s, n) && s.loops[n].Selecting? && s.mu == None
    case StartReload(n) => LoopAt(s, n) && s.loops[n].Selecting?
    case PollStat(n) => LoopAt(s, n) && s.loops[n].Polling?
    case PollCompare(n) => LoopAt(s, n) && s.loops[n].Seen? && s.mu == None
    case ReloadLock(n) => LoopAt(s, n) && s.loops[n].WantsReload? && s.mu == None
    case ReloadRead(n) => LoopAt(s, n) && s.loops[n].ReloadStat?
    case ReloadStore(n) => LoopAt(s, n) && s.loops[n].ReloadHas?
    case ReloadFinish(n) => LoopAt(s, n) && s.loops[n].ReloadStored?
    case LoopLeave(n) => LoopAt(s, n) && s.loops[n].Selecting? && (n in s.closedDone || n in s.closedWatchers)
    case LoopCleanup(n) => LoopAt(s, n) && s.loops[n].Leaving? && s.mu == None
    case LoopCloseStopped(n) => LoopAt(s, n) && s.loops[n].Cleaned?
    case CloseWatcher(c) => CallAt(s, c) && s.calls[c].CloseCaptured?
    case CloseDone(c) => CallAt(s, c) && s.calls[c].CloseSignals?
    case CloseWait(c) => CallAt(s, c) && s.calls[c].CloseWaits?
      && (s.calls[c].stopped.Some? ==> LoopAt(s, s.calls[c].stopped.value) && s.loops[s.calls[c].stopped.value].Exited?)
    case ChangeRead(c) => CallAt(s, c) && s.calls[c].ChangeStat?
    case ChangeStore(c) => CallAt(s, c) && s.calls[c].ChangeHas?
    case ChangeFinish(c) => CallAt(s, c) && s.calls[c].ChangeStored?
  }

  /** checkFileChanged's answer, for fingerprints that a stat derives from the file. */
  ghost predicate Unchanged(s: System, info: FileInfo, fp: FileInfo -> Fingerprint) {
    s.config.fileInfo.Some? && fp(s.config.fileInfo.value) == fp(info)
  }

  /** Steps that leave the markers, the calls and the number of generations alone. */
  predicate OfLoop(step: Step) {
    step.StartPoll? || step.StartReload? || step.PollStat? || step.PollCompare? || step.ReloadLock?
    || step.ReloadRead? || step.ReloadStore? || step.ReloadFinish? || step.LoopLeave? || step.LoopCloseStopped?
  }

  predicate OfFiles(step: Step) {
    step.WriteFile? || step.RemoveFile? || step.WatcherBreaks?
  }

  predicate OfChange(step: Step) {
    step.ChangeCall? || step.ChangeRead? || step.ChangeStore? || step.ChangeFinish?
  }

  ghost function Next(s: System, step: Step, fp: FileInfo -> Fingerprint): System
    requires Enabled(s, step)
  {
    if OfFiles(step) then NextFiles(s, step)
    else if OfLoop(step) then NextLoop(s, step, fp)
    else if OfChange(step) then NextChange(s, step)
    else NextLife(s, step)
  }

  ghost function NextFiles(s: System, step: Step): System
    requires OfFiles(step)
  {
    match step
    case WriteFile(path) => s.(files := s.files[path := s.nextVersion], nextVersion := s.nextVersion + 1)
    case RemoveFile(path) => s.(files := s.files - {path})
    case WatcherBreaks(n) => s.(closedWatchers := s.closedWatchers + {n})
  }

  /** Poll, reload and leave: the loop goroutine outside its cleanup. */
  ghost function NextLoop(s: System, step: Step, fp: FileInfo -> Fingerprint): System
    requires OfLoop(step) && Enabled(s, step)
  {
    match step
    case StartPoll(n) =>
      if s.config.filePath == "" then s else s.(loops := s.loops[n := Polling(s.config.filePath)])
    case StartReload(n) => s.(loops := s.loops[n := WantsReload])
    case PollStat(n) =>
      var info := Stat(s, s.loops[n].path);
      s.(loops := s.loops[n := if info.Some? then Seen(info.value) else Selecting])
    case PollCompare(n) =>
      s.(loops := s.loops[n := if Unchanged(s, s.loops[n].info, fp) then Selecting else WantsReload])
    case ReloadLock(n) =>
      if s.config.filePath == "" then s.(loops := s.loops[n := Selecting])
      else s.(mu := Some(LoopOwner(n)), loops := s.loops[n := ReloadStat(Stat(s, s.config.filePath))])
    case ReloadRead(n) =>
      if s.config.filePath in s.files then
        s.(loops := s.loops[n := ReloadHas(s.loops[n].reloadInfo, s.files[s.config.filePath])])
      else s.(mu := None, loops := s.loops[n := Selecting])
    case ReloadStore(n) =>
      s.(config := s.config.(creds := Loaded(s.config.filePath, s.loops[n].version)), pristine := false,
         loops := s.loops[n := ReloadStored(s.loops[n].reloadInfo)])
    case ReloadFinish(n) =>
      s.(config := s.config.(fileInfo := s.loops[n].reloadInfo), mu := None, loops := s.loops[n := Selecting])
    case LoopLeave(n) => s.(loops := s.loops[n := Leaving])
    case LoopCloseStopped(n) => s.(loops := s.loops[n := Exited])
  }

  ghost function NextChange(s: System, step: Step): System
    requires OfChange(step) && Enabled(s, step)
  {
    match step
    case ChangeCall(path) =>
      if path == "" then
        s.(config := Config("", None, NoCreds), pristine := false, calls := s.calls + [ChangeReturned(true)])
      else
        s.(mu := Some(CallOwner(|s.calls|)), calls := s.calls + [ChangeStat(path, Stat(s, path), s.config)])
    case ChangeRead(c) =>
      var at := s.calls[c];
      if at.path in s.files then
        s.(calls := s.calls[c := ChangeHas(at.path, at.info, s.files[at.path], at.before)])
      else s.(mu := None, calls := s.calls[c := ChangeReturned(false)])
    case ChangeStore(c) =>
      var at := s.calls[c];
      s.(config := s.config.(creds := Loaded(at.path, at.version)), pristine := false,
         calls := s.calls[c := ChangeStored(at.path, at.info)])
    case ChangeFinish(c) =>
      var at := s.calls[c];
      s.(config := s.config.(filePath := at.path, fileInfo := at.info), mu := None,
         calls := s.calls[c := ChangeReturned(true)])
  }

  /** Run, Close and the loop's cleanup. */
  ghost function NextLife(s: System, step: Step): System
    requires !OfFiles(step) && !OfLoop(step) && !OfChange(step) && Enabled(s, step)
  {
    match step
    case RunCall(inotify) =>
      if s.done.Some? || s.stopped.Some? then s
      else
        var n := |s.loops|;
        s.(done := Some(n), stopped := Some(n), watcher := if inotify then Some(n) else None,
           loops := s.loops + [Selecting])
    case CloseCall =>
      s.(calls := s.calls + [CloseCaptured(s.watcher, s.done, s.stopped)], done := None, watcher := None)
    case LoopCleanup(n) =>
      var t := s.(loops := s.loops[n := Cleaned]);
      if s.stopped == Some(n) then
        t.(done := None, stopped := None, watcher := None,
           closedWatchers := s.closedWatchers + if s.watcher.Some? then {s.watcher.value} else {})
      else t
    case CloseWatcher(c) =>
      var at := s.calls[c];
      s.(calls := s.calls[c := CloseSignals(at.done, at.stopped)],
         closedWatchers := s.closedWatchers + if at.watcher.Some? then {at.watcher.value} else {})
    case CloseDone(c) =>
      var at := s.calls[c];
      var t := s.(calls := s.calls[c := CloseWaits(at.stopped)]);
      if at.done == None then t
      else t.(closedDone := s.closedDone + {at.done.value}, panicked := s.panicked || at.done.value in s.closedDone)
    case CloseWait(c) => s.(calls := s.calls[c := CloseReturned])
  }

  ghost function Run(s: System, steps: seq<Step>, fp: FileInfo -> Fingerprint): Option<System>
    decreases |steps|
  {
    if steps == [] then Some(s)
    else if Enabled(s, steps[0]) then Run(Next(s, steps[0], fp), steps[1..], fp)
    else None
  }

  ghost predicate Reachable(s: System, fp: FileInfo -> Fingerprint) {
    exists path: Path, steps: seq<Step> :: Run(Init(path), steps, fp) == Some(s)
  }

  // ----- the life cycle

  /** The loop has not cleared the watcher's state yet. */
  ghost predicate Active(l: Loop) {
    !l.Cleaned? && !l.Exited?
  }

  /** A Close that still has to close the done channel it captured, if it captured one. */
  ghost predicate Closing(a: Call) {
    a.CloseCaptured? || a.CloseSignals?
  }

  ghost predicate InClose(a: Call) {
    Closing(a) || a.CloseWaits?
  }

  /** The watcher's markers name the one active loop. */
  ghost predicate OneLoop(s: System) {
    && (forall n | 0 <= n < |s.loops| :: Active(s.loops[n]) <==> s.stopped == Some(n))
    && (s.stopped.Some? ==> s.stopped.value < |s.loops|)
    && (s.done.Some? ==> s.stopped == s.done)
  }

  /** Every done channel has one closer: the watcher's marker, then the Close that took it. */
  ghost predicate OneCloser(s: System) {
    ClosersFit(s) && ClosersDiffer(s)
  }

  ghost predicate ClosersDiffer(s: System) {
    forall c, d | 0 <= c < d < |s.calls| :: !SameDone(s.calls[c], s.calls[d])
  }

  ghost predicate ClosersFit(s: System) {
    && !s.panicked
    && (s.done.Some? ==> s.done.value < |s.loops| && s.done.value !in s.closedDone)
    && (forall n | n in s.closedDone :: n < |s.loops|)
    && (forall c | 0 <= c < |s.calls| :: Captures(s, s.calls[c]))
  }

  ghost predicate Captures(s: System, a: Call) {
    && (Closing(a) && a.done.Some? ==>
         a.done.value < |s.loops| && a.done.value !in s.closedDone && s.done != a.done)
    && (InClose(a) && a.stopped.Some? ==> a.stopped.value < |s.loops| && s.done != a.stopped)
  }

  ghost predicate SameDone(a: Call, b: Call) {
    Closing(a) && Closing(b) && a.done.Some? && a.done == b.done
  }

  /** A loop that the done marker no longer names is told to stop, or is about to be. */
  ghost predicate StopIsComing(s: System) {
    s.stopped.Some? && s.done == None ==>
      s.stopped.value in s.closedDone
      || exists c :: 0 <= c < |s.calls| && Closing(s.calls[c]) && s.calls[c].done == s.stopped
  }

  ghost predicate LoopHolds(l: Loop) {
    l.ReloadStat? || l.ReloadHas? || l.ReloadStored?
  }

  ghost predicate CallHolds(a: Call) {
    a.ChangeStat? || a.ChangeHas? || a.ChangeStored?
  }

  ghost predicate MutexHeld(s: System) {
    && (forall n | 0 <= n < |s.loops| :: LoopHolds(s.loops[n]) <==> s.mu == Some(LoopOwner(n)))
    && (forall c | 0 <= c < |s.calls| :: CallHolds(s.calls[c]) <==> s.mu == Some(CallOwner(c)))
    && (s.mu.Some? ==> match s.mu.value case LoopOwner(n) => n < |s.loops| case CallOwner(c) => c < |s.calls|)
  }

  ghost predicate LifeCycle(s: System) {
    OneLoop(s) && OneCloser(s) && StopIsComing(s)
  }

  /** What the steps of a loop outside its cleanup keep. */
  lemma LoopFrame(s: System, step: Step, fp: FileInfo -> Fingerprint)
    requires OfLoop(step) && Enabled(s, step)
    ensures var r := NextLoop(s, step, fp); LoopOnly(s, r, step.n)
  {
  }

  ghost predicate LoopOnly(s: System, r: System, n: nat) {
    && r.done == s.done && r.stopped == s.stopped && r.watcher == s.watcher && r.calls == s.calls
    && r.closedDone == s.closedDone && r.panicked == s.panicked
    && n < |s.loops| == |r.loops| && r.loops == s.loops[n := r.loops[n]]
    && Active(r.loops[n]) == Active(s.loops[n])
  }

  lemma LoopOnlyKeepsLifeCycle(s: System, r: System, n: nat)
    requires LifeCycle(s) && LoopOnly(s, r, n)
    ensures LifeCycle(r)
  {
  }

  /** What the steps of ChangeFile keep. */
  lemma ChangeFrame(s: System, step: Step)
    requires OfChange(step) && Enabled(s, step)
    ensures var r := NextChange(s, step);
      && r.done == s.done && r.stopped == s.stopped && r.watcher == s.watcher && r.loops == s.loops
      && r.closedDone == s.closedDone && r.panicked == s.panicked && |r.calls| >= |s.calls|
      && forall c | 0 <= c < |r.calls| :: (c < |s.calls| && r.calls[c] == s.calls[c]) || !InClose(r.calls[c])
  {
    hide Stat;
    var r := NextChange(s, step);
    if !step.ChangeCall? {
      assert r.calls == s.calls[step.c := r.calls[step.c]];
    }
  }

  lemma ChangeFrameBack(s: System, step: Step)
    requires OfChange(step) && Enabled(s, step)
    ensures forall c | 0 <= c < |s.calls| && InClose(s.calls[c]) :: NextChange(s, step).calls[c] == s.calls[c]
  {
  }

  lemma StepKeepsLifeCycle(s: System, step: Step, fp: FileInfo -> Fingerprint)
    requires LifeCycle(s) && Enabled(s, step)
    ensures LifeCycle(Next(s, step, fp))
  {
    hide NextLoop, NextChange, NextLife;
    if OfLoop(step) {
      LoopFrame(s, step, fp);
      LoopOnlyKeepsLifeCycle(s, NextLoop(s, step, fp), step.n);
      hide Enabled;
    } else if OfChange(step) {
      ChangeFrame(s, step);
      ChangeFrameBack(s, step);
      hide Enabled;
    } else if !OfFiles(step) {
      LifeKeepsOneLoop(s, step);
      LifeKeepsOneCloser(s, step);
      LifeKeepsStopComing(s, step);
      hide Enabled;
    }
  }

  lemma LifeKeepsOneLoop(s: System, step: Step)
    requires OneLoop(s) && Enabled(s, step) && !OfFiles(step) && !OfLoop(step) && !OfChange(step)
    ensures OneLoop(NextLife(s, step))
  {
  }

  lemma LifeKeepsOneCloser(s: System, step: Step)
    requires OneLoop(s) && OneCloser(s) && Enabled(s, step) && !OfFiles(step) && !OfLoop(step) && !OfChange(step)
    ensures OneCloser(NextLife(s, step))
  {
    LifeKeepsClosersFit(s, step);
    LifeKeepsClosersDiffer(s, step);
  }

  lemma LifeKeepsClosersFit(s: System, step: Step)
    requires OneLoop(s) && OneCloser(s) && Enabled(s, step) && !OfFiles(step) && !OfLoop(step) && !OfChange(step)
    ensures ClosersFit(NextLife(s, step))
  {
    if step.CloseDone? {
      CloseDoneKeepsClosersFit(s, step.c);
    } else {
      RestKeepsClosersFit(s, step);
    }
  }

  /** The channel closed here is captured by this Close alone. */
  lemma CloseDoneKeepsClosersFit(s: System, c: nat)
    requires OneCloser(s) && Enabled(s, CloseDone(c))
    ensures ClosersFit(NextLife(s, CloseDone(c)))
  {
    var r := NextLife(s, CloseDone(c));
    assert Captures(s, s.calls[c]);
    forall d | 0 <= d < |r.calls| ensures Captures(r, r.calls[d]) {
      assert Captures(s, s.calls[d]);
      assert d != c ==> !SameDone(s.calls[if d < c then d else c], s.calls[if d < c then c else d]);
    }
  }

  lemma RestKeepsClosersFit(s: System, step: Step)
    requires OneLoop(s) && OneCloser(s) && Enabled(s, step)
    requires !OfFiles(step) && !OfLoop(step) && !OfChange(step) && !step.CloseDone?
    ensures ClosersFit(NextLife(s, step))
  {
    hide ClosersDiffer;
    var r := NextLife(s, step);
    forall c | 0 <= c < |r.calls| ensures Captures(r, r.calls[c]) {
      assert c < |s.calls| ==> Captures(s, s.calls[c]);
    }
  }

  lemma LifeKeepsClosersDiffer(s: System, step: Step)
    requires OneLoop(s) && OneCloser(s) && Enabled(s, step) && !OfFiles(step) && !OfLoop(step) && !OfChange(step)
    ensures ClosersDiffer(NextLife(s, step))
  {
    var r := NextLife(s, step);
    forall c, d | 0 <= c < d < |r.calls| ensures !SameDone(r.calls[c], r.calls[d]) {
      assert Captures(s, s.calls[c]);
      assert d < |s.calls| ==> !SameDone(s.calls[c], s.calls[d]);
    }
  }

  lemma LifeKeepsStopComing(s: System, step: Step)
    requires OneLoop(s) && StopIsComing(s) && Enabled(s, step) && !OfFiles(step) && !OfLoop(step) && !OfChange(step)
    ensures StopIsComing(NextLife(s, step))
  {
    var r := NextLife(s, step);
    if c :| 0 <= c < |s.calls| && Closing(s.calls[c]) && s.calls[c].done == s.stopped {
      assert (Closing(r.calls[c]) && r.calls[c].done == s.stopped)
          || (s.stopped.Some? ==> s.stopped.value in r.closedDone);
    }
    if step.CloseCall? {
      var c := |s.calls|;
      assert Closing(r.calls[c]) && r.calls[c].done == s.done;
    }
  }

  lemma StepKeepsMutex(s: System, step: Step, fp: FileInfo -> Fingerprint)
    requires MutexHeld(s) && Enabled(s, step)
    ensures MutexHeld(Next(s, step, fp))
  {
    hide NextLoop, NextChange, NextLife;
    if OfLoop(step) {
      LoopKeepsMutex(s, step, fp);
    } else if OfChange(step) {
      ChangeKeepsMutex(s, step);
    } else if !OfFiles(step) {
      LifeKeepsMutex(s, step);
    }
    hide Enabled;
  }

  lemma LoopKeepsMutex(s: System, step: Step, fp: FileInfo -> Fingerprint)
    requires MutexHeld(s) && Enabled(s, step) && OfLoop(step)
    ensures MutexHeld(NextLoop(s, step, fp))
  {
    hide Stat, Unchanged;
    var n, r := step.n, NextLoop(s, step, fp);
    assert r.loops == s.loops[n := r.loops[n]] && r.calls == s.calls;
  }

  lemma ChangeKeepsMutex(s: System, step: Step)
    requires MutexHeld(s) && Enabled(s, step) && OfChange(step)
    ensures MutexHeld(NextChange(s, step))
  {
  }

  lemma LifeKeepsMutex(s: System, step: Step)
    requires MutexHeld(s) && Enabled(s, step) && !OfFiles(step) && !OfLoop(step) && !OfChange(step)
    ensures MutexHeld(NextLife(s, step))
  {
    hide MutexHeld, NextLife, Enabled;
    LifeKeepsHolders(s, step);
    SameHoldersKeepMutex(s, NextLife(s, step));
  }

  /** Nobody takes or releases mu, and who is new does not hold it. */
  ghost predicate SameHolders(s: System, r: System) {
    && r.mu == s.mu && |s.loops| <= |r.loops| && |s.calls| <= |r.calls|
    && (forall n | 0 <= n < |r.loops| :: LoopHolds(r.loops[n]) <==> n < |s.loops| && LoopHolds(s.loops[n]))
    && (forall c | 0 <= c < |r.calls| :: CallHolds(r.calls[c]) <==> c < |s.calls| && CallHolds(s.calls[c]))
  }

  lemma SameHoldersKeepMutex(s: System, r: System)
    requires MutexHeld(s) && SameHolders(s, r)
    ensures MutexHeld(r)
  {
  }

  lemma LifeKeepsHolders(s: System, step: Step)
    requires Enabled(s, step) && !OfFiles(step) && !OfLoop(step) && !OfChange(step)
    ensures SameHolders(s, NextLife(s, step))
  {
    if step.CloseWatcher? || step.CloseDone? || step.CloseWait? {
      var r := NextLife(s, step);
      assert r.loops == s.loops && r.calls == s.calls[step.c := r.calls[step.c]];
    }
  }

  // ----- the credentials

  /** No later than the file's current content, and than any content it will ever have. */
  ghost predicate NotAhead(s: System, path: Path, version: nat) {
    version < s.nextVersion && (path in s.files ==> version <= s.files[path])
  }

  ghost predicate FilesFit(s: System) {
    && (forall p | p in s.files :: p != "" && s.files[p] < s.nextVersion)
    && (s.config.creds.Loaded? ==> NotAhead(s, s.config.creds.path, s.config.creds.version))
  }

  /** The credentials and the baseline belong to the watched path, the baseline not ahead of
      the credentials; without a path there is neither. */
  ghost predicate Settled(s: System) {
    var c := s.config;
    && (c.filePath == "" ==> c.creds == NoCreds && c.fileInfo == None)
    && (c.creds.Loaded? ==> c.creds.path == c.filePath)
    && (c.creds == NoCreds ==> c.fileInfo == None && (c.filePath == "" || s.pristine))
    && (c.fileInfo.Some? ==> Describes(c.fileInfo, c.filePath, c.creds.version))
  }

  /** A stat of path taken no later than its content of that version was read. */
  ghost predicate Describes(info: Option<FileInfo>, path: Path, version: nat) {
    info.Some? ==> info.value.path == path && info.value.version <= version
  }

  ghost predicate StatFits(s: System, info: Option<FileInfo>, path: Path) {
    info.Some? ==> info.value.path == path && NotAhead(s, path, info.value.version)
  }

  ghost predicate ReloadFits(s: System, l: Loop) {
    && Settled(s) && s.config.filePath != ""
    && match l
       case ReloadStat(info) => StatFits(s, info, s.config.filePath)
       case ReloadHas(info, version) =>
         && Describes(info, s.config.filePath, version) && NotAhead(s, s.config.filePath, version)
         && (s.config.creds.Loaded? ==> s.config.creds.version <= version)
       case ReloadStored(info) => s.config.creds.Loaded? && Describes(info, s.config.filePath, s.config.creds.version)
       case _ => true
  }

  ghost predicate ChangeFits(s: System, a: Call) {
    match a
    case ChangeStat(path, info, before) =>
      Settled(s) && s.config == before && path != "" && StatFits(s, info, path)
    case ChangeHas(path, info, version, before) =>
      Settled(s) && s.config == before && path != "" && Describes(info, path, version) && NotAhead(s, path, version)
    case ChangeStored(path, info) =>
      path != "" && s.config.creds.Loaded? && s.config.creds.path == path
      && Describes(info, path, s.config.creds.version)
    case _ => true
  }

  ghost predicate CredentialsFit(s: System)
    requires MutexHeld(s)
  {
    && FilesFit(s)
    && match s.mu
       case None => Settled(s)
       case Some(LoopOwner(n)) => ReloadFits(s, s.loops[n])
       case Some(CallOwner(c)) => ChangeFits(s, s.calls[c])
  }

  lemma StepKeepsCredentials(s: System, step: Step, fp: FileInfo -> Fingerprint)
    requires Enabled(s, step) && MutexHeld(s) && MutexHeld(Next(s, step, fp)) && CredentialsFit(s)
    ensures CredentialsFit(Next(s, step, fp))
  {
    hide NextLoop, NextChange, NextLife, NextFiles;
    if OfLoop(step) {
      LoopKeepsCredentials(s, step, fp);
    } else if OfChange(step) {
      ChangeKeepsCredentials(s, step);
    } else if OfFiles(step) {
      FilesKeepCredentials(s, step);
    } else {
      LifeKeepsCredentials(s, step);
    }
    hide Enabled, CredentialsFit;
  }

  /** Nothing the credentials depend on differs. */
  ghost predicate SameData(s: System, r: System) {
    && r.config == s.config && r.pristine == s.pristine && r.files == s.files && r.nextVersion == s.nextVersion
    && r.mu == s.mu && |s.loops| <= |r.loops| && |s.calls| <= |r.calls|
    && (forall n | 0 <= n < |s.loops| && LoopHolds(s.loops[n]) :: r.loops[n] == s.loops[n])
    && (forall c | 0 <= c < |s.calls| && CallHolds(s.calls[c]) :: r.calls[c] == s.calls[c])
  }

  lemma SameDataKeepsCredentials(s: System, r: System)
    requires MutexHeld(s) && MutexHeld(r) && CredentialsFit(s) && SameData(s, r)
    ensures CredentialsFit(r)
  {
    match s.mu
    case None =>
    case Some(LoopOwner(n)) => assert LoopHolds(s.loops[n]);
    case Some(CallOwner(c)) => assert CallHolds(s.calls[c]);
  }

  predicate OfReload(step: Step) {
    step.ReloadLock? || step.ReloadRead? || step.ReloadStore? || step.ReloadFinish?
  }

  lemma LoopKeepsCredentials(s: System, step: Step, fp: FileInfo -> Fingerprint)
    requires OfLoop(step) && Enabled(s, step)
    requires MutexHeld(s) && MutexHeld(NextLoop(s, step, fp)) && CredentialsFit(s)
    ensures CredentialsFit(NextLoop(s, step, fp))
  {
    if OfReload(step) {
      ReloadKeepsCredentials(s, step, fp);
    } else {
      assert SameData(s, NextLoop(s, step, fp)) by {
        hide CredentialsFit, MutexHeld;
      }
      SameDataKeepsCredentials(s, NextLoop(s, step, fp));
      hide NextLoop, CredentialsFit, MutexHeld, Enabled;
    }
  }

  lemma ReloadKeepsCredentials(s: System, step: Step, fp: FileInfo -> Fingerprint)
    requires OfReload(step) && Enabled(s, step)
    requires MutexHeld(s) && MutexHeld(NextLoop(s, step, fp)) && CredentialsFit(s)
    ensures CredentialsFit(NextLoop(s, step, fp))
  {
    var n := step.n;
    assert LoopHolds(s.loops[n]) <==> s.mu == Some(LoopOwner(n));
  }

  lemma ChangeKeepsCredentials(s: System, step: Step)
    requires OfChange(step) && Enabled(s, step)
    requires MutexHeld(s) && MutexHeld(NextChange(s, step)) && CredentialsFit(s)
    ensures CredentialsFit(NextChange(s, step))
  {
    hide NextChange, CredentialsFit, MutexHeld;
    if step.ChangeCall? {
      ChangeCallKeepsCredentials(s, step.path);
    } else {
      ChangeOnKeepsCredentials(s, step, step.c);
    }
  }

  lemma ChangeCallKeepsCredentials(s: System, path: Path)
    requires Enabled(s, ChangeCall(path)) && MutexHeld(s) && CredentialsFit(s)
    requires MutexHeld(NextChange(s, ChangeCall(path)))
    ensures CredentialsFit(NextChange(s, ChangeCall(path)))
  {
  }

  lemma ChangeOnKeepsCredentials(s: System, step: Step, c: nat)
    requires OfChange(step) && !step.ChangeCall? && step.c == c && Enabled(s, step)
    requires MutexHeld(s) && MutexHeld(NextChange(s, step)) && CredentialsFit(s)
    ensures CredentialsFit(NextChange(s, step))
  {
    assert CallHolds(s.calls[c]);
  }

  lemma FilesKeepCredentials(s: System, step: Step)
    requires OfFiles(step) && Enabled(s, step)
    requires MutexHeld(s) && MutexHeld(NextFiles(s, step)) && CredentialsFit(s)
    ensures CredentialsFit(NextFiles(s, step))
  {
  }

  lemma LifeKeepsCredentials(s: System, step: Step)
    requires !OfFiles(step) && !OfLoop(step) && !OfChange(step) && Enabled(s, step)
    requires MutexHeld(s) && MutexHeld(NextLife(s, step)) && CredentialsFit(s)
    ensures CredentialsFit(NextLife(s, step))
  {
    hide NextLife, CredentialsFit, MutexHeld, Enabled, SameData;
    LifeKeepsData(s, step);
    SameDataKeepsCredentials(s, NextLife(s, step));
  }

  lemma LifeKeepsData(s: System, step: Step)
    requires !OfFiles(step) && !OfLoop(step) && !OfChange(step) && Enabled(s, step)
    ensures SameData(s, NextLife(s, step))
  {
    if step.CloseWatcher? || step.CloseDone? || step.CloseWait? {
      CloseKeepsData(s, step, step.c);
    } else {
      RestKeepsData(s, step);
    }
    hide NextLife, SameData, Enabled;
  }

  lemma CloseKeepsData(s: System, step: Step, c: nat)
    requires (step.CloseWatcher? || step.CloseDone? || step.CloseWait?) && step.c == c && Enabled(s, step)
    ensures SameData(s, NextLife(s, step))
  {
    var r := NextLife(s, step);
    assert !CallHolds(s.calls[c]) && r.calls == s.calls[c := r.calls[c]] && r.loops == s.loops;
  }

  lemma RestKeepsData(s: System, step: Step)
    requires (step.RunCall? || step.CloseCall? || step.LoopCleanup?) && Enabled(s, step)
    ensures SameData(s, NextLife(s, step))
  {
  }

  // ----- every reachable state

  ghost predicate Invariant(s: System) {
    LifeCycle(s) && MutexHeld(s) && CredentialsFit(s)
  }

  lemma {:induction false} RunKeepsInvariant(s: System, steps: seq<Step>, fp: FileInfo -> Fingerprint)
    requires Invariant(s) && Run(s, steps, fp).Some?
    ensures Invariant(Run(s, steps, fp).value)
    decreases |steps|
  {
    hide LifeCycle, MutexHeld, CredentialsFit, Next, Enabled;
    if steps != [] {
      StepKeepsLifeCycle(s, steps[0], fp);
      StepKeepsMutex(s, steps[0], fp);
      StepKeepsCredentials(s, steps[0], fp);
      RunKeepsInvariant(Next(s, steps[0], fp), steps[1..], fp);
    }
  }

  lemma ReachableHolds(s: System, fp: FileInfo -> Fingerprint)
    requires Reachable(s, fp)
    ensures Invariant(s)
  {
    var path: Path, steps: seq<Step> :| Run(Init(path), steps, fp) == Some(s);
    RunKeepsInvariant(Init(path), steps, fp);
  }

  // ----- main results: the life cycle

  /** At most one loop is active, and no done channel is ever closed twice. */
  lemma AtMostOneActiveLoop(s: System, fp: FileInfo -> Fingerprint, m: nat, n: nat)
    requires Reachable(s, fp) && m < |s.loops| && n < |s.loops| && Active(s.loops[m]) && Active(s.loops[n])
    ensures m == n && s.stopped == Some(n)
  {
    ReachableHolds(s, fp);
  }

  lemma DoneClosedOnce(s: System, fp: FileInfo -> Fingerprint)
    requires Reachable(s, fp)
    ensures !s.panicked
  {
    ReachableHolds(s, fp);
  }

  /** Run starts a loop exactly when no loop is active and no Close waits for one to clear its state. */
  lemma RunStartsWhenNoLoopActive(s: System, fp: FileInfo -> Fingerprint, inotify: bool)
    requires Reachable(s, fp) && Enabled(s, RunCall(inotify))
    ensures Next(s, RunCall(inotify), fp) != s <==> forall n | 0 <= n < |s.loops| :: !Active(s.loops[n])
  {
    ReachableHolds(s, fp);
    if s.stopped.Some? {
      assert Active(s.loops[s.stopped.value]);
    } else {
      assert |Next(s, RunCall(inotify), fp).loops| == |s.loops| + 1;
    }
  }

  /** A Close that captured a generation returns only after that generation's loop has cleared
      its state and closed its stopped channel; a later Run is a different generation. */
  lemma CloseReturnsAfterCleanup(s: System, fp: FileInfo -> Fingerprint, c: nat, n: nat)
    requires Reachable(s, fp) && Enabled(s, CloseWait(c)) && s.calls[c].stopped == Some(n)
    ensures n < |s.loops| && s.loops[n].Exited? && s.stopped != Some(n) && s.done != Some(n)
  {
    ReachableHolds(s, fp);
    assert Captures(s, s.calls[c]);
  }

  // ----- main results: the credentials

  /** Whenever mu is free, the credentials were loaded from the watched path; they are empty
      when there is no path, and otherwise only as long as nothing was ever loaded. */
  lemma CredentialsFollowPath(s: System, fp: FileInfo -> Fingerprint)
    requires Reachable(s, fp) && s.mu == None
    ensures s.config.filePath == "" ==> s.config.creds == NoCreds
    ensures s.config.creds.Loaded? ==> s.config.creds.path == s.config.filePath
    ensures s.config.filePath != "" && s.config.creds == NoCreds ==> s.pristine
  {
    ReachableHolds(s, fp);
  }

  /** The baseline is never ahead of the loaded content, nor that of the file. */
  lemma BaselineNeverAhead(s: System, fp: FileInfo -> Fingerprint)
    requires Reachable(s, fp) && s.mu == None && s.config.fileInfo.Some?
    ensures var info, creds := s.config.fileInfo.value, s.config.creds;
      && creds.Loaded? && info.path == creds.path == s.config.filePath
      && info.version <= creds.version
      && (creds.path in s.files ==> creds.version <= s.files[creds.path])
  {
    ReachableHolds(s, fp);
  }

  /** A poll that answers "unchanged" saw the watched file, and the loaded credentials are at
      least as new as what it saw; if the file has not changed since, they are its content.
      Needed of fingerprints: the two compared ones tell different files and versions apart. */
  lemma UnchangedMeansCurrent(s: System, fp: FileInfo -> Fingerprint, n: nat)
    requires Reachable(s, fp) && Enabled(s, PollCompare(n)) && Unchanged(s, s.loops[n].info, fp)
    requires fp(s.config.fileInfo.value) == fp(s.loops[n].info) ==> s.config.fileInfo.value == s.loops[n].info
    ensures var seen, creds := s.loops[n].info, s.config.creds;
      && creds.Loaded? && creds.path == seen.path == s.config.filePath
      && seen.version <= creds.version
      && (Stat(s, seen.path) == Some(seen) ==> creds.version == seen.version)
  {
    ReachableHolds(s, fp);
  }

  /** What a poll's answer "unchanged" is meant to say. */
  ghost predicate SoundAt(s: System, n: nat, fp: FileInfo -> Fingerprint) {
    Enabled(s, PollCompare(n)) && Unchanged(s, s.loops[n].info, fp) ==>
      var seen, creds := s.loops[n].info, s.config.creds;
      creds.Loaded? && creds.path == seen.path && seen.version <= creds.version
  }

  ghost predicate PollsAreSound(fp: FileInfo -> Fingerprint) {
    forall s, n: nat | Reachable(s, fp) :: SoundAt(s, n, fp)
  }

  ghost predicate TellsVersionsApart(fp: FileInfo -> Fingerprint) {
    forall a: FileInfo, b: FileInfo | a.path != "" && b.path != "" && a.version != b.version :: fp(a) != fp(b)
  }

  /** The exact condition on fingerprints: every answer "unchanged" is right in every reachable state if
      and only if no two versions of files have the same one. */
  lemma PollsAreSoundIffFingerprintsDiffer(fp: FileInfo -> Fingerprint)
    ensures PollsAreSound(fp) <==> TellsVersionsApart(fp)
  {
    hide Next, Reachable, SoundAt, Unchanged;
    if TellsVersionsApart(fp) {
      forall s, n: nat | Reachable(s, fp) ensures SoundAt(s, n, fp) {
        DifferentFingerprintsSuffice(s, n, fp);
      }
    }
    if a: FileInfo, b: FileInfo :| a.path != "" && b.path != "" && a.version != b.version && fp(a) == fp(b) {
      if a.path != b.path {
        var s := SameFingerprintHidesFile(a, b, fp);
        Misleads(s, fp);
      } else if a.version < b.version {
        var s := SameFingerprintHidesChange(a.path, a.version, b.version, fp);
        Misleads(s, fp);
      } else {
        var s := SameFingerprintHidesChange(a.path, b.version, a.version, fp);
        Misleads(s, fp);
      }
    }
  }

  lemma Misleads(s: System, fp: FileInfo -> Fingerprint)
    requires Enabled(s, PollCompare(0)) && Unchanged(s, s.loops[0].info, fp) && s.config.creds.Loaded?
    requires var seen, creds := s.loops[0].info, s.config.creds; creds.path != seen.path || creds.version < seen.version
    ensures !SoundAt(s, 0, fp)
  {
  }

  lemma DifferentFingerprintsSuffice(s: System, n: nat, fp: FileInfo -> Fingerprint)
    requires Reachable(s, fp) && TellsVersionsApart(fp)
    ensures SoundAt(s, n, fp)
  {
    hide Reachable, MutexHeld, LifeCycle;
    if Enabled(s, PollCompare(n)) && Unchanged(s, s.loops[n].info, fp) {
      var h := WrittenPaths(s, fp);
      ReachableHolds(s, fp);
      assert KnownLoop(h, s.loops[n]);
    }
  }

  // ----- every stat belongs to a write

  /** h holds the path of every write so far; the version is the place in h. */
  ghost predicate KnownInfo(h: seq<Path>, info: Option<FileInfo>) {
    info.Some? ==> info.value.version < |h| && h[info.value.version] == info.value.path != ""
  }

  ghost predicate KnownLoop(h: seq<Path>, l: Loop) {
    match l
    case Seen(info) => KnownInfo(h, Some(info))
    case ReloadStat(info) => KnownInfo(h, info)
    case ReloadHas(info, _) => KnownInfo(h, info)
    case ReloadStored(info) => KnownInfo(h, info)
    case _ => true
  }

  ghost predicate KnownCall(h: seq<Path>, a: Call) {
    match a
    case ChangeStat(_, info, _) => KnownInfo(h, info)
    case ChangeHas(_, info, _, _) => KnownInfo(h, info)
    case ChangeStored(_, info) => KnownInfo(h, info)
    case _ => true
  }

  ghost predicate Known(s: System, h: seq<Path>) {
    && |h| == s.nextVersion
    && (forall p | p in s.files :: KnownInfo(h, Stat(s, p)))
    && KnownInfo(h, s.config.fileInfo)
    && (forall n | 0 <= n < |s.loops| :: KnownLoop(h, s.loops[n]))
    && (forall c | 0 <= c < |s.calls| :: KnownCall(h, s.calls[c]))
  }

  lemma StepKeepsKnown(s: System, step: Step, h: seq<Path>, fp: FileInfo -> Fingerprint)
    requires Enabled(s, step) && Known(s, h)
    ensures Known(Next(s, step, fp), if step.WriteFile? then h + [step.path] else h)
  {
    hide NextLoop, NextChange, NextLife, KnownInfo;
    if OfLoop(step) {
      LoopKeepsKnown(s, step, h, fp);
    } else if OfChange(step) {
      ChangeKeepsKnown(s, step, h);
    } else if OfFiles(step) {
      FilesKeepKnown(s, step, h);
    } else {
      LifeKeepsKnown(s, step, h);
    }
    hide Enabled, Known;
  }

  lemma LoopKeepsKnown(s: System, step: Step, h: seq<Path>, fp: FileInfo -> Fingerprint)
    requires OfLoop(step) && Enabled(s, step) && Known(s, h)
    ensures Known(NextLoop(s, step, fp), h)
  {
    hide NextLoop, KnownInfo, KnownCall, KnownLoop, Enabled;
    LoopFrame(s, step, fp);
    LoopLearns(s, step, h, fp);
  }

  lemma LoopLearns(s: System, step: Step, h: seq<Path>, fp: FileInfo -> Fingerprint)
    requires OfLoop(step) && Enabled(s, step) && Known(s, h)
    ensures var r := NextLoop(s, step, fp);
      && r.files == s.files && r.nextVersion == s.nextVersion
      && KnownLoop(h, r.loops[step.n]) && KnownInfo(h, r.config.fileInfo)
  {
    hide Unchanged, KnownInfo, KnownCall;
    StatKnown(s, s.config.filePath, h);
    if step.PollStat? {
      StatKnown(s, s.loops[step.n].path, h);
    }
    assert KnownLoop(h, s.loops[step.n]);
  }

  lemma StatKnown(s: System, path: Path, h: seq<Path>)
    requires Known(s, h)
    ensures KnownInfo(h, Stat(s, path))
  {
  }

  lemma ChangeKeepsKnown(s: System, step: Step, h: seq<Path>)
    requires OfChange(step) && Enabled(s, step) && Known(s, h)
    ensures Known(NextChange(s, step), h)
  {
    var r := NextChange(s, step);
    assert r.loops == s.loops && r.files == s.files;
    if !step.ChangeCall? {
      assert KnownCall(h, s.calls[step.c]);
    }
  }

  lemma LifeKeepsKnown(s: System, step: Step, h: seq<Path>)
    requires !OfFiles(step) && !OfLoop(step) && !OfChange(step) && Enabled(s, step) && Known(s, h)
    ensures Known(NextLife(s, step), h)
  {
  }

  lemma FilesKeepKnown(s: System, step: Step, h: seq<Path>)
    requires OfFiles(step) && Enabled(s, step) && Known(s, h)
    ensures Known(NextFiles(s, step), if step.WriteFile? then h + [step.path] else h)
  {
    if step.WriteFile? {
      var r, h' := NextFiles(s, step), h + [step.path];
      forall i: Option<FileInfo> | KnownInfo(h, i) ensures KnownInfo(h', i) {
      }
      forall p | p in r.files ensures KnownInfo(h', Stat(r, p)) {
        assert p != step.path ==> Stat(r, p) == Stat(s, p);
      }
      forall n | 0 <= n < |s.loops| ensures KnownLoop(h', s.loops[n]) {
        assert KnownLoop(h, s.loops[n]);
      }
      forall c | 0 <= c < |s.calls| ensures KnownCall(h', s.calls[c]) {
        assert KnownCall(h, s.calls[c]);
      }
    }
  }

  lemma {:induction false} RunKeepsKnown(s: System, steps: seq<Step>, h: seq<Path>, fp: FileInfo -> Fingerprint)
    returns (h': seq<Path>)
    requires Known(s, h) && Run(s, steps, fp).Some?
    ensures Known(Run(s, steps, fp).value, h')
    decreases |steps|
  {
    hide Known, Next, Enabled;
    h' := h;
    if steps != [] {
      StepKeepsKnown(s, steps[0], h, fp);
      var known := if steps[0].WriteFile? then h + [steps[0].path] else h;
      h' := RunKeepsKnown(Next(s, steps[0], fp), steps[1..], known, fp);
    }
  }

  lemma WrittenPaths(s: System, fp: FileInfo -> Fingerprint) returns (h: seq<Path>)
    requires Reachable(s, fp)
    ensures Known(s, h)
  {
    var path: Path, steps: seq<Step> :| Run(Init(path), steps, fp) == Some(s);
    h := RunKeepsKnown(Init(path), steps, [], fp);
  }

  // ----- runs that mislead a poll

  /** When a rewrite keeps the fingerprint, a poll answers "unchanged" while the loaded credentials
      are old; the two versions may be any. */
  lemma SameFingerprintHidesChange(path: Path, earlier: nat, later: nat, fp: FileInfo -> Fingerprint)
    returns (s: System)
    requires path != "" && earlier < later && fp(FileInfo(path, earlier)) == fp(FileInfo(path, later))
    ensures Reachable(s, fp) && Enabled(s, PollCompare(0)) && Unchanged(s, s.loops[0].info, fp)
    ensures s.config.creds == Loaded(path, earlier) && s.loops[0] == Seen(FileInfo(path, later))
    ensures Stat(s, path) == Some(FileInfo(path, later))
  {
    hide Reachable, Enabled;
    StartReachable(fp);
    s := WrittenUpTo(Init(""), path, earlier, fp);
    s := Changed(s, path, fp);
    s := Started(s, fp);
    s := WrittenUpTo(s, path, later, fp);
    s := Polled(s, fp);
    CompareEnabled(s);
  }

  /** When two files have the same fingerprint, a poll that saw the one before ChangeFile moved to the
      other answers "unchanged". */
  lemma SameFingerprintHidesFile(a: FileInfo, b: FileInfo, fp: FileInfo -> Fingerprint) returns (s: System)
    requires a.path != "" && b.path != "" && a.path != b.path && a.version != b.version && fp(a) == fp(b)
    ensures Reachable(s, fp) && Enabled(s, PollCompare(0)) && Unchanged(s, s.loops[0].info, fp)
    ensures s.config.creds == Loaded(a.path, a.version) && s.loops[0] == Seen(b)
  {
    hide Reachable, Enabled;
    StartReachable(fp);
    if a.version < b.version {
      s := WrittenUpTo(Init(""), a.path, a.version, fp);
      s := WrittenUpTo(s, b.path, b.version, fp);
    } else {
      s := WrittenUpTo(Init(""), b.path, b.version, fp);
      s := WrittenUpTo(s, a.path, a.version, fp);
    }
    s := Changed(s, b.path, fp);
    s := Started(s, fp);
    s := Polled(s, fp);
    s := Changed(s, a.path, fp);
    CompareEnabled(s);
  }

  lemma CompareEnabled(s: System)
    requires s.loops != [] && s.loops[0].Seen? && s.mu == None
    ensures Enabled(s, PollCompare(0))
  {
  }

  lemma Extend(s: System, step: Step, fp: FileInfo -> Fingerprint)
    requires Reachable(s, fp) && Enabled(s, step)
    ensures Reachable(Next(s, step, fp), fp)
  {
    hide Next, Enabled;
    var path: Path, steps: seq<Step> :| Run(Init(path), steps, fp) == Some(s);
    RunAppends(Init(path), steps, [step], fp);
    assert Run(Next(s, step, fp), [step][1..], fp) == Some(Next(s, step, fp));
    assert Run(Init(path), steps + [step], fp) == Some(Next(s, step, fp));
  }

  lemma StartReachable(fp: FileInfo -> Fingerprint)
    ensures Reachable(Init(""), fp)
  {
    assert Run(Init(""), [], fp) == Some(Init(""));
  }

  /** Writes of the path until its version is v. */
  lemma {:induction false} WrittenUpTo(s: System, path: Path, v: nat, fp: FileInfo -> Fingerprint) returns (r: System)
    requires Reachable(s, fp) && path != "" && s.nextVersion <= v
    ensures Reachable(r, fp) && r == s.(files := s.files[path := v], nextVersion := v + 1)
    decreases v - s.nextVersion
  {
    hide Reachable;
    Extend(s, WriteFile(path), fp);
    r := NextFiles(s, WriteFile(path));
    if s.nextVersion < v {
      r := WrittenUpTo(r, path, v, fp);
    }
  }

  /** A ChangeFile that nothing disturbs. */
  lemma Changed(s: System, path: Path, fp: FileInfo -> Fingerprint) returns (r: System)
    requires Reachable(s, fp) && path != "" && path in s.files && s.mu == None
    ensures Reachable(r, fp)
    ensures r == s.(config := Config(path, Some(FileInfo(path, s.files[path])), Loaded(path, s.files[path])),
                    pristine := false, calls := s.calls + [ChangeReturned(true)])
  {
    hide Reachable;
    var c := |s.calls|;
    Extend(s, ChangeCall(path), fp);
    var s1 := NextChange(s, ChangeCall(path));
    Extend(s1, ChangeRead(c), fp);
    var s2 := NextChange(s1, ChangeRead(c));
    Extend(s2, ChangeStore(c), fp);
    var s3 := NextChange(s2, ChangeStore(c));
    Extend(s3, ChangeFinish(c), fp);
    r := NextChange(s3, ChangeFinish(c));
    assert r.calls == s.calls + [ChangeReturned(true)];
  }

  lemma Started(s: System, fp: FileInfo -> Fingerprint) returns (r: System)
    requires Reachable(s, fp) && s.mu == None && s.done == None && s.stopped == None && s.loops == []
    ensures Reachable(r, fp)
    ensures r == s.(done := Some(0), stopped := Some(0), watcher := Some(0), loops := [Selecting])
  {
    hide Reachable;
    Extend(s, RunCall(true), fp);
    r := NextLife(s, RunCall(true));
  }

  lemma Polled(s: System, fp: FileInfo -> Fingerprint) returns (r: System)
    requires Reachable(s, fp) && s.mu == None && s.loops == [Selecting]
    requires s.config.filePath != "" && s.config.filePath in s.files
    ensures Reachable(r, fp)
    ensures r == s.(loops := [Seen(FileInfo(s.config.filePath, s.files[s.config.filePath]))])
  {
    hide Reachable;
    Extend(s, StartPoll(0), fp);
    var s1 := NextLoop(s, StartPoll(0), fp);
    Extend(s1, PollStat(0), fp);
    r := NextLoop(s1, PollStat(0), fp);
  }

  lemma {:induction false} RunAppends(s: System, a: seq<Step>, b: seq<Step>, fp: FileInfo -> Fingerprint)
    requires Run(s, a, fp).Some?
    ensures Run(s, a + b, fp) == Run(Run(s, a, fp).value, b, fp)
    decreases |a|
  {
    hide Next, Enabled;
    if a == [] {
      assert a + b == b;
    } else {
      assert (a + b)[1..] == a[1..] + b;
      RunAppends(Next(s, a[0], fp), a[1..], b, fp);
    }
  }

  /** A ChangeFile whose file cannot be read leaves everything as it found it when it took mu,
      whatever the loop, the other calls and the file system did meanwhile. */
  lemma FailedChangeChangesNothing(s: System, fp: FileInfo -> Fingerprint, c: nat)
    requires Reachable(s, fp) && Enabled(s, ChangeRead(c)) && s.calls[c].path !in s.files
    ensures var r := Next(s, ChangeRead(c), fp);
      r.config == s.calls[c].before && r.mu == None && r.calls[c] == ChangeReturned(false)
  {
    ReachableHolds(s, fp);
    assert CallHolds(s.calls[c]);
  }

  /** A successful one leaves the new path, its credentials, and a baseline not ahead of them. */
  lemma SuccessfulChangeInstalls(s: System, fp: FileInfo -> Fingerprint, c: nat)
    requires Reachable(s, fp) && Enabled(s, ChangeFinish(c))
    ensures var r := Next(s, ChangeFinish(c), fp);
      && r.config.filePath == s.calls[c].path && r.config.creds.Loaded? && r.config.creds.path == r.config.filePath
      && r.config.fileInfo == s.calls[c].info && Describes(r.config.fileInfo, r.config.filePath, r.config.creds.version)
      && r.calls[c] == ChangeReturned(true)
  {
    ReachableHolds(s, fp);
    assert CallHolds(s.calls[c]);
  }

  // ----- main results: the inotify watchers

  /** The generations that a run from s opens an inotify watcher for. */
  ghost function Opened(s: System, steps: seq<Step>, fp: FileInfo -> Fingerprint): set<nat>
    decreases |steps|
  {
    if steps == [] || !Enabled(s, steps[0]) then {}
    else
      var rest := Opened(Next(s, steps[0], fp), steps[1..], fp);
      if steps[0] == RunCall(true) && s.done == None && s.stopped == None then rest + {|s.loops|} else rest
  }

  /** A watcher is at work, closed, or in the hands of a Close that will close it next. */
  ghost predicate WatcherKnown(s: System, n: nat) {
    || s.watcher == Some(n) || n in s.closedWatchers
    || exists c :: 0 <= c < |s.calls| && s.calls[c].CloseCaptured? && s.calls[c].watcher == Some(n)
  }

  ghost predicate WatcherMarked(s: System) {
    s.watcher.Some? ==> s.watcher == s.done
  }

  lemma StepKeepsWatchers(s: System, step: Step, fp: FileInfo -> Fingerprint, n: nat)
    requires Enabled(s, step) && WatcherMarked(s)
    ensures WatcherMarked(Next(s, step, fp))
    ensures WatcherKnown(s, n) ==> WatcherKnown(Next(s, step, fp), n)
    ensures step == RunCall(true) && s.done == None && s.stopped == None ==> WatcherKnown(Next(s, step, fp), |s.loops|)
  {
    hide NextLoop, NextChange;
    var r := Next(s, step, fp);
    if OfLoop(step) {
      LoopFrame(s, step, fp);
      LoopKeepsWatchers(s, step, fp);
    } else if OfChange(step) {
      ChangeFrame(s, step);
      ChangeFrameBack(s, step);
      ChangeKeepsWatchers(s, step);
    }
    if c :| 0 <= c < |s.calls| && s.calls[c].CloseCaptured? && s.calls[c].watcher == Some(n) {
      assert InClose(s.calls[c]);
      assert r.calls[c] == s.calls[c] || n in r.closedWatchers;
    }
    if step == CloseCall {
      assert r.calls[|s.calls|] == CloseCaptured(s.watcher, s.done, s.stopped);
    }
  }

  lemma LoopKeepsWatchers(s: System, step: Step, fp: FileInfo -> Fingerprint)
    requires OfLoop(step) && Enabled(s, step)
    ensures NextLoop(s, step, fp).closedWatchers == s.closedWatchers
  {
  }

  lemma ChangeKeepsWatchers(s: System, step: Step)
    requires OfChange(step) && Enabled(s, step)
    ensures NextChange(s, step).closedWatchers == s.closedWatchers
  {
  }

  lemma {:induction false} RunKeepsWatchers(s: System, steps: seq<Step>, fp: FileInfo -> Fingerprint, n: nat)
    requires WatcherMarked(s) && Run(s, steps, fp).Some? && (WatcherKnown(s, n) || n in Opened(s, steps, fp))
    ensures WatcherMarked(Run(s, steps, fp).value) && WatcherKnown(Run(s, steps, fp).value, n)
    decreases |steps|
  {
    hide Next, Enabled, WatcherKnown, WatcherMarked;
    if steps != [] {
      StepKeepsWatchers(s, steps[0], fp, n);
      RunKeepsWatchers(Next(s, steps[0], fp), steps[1..], fp, n);
    }
  }

  /** No inotify watcher leaks: once none is at work and no Close is about to close one, all that were ever
      opened are closed. */
  lemma NoWatcherLeaks(path: Path, steps: seq<Step>, fp: FileInfo -> Fingerprint, n: nat)
    requires Run(Init(path), steps, fp).Some? && n in Opened(Init(path), steps, fp)
    ensures var r := Run(Init(path), steps, fp).value;
      r.watcher == None && (forall c | 0 <= c < |r.calls| :: !r.calls[c].CloseCaptured?) ==> n in r.closedWatchers
  {
    RunKeepsWatchers(Init(path), steps, fp, n);
  }

  // ----- main results: Close always comes back

  ghost function LoopLeft(l: Loop): nat {
    match l
    case Exited => 0
    case Cleaned => 1
    case Leaving => 2
    case Selecting => 3
    case ReloadStored(_) => 4
    case ReloadHas(_, _) => 5
    case ReloadStat(_) => 6
    case WantsReload => 7
    case Seen(_) => 8
    case Polling(_) => 9
  }

  ghost function CallLeft(a: Call): nat {
    match a
    case CloseReturned => 0
    case ChangeReturned(_) => 0
    case CloseWaits(_) => 1
    case CloseSignals(_, _) => 2
    case CloseCaptured(_, _, _) => 3
    case ChangeStored(_, _) => 1
    case ChangeHas(_, _, _, _) => 2
    case ChangeStat(_, _, _) => 3
  }

  ghost function Total<T>(xs: seq<T>, left: T -> nat): nat {
    if xs == [] then 0 else left(xs[0]) + Total(xs[1..], left)
  }

  lemma {:induction false} TotalUpdate<T>(xs: seq<T>, left: T -> nat, i: nat, x: T)
    requires i < |xs|
    ensures Total(xs[i := x], left) + left(xs[i]) == Total(xs, left) + left(x)
  {
    if i == 0 {
      assert xs[0 := x][1..] == xs[1..];
    } else {
      assert xs[i := x][1..] == xs[1..][i - 1 := x];
      TotalUpdate(xs[1..], left, i - 1, x);
    }
  }

  /** Steps left of everything that has begun. */
  ghost function Left(s: System): nat {
    Total(s.loops, LoopLeft) + Total(s.calls, CallLeft)
  }

  /** The step continues something begun: it is no outside event and begins nothing. */
  predicate Continues(step: Step) {
    !OfFiles(step) && !step.RunCall? && !step.CloseCall? && !step.ChangeCall? && !step.StartPoll? && !step.StartReload?
  }

  /** Continuing steps use up what is left... */
  lemma ContinuingStepsRunOut(s: System, step: Step, fp: FileInfo -> Fingerprint)
    requires Continues(step) && Enabled(s, step)
    ensures Left(Next(s, step, fp)) < Left(s)
  {
    hide NextLoop, NextChange, NextLife, Total;
    if OfLoop(step) {
      LoopStepNearer(s, step, fp);
      TotalUpdate(s.loops, LoopLeft, step.n, NextLoop(s, step, fp).loops[step.n]);
    } else if step.LoopCleanup? {
      LifeStepNearer(s, step);
      TotalUpdate(s.loops, LoopLeft, step.n, Cleaned);
    } else {
      var r := if OfChange(step) then NextChange(s, step) else NextLife(s, step);
      if OfChange(step) {
        ChangeStepNearer(s, step);
      } else {
        LifeStepNearer(s, step);
      }
      TotalUpdate(s.calls, CallLeft, step.c, r.calls[step.c]);
    }
  }

  lemma LoopStepNearer(s: System, step: Step, fp: FileInfo -> Fingerprint)
    requires Continues(step) && OfLoop(step) && Enabled(s, step)
    ensures var r, n := NextLoop(s, step, fp), step.n;
      && n < |s.loops| == |r.loops| && r.loops == s.loops[n := r.loops[n]] && r.calls == s.calls
      && LoopLeft(r.loops[n]) < LoopLeft(s.loops[n])
  {
  }

  lemma ChangeStepNearer(s: System, step: Step)
    requires Continues(step) && OfChange(step) && Enabled(s, step)
    ensures var r, c := NextChange(s, step), step.c;
      && c < |s.calls| == |r.calls| && r.calls == s.calls[c := r.calls[c]] && r.loops == s.loops
      && CallLeft(r.calls[c]) < CallLeft(s.calls[c])
  {
  }

  lemma LifeStepNearer(s: System, step: Step)
    requires Continues(step) && !OfLoop(step) && !OfChange(step) && Enabled(s, step)
    ensures var r := NextLife(s, step);
      if step.LoopCleanup? then r.loops == s.loops[step.n := Cleaned] && r.calls == s.calls
      else
        var c := step.c;
        && c < |s.calls| == |r.calls| && r.calls == s.calls[c := r.calls[c]] && r.loops == s.loops
        && CallLeft(r.calls[c]) < CallLeft(s.calls[c])
  {
  }

  /** ... and while any Close has not returned, one is possible: nobody blocks with mu held. */
  lemma CloseNeverStuck(s: System, fp: FileInfo -> Fingerprint, c: nat) returns (step: Step)
    requires Reachable(s, fp) && c < |s.calls| && InClose(s.calls[c])
    ensures Continues(step) && Enabled(s, step)
  {
    ReachableHolds(s, fp);
    if s.mu.Some? {
      step := HolderStep(s);
    } else if Closing(s.calls[c]) {
      step := if s.calls[c].CloseCaptured? then CloseWatcher(c) else CloseDone(c);
    } else if s.calls[c].stopped == None {
      step := CloseWait(c);
    } else {
      assert Captures(s, s.calls[c]);
      step := TowardsExit(s, s.calls[c].stopped.value, c);
    }
  }

  /** So once nothing new begins, every Close returns: a run of continuing steps is no longer than what is
      left, and when it can go on no further no Close is open. */
  lemma {:induction false} ClosesReturn(s: System, steps: seq<Step>, fp: FileInfo -> Fingerprint)
    requires Reachable(s, fp) && Run(s, steps, fp).Some? && forall step | step in steps :: Continues(step)
    ensures |steps| <= Left(s)
    ensures var r := Run(s, steps, fp).value;
      (forall step | Continues(step) :: !Enabled(r, step)) ==> forall c | 0 <= c < |r.calls| :: !InClose(r.calls[c])
    decreases |steps|
  {
    hide Reachable, Next, Enabled, Left, InClose;
    if steps == [] {
      if c :| 0 <= c < |s.calls| && InClose(s.calls[c]) {
        var step := CloseNeverStuck(s, fp, c);
      }
    } else {
      ContinuingStepsRunOut(s, steps[0], fp);
      Extend(s, steps[0], fp);
      ClosesReturn(Next(s, steps[0], fp), steps[1..], fp);
    }
  }

  lemma HolderStep(s: System) returns (step: Step)
    requires MutexHeld(s) && s.mu.Some?
    ensures Continues(step) && Enabled(s, step)
  {
    match s.mu.value
    case LoopOwner(n) =>
      var l := s.loops[n];
      step := if l.ReloadStat? then ReloadRead(n) else if l.ReloadHas? then ReloadStore(n) else ReloadFinish(n);
    case CallOwner(c) =>
      var a := s.calls[c];
      step := if a.ChangeStat? then ChangeRead(c) else if a.ChangeHas? then ChangeStore(c) else ChangeFinish(c);
  }

  lemma TowardsExit(s: System, n: nat, c: nat) returns (step: Step)
    requires LifeCycle(s) && MutexHeld(s) && s.mu == None && n < |s.loops| && s.done != Some(n)
    requires c < |s.calls| && s.calls[c] == CloseWaits(Some(n))
    ensures Continues(step) && Enabled(s, step)
  {
    var l := s.loops[n];
    assert !LoopHolds(l);
    match l
    case Exited => step := CloseWait(c);
    case Cleaned => step := LoopCloseStopped(n);
    case Leaving => step := LoopCleanup(n);
    case Polling(_) => step := PollStat(n);
    case Seen(_) => step := PollCompare(n);
    case WantsReload => step := ReloadLock(n);
    case Selecting =>
      assert s.stopped == Some(n) && s.done == None;
      if n in s.closedDone {
        step := LoopLeave(n);
      } else {
        var d :| 0 <= d < |s.calls| && Closing(s.calls[d]) && s.calls[d].done == s.stopped;
        step := if s.calls[d].CloseCaptured? then CloseWatcher(d) else CloseDone(d);
      }
  }
}
