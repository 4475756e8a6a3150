/**
 The credential store and the watcher object, one critical section of the watcher's mutex a
 method. Every method does to the fields what the step of module Watcher does to its state;
 the lemmas at the end say that a section that spans several steps is not disturbed.
 */
module HTPasswd {
  import opened Optional
  import opened Watcher

  // ----- the credentials in a file

  datatype Entry = Entry(user: string, hash: string)

  /** The text before the first colon and the text after it. */
  function Cut(line: string): Option<Entry> {
    if line == "" then None
    else if line[0] == ':' then Some(Entry("", line[1..]))
    else
      match Cut(line[1..])
      case None => None
      case Some(e) => Some(Entry([line[0]] + e.user, e.hash))
  }

  function CredMapOf(lines: seq<string>): map<string, string> {
    if lines == [] then map[]
    else
      var front := CredMapOf(lines[..|lines| - 1]);
      match Cut(lines[|lines| - 1])
      case None => front
      case Some(e) => front[e.user := e.hash]
  }

  ghost predicate LastEntry(lines: seq<string>, i: int, user: string, hash: string) {
    && 0 <= i < |lines| && Cut(lines[i]) == Some(Entry(user, hash))
    && forall j | i < j < |lines| :: Cut(lines[j]).None? || Cut(lines[j]).value.user != user
  }

  lemma {:induction false} CutIsFirstColon(line: string)
    ensures Cut(line).None? <==> ':' !in line
    ensures Cut(line).Some? ==> var e := Cut(line).value; line == e.user + ":" + e.hash && ':' !in e.user
  {
    if line != "" {
      assert line == [line[0]] + line[1..];
      if line[0] != ':' {
        CutIsFirstColon(line[1..]);
      }
    }
  }

  /** A user's last entry is the one that counts. */
  lemma {:induction false} LastEntryWins(lines: seq<string>, user: string, hash: string)
    ensures user in CredMapOf(lines) && CredMapOf(lines)[user] == hash <==>
            exists i :: LastEntry(lines, i, user, hash)
  {
    hide Cut;
    if lines != [] {
      var n := |lines| - 1;
      var front := lines[..n];
      LastEntryWins(front, user, hash);
      if Cut(lines[n]).Some? && Cut(lines[n]).value.user == user {
        assert Cut(lines[n]).value.hash == hash ==> LastEntry(lines, n, user, hash);
      } else {
        forall i ensures LastEntry(front, i, user, hash) <==> LastEntry(lines, i, user, hash) {
          assert 0 <= i < n ==> front[i] == lines[i];
          assert LastEntry(front, i, user, hash) ==> forall j | i < j < n :: front[j] == lines[j];
          assert LastEntry(lines, i, user, hash) ==> forall j | i < j < n :: front[j] == lines[j];
        }
      }
    }
  }

  class HTPasswd {
    var credMap: map<string, string>

    constructor ()
      ensures credMap == map[]
    {
      credMap := map[];
    }

    /** Reads the lines of the file, if it can be opened. */
    method Reload(lines: Option<seq<string>>) returns (ok: bool)
      modifies this
      ensures ok <==> lines.Some?
      ensures credMap == if ok then CredMapOf(lines.value) else old(credMap)
    {
      if lines.None? {
        return false;
      }
      var loaded: map<string, string> := map[];
      for i := 0 to |lines.value|
        invariant loaded == CredMapOf(lines.value[..i])
      {
        var line := lines.value[i];
        assert lines.value[..i + 1][..i] == lines.value[..i];
        var entry := Cut(line);
        if entry.Some? {
          loaded := loaded[entry.value.user := entry.value.hash];
        }
      }
      assert lines.value[..|lines.value|] == lines.value;
      credMap := loaded;
      ok := true;
    }

    method Clear()
      modifies this
      ensures credMap == map[]
    {
      credMap := map[];
    }
  }

  // ----- the watcher

  /** What a file's content of a version reads as. */
  type Contents = (Path, nat) -> seq<string>

  ghost function CredMapFor(creds: Creds, contents: Contents): map<string, string> {
    match creds
    case NoCreds => map[]
    case Loaded(path, version) => CredMapOf(contents(path, version))
  }

  class HTPasswdWatcher {
    const htp: HTPasswd
    var filePath: Path
    var fileInfo: Option<FileInfo>
    var done: Option<nat>
    var stopped: Option<nat>
    var watcher: Option<nat>

    /** Which content the store was last loaded from. */
    ghost var creds: Creds

    constructor (htp: HTPasswd, filePath: Path, ghost contents: Contents)
      requires htp.credMap == map[]
      ensures this.htp == htp && Shows(Init(filePath), contents)
    {
      this.htp, this.filePath := htp, filePath;
      fileInfo, done, stopped, watcher, creds := None, None, None, None, NoCreds;
    }

    /** The fields are those of the state s, and the store has the credentials that s says. */
    ghost predicate Shows(s: System, contents: Contents)
      reads this, htp
    {
      && s.config == Config(filePath, fileInfo, creds)
      && s.done == done && s.stopped == stopped && s.watcher == watcher
      && htp.credMap == CredMapFor(creds, contents)
    }

    /** n names the new generation; inotify tells whether setting it up succeeds. */
    method Run(inotify: bool, n: nat, ghost s: System, ghost contents: Contents) returns (alreadyRunning: bool)
      requires Shows(s, contents) && Enabled(s, RunCall(inotify)) && n == |s.loops|
      modifies this
      ensures alreadyRunning <==> s.done.Some? || s.stopped.Some?
      ensures creds == old(creds) && Shows(NextLife(s, RunCall(inotify)), contents)
    {
      if done.Some? || stopped.Some? {
        return true;
      }
      done, stopped := Some(n), Some(n);
      watcher := if inotify then Some(n) else None;
      alreadyRunning := false;
    }

    /** What Close does under the mutex: it takes the channels and marks the watcher as stopping. */
    method TakeForClose(ghost s: System, ghost contents: Contents)
      returns (w: Option<nat>, d: Option<nat>, st: Option<nat>)
      requires Shows(s, contents) && Enabled(s, CloseCall)
      modifies this
      ensures Shows(NextLife(s, CloseCall), contents)
      ensures NextLife(s, CloseCall).calls == s.calls + [CloseCaptured(w, d, st)]
    {
      w, d, st := watcher, done, stopped;
      done, watcher := None, None;
    }

    /** The deferred cleanup of the loop of generation n; it closes the returned inotify watcher. */
    method Cleanup(n: nat, ghost s: System, ghost contents: Contents) returns (closes: Option<nat>)
      requires Shows(s, contents) && Enabled(s, LoopCleanup(n))
      modifies this
      ensures Shows(NextLife(s, LoopCleanup(n)), contents)
      ensures NextLife(s, LoopCleanup(n)).closedWatchers ==
        s.closedWatchers + if closes.Some? then {closes.value} else {}
    {
      closes := None;
      if stopped == Some(n) {
        done, stopped := None, None;
        if watcher.Some? {
          closes := watcher;
          watcher := None;
        }
      }
    }

    /** The loop's whole reload: stat is what the stat returned, content the version that was read,
        if the file could be opened. */
    method ReloadWatchedFile(info: Option<FileInfo>, content: Option<nat>, contents: Contents, ghost s: System)
      requires Shows(s, contents)
      modifies this, htp
      ensures Shows(s.(config := ReloadOutcome(s.config, info, content)), contents)
    {
      if filePath == "" {
        return;
      }
      var ok := htp.Reload(if content.Some? then Some(contents(filePath, content.value)) else None);
      if !ok {
        return;
      }
      creds := Loaded(filePath, content.value);
      fileInfo := info;
    }

    /** The comparison of loop n's poll, with what its stat returned: the loop goes on to reload or back to its
        select. A reported change is one; no change means that the credentials are those of the file that
        the stat saw, or newer ones, if no two versions of files have the same fingerprint. */
    method FingerprintChanged(info: FileInfo, fp: FileInfo -> Fingerprint, ghost n: nat, ghost s: System,
                              ghost contents: Contents)
      returns (changed: bool)
      requires Shows(s, contents) && Reachable(s, fp) && Enabled(s, PollCompare(n)) && s.loops[n].info == info
      ensures Next(s, PollCompare(n), fp).loops[n] == if changed then WantsReload else Selecting
      ensures changed && fileInfo.Some? ==> fileInfo.value != info
      ensures !changed && TellsVersionsApart(fp) ==>
                creds.Loaded? && creds.path == info.path == filePath && info.version <= creds.version
    {
      hide Reachable, TellsVersionsApart;
      if TellsVersionsApart(fp) {
        DifferentFingerprintsSuffice(s, n, fp);
        UnchangedIsWatched(s, n, fp);
      }
      if fileInfo == None {
        return true;
      }
      var prev, now := fp(fileInfo.value), fp(info);
      if prev.file != now.file || prev.size != now.size || prev.modTime != now.modTime {
        return true;
      }
      changed := false;
    }

    method ChangeFile(path: Path, info: Option<FileInfo>, content: Option<nat>, contents: Contents, ghost s: System)
      returns (ok: bool)
      requires Shows(s, contents)
      modifies this, htp
      ensures ok <==> path == "" || content.Some?
      ensures Shows(s.(config := ChangeOutcome(s.config, path, info, content)), contents)
    {
      if path == "" {
        filePath, fileInfo := "", None;
        htp.Clear();
        creds := NoCreds;
        return true;
      }
      ok := htp.Reload(if content.Some? then Some(contents(path, content.value)) else None);
      if !ok {
        return;
      }
      creds := Loaded(path, content.value);
      filePath := path;
      fileInfo := info;
    }
  }

  lemma UnchangedIsWatched(s: System, n: nat, fp: FileInfo -> Fingerprint)
    requires Reachable(s, fp) && Enabled(s, PollCompare(n)) && SoundAt(s, n, fp)
    ensures Unchanged(s, s.loops[n].info, fp) ==> s.loops[n].info.path == s.config.filePath
  {
    hide Reachable;
    ReachableHolds(s, fp);
  }

  ghost function ReloadOutcome(c: Config, info: Option<FileInfo>, content: Option<nat>): Config {
    if c.filePath == "" || content.None? then c
    else Config(c.filePath, info, Loaded(c.filePath, content.value))
  }

  ghost function ChangeOutcome(c: Config, path: Path, info: Option<FileInfo>, content: Option<nat>): Config {
    if path == "" then Config("", None, NoCreds)
    else if content.None? then c
    else Config(path, info, Loaded(path, content.value))
  }

  // ----- sections that span several steps

  /** Loop n holds mu and is reloading: before was the configuration when it took mu, info what the stat
      returned, and content the version that was read, once one was. */
  ghost predicate Reloading(s: System, n: nat, before: Config, info: Option<FileInfo>, content: Option<nat>) {
    && n < |s.loops| && s.mu == Some(LoopOwner(n)) && before.filePath != ""
    && match s.loops[n]
       case ReloadStat(i) => i == info && content == None && s.config == before
       case ReloadHas(i, version) => i == info && content == Some(version) && s.config == before
       case ReloadStored(i) =>
         i == info && content.Some? && s.config == before.(creds := Loaded(before.filePath, content.value))
       case _ => false
  }

  /** A reload that has a path to read takes mu and the stat of the file at that moment. */
  lemma ReloadBegins(s: System, fp: FileInfo -> Fingerprint, n: nat)
    requires MutexHeld(s) && Enabled(s, ReloadLock(n))
    ensures var r := Next(s, ReloadLock(n), fp);
      if s.config.filePath == "" then r.mu == None && r.config == ReloadOutcome(s.config, None, None)
      else Reloading(r, n, s.config, Stat(s, s.config.filePath), None)
  {
  }

  /** From then on it reads the content of the moment, and when it releases mu the configuration has gone from
      what it was to what the whole reload makes of that stat and that content, whatever else happened. */
  lemma ReloadIsAtomic(s: System, step: Step, fp: FileInfo -> Fingerprint, n: nat, before: Config,
                       info: Option<FileInfo>, content: Option<nat>)
    requires MutexHeld(s) && Enabled(s, step) && Reloading(s, n, before, info, content)
    ensures var r := Next(s, step, fp);
      if step == ReloadRead(n) && before.filePath !in s.files then
        r.mu == None && r.loops[n].Selecting? && r.config == ReloadOutcome(before, info, None)
      else if step == ReloadRead(n) then Reloading(r, n, before, info, Some(s.files[before.filePath]))
      else if step == ReloadFinish(n) then
        r.mu == None && r.loops[n].Selecting? && r.config == ReloadOutcome(before, info, content)
      else Reloading(r, n, before, info, content)
  {
    hide MutexHeld;
    OnlyHolderMoves(s, step);
    if OfLoop(step) && step.n == n {
      hide Unchanged;
    } else {
      OthersLeaveHolder(s, step, fp);
      hide Next, Enabled;
    }
  }

  /** The same for the call c of ChangeFile(path). */
  ghost predicate Changing(s: System, c: nat, path: Path, before: Config, info: Option<FileInfo>,
                           content: Option<nat>) {
    && c < |s.calls| && s.mu == Some(CallOwner(c)) && path != ""
    && match s.calls[c]
       case ChangeStat(p, i, _) => p == path && i == info && content == None && s.config == before
       case ChangeHas(p, i, version, _) => p == path && i == info && content == Some(version) && s.config == before
       case ChangeStored(p, i) =>
         p == path && i == info && content.Some? && s.config == before.(creds := Loaded(path, content.value))
       case _ => false
  }

  lemma ChangeBegins(s: System, fp: FileInfo -> Fingerprint, path: Path)
    requires MutexHeld(s) && Enabled(s, ChangeCall(path))
    ensures var r := Next(s, ChangeCall(path), fp);
      if path == "" then r.mu == None && r.config == ChangeOutcome(s.config, path, None, None)
      else Changing(r, |s.calls|, path, s.config, Stat(s, path), None)
  {
  }

  lemma ChangeIsAtomic(s: System, step: Step, fp: FileInfo -> Fingerprint, c: nat, path: Path, before: Config,
                       info: Option<FileInfo>, content: Option<nat>)
    requires MutexHeld(s) && Enabled(s, step) && Changing(s, c, path, before, info, content)
    ensures var r := Next(s, step, fp);
      if step == ChangeRead(c) && path !in s.files then
        r.mu == None && r.calls[c] == ChangeReturned(false) && r.config == ChangeOutcome(before, path, info, None)
      else if step == ChangeRead(c) then Changing(r, c, path, before, info, Some(s.files[path]))
      else if step == ChangeFinish(c) then
        r.mu == None && r.calls[c] == ChangeReturned(true) && r.config == ChangeOutcome(before, path, info, content)
      else Changing(r, c, path, before, info, content)
  {
    hide MutexHeld;
    OnlyHolderMoves(s, step);
    if !(OfChange(step) && !step.ChangeCall? && step.c == c) {
      OthersLeaveHolder(s, step, fp);
      hide Next, Enabled;
    }
  }

  predicate OfHolder(step: Step, owner: Owner) {
    match owner
    case LoopOwner(n) => (step.ReloadRead? || step.ReloadStore? || step.ReloadFinish?) && step.n == n
    case CallOwner(c) => (step.ChangeRead? || step.ChangeStore? || step.ChangeFinish?) && step.c == c
  }

  /** The steps of a section are open to its holder alone, and nobody else may begin one. */
  lemma OnlyHolderMoves(s: System, step: Step)
    requires MutexHeld(s) && Enabled(s, step) && s.mu.Some?
    ensures !step.ReloadLock? && !step.ChangeCall?
    ensures step.ReloadRead? || step.ReloadStore? || step.ReloadFinish? ==> s.mu == Some(LoopOwner(step.n))
    ensures step.ChangeRead? || step.ChangeStore? || step.ChangeFinish? ==> s.mu == Some(CallOwner(step.c))
    ensures match s.mu.value
      case LoopOwner(n) => OfLoop(step) && step.n == n ==> OfHolder(step, s.mu.value)
      case CallOwner(c) => OfChange(step) ==> OfHolder(step, s.mu.value)
  {
    match s.mu.value
    case LoopOwner(n) => assert LoopHolds(s.loops[n]);
    case CallOwner(c) => assert CallHolds(s.calls[c]);
  }

  lemma OthersLeaveHolder(s: System, step: Step, fp: FileInfo -> Fingerprint)
    requires MutexHeld(s) && Enabled(s, step) && s.mu.Some? && !OfHolder(step, s.mu.value)
    ensures var r := Next(s, step, fp);
      && r.mu == s.mu && r.config == s.config
      && match s.mu.value
         case LoopOwner(n) => n < |s.loops| <= |r.loops| && r.loops[n] == s.loops[n]
         case CallOwner(c) => c < |s.calls| <= |r.calls| && r.calls[c] == s.calls[c]
  {
    OnlyHolderMoves(s, step);
    match s.mu.value
    case LoopOwner(n) => assert LoopHolds(s.loops[n]);
    case CallOwner(c) => assert CallHolds(s.calls[c]);
  }
}
