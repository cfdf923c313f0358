/** What `App._deploy_many` does to the watch state and the queue
    (main.py:693-773): the transport mode and its setup, the destination of
    each mod, and the loop that commits and dequeues mods in batch order
    until the first transfer that raises. */
module Deployment {
  import opened Maybe
  import opened Text
  import opened Paths
  import opened Exclude
  import opened Fingerprints
  import opened Pending
  import opened WatchState
  import opened Scan

  /** The deploy settings as stored: the raw `mode`, `remote_mods_base` and
      `local_deploy_dir` (the empty string standing for a missing or empty
      value), and the root of the selected profile, if one is selected. */
  datatype DeployConfig = DeployConfig(mode: string, remoteBase: string, localDir: string, profile: Option<string>)

  /** What the deploy meets outside the process: the folders on disk, the
      mods whose transfer raises, the exclude patterns, and whether the
      FTP connection or the creation of the local deploy folder succeeds. */
  datatype Env = Env(disk: Disk, fails: set<string>, patterns: seq<string>, setupOk: bool)

  /** Where mods go: by FTP under a root, or locally under a folder, both
      with a base for mods without a remote path of their own. */
  datatype Route = Route(ftp: bool, root: string, base: string, localDir: string)

  /** The loop's running result: the state, the queue, the mod whose
      transfer raised, the summed counters and the mods deployed so far. */
  datatype RunResult = RunResult(st: State, q: Queue, failed: Option<string>, files: nat, bytes: nat, deployed: seq<ModWatch>)

  datatype Outcome =
    | NoProfile
    | SetupFailed
    | Failed(name: string)
    | Done(files: nat, bytes: nat, deployed: seq<string>)

  /** `(dpl.get("mode", "ftp") or "ftp").strip().lower()`. */
  function Mode(raw: string): string {
    Lower(Strip(if raw == "" then "ftp" else raw))
  }

  /** The root `pathlib` keeps for a POSIX path: exactly two leading
      slashes stay two, one or three and more become one. */
  function PathRoot(raw: string): (r: string)
    ensures r == "" || r == "/" || r == "//"
    ensures r == "" <==> raw == [] || raw[0] != '/'
  {
    if |raw| >= 2 && raw[0] == '/' && raw[1] == '/' && (|raw| == 2 || raw[2] != '/') then "//"
    else if raw != [] && raw[0] == '/' then "/"
    else ""
  }

  /** `str(pathlib.Path(raw or ""))` on POSIX: the root, then the segments
      other than empty ones and `.` joined by slashes; a path with neither
      is the current folder `.`. */
  function PathStr(raw: string): string {
    var root := PathRoot(raw);
    var parts := PathParts(Split(raw, '/'));
    if root == "" && parts == [] then "."
    else if root == "" then Join(parts, '/')
    else root + Join(parts, '/')
  }

  /** The `RuntimeError` guard of local mode: the folder's text is blank. */
  predicate LocalDirBlank(raw: string) {
    Strip(PathStr(raw)) == ""
  }

  /** `pathlib.Path(dir) / rel`: an absolute right side replaces the left,
      an empty one leaves it, the current folder drops out, and a folder
      that is a root takes no second slash. */
  function LocalTarget(dir: string, rel: string): string {
    if rel != [] && rel[0] == '/' then rel
    else if rel == [] then dir
    else if dir == "." then rel
    else if dir != [] && dir[|dir| - 1] == '/' then dir + rel
    else dir + "/" + rel
  }

  /** The folder a mod is copied or uploaded to. */
  function Target(route: Route, m: ModWatch): string {
    var rel := RelRemote(m.remotePath, route.base, m.name);
    if route.ftp then FtpFullPath(route.root, rel) else LocalTarget(route.localDir, rel)
  }

  /** The names of the given mods, in order. */
  function Names(ms: seq<ModWatch>): (r: seq<string>)
    ensures |r| == |ms|
    ensures forall i :: 0 <= i < |ms| ==> r[i] == ms[i].name
  {
    if ms == [] then [] else Names(ms[..|ms| - 1]) + [ms[|ms| - 1].name]
  }

  /** What the walk of a mod's existing local path yields: nothing for a
      path that is not a directory. */
  function Walk(l: Local): seq<FileEntry> {
    if l.Dir? then l.entries else []
  }

  /** The files a transfer of the mod's folder sends. */
  function Sent(env: Env, m: ModWatch): seq<FileEntry>
    requires m.localPath in env.disk
  {
    Included(Walk(env.disk[m.localPath]), env.patterns)
  }

  /** The running result after the mod is transferred and committed. */
  function Step(r: RunResult, m: ModWatch, env: Env): RunResult
    requires m.localPath in env.disk
  {
    RunResult(Commit(r.st, m.name), Pop(r.q, m.name), None, r.files + |Sent(env, m)|,
              r.bytes + ReportedBytes(Sent(env, m)), r.deployed + [m])
  }

  /** Marking a mod deployed: an entry holding `"fp"` gets `deployed_fp :=
      fp`, a missing entry is written as `{fp: None, last_change: 0,
      deployed_fp: None}`, any other entry is left as it is. */
  function CommitEntry(e: Option<Stored>): (r: Stored)
    ensures e.Some? && e.value.Record? ==> r == e.value.(deployedFp := e.value.fp)
    ensures e.Some? && e.value.Legacy? ==> r == e.value
    ensures e.None? ==> r == Record(NoFp, 0, NoFp)
  {
    match e
    case None => Record(NoFp, 0, NoFp)
    case Some(Record(fp, lc, _)) => Record(fp, lc, fp)
    case Some(Legacy(v)) => Legacy(v)
  }

  function Commit(st: State, name: string): State {
    st[name := CommitEntry(At(st, name))]
  }

  /** The per-mod loop from a running result: a missing folder is skipped,
      a transfer that raises ends the loop, a transfer that completes
      commits the mod, pops it from the queue and adds its counters. */
  function Run(r: RunResult, b: seq<ModWatch>, env: Env): RunResult
    decreases |b|
  {
    if b == [] then r
    else
      var m := b[0];
      if m.localPath !in env.disk then Run(r, b[1..], env)
      else if m.name in env.fails then r.(failed := Some(m.name))
      else Run(Step(r, m, env), b[1..], env)
  }

  /** The loop at index `i` of the batch: one step, then the rest. */
  lemma RunUnfold(r: RunResult, b: seq<ModWatch>, i: nat, env: Env)
    requires i < |b|
    ensures b[i].localPath !in env.disk ==> Run(r, b[i..], env) == Run(r, b[i + 1..], env)
    ensures b[i].localPath in env.disk && b[i].name in env.fails ==>
      Run(r, b[i..], env) == r.(failed := Some(b[i].name))
    ensures b[i].localPath in env.disk && b[i].name !in env.fails ==>
      Run(r, b[i..], env) == Run(Step(r, b[i], env), b[i + 1..], env)
  {
    assert b[i..][0] == b[i] && b[i..][1..] == b[i + 1..];
  }

  /** `_deploy_many` from start to end: the new state, the new queue and
      how it ended. */
  function Deploy(st: State, q: Queue, batch: seq<ModWatch>, cfg: DeployConfig, env: Env): (State, Queue, Outcome) {
    DeployAs(Mode(cfg.mode), st, q, batch, cfg, env)
  }

  /** The same once the mode is known. */
  function DeployAs(mode: string, st: State, q: Queue, batch: seq<ModWatch>, cfg: DeployConfig, env: Env): (State, Queue, Outcome) {
    if mode == "ftp" && cfg.profile.None? then (st, q, NoProfile)
    else if mode == "ftp" && !env.setupOk then (st, q, SetupFailed)
    else if mode == "local" && (LocalDirBlank(cfg.localDir) || !env.setupOk) then (st, q, SetupFailed)
    else
      var r := Run(RunResult(st, q, None, 0, 0, []), batch, env);
      (r.st, r.q, if r.failed.Some? then Failed(r.failed.value) else Done(r.files, r.bytes, Names(r.deployed)))
  }

  /** The index at which the loop stops: the first mod whose folder exists
      and whose transfer raises, or the end of the batch. */
  function Stop(b: seq<ModWatch>, env: Env): (k: nat)
    ensures k <= |b|
    ensures k < |b| ==> b[k].localPath in env.disk && b[k].name in env.fails
    ensures forall j :: 0 <= j < k ==> !(b[j].localPath in env.disk && b[j].name in env.fails)
  {
    if b == [] then 0
    else if b[0].localPath in env.disk && b[0].name in env.fails then 0
    else
      var k := Stop(b[1..], env);
      assert forall j :: 1 <= j < k + 1 ==> b[j] == b[1..][j - 1];
      1 + k
  }

  /** Whether the loop deploys the mod at index `j`: it comes before the
      stop and its folder exists. */
  predicate Deployed(b: seq<ModWatch>, env: Env, j: nat) {
    j < Stop(b, env) && b[j].localPath in env.disk
  }

  /** A name outside the batch keeps its entry and its queued time. */
  lemma {:induction false} RunFrame(r: RunResult, b: seq<ModWatch>, env: Env, name: string)
    requires forall m :: m in b ==> m.name != name
    ensures var s := Run(r, b, env);
      At(s.st, name) == At(r.st, name) && Lookup(s.q, name) == Lookup(r.q, name)
    decreases |b|
  {
    if b != [] {
      assert forall m :: m in b[1..] ==> m in b;
      var m := b[0];
      if m.localPath in env.disk && m.name !in env.fails {
        var r' := Step(r, m, env);
        RunFrame(r', b[1..], env, name);
        PopLookup(r.q, m.name, name);
      } else if m.localPath !in env.disk {
        RunFrame(r, b[1..], env, name);
      }
    }
  }

  /** The loop ends at the stop index, failing exactly when that index is
      inside the batch, with the name of the mod there. */
  lemma {:induction false} RunFails(r: RunResult, b: seq<ModWatch>, env: Env)
    requires r.failed.None?
    ensures Run(r, b, env).failed == (if Stop(b, env) < |b| then Some(b[Stop(b, env)].name) else None)
    decreases |b|
  {
    if b != [] {
      var m := b[0];
      if m.localPath !in env.disk {
        RunFails(r, b[1..], env);
      } else if m.name !in env.fails {
        RunFails(Step(r, m, env), b[1..], env);
      }
    }
  }

  /** With distinct names, every mod before the stop whose folder exists is
      committed and leaves the queue, and every other mod of the batch keeps
      its entry and its queued time. */
  lemma {:induction false} RunAt(r: RunResult, b: seq<ModWatch>, env: Env, j: nat)
    requires DistinctMods(b) && j < |b|
    ensures var s := Run(r, b, env); var n := b[j].name;
      (Deployed(b, env, j) ==> At(s.st, n) == Some(CommitEntry(At(r.st, n))) && Lookup(s.q, n) == None)
    ensures var s := Run(r, b, env); var n := b[j].name;
      (!Deployed(b, env, j) ==> At(s.st, n) == At(r.st, n) && Lookup(s.q, n) == Lookup(r.q, n))
    decreases |b|
  {
    var m := b[0];
    var tail := b[1..];
    if m.localPath in env.disk && m.name in env.fails {
      assert Stop(b, env) == 0;
    } else {
      var r' := if m.localPath in env.disk then Step(r, m, env) else r;
      RunPast(r, b, env);
      if j == 0 {
        FirstNameUnique(b);
        RunFrame(r', tail, env, m.name);
        PopLookup(r.q, m.name, m.name);
      } else {
        DistinctTail(b, j);
        RunAt(r', tail, env, j - 1);
        PopLookup(r.q, m.name, b[j].name);
      }
    }
  }

  /** Past a first mod that does not stop the loop, the loop is the rest of
      the batch from that mod's step, and the stop moves by one. */
  lemma RunPast(r: RunResult, b: seq<ModWatch>, env: Env)
    requires b != [] && !(b[0].localPath in env.disk && b[0].name in env.fails)
    ensures Run(r, b, env) == Run(if b[0].localPath in env.disk then Step(r, b[0], env) else r, b[1..], env)
    ensures Stop(b, env) == 1 + Stop(b[1..], env)
    ensures forall j :: 0 < j < |b| ==> Deployed(b, env, j) == Deployed(b[1..], env, j - 1)
  {
  }

  /** The first mod's name is not that of any later mod. */
  lemma FirstNameUnique(b: seq<ModWatch>)
    requires DistinctMods(b) && b != []
    ensures forall x :: x in b[1..] ==> x.name != b[0].name
  {
    forall x | x in b[1..] ensures x.name != b[0].name {
      var i :| 0 <= i < |b[1..]| && b[1..][i] == x;
      assert b[i + 1] == x;
    }
  }

  /** The rest of a batch with distinct names has distinct names, and the
      mod at `j` is the rest's mod at `j - 1`, named unlike the first. */
  lemma DistinctTail(b: seq<ModWatch>, j: nat)
    requires DistinctMods(b) && 0 < j < |b|
    ensures DistinctMods(b[1..])
    ensures b[1..][j - 1] == b[j] && b[0].name != b[j].name
  {
    var tail := b[1..];
    forall i, k | 0 <= i < k < |tail| ensures tail[i].name != tail[k].name {
      assert tail[i] == b[i + 1] && tail[k] == b[k + 1];
    }
  }

  /** Committing never changes a recorded fingerprint. */
  lemma CommitKeepsFp(st: State, name: string, other: string)
    ensures Current(Commit(st, name), other).fp == Current(st, other).fp
    ensures Current(Commit(st, name), name).deployedFp == Current(st, name).fp
  {
    if other != name {
      assert At(Commit(st, name), other) == At(st, other);
    }
  }

  /** The loop never changes a recorded fingerprint, so a deploy leaves a
      settled state settled. */
  lemma {:induction false} RunKeepsFp(r: RunResult, b: seq<ModWatch>, env: Env, name: string)
    ensures Current(Run(r, b, env).st, name).fp == Current(r.st, name).fp
    decreases |b|
  {
    if b != [] {
      var m := b[0];
      if m.localPath in env.disk && m.name !in env.fails {
        var r' := Step(r, m, env);
        RunKeepsFp(r', b[1..], env, name);
        CommitKeepsFp(r.st, m.name, name);
      } else if m.localPath !in env.disk {
        RunKeepsFp(r, b[1..], env, name);
      }
    }
  }

  /** The files and bytes the transfers of the given mods' folders report. */
  function SentFiles(env: Env, ms: seq<ModWatch>): nat
    requires forall m :: m in ms ==> m.localPath in env.disk
  {
    if ms == [] then 0 else SentFiles(env, ms[..|ms| - 1]) + |Sent(env, ms[|ms| - 1])|
  }

  function SentBytes(env: Env, ms: seq<ModWatch>): nat
    requires forall m :: m in ms ==> m.localPath in env.disk
  {
    if ms == [] then 0 else SentBytes(env, ms[..|ms| - 1]) + ReportedBytes(Sent(env, ms[|ms| - 1]))
  }

  /** The running counters are the sums over the mods deployed so far. */
  predicate Counted(r: RunResult, env: Env) {
    && (forall m :: m in r.deployed ==> m.localPath in env.disk)
    && r.files == SentFiles(env, r.deployed)
    && r.bytes == SentBytes(env, r.deployed)
  }

  /** The loop keeps the counters equal to the transfer counters of the
      deployed mods' folders (every non-excluded file, with 0 bytes for a
      failing `stat`), and only appends to the deployed mods. */
  lemma {:induction false} RunCounts(r: RunResult, b: seq<ModWatch>, env: Env)
    requires Counted(r, env)
    ensures Counted(Run(r, b, env), env)
    ensures |Run(r, b, env).deployed| >= |r.deployed|
    ensures Run(r, b, env).deployed[..|r.deployed|] == r.deployed
    decreases |b|
  {
    if b != [] {
      var m := b[0];
      if m.localPath in env.disk && m.name !in env.fails {
        var r' := Step(r, m, env);
        StepCounted(r, m, env);
        RunCounts(r', b[1..], env);
        PrefixOfPrefix(r.deployed, r'.deployed, Run(r', b[1..], env).deployed);
      } else if m.localPath !in env.disk {
        RunCounts(r, b[1..], env);
      }
    }
  }

  /** One step keeps the counters equal to the sums and appends its mod. */
  lemma StepCounted(r: RunResult, m: ModWatch, env: Env)
    requires Counted(r, env) && m.localPath in env.disk
    ensures Counted(Step(r, m, env), env)
    ensures Step(r, m, env).deployed[..|r.deployed|] == r.deployed
  {
    var d := r.deployed + [m];
    assert d[..|d| - 1] == r.deployed;
    assert d[|d| - 1] == m;
  }

  /** A prefix of a prefix is a prefix. */
  lemma PrefixOfPrefix(a: seq<ModWatch>, b: seq<ModWatch>, c: seq<ModWatch>)
    requires |a| <= |b| <= |c| && b[..|a|] == a && c[..|b|] == b
    ensures c[..|a|] == a
  {
    assert c[..|a|] == c[..|b|][..|a|];
  }

  /** The mods whose folder exists, in order. */
  function Existing(ms: seq<ModWatch>, disk: Disk): (r: seq<ModWatch>)
    ensures forall m :: m in r ==> m in ms && m.localPath in disk
  {
    if ms == [] then []
    else (if ms[0].localPath in disk then [ms[0]] else []) + Existing(ms[1..], disk)
  }

  /** The mods the loop deploys: those before the stop whose folder exists,
      in batch order. */
  function DeployedMods(b: seq<ModWatch>, env: Env): seq<ModWatch> {
    Existing(b[..Stop(b, env)], env.disk)
  }

  /** The loop appends to the deployed mods exactly the mods of the batch
      before the first transfer that raises whose folder exists, in order. */
  lemma {:induction false} RunDeployed(r: RunResult, b: seq<ModWatch>, env: Env)
    ensures Run(r, b, env).deployed == r.deployed + DeployedMods(b, env)
    decreases |b|
  {
    if b == [] || (b[0].localPath in env.disk && b[0].name in env.fails) {
      DeployedNone(r, b, env);
    } else {
      var r' := if b[0].localPath in env.disk then Step(r, b[0], env) else r;
      RunNext(r, b, env);
      RunDeployed(r', b[1..], env);
      DeployedLink(r, b, env, r');
    }
  }

  /** An empty batch, or one whose first mod raises, deploys nothing. */
  lemma {:induction false} DeployedNone(r: RunResult, b: seq<ModWatch>, env: Env)
    requires b == [] || (b[0].localPath in env.disk && b[0].name in env.fails)
    ensures Run(r, b, env).deployed == r.deployed + DeployedMods(b, env)
  {
    assert Stop(b, env) == 0 && b[..0] == [];
    assert r.deployed + [] == r.deployed;
  }

  /** Past a first mod that does not stop the loop, the deployed mods
      carried into the rest of the batch plus those the rest deploys are
      those the whole batch deploys. */
  lemma {:induction false} DeployedLink(r: RunResult, b: seq<ModWatch>, env: Env, r': RunResult)
    requires b != [] && !(b[0].localPath in env.disk && b[0].name in env.fails)
    requires r' == if b[0].localPath in env.disk then Step(r, b[0], env) else r
    ensures r'.deployed + DeployedMods(b[1..], env) == r.deployed + DeployedMods(b, env)
  {
    var pre := if b[0].localPath in env.disk then [b[0]] else [];
    DeployedCons(b, env);
    ConcatLink(r.deployed, r'.deployed, pre, DeployedMods(b[1..], env), DeployedMods(b, env));
  }

  /** Regrouping the deployed mods: `(d + pre) + rest == d + (pre + rest)`. */
  lemma ConcatLink(d: seq<ModWatch>, d': seq<ModWatch>, pre: seq<ModWatch>, rest: seq<ModWatch>, all: seq<ModWatch>)
    requires d' == d + pre && all == pre + rest
    ensures d' + rest == d + all
  {
  }

  /** The first equation of `RunPast` on its own. */
  lemma {:induction false} RunNext(r: RunResult, b: seq<ModWatch>, env: Env)
    requires b != [] && !(b[0].localPath in env.disk && b[0].name in env.fails)
    ensures Run(r, b, env) == Run(if b[0].localPath in env.disk then Step(r, b[0], env) else r, b[1..], env)
  {
  }

  /** Past a first mod that does not stop the loop, the deployed mods are
      that mod, if its folder exists, then those of the rest. */
  lemma {:induction false} DeployedCons(b: seq<ModWatch>, env: Env)
    requires b != [] && !(b[0].localPath in env.disk && b[0].name in env.fails)
    ensures DeployedMods(b, env) == (if b[0].localPath in env.disk then [b[0]] else []) + DeployedMods(b[1..], env)
  {
    var tail := b[1..];
    var k := Stop(tail, env);
    assert Stop(b, env) == k + 1;
    assert b[..k + 1] == [b[0]] + tail[..k];
    assert ([b[0]] + tail[..k])[1..] == tail[..k];
  }

  /** What a deploy past its setup reports: the mod at the stop when a
      transfer raises, otherwise the number of files and bytes sent for the
      deployed mods' folders and their names in batch order. */
  lemma DeployReport(st: State, q: Queue, b: seq<ModWatch>, env: Env)
    ensures var s := Run(RunResult(st, q, None, 0, 0, []), b, env); var d := DeployedMods(b, env);
      && s.deployed == d
      && (forall m :: m in d ==> m.localPath in env.disk)
      && s.files == SentFiles(env, d) && s.bytes == SentBytes(env, d)
      && s.failed == (if Stop(b, env) < |b| then Some(b[Stop(b, env)].name) else None)
  {
    var r := RunResult(st, q, None, 0, 0, []);
    RunDeployed(r, b, env);
    assert [] + DeployedMods(b, env) == DeployedMods(b, env);
    RunCounts(r, b, env);
    RunFails(r, b, env);
  }

  /** A deploy after a scan leaves the scanned fingerprints on record, so
      the next scan over unchanged folders queues nothing again. */
  lemma RescanAfterDeploy(st: State, q: Queue, batch: seq<ModWatch>, cfg: DeployConfig, env: Env,
                          ms: seq<ModWatch>, now: int)
    requires Settled(st, ms, env.disk, env.patterns)
    ensures var d := Deploy(st, q, batch, cfg, env);
      ScanAll(d.0, d.1, ms, env.disk, env.patterns, now) == (d.0, d.1)
  {
    var d := Deploy(st, q, batch, cfg, env);
    forall m | m in ms && Scanned(env.disk, m)
      ensures Current(d.0, m.name).fp == FolderFp(env.disk, m, env.patterns)
    {
      RunKeepsFp(RunResult(st, q, None, 0, 0, []), batch, env, m.name);
    }
    ScanQuiet(d.0, d.1, ms, env.disk, env.patterns, now);
  }

  /** In FTP mode with no profile selected, nothing is committed or dequeued. */
  lemma NoProfileNoChange(st: State, q: Queue, batch: seq<ModWatch>, cfg: DeployConfig, env: Env)
    requires Mode(cfg.mode) == "ftp" && cfg.profile.None?
    ensures Deploy(st, q, batch, cfg, env) == (st, q, NoProfile)
  {
  }

  /** When the FTP connection fails, nothing is committed or dequeued. */
  lemma ConnectFailureNoChange(st: State, q: Queue, batch: seq<ModWatch>, cfg: DeployConfig, env: Env)
    requires Mode(cfg.mode) == "ftp" && cfg.profile.Some? && !env.setupOk
    ensures Deploy(st, q, batch, cfg, env) == (st, q, SetupFailed)
  {
  }

  /** When the local deploy folder cannot be created, nothing is committed
      or dequeued. */
  lemma LocalSetupFailureNoChange(st: State, q: Queue, batch: seq<ModWatch>, cfg: DeployConfig, env: Env)
    requires Mode(cfg.mode) == "local" && !env.setupOk
    ensures Deploy(st, q, batch, cfg, env) == (st, q, SetupFailed)
  {
  }

  /** A local deploy folder set to whitespace only stops a local deploy
      before anything is committed or dequeued. */
  lemma BlankLocalDirNoChange(st: State, q: Queue, batch: seq<ModWatch>, cfg: DeployConfig, env: Env)
    requires Mode(cfg.mode) == "local" && cfg.localDir != "" && AllSpace(cfg.localDir)
    ensures Deploy(st, q, batch, cfg, env) == (st, q, SetupFailed)
  {
    BlankSettings(cfg.localDir);
  }

  /** Any mode other than `ftp` and `local` copies locally without the
      guard and without setting anything up. */
  lemma OtherModeCopies(st: State, q: Queue, batch: seq<ModWatch>, cfg: DeployConfig, env: Env)
    requires Mode(cfg.mode) != "ftp" && Mode(cfg.mode) != "local"
    ensures var r := Run(RunResult(st, q, None, 0, 0, []), batch, env);
      Deploy(st, q, batch, cfg, env).0 == r.st && Deploy(st, q, batch, cfg, env).1 == r.q
  {
  }

  /** The local-mode guard fires exactly for a setting without a leading
      slash whose only segment, once empty and `.` segments are dropped,
      is made of whitespace: `" "` and `" /"` fire, `""` (the current
      folder) and `"/ "` do not. */
  lemma LocalDirGuard(raw: string)
    ensures var parts := PathParts(Split(raw, '/'));
      LocalDirBlank(raw) <==> PathRoot(raw) == "" && |parts| == 1 && AllSpace(parts[0])
  {
    var root := PathRoot(raw);
    var parts := PathParts(Split(raw, '/'));
    var p := PathStr(raw);
    assert LocalDirBlank(raw) <==> AllSpace(p);
    if root == "" && parts == [] {
      NotAllSpaceAt(p, 0);
    } else if root == "" && |parts| == 1 {
      assert p == parts[0];
    } else if root == "" {
      JoinHasSeparator(parts, '/');
      NotAllSpaceAt(p, |parts[0]|);
    } else {
      NotAllSpaceAt(p, 0);
    }
  }

  /** Text holding a slash or a dot is not blank. */
  lemma NotAllSpaceAt(p: string, i: nat)
    requires i < |p| && (p[i] == '/' || p[i] == '.')
    ensures !AllSpace(p)
  {
  }

  /** A join of two or more parts holds the separator. */
  lemma JoinHasSeparator(parts: seq<string>, sep: char)
    requires |parts| >= 2
    ensures var j := Join(parts, sep); |parts[0]| < |j| && j[|parts[0]|] == sep
  {
  }

  /** A setting made only of whitespace is a single segment and fires the
      guard, and so does one followed by a slash; the empty setting does not. */
  lemma BlankSettings(raw: string)
    requires raw != "" && AllSpace(raw)
    ensures LocalDirBlank(raw)
    ensures LocalDirBlank(raw + "/")
    ensures !LocalDirBlank("")
  {
    assert !IsSpace('/') && !IsSpace('.');
    assert forall k :: 0 <= k < |raw| ==> raw[k] != '/';
    assert '/' !in raw;
    assert raw[0] != '.';
    SplitNoSep(raw, '/');
    SplitAround(raw, "", '/');
    assert raw + ['/'] + "" == raw + "/";
    assert Split("", '/') == [""];
    assert Split(raw + "/", '/') == [raw, ""];
    assert PathParts([raw]) == [raw] by {
      PathPartsSnoc([], raw);
      assert [] + [raw] == [raw];
    }
    assert [raw, ""][..1] == [raw];
    assert PathParts([raw, ""]) == [raw];
    LocalDirGuard(raw);
    LocalDirGuard(raw + "/");
    LocalDirGuard("");
    assert PathParts([""]) == [];
  }

  /** A missing or empty mode is FTP. */
  lemma ModeMissing()
    ensures Mode("") == "ftp"
  {
    var f := "ftp";
    StripFixed(f);
    assert Lower(f) == f;
  }

  /** A mod without a remote path of its own, under a base that normalises
      to nothing, gets the relative destination `/<name>`; locally that is
      an absolute path, outside the deploy folder. */
  lemma EmptyBaseLocalTarget(dir: string, remotePath: string, name: string)
    requires AllSpace(remotePath)
    ensures RelRemote(remotePath, "", name) == "/" + name
    ensures LocalTarget(dir, RelRemote(remotePath, "", name)) == "/" + name
  {
  }

  /** A mod's own remote path, or else `<base>/<name>` under a non-empty
      base, is not absolute, so the local destination is the deploy folder
      joined with it rather than replaced by it (the current folder `.`
      drops out of the join). (A `..` segment in the
      remote path still leads out of the folder once it is resolved.) */
  lemma LocalTargetInside(dir: string, remotePath: string, base: string, name: string)
    requires dir != ""
    requires !AllSpace(remotePath) || base != ""
    requires base == "" || base[0] != '/'
    ensures var rel := RelRemote(remotePath, base, name); var t := LocalTarget(dir, rel);
      && (rel == "" ==> t == dir)
      && (rel != "" && dir == "." ==> t == rel)
      && (rel != "" && dir != "." ==> t == dir + (if dir[|dir| - 1] == '/' then "" else "/") + rel)
  {
    RelNotRooted(remotePath, base, name);
    LocalTargetJoins(dir, RelRemote(remotePath, base, name));
  }

  /** `Path(dir) / rel` for a relative `rel`: the folder joined with it. */
  lemma LocalTargetJoins(dir: string, rel: string)
    requires dir != "" && (rel == "" || rel[0] != '/')
    ensures var t := LocalTarget(dir, rel);
      && (rel == "" ==> t == dir)
      && (rel != "" && dir == "." ==> t == rel)
      && (rel != "" && dir != "." ==> t == dir + (if dir[|dir| - 1] == '/' then "" else "/") + rel)
  {
  }

  /** Under the same conditions the relative destination has no leading slash. */
  lemma RelNotRooted(remotePath: string, base: string, name: string)
    requires !AllSpace(remotePath) || base != ""
    requires base == "" || base[0] != '/'
    ensures var rel := RelRemote(remotePath, base, name); rel == "" || rel[0] != '/'
  {
  }
}
