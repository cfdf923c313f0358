/** The deployment engine of `App` (main.py:422-773) without its widgets:
    the watch state and the queue it owns, the busy lock as a flag, and the
    four operations that change them. Time, the disk, the transport and the
    settings are parameters. */
module Engine {
  import opened Maybe
  import opened Text
  import opened Paths
  import opened Fingerprints
  import opened Pending
  import opened WatchState
  import opened Scheduler
  import opened Scan
  import opened Deployment

  class Deployer {
    /** `App.state`: mod name to its watch entry. */
    var state: State
    /** `App.pending`: the queue of changed mods. */
    var pending: Queue
    /** Whether `App._busy_lock` is held by a running deploy. */
    var busy: bool

    predicate Valid()
      reads this
    {
      UniqueKeys(pending) && AllRecords(state)
    }

    /** Loading the saved state and upgrading entries written by older
        versions, one key at a time (main.py:437, 447-456). */
    constructor(loaded: State)
      ensures Valid() && !busy
      ensures state == Upgrade(loaded) && pending == []
    {
      var st := loaded;
      var todo := loaded.Keys;
      while todo != {}
        invariant todo <= loaded.Keys && st.Keys == loaded.Keys
        invariant forall k :: k in loaded ==> st[k] == (if k in todo then loaded[k] else UpgradeEntry(loaded[k]))
        decreases todo
      {
        var k :| k in todo;
        var v := st[k];
        if v.Legacy? {
          st := st[k := Record(v.v, 0, v.v)];
        }
        todo := todo - {k};
      }
      state := st;
      pending := [];
      busy := false;
    }

    /** `_maybe_start_deploy`: checks the gates, collects the ready names in
        queue order, maps them to enabled mods and either returns the batch
        to dispatch or pops the ready names when none is enabled. */
    method MaybeStartDeploy(mods: seq<ModWatch>, now: int, debounce: int, bundle: int) returns (d: Decision)
      requires Valid()
      modifies this
      ensures Valid()
      ensures d == Schedule(old(busy), old(pending), mods, now, debounce, bundle)
      ensures pending == PendingAfter(d, old(pending))
      ensures state == old(state) && busy == old(busy)
    {
      if busy {
        return Busy;
      }
      if pending == [] {
        return NothingPending;
      }
      var earliest := Earliest(pending);
      if now - earliest < debounce {
        return Debouncing;
      }
      if now < earliest + debounce + bundle {
        return Bundling;
      }
      var ready := ReadyOf(pending, now, debounce);
      if ready == [] {
        return NoneReady;
      }
      var batch := BatchOf(ready, mods);
      if batch == [] {
        DropReady(ready);
        return DropDisabled(ready);
      }
      return Dispatch(batch);
    }

    /** The names in the queue whose change has settled, in queue order. */
    static method ReadyOf(q: Queue, now: int, debounce: int) returns (ready: seq<string>)
      ensures ready == ReadyNames(q, now, debounce)
    {
      ready := [];
      for i := 0 to |q|
        invariant ready == ReadyNames(q[..i], now, debounce)
      {
        ReadyNamesAppend(q[..i], [q[i]], now, debounce);
        assert q[..i + 1] == q[..i] + [q[i]];
        if now - q[i].1 >= debounce {
          ready := ready + [q[i].0];
        }
      }
      assert q[..|q|] == q;
    }

    /** `[name_to_mod[n] for n in ready_names if n in name_to_mod]`. */
    static method BatchOf(ready: seq<string>, mods: seq<ModWatch>) returns (batch: seq<ModWatch>)
      ensures batch == Batch(ready, mods)
    {
      batch := [];
      for i := 0 to |ready|
        invariant batch == Batch(ready[..i], mods)
      {
        BatchAppend(ready[..i], [ready[i]], mods);
        assert ready[..i + 1] == ready[..i] + [ready[i]];
        var m := EnabledMod(mods, ready[i]);
        if m.Some? {
          batch := batch + [m.value];
        }
      }
      assert ready[..|ready|] == ready;
    }

    /** `self.pending.pop(n, None)` for each ready name. */
    method DropReady(ready: seq<string>)
      requires Valid()
      modifies this
      ensures Valid() && state == old(state) && busy == old(busy)
      ensures pending == PopAll(old(pending), ready)
    {
      for i := 0 to |ready|
        invariant PopAll(old(pending), ready) == PopAll(pending, ready[i..])
        invariant Valid() && state == old(state) && busy == old(busy)
      {
        assert ready[i..][1..] == ready[i + 1..];
        PopUnique(pending, ready[i]);
        pending := Pop(pending, ready[i]);
      }
      assert ready[|ready|..] == [];
    }

    /** `scan_once`: with no enabled mod nothing happens; otherwise every
        enabled mod is scanned in order at the scan time `now`, and the
        scheduler is consulted at `checkNow`, the clock as read again once
        every folder has been walked. */
    method ScanOnce(mods: seq<ModWatch>, disk: Disk, patterns: seq<string>, now: int, checkNow: int, debounce: int, bundle: int)
      returns (d: Option<Decision>)
      requires Valid()
      modifies this
      ensures Valid() && busy == old(busy)
      ensures Enabled(mods) == [] ==> d == None && state == old(state) && pending == old(pending)
      ensures Enabled(mods) != [] ==>
        var s := ScanAll(old(state), old(pending), Enabled(mods), disk, patterns, now);
        && state == s.0
        && d == Some(Schedule(busy, s.1, mods, checkNow, debounce, bundle))
        && pending == PendingAfter(d.value, s.1)
    {
      var enabled := Enabled(mods);
      if enabled == [] {
        return None;
      }
      ghost var st0 := state;
      ghost var q0 := pending;
      for i := 0 to |enabled|
        invariant (state, pending) == ScanAll(st0, q0, enabled[..i], disk, patterns, now)
        invariant Valid() && busy == old(busy)
      {
        ScanAllStep(st0, q0, enabled, i, disk, patterns, now);
        ScanMod(enabled[i], disk, patterns, now);
      }
      assert enabled[..|enabled|] == enabled;
      var dec := MaybeStartDeploy(mods, checkNow, debounce, bundle);
      d := Some(dec);
    }

    /** The scan of one enabled mod: a folder that is missing or not a
        directory is skipped; otherwise a fingerprint that differs from the
        stored one is recorded with the scan time and queues the mod. */
    method ScanMod(m: ModWatch, disk: Disk, patterns: seq<string>, now: int)
      requires Valid()
      modifies this
      ensures Valid() && busy == old(busy)
      ensures (state, pending) == ScanStep(old(state), old(pending), m, disk, patterns, now)
    {
      if m.localPath in disk && disk[m.localPath].Dir? {
        var fp := FolderFingerprint(disk[m.localPath].entries, patterns);
        var cur := Current(state, m.name);
        if cur.fp != Fp(fp) {
          state := state[m.name := Record(Fp(fp), now, cur.deployedFp)];
          PutUnique(pending, m.name, now);
          pending := Put(pending, m.name, now);
        } else {
          state := state[m.name := cur];
        }
      }
    }

    /** `_deploy_many`: holds the busy lock while it transfers the batch,
        then consults the scheduler once more before releasing it. */
    method DeployMany(batch: seq<ModWatch>, cfg: DeployConfig, env: Env, mods: seq<ModWatch>, now: int, debounce: int, bundle: int)
      returns (outcome: Outcome, tail: Decision)
      requires Valid() && !busy
      modifies this
      ensures Valid() && !busy
      ensures (state, pending, outcome) == Deploy(old(state), old(pending), batch, cfg, env)
      ensures tail == Busy
    {
      busy := true;
      var mode := Mode(cfg.mode);
      outcome := Transfer(batch, mode, cfg, env);
      tail := MaybeStartDeploy(mods, now, debounce, bundle);
      busy := false;
    }

    /** `_deploy_many` as its comment intends it: the follow-up scheduling
        runs once the busy lock is released, so work still queued after the
        batch is considered at once instead of at the next scan. */
    method DeployManyThenNext(batch: seq<ModWatch>, cfg: DeployConfig, env: Env, mods: seq<ModWatch>, now: int, debounce: int, bundle: int)
      returns (outcome: Outcome, next: Decision)
      requires Valid() && !busy
      modifies this
      ensures Valid() && !busy
      ensures var d := Deploy(old(state), old(pending), batch, cfg, env);
        && state == d.0 && outcome == d.2
        && next == Schedule(false, d.1, mods, now, debounce, bundle)
        && pending == PendingAfter(next, d.1)
    {
      busy := true;
      var mode := Mode(cfg.mode);
      outcome := Transfer(batch, mode, cfg, env);
      busy := false;
      next := MaybeStartDeploy(mods, now, debounce, bundle);
    }

    /** The body of `_deploy_many` inside the lock: the mode and setup
        checks, then each mod of the batch in order. */
    method Transfer(batch: seq<ModWatch>, mode: string, cfg: DeployConfig, env: Env) returns (outcome: Outcome)
      requires Valid()
      modifies this
      ensures Valid() && busy == old(busy)
      ensures (state, pending, outcome) == DeployAs(mode, old(state), old(pending), batch, cfg, env)
    {
      if mode == "ftp" && cfg.profile.None? {
        return NoProfile;
      }
      if mode == "ftp" && !env.setupOk {
        return SetupFailed;
      }
      var base := BaseRemote(cfg.remoteBase);
      var hasProfile := cfg.profile.Some?;
      var root := ProfileRoot(if hasProfile then cfg.profile.value else "", hasProfile);
      var localDir := PathStr(cfg.localDir);
      if mode == "local" {
        if LocalDirBlank(cfg.localDir) || !env.setupOk {
          return SetupFailed;
        }
      }
      var route := Route(mode == "ftp", root, base, localDir);
      var r := RunBatch(batch, route, env);
      outcome := if r.failed.Some? then Failed(r.failed.value) else Done(r.files, r.bytes, Names(r.deployed));
    }

    /** The loop of `_deploy_many` over the batch, in order: a mod whose
        folder is missing is skipped, a transfer that raises ends the loop,
        every other mod is deployed. */
    method RunBatch(batch: seq<ModWatch>, route: Route, env: Env) returns (r: RunResult)
      requires Valid()
      modifies this
      ensures Valid() && busy == old(busy)
      ensures r == Run(RunResult(old(state), old(pending), None, 0, 0, []), batch, env)
      ensures state == r.st && pending == r.q
    {
      ghost var start := RunResult(state, pending, None, 0, 0, []);
      var files: nat := 0;
      var bytes: nat := 0;
      var deployed: seq<ModWatch> := [];
      var i := 0;
      while i < |batch|
        invariant 0 <= i <= |batch|
        invariant Run(start, batch, env) == Run(RunResult(state, pending, None, files, bytes, deployed), batch[i..], env)
        invariant Valid() && busy == old(busy)
      {
        var m := batch[i];
        ghost var cur := RunResult(state, pending, None, files, bytes, deployed);
        RunUnfold(cur, batch, i, env);
        if m.localPath in env.disk {
          if m.name in env.fails {
            return RunResult(state, pending, Some(m.name), files, bytes, deployed);
          }
          var n, sz := DeployMod(m, route, env);
          files := files + n;
          bytes := bytes + sz;
          deployed := deployed + [m];
          assert RunResult(state, pending, None, files, bytes, deployed) == Step(cur, m, env);
        }
        i := i + 1;
      }
      assert batch[|batch|..] == [];
      return RunResult(state, pending, None, files, bytes, deployed);
    }

    /** The transfer of one mod's folder: `upload_tree` to its FTP path,
        or `copy_tree` to its local folder. It also gives the destination
        and the paths written there: the remote paths handed to
        `upload_file`, or the relative paths copied under the folder. */
    static method SendFolder(m: ModWatch, route: Route, env: Env) returns (n: nat, sz: nat, dest: string, paths: seq<string>)
      requires m.localPath in env.disk
      ensures n == |Sent(env, m)| && sz == ReportedBytes(Sent(env, m))
      ensures dest == Target(route, m)
      ensures route.ftp ==> paths == RemoteFiles(RootedDir(dest), Sent(env, m))
      ensures !route.ftp ==> paths == RelPaths(Sent(env, m))
    {
      var walk := Walk(env.disk[m.localPath]);
      dest := Target(route, m);
      if route.ftp {
        var stored;
        n, sz, paths, stored := UploadTree(walk, dest, env.patterns);
      } else {
        n, sz, paths := CopyTree(walk, env.patterns);
      }
    }

    /** One mod of `_deploy_many` whose folder exists and whose transfer
        completes: its files are uploaded under the FTP path, or copied
        under the local folder, of its destination; then an entry holding
        `"fp"` gets `deployed_fp := fp`, a missing one is written as the
        default entry, and the name leaves the queue. */
    method DeployMod(m: ModWatch, route: Route, env: Env) returns (n: nat, sz: nat)
      requires Valid() && m.localPath in env.disk
      modifies this
      ensures Valid() && busy == old(busy)
      ensures state == Commit(old(state), m.name) && pending == Pop(old(pending), m.name)
      ensures n == |Sent(env, m)| && sz == ReportedBytes(Sent(env, m))
    {
      var dest, paths;
      n, sz, dest, paths := SendFolder(m, route, env);
      var st := if m.name in state then state[m.name] else Record(NoFp, 0, NoFp);
      if st.Record? {
        state := state[m.name := st.(deployedFp := st.fp)];
      }
      PopUnique(pending, m.name);
      pending := Pop(pending, m.name);
    }
  }
}
