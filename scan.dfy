/** What `App.scan_once` does to the watch state and the queue
    (main.py:634-666): each enabled mod whose folder exists is
    fingerprinted, and a fingerprint that differs from the stored one is
    recorded with the scan time and queues the mod. */
module Scan {
  import opened Maybe
  import opened Fingerprints
  import opened Pending
  import opened WatchState

  /** What is found at a mod's local path: a directory, given by the files
      a walk of it yields, or something that is not a directory. A path
      that is not in the map does not exist. */
  datatype Local = Dir(entries: seq<FileEntry>) | RegularFile

  type Disk = map<string, Local>

  /** The entry of a name, if the state has one. */
  function At(st: State, name: string): Option<Stored> {
    if name in st then Some(st[name]) else None
  }

  /** The entry the scan starts from: the stored one if it holds `"fp"`,
      otherwise `{fp: None, last_change: 0, deployed_fp: None}`. */
  function Current(st: State, name: string): (r: Stored)
    ensures r.Record?
    ensures name in st && st[name].Record? ==> r == st[name]
    ensures !(name in st && st[name].Record?) ==> r == Record(NoFp, 0, NoFp)
  {
    if name in st && st[name].Record? then st[name] else Record(NoFp, 0, NoFp)
  }

  /** `[m for m in self.mods if m.enabled]`. */
  function Enabled(mods: seq<ModWatch>): (r: seq<ModWatch>)
    ensures forall m :: m in r <==> m in mods && m.enabled
  {
    if mods == [] then []
    else (if mods[0].enabled then [mods[0]] else []) + Enabled(mods[1..])
  }

  /** Whether the scan fingerprints this mod: its folder exists and is a directory. */
  predicate Scanned(disk: Disk, m: ModWatch) {
    m.localPath in disk && disk[m.localPath].Dir?
  }

  /** The fingerprint of a scanned mod's folder. */
  function FolderFp(disk: Disk, m: ModWatch, patterns: seq<string>): FpValue
    requires Scanned(disk, m)
  {
    Fp(FingerprintOf(disk[m.localPath].entries, patterns))
  }

  /** The scan of one enabled mod. */
  function ScanStep(st: State, q: Queue, m: ModWatch, disk: Disk, patterns: seq<string>, now: int): (State, Queue) {
    if !Scanned(disk, m) then (st, q)
    else
      var fp := FolderFp(disk, m, patterns);
      var cur := Current(st, m.name);
      if cur.fp != fp then (st[m.name := Record(fp, now, cur.deployedFp)], Put(q, m.name, now))
      else (st[m.name := cur], q)
  }

  /** The scan of the enabled mods, one after the other. */
  function ScanAll(st: State, q: Queue, ms: seq<ModWatch>, disk: Disk, patterns: seq<string>, now: int): (State, Queue) {
    if ms == [] then (st, q)
    else
      var p := ScanAll(st, q, ms[..|ms| - 1], disk, patterns, now);
      ScanStep(p.0, p.1, ms[|ms| - 1], disk, patterns, now)
  }

  /** One more mod extends the scan by its step. */
  lemma ScanAllStep(st: State, q: Queue, ms: seq<ModWatch>, i: nat, disk: Disk, patterns: seq<string>, now: int)
    requires i < |ms|
    ensures var p := ScanAll(st, q, ms[..i], disk, patterns, now);
      ScanAll(st, q, ms[..i + 1], disk, patterns, now) == ScanStep(p.0, p.1, ms[i], disk, patterns, now)
  {
    assert ms[..i + 1][..i] == ms[..i];
  }

  /** The scan keeps the queue free of duplicates and every entry a record. */
  lemma {:induction false} ScanAllValid(st: State, q: Queue, ms: seq<ModWatch>, disk: Disk, patterns: seq<string>, now: int)
    requires UniqueKeys(q) && AllRecords(st)
    ensures var r := ScanAll(st, q, ms, disk, patterns, now); UniqueKeys(r.1) && AllRecords(r.0)
  {
    if ms != [] {
      var p := ScanAll(st, q, ms[..|ms| - 1], disk, patterns, now);
      ScanAllValid(st, q, ms[..|ms| - 1], disk, patterns, now);
      PutUnique(p.1, ms[|ms| - 1].name, now);
    }
  }

  /** Scanning one mod leaves every other name's entry and queued time alone. */
  lemma ScanStepFrame(st: State, q: Queue, m: ModWatch, disk: Disk, patterns: seq<string>, now: int, name: string)
    requires name != m.name
    ensures var r := ScanStep(st, q, m, disk, patterns, now);
      At(r.0, name) == At(st, name) && Lookup(r.1, name) == Lookup(q, name)
  {
    PutLookup(q, m.name, now, name);
  }

  /** A scan leaves alone the names of mods it does not scan: disabled
      mods and names no mod has. */
  lemma {:induction false} ScanAllFrame(st: State, q: Queue, ms: seq<ModWatch>, disk: Disk, patterns: seq<string>, now: int, name: string)
    requires forall m :: m in ms ==> m.name != name
    ensures var r := ScanAll(st, q, ms, disk, patterns, now);
      At(r.0, name) == At(st, name) && Lookup(r.1, name) == Lookup(q, name)
  {
    if ms != [] {
      var front := ms[..|ms| - 1];
      assert forall m :: m in front ==> m in ms;
      ScanAllFrame(st, q, front, disk, patterns, now, name);
      var p := ScanAll(st, q, front, disk, patterns, now);
      ScanStepFrame(p.0, p.1, ms[|ms| - 1], disk, patterns, now, name);
    }
  }

  /** With distinct names, the scan's effect on a mod's name is that of its
      own step: a fingerprint that differs from the stored one (a missing
      or malformed entry counts as different) is recorded with the scan
      time and queues the name at that time; an unchanged fingerprint
      keeps the entry and the queued time; a missing folder changes nothing. */
  lemma {:induction false} ScanOutcome(st: State, q: Queue, ms: seq<ModWatch>, disk: Disk, patterns: seq<string>, now: int, k: nat)
    requires DistinctMods(ms) && k < |ms|
    ensures var r := ScanAll(st, q, ms, disk, patterns, now); var m := ms[k]; var cur := Current(st, m.name);
      (Scanned(disk, m) && cur.fp != FolderFp(disk, m, patterns) ==>
        At(r.0, m.name) == Some(Record(FolderFp(disk, m, patterns), now, cur.deployedFp)) &&
        Lookup(r.1, m.name) == Some(now))
    ensures var r := ScanAll(st, q, ms, disk, patterns, now); var m := ms[k]; var cur := Current(st, m.name);
      (Scanned(disk, m) && cur.fp == FolderFp(disk, m, patterns) ==>
        At(r.0, m.name) == Some(cur) && At(st, m.name) == Some(cur) && Lookup(r.1, m.name) == Lookup(q, m.name))
    ensures var r := ScanAll(st, q, ms, disk, patterns, now); var m := ms[k];
      (!Scanned(disk, m) ==> At(r.0, m.name) == At(st, m.name) && Lookup(r.1, m.name) == Lookup(q, m.name))
  {
    var n := |ms| - 1;
    var front := ms[..n];
    var m := ms[k];
    if k == n {
      assert forall x :: x in front ==> x.name != m.name by {
        forall x | x in front ensures x.name != m.name {
          var j :| 0 <= j < |front| && front[j] == x;
          assert ms[j] == x;
        }
      }
      ScanAllFrame(st, q, front, disk, patterns, now, m.name);
      var p := ScanAll(st, q, front, disk, patterns, now);
      assert Current(p.0, m.name) == Current(st, m.name);
      PutLookup(p.1, m.name, now, m.name);
    } else {
      assert DistinctMods(front) by {
        forall i, j | 0 <= i < j < |front| ensures front[i].name != front[j].name {
          assert front[i] == ms[i] && front[j] == ms[j];
        }
      }
      assert front[k] == m;
      ScanOutcome(st, q, front, disk, patterns, now, k);
      var p := ScanAll(st, q, front, disk, patterns, now);
      ScanStepFrame(p.0, p.1, ms[n], disk, patterns, now, m.name);
    }
  }

  /** Two mods under one name whose folders differ: every scan records the
      second folder's fingerprint with the scan time and queues the name at
      that time, because the first mod's step has just overwritten it. So a
      rescan over unchanged folders at a later time does change the state
      and the queue, and `RescanQuiet` needs distinct names. */
  lemma DuplicateNameRequeues(st: State, q: Queue, a: ModWatch, b: ModWatch, disk: Disk, patterns: seq<string>, now: int, later: int)
    requires a.name == b.name && Scanned(disk, a) && Scanned(disk, b)
    requires FolderFp(disk, a, patterns) != FolderFp(disk, b, patterns)
    ensures var r := ScanAll(st, q, [a, b], disk, patterns, now);
      && At(r.0, a.name) == Some(Record(FolderFp(disk, b, patterns), now, Current(st, a.name).deployedFp))
      && Lookup(r.1, a.name) == Some(now)
    ensures var r := ScanAll(st, q, [a, b], disk, patterns, now);
      var s := ScanAll(r.0, r.1, [a, b], disk, patterns, later);
      Lookup(s.1, a.name) == Some(later) && (later != now ==> s != r)
  {
    var r := TwoScans(st, q, a, b, disk, patterns, now);
    var s := TwoScans(r.0, r.1, a, b, disk, patterns, later);
  }

  /** The scan of two mods under one name whose folders differ. */
  lemma TwoScans(st: State, q: Queue, a: ModWatch, b: ModWatch, disk: Disk, patterns: seq<string>, now: int) returns (r: (State, Queue))
    requires a.name == b.name && Scanned(disk, a) && Scanned(disk, b)
    requires FolderFp(disk, a, patterns) != FolderFp(disk, b, patterns)
    ensures r == ScanAll(st, q, [a, b], disk, patterns, now)
    ensures At(r.0, a.name) == Some(Record(FolderFp(disk, b, patterns), now, Current(st, a.name).deployedFp))
    ensures Lookup(r.1, a.name) == Some(now)
  {
    assert [a, b][..1] == [a] && [a][..0] == [];
    var p := ScanStep(st, q, a, disk, patterns, now);
    assert ScanAll(st, q, [a], disk, patterns, now) == p;
    assert Current(p.0, a.name).fp == FolderFp(disk, a, patterns);
    r := ScanStep(p.0, p.1, b, disk, patterns, now);
    PutLookup(p.1, b.name, now, b.name);
  }

  /** No two mods share a name. */
  predicate DistinctMods(ms: seq<ModWatch>) {
    forall i, j :: 0 <= i < j < |ms| ==> ms[i].name != ms[j].name
  }

  /** The scan never writes `deployed_fp`: every name keeps the deployed
      fingerprint it started from. */
  lemma {:induction false} ScanKeepsDeployed(st: State, q: Queue, ms: seq<ModWatch>, disk: Disk, patterns: seq<string>, now: int, name: string)
    ensures Current(ScanAll(st, q, ms, disk, patterns, now).0, name).deployedFp == Current(st, name).deployedFp
  {
    if ms != [] {
      ScanKeepsDeployed(st, q, ms[..|ms| - 1], disk, patterns, now, name);
    }
  }

  /** The fingerprint of every scanned mod is the one on record. */
  predicate Settled(st: State, ms: seq<ModWatch>, disk: Disk, patterns: seq<string>) {
    forall m :: m in ms && Scanned(disk, m) ==> Current(st, m.name).fp == FolderFp(disk, m, patterns)
  }

  /** When every scanned mod's fingerprint is already on record, a scan
      changes neither the state nor the queue. */
  lemma {:induction false} ScanQuiet(st: State, q: Queue, ms: seq<ModWatch>, disk: Disk, patterns: seq<string>, now: int)
    requires Settled(st, ms, disk, patterns)
    ensures ScanAll(st, q, ms, disk, patterns, now) == (st, q)
  {
    if ms != [] {
      var front := ms[..|ms| - 1];
      assert forall m :: m in front ==> m in ms;
      ScanQuiet(st, q, front, disk, patterns, now);
      var m := ms[|ms| - 1];
      if Scanned(disk, m) {
        assert m in ms;
        assert st[m.name := Current(st, m.name)] == st;
      }
    }
  }

  /** After a scan of mods with distinct names, every scanned mod's
      fingerprint is on record. */
  lemma ScanSettles(st: State, q: Queue, ms: seq<ModWatch>, disk: Disk, patterns: seq<string>, now: int)
    requires DistinctMods(ms)
    ensures Settled(ScanAll(st, q, ms, disk, patterns, now).0, ms, disk, patterns)
  {
    var r := ScanAll(st, q, ms, disk, patterns, now);
    forall m | m in ms && Scanned(disk, m) ensures Current(r.0, m.name).fp == FolderFp(disk, m, patterns) {
      var k :| 0 <= k < |ms| && ms[k] == m;
      ScanOutcome(st, q, ms, disk, patterns, now, k);
    }
  }

  /** A second scan over unchanged folders enqueues nothing and changes nothing. */
  lemma RescanQuiet(st: State, q: Queue, ms: seq<ModWatch>, disk: Disk, patterns: seq<string>, now: int, later: int)
    requires DistinctMods(ms)
    ensures var r := ScanAll(st, q, ms, disk, patterns, now);
      ScanAll(r.0, r.1, ms, disk, patterns, later) == r
  {
    var r := ScanAll(st, q, ms, disk, patterns, now);
    ScanSettles(st, q, ms, disk, patterns, now);
    ScanQuiet(r.0, r.1, ms, disk, patterns, later);
  }
}
