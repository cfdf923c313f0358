/** The persistent watch state `App.state` (main.py:445-456) and the mod
    list entries it is keyed by (`ModWatch`, main.py:185-190). */
module WatchState {
  import opened Fingerprints

  /** `ModWatch`: a watched mod folder and where it is deployed to. */
  datatype ModWatch = ModWatch(name: string, enabled: bool, localPath: string, remotePath: string)

  /** A value found under `"fp"` or `"deployed_fp"`, or a whole legacy state
      entry: JSON `null`, a fingerprint dict, or any other JSON value (told
      apart only by a tag, since nothing compares equal to a fresh
      fingerprint but a fingerprint). */
  datatype FpValue = NoFp | Fp(fp: Fingerprint) | Other(tag: int)

  /** One state entry: a dict holding `"fp"` (with its `"last_change"` and
      `"deployed_fp"`), or anything else, as written by older versions. */
  datatype Stored =
    | Record(fp: FpValue, lastChange: int, deployedFp: FpValue)
    | Legacy(v: FpValue)

  type State = map<string, Stored>

  /** The entry a legacy value becomes: its fingerprint is taken both as the
      current and as the deployed one, with a last change at time 0. Both
      branches of the upgrade in the source write the same thing. */
  function UpgradeEntry(s: Stored): (r: Stored)
    ensures r.Record?
    ensures s.Record? ==> r == s
    ensures s.Legacy? ==> r.fp == s.v && r.deployedFp == s.v && r.lastChange == 0
  {
    match s
    case Record(_, _, _) => s
    case Legacy(v) => Record(v, 0, v)
  }

  predicate AllRecords(st: State) {
    forall k :: k in st ==> st[k].Record?
  }

  /** The upgrade performed on the loaded state. */
  function Upgrade(st: State): (r: State)
    ensures r.Keys == st.Keys
    ensures AllRecords(r)
  {
    map k | k in st :: UpgradeEntry(st[k])
  }

  /** The upgrade leaves entries that already hold `"fp"` as they are and
      turns each other value `v` into `{fp: v, last_change: 0, deployed_fp: v}`. */
  lemma UpgradeEntries(st: State, k: string)
    requires k in st
    ensures st[k].Record? ==> Upgrade(st)[k] == st[k]
    ensures st[k].Legacy? ==> Upgrade(st)[k] == Record(st[k].v, 0, st[k].v)
  {
  }

  /** Upgrading an upgraded state changes nothing. */
  lemma UpgradeIdempotent(st: State)
    ensures Upgrade(Upgrade(st)) == Upgrade(st)
  {
    var u := Upgrade(st);
    assert forall k :: k in u ==> UpgradeEntry(u[k]) == u[k];
  }

  /** A state in which every entry already holds `"fp"` is its own upgrade. */
  lemma UpgradeFixed(st: State)
    requires AllRecords(st)
    ensures Upgrade(st) == st
  {
    assert forall k :: k in st ==> UpgradeEntry(st[k]) == st[k];
  }
}
