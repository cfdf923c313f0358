# Mod auto-deploy engine

A model of the deployment engine of the Steam Workshop mod auto-deploy tool
(`main.py`). The tool watches a list of mod folders (`ModWatch`). For each
folder it keeps a fingerprint: the number of files, their total size and
the latest modification time, leaving out files that match the exclude
patterns. When a fingerprint changes, the mod is queued in `pending` with
the time of the change. Once the oldest change has been stable for the
debounce period, and the bundle window after it has passed, the tool
deploys every settled mod in one batch. The batch goes either by FTP,
under the selected profile's root, or by a local copy. Each mod whose
transfer completes is committed: its deployed fingerprint is set and it
leaves the queue.

The model has these modules:

- `Text`: the Python string operations the engine relies on. These are
  `strip()`, `strip("/")`, `split`, `join`, `replace` and ASCII `lower`.
- `Glob`: `fnmatch` patterns with `*`, `?` and `[...]`.
- `Paths`: `norm_remote`, the directory chain of `FTPClient._ensure_dir`,
  `upload_file`, and the destination of a mod.
- `Exclude`: `should_exclude`.
- `Fingerprints`: `folder_fingerprint`, `upload_tree` and `copy_tree`. Each
  works on a walk of a folder, given as a sequence of entries; an entry is
  a relative path, a size, a modification time and whether `stat` succeeds.
- `Pending`: the insertion-ordered queue, as a sequence of `(name, time)`
  pairs with distinct names.
- `WatchState`: the state entries and the upgrade of legacy entries.
- `Scheduler`: `_pending_earliest` and the decision of `_maybe_start_deploy`.
- `Scan`: what `scan_once` does to the state and the queue.
- `Deployment`: what `_deploy_many` does to them.
- `Engine`: the class `Deployer`. It holds `state`, `pending` and the busy
  lock, modelled as a flag, and its methods carry out the loading upgrade,
  `scan_once`, `_maybe_start_deploy` and `_deploy_many` step by step. Each
  method is proved against the functions above.

The world outside the process becomes parameters:

- Time is an integer `now`.
- The disk is a map from a mod's local path to its walk.
- The transport is a set of mod names whose transfer raises.
- Whether the FTP connection, or the creation of the local deploy folder,
  succeeds is a flag.

Where the code and its documented behaviour part ways, the model follows
the code:

- `scan_once` overwrites the queued time of a name that is already queued
  with the scan time. It keeps the name's place in the queue.
- With a debounce of 60 and a bundle window of 30, changes at 0 and 50 are
  not both dispatched at 90. At 90 only the change at 0 is ready. Both are
  ready at 110; a change made at 95 then waits (`Scheduler.BundleFirst`,
  `Scheduler.BundleBoth`).
- An empty `local_deploy_dir` is `Path("")`, which is `"."`, so the local
  guard does not fire for it. It does fire for a setting made only of
  whitespace.
- Any mode other than `ftp` copies locally. Only `local` checks the folder
  setting and creates the folder.
- Whether a mod has its own remote path is tested on the raw text. A remote
  path of `/` therefore gives the empty relative destination, which is the
  root itself.
- When the remote base normalises to nothing, a mod without its own remote
  path gets `/<name>`. Locally that path is absolute (on POSIX), so the copy lands
  outside the deploy folder (`Deployment.EmptyBaseLocalTarget`).
- The deploy commits an entry that has no state as
  `{fp: None, last_change: 0, deployed_fp: None}`.
- `folder_fingerprint` skips a file whose `stat` fails. `upload_tree` and
  `copy_tree` count that file with 0 bytes.

## Model

| member | source | states |
|---|---|---|
| Paths.NormRemote | main.py:147-149 | the result has no backslash, CR or LF, and no `/` at either end |
| Paths.CleanIsReplaces | main.py:148 | the single cleaning pass equals the chain of the three `replace` calls |
| Paths.NormRemoteIdempotent | main.py:147-149 | normalising twice gives the same path as normalising once |
| Paths.NormRemoteClean | main.py:147-149 | on a path without backslashes or line breaks, `norm_remote` is `strip("/")` |
| Paths.EnsureDir | main.py:301-310 | the `mkd` calls are the `/`-prefixes of the rooted, normalised directory's non-empty segments, in order |
| Paths.DirChainParents | main.py:305-307 | each created directory is the previous one plus `/` and one segment |
| Paths.DirChainAncestors | main.py:305-307 | each earlier directory of the chain is a strict ancestor of every later one |
| Paths.UploadFile | main.py:312-317 | the stored path is `/` plus the normalised path, and the directories created are the chain of its parent |
| Paths.UploadFileCreatesAncestors | main.py:312-317 | `upload_file` creates exactly the ancestor directories of the file it stores |
| Paths.FtpFullPath | main.py:733 | the FTP path is rooted and has no trailing `/` unless it is `/` |
| Paths.FtpFullPathJoins | main.py:730-733 | with a normalised root and relative path, the FTP path is `/root/rel`, or `/rel` or `/root` when one side is empty |
| Exclude.ShouldExcludeIff | main.py:388-397 | a path is excluded exactly when some pattern of the list hits it |
| Exclude.BlankPatternsExcludeNothing | main.py:391-393 | blank and whitespace-only patterns are skipped, so they exclude nothing |
| Exclude.NameMatchAnyDepth | main.py:395 | a pattern that matches a file name excludes that file below any directory |
| Exclude.SinglePattern | main.py:391-396 | one pattern is tried on the whole path and on its last component |
| Exclude.StarPatternExcludes | main.py:388-397 | with the single pattern `*t` (t plain), a path is excluded exactly when it or its last component ends in `t` |
| Exclude.SuffixExcluded | main.py:388-397 | once `*t` is among the patterns, every path ending in `t` is excluded |
| Exclude.TmpExcluded | main.py:388-397 | once `*.tmp` is among the patterns, every path ending in `.tmp` is excluded |
| Glob.StarSuffix | main.py:395 | `fnmatch` with `*t` for plain `t` holds exactly for names ending in `t` |
| Glob.StarMatch | main.py:395 | a leading `*` lets the rest of the pattern match any suffix |
| Fingerprints.FolderFingerprint | main.py:399-420 | the loop counts, sums the sizes and takes the latest time of exactly the included files whose `stat` succeeds |
| Fingerprints.FingerprintBounds | main.py:402-419 | an empty tree gives (0, 0, 0); the latest time is at least 0 and at least every counted file's time |
| Fingerprints.LatestIsAttained | main.py:416-417 | a non-zero latest time is the time of a counted file |
| Fingerprints.FingerprintAppend | main.py:405-419 | the fingerprint of a walk is assembled from those of its parts |
| Fingerprints.WalkOrderIrrelevant | main.py:405-419 | the order in which the walk visits directories does not change the fingerprint |
| Fingerprints.ExcludedIgnored | main.py:411-412 | an excluded file leaves the fingerprint as it is |
| Fingerprints.TmpFileIgnored | main.py:411-412 | with `*.tmp` among the patterns, a `.tmp` file anywhere leaves the fingerprint as it is |
| Fingerprints.UploadTree | main.py:319-348 | every included file is handed to `upload_file` at the remote directory plus its relative path, in walk order, and stored at that path normalised and rooted; the counters are their number and their sizes, 0 for a failing `stat` |
| Fingerprints.StoreFile | main.py:312-317 | `upload_file` stores a file at its remote path normalised and rooted |
| Fingerprints.StoredPathJoins | main.py:313-338 | `upload_file` stores each file at the mod's FTP path joined with the file's relative path |
| Fingerprints.CopyTree | main.py:350-386 | every included file is copied to the same relative path, in walk order; the counters are their number and their sizes, 0 for a failing `stat` |
| Fingerprints.TransferCounts | main.py:338-420 | a transfer reports the fingerprint's bytes, and counts the fingerprint's files plus the included files whose `stat` fails |
| WatchState.Upgrade | main.py:448-456 | the upgrade keeps the keys, and afterwards every entry holds `"fp"` |
| WatchState.UpgradeEntries | main.py:450-456 | entries holding `"fp"` are untouched; any other value `v` becomes `{fp: v, last_change: 0, deployed_fp: v}` |
| WatchState.UpgradeIdempotent | main.py:448-456 | upgrading an upgraded state changes nothing |
| Engine.Deployer.constructor | main.py:444-456 | the loaded state is upgraded one key at a time and the queue starts empty |
| Pending.PutLookup | main.py:663 | after `pending[name] = t` the name maps to `t` and every other name keeps its time |
| Pending.PutKeys | main.py:663 | reassigning a queued name keeps its place; a new name goes to the end |
| Pending.PutUnique | main.py:663 | assignment keeps the queue free of duplicate names |
| Pending.PopLookup | main.py:744 | after `pending.pop(name, None)` the name is gone and every other name keeps its time |
| Pending.PopAllLookup | main.py:627-628 | popping a list of names removes exactly those names |
| Scheduler.Earliest | main.py:585-586 | the earliest time is at most every queued time and is one of them |
| Scheduler.ReadyNamesIff | main.py:613-616 | a name is ready exactly when it is queued with a change that has been stable for the debounce period |
| Scheduler.EarliestIsReady | main.py:605-619 | once the oldest change is stable it is ready, so the `not ready_names` return cannot fire |
| Scheduler.ScheduleGates | main.py:588-632 | the scheduler dispatches or drops exactly when it is not busy, the queue is non-empty, and both the debounce and the bundle window after the oldest change have passed |
| Scheduler.BatchMembers | main.py:622-623 | a ready name has a mod in the batch exactly when an enabled mod has that name, and that mod is the last enabled one |
| Scheduler.BatchEmpty | main.py:623-625 | the batch is empty exactly when no ready name has an enabled mod |
| Scheduler.ScheduleOutcome | main.py:613-632 | a dispatched batch is the enabled mods of the ready names, in queue order, with distinct names; a drop drops exactly the ready names, none of which is enabled |
| Scheduler.DropEffect | main.py:625-629 | after a drop exactly the ready names leave the queue; any other decision leaves the queue alone |
| Scheduler.DebounceExample | main.py:605-606 | a change at 0 with a debounce of 60 waits at 59 and is dispatched at 60 |
| Scheduler.BundleWaits | main.py:609-610 | changes at 0 and 50 still wait at 89 with a debounce of 60 and a window of 30 |
| Scheduler.BundleFirst | main.py:613-632 | at 90 only the change at 0 is dispatched; the one at 50 stays queued |
| Scheduler.BundleBoth | main.py:613-632 | at 110 the changes at 0 and 50 go out together, in queue order, and one at 95 waits |
| Engine.Deployer.MaybeStartDeploy | main.py:588-632 | the method takes the scheduler's decision and pops the ready names only on a drop, leaving the state alone |
| Engine.Deployer.ReadyOf | main.py:613-616 | the loop collects the ready names in queue order |
| Engine.Deployer.BatchOf | main.py:622-623 | the loop collects the enabled mods of the ready names in order |
| Engine.Deployer.DropReady | main.py:627-628 | the loop pops every ready name from the queue |
| Scan.ScanOutcome | main.py:646-666 | with distinct names: a changed fingerprint (a missing or malformed entry counts as changed) is recorded with the scan time and queues the mod at that time; an unchanged one keeps the entry and the queued time; a missing folder changes nothing |
| Scan.ScanAllFrame | main.py:635-666 | disabled mods and names no mod has keep their entry and their queued time |
| Scan.ScanKeepsDeployed | main.py:646-666 | the scan never writes `deployed_fp` |
| Scan.ScanAllValid | main.py:646-666 | the scan keeps every entry a record and the queue free of duplicates |
| Scan.ScanSettles | main.py:646-666 | with distinct names, after a scan every scanned mod's fingerprint is the one on record |
| Scan.RescanQuiet | main.py:646-666 | with distinct names, a second scan over unchanged folders changes neither the state nor the queue |
| Scan.DuplicateNameRequeues | main.py:646-666 | two mods under one name whose folders differ: every scan records the second folder's fingerprint and queues the name at the scan time, so a later rescan over unchanged folders changes the state and the queue |
| Engine.Deployer.ScanOnce | main.py:634-683 | with no enabled mod nothing changes; otherwise the enabled mods are scanned in order at the scan time, then the scheduler is consulted at the clock's second reading, taken after the walks |
| Engine.Deployer.ScanMod | main.py:647-666 | one enabled mod's scan, as the scan step states it |
| Deployment.ModeMissing | main.py:693 | a missing or empty mode is `ftp` |
| Deployment.NoProfileNoChange | main.py:697-706 | in FTP mode without a profile nothing is committed or dequeued |
| Deployment.ConnectFailureNoChange | main.py:708-773 | when the FTP connection fails nothing is committed or dequeued |
| Deployment.LocalSetupFailureNoChange | main.py:716-773 | when the local deploy folder cannot be created nothing is committed or dequeued |
| Deployment.BlankLocalDirNoChange | main.py:714-718 | a local deploy folder set to whitespace only stops a local deploy before any change |
| Deployment.LocalDirGuard | main.py:714-718 | on POSIX, the guard on `str(Path(setting)).strip()` fires exactly when the setting has no leading `/` and, once empty and `.` segments are dropped, one segment is left and it is whitespace (`" "` and `" /"` fire; `""` and `"/ "` do not) |
| Deployment.BlankSettings | main.py:714-718 | a setting made only of whitespace fires the guard, with or without a trailing `/`; the empty setting does not |
| Deployment.OtherModeCopies | main.py:746-759 | any mode other than `ftp` and `local` copies locally, without the guard |
| Deployment.EmptyBaseLocalTarget | main.py:730-748 | on POSIX, with an empty base, a mod without its own remote path gets the absolute destination `/<name>` |
| Deployment.LocalTargetInside | main.py:730-748 | a mod's own remote path, or `<base>/<name>` under a non-empty base, is joined to the deploy folder rather than replacing it; the folder `.` drops out of the join |
| Deployment.RunAt | main.py:724-759 | with distinct names, each mod before the first failing transfer whose folder exists is committed and dequeued; every other mod of the batch keeps its entry and its queued time |
| Deployment.RunFails | main.py:724-770 | the loop fails exactly at the first mod whose folder exists and whose transfer raises |
| Deployment.RunFrame | main.py:724-759 | a name outside the batch keeps its entry and its queued time |
| Deployment.RunCounts | main.py:735-753 | the running totals are the transfer counters of the deployed mods' folders |
| Deployment.RunDeployed | main.py:724-759 | the loop deploys exactly the mods before the first transfer that raises whose folder exists, in batch order |
| Deployment.DeployReport | main.py:724-770 | the loop ends with the mod at the stop as the failure, or with none; the totals are the files and bytes sent for the deployed mods, whose folders all exist |
| Deployment.CommitKeepsFp | main.py:740-743 | committing sets `deployed_fp` to `fp` and never changes a recorded `fp` |
| Deployment.RescanAfterDeploy | main.py:646-759 | after a deploy, a scan over unchanged folders queues nothing |
| Engine.Deployer.DeployMany | main.py:689-789 | the deploy's effect on the state and the queue is the loop's, and the follow-up check always answers busy |
| Engine.Deployer.Transfer | main.py:693-770 | the mode and setup checks, then the loop over the batch |
| Engine.Deployer.RunBatch | main.py:724-759 | the loop over the batch, stopping at the first transfer that raises |
| Engine.Deployer.DeployMod | main.py:726-759 | one mod's transfer counters, its commit and its removal from the queue |
| Engine.Deployer.SendFolder | main.py:735-751 | the transfer counters of one mod are those of its folder's included files; the destination is the mod's target, and the paths written are the remote paths handed to `upload_file` under it, or the relative paths copied under it |
| Scheduler.FollowUpSkipped | main.py:689-787 | with the lock still held, the follow-up check answers busy where a free check would dispatch |
| Engine.Deployer.DeployManyThenNext | main.py:689-789 | the deploy as intended: the follow-up check runs on the remaining queue once the lock is free |
| Scheduler.FollowUpConsidered | main.py:785-787 | a check with the lock free never answers busy, and acts whenever the queue is past its gates |

## Left out

- The Tkinter interface: themes, widgets, message boxes and list inserts. The
  status and log lines have no effect on the state or the queue.
- `Logger`, `traceback` and the Discord notifications (`discord_post`). They
  are output only.
- JSON persistence (`load_json`, `save_json`, the profile, mod and settings
  files). The state is modelled as a map; saving it has no effect on
  later decisions.
- Threads: the monitor loop and the daemon deploy thread. `_maybe_start_deploy`
  is modelled as returning the batch it would start, and the busy lock as a
  flag.
- `time.time()` and float modification times. Times are integers, and each
  reading of the clock is a parameter: `scan_once` reads it once for the
  scan and `_maybe_start_deploy` reads it again after the folder walks.
- `os.walk`, `stat`, `mkdir`, `shutil.copy2`, `resolve` and `expanduser`. A
  folder is the sequence of files its walk yields.
- The FTP session (`connect`, `login`, `prot_p`, `storbinary`, `close`) and
  `test_conn`. A transfer either completes or raises, per mod.
- Glob.FnMatch: does not model `fnmatch`'s `normcase` on Windows, which
  folds case and turns `/` into `\` in both the name and the pattern,
  because that belongs to the platform and not to this program.
- Scan.ScanOutcome: assumes the enabled mods have distinct names. The
  program does not enforce this when a mod is added or saved
  (main.py:1097-1124); `Scan.DuplicateNameRequeues` states what a scan
  does to a shared name.
- Scan.ScanSettles: assumes distinct names, for the same reason.
- Scan.RescanQuiet: assumes distinct names. Without them the statement is
  false, as `Scan.DuplicateNameRequeues` shows.
- Deployment.RunAt: assumes distinct names. Every batch the scheduler
  dispatches has them (`Scheduler.ScheduleOutcome`), even when two mods
  share a name.
- Deployment.PathStr: models `pathlib` on POSIX only, and with it
  `Deployment.LocalDirGuard`, `Deployment.LocalTarget` and
  `Deployment.EmptyBaseLocalTarget`. On Windows, where the default workshop
  folder points (main.py:237), `\` also separates segments and a drive is
  kept. So a setting of `" \"` fires the guard there, and an empty base
  gives `D:\<name>` under a deploy folder on drive `D:`.
- Deployment.LocalTarget: joins the texts. It does not apply `pathlib`'s
  dropping of empty and `.` segments inside the relative destination, which
  the printed path would show but the copy does not depend on.
- Engine.Deployer.DeployMod: drops the destination and the paths that
  `SendFolder` gives, as the program only logs them.
- Fingerprints.UploadTree: does not model the `_ensure_dir` call made once
  per walked directory. Its effect is ignored by the program, and
  `Paths.EnsureDir` states what such a call issues.
- Exclude.Basename: follows `pathlib` for relative POSIX paths only, since
  `should_exclude` always receives those.
- Profile-name uniqueness on save and the active-profile fallback
  (main.py:867-918), the workshop folder import (main.py:1048-1080) and
  the settings form (main.py:1127-1240). They are interface code around
  the engine.

## Findings

| source | as written | input that shows it | evidently intended | confidence | as-written member | corrected member |
|---|---|---|---|---|---|---|
| main.py:785-787 | the follow-up `_maybe_start_deploy` runs inside `with self._busy_lock`, so it returns at the busy gate | a mod whose change at 0 is still queued when a deploy ends at 90 (debounce 60, window 30) | the check runs after the lock is released and dispatches that mod at once | high (not executed) | Scheduler.FollowUpSkipped | Engine.Deployer.DeployManyThenNext |
