/** `folder_fingerprint` (main.py:399-420) and the counters of
    `FTPClient.upload_tree` (main.py:319-348) and `copy_tree`
    (main.py:350-386). The directory walk is a sequence of file entries in
    the order `os.walk` yields them; each carries its path relative to the
    walked root in POSIX form and what `stat` reports, if it succeeds. */
module Fingerprints {
  import opened Text
  import opened Exclude
  import opened Paths

  datatype FileEntry = FileEntry(rel: string, size: nat, mtime: int, statOk: bool)

  /** `{"files": …, "bytes": …, "latest_mtime": …}`. */
  datatype Fingerprint = Fingerprint(files: nat, bytes: nat, latestMtime: int)

  predicate Excluded(e: FileEntry, patterns: seq<string>) {
    ShouldExclude(e.rel, patterns)
  }

  /** The entries no pattern excludes, in walk order. */
  function Included(es: seq<FileEntry>, patterns: seq<string>): (r: seq<FileEntry>)
    ensures |r| <= |es|
  {
    if es == [] then []
    else
      var e := es[|es| - 1];
      Included(es[..|es| - 1], patterns) + (if Excluded(e, patterns) then [] else [e])
  }

  /** The entries whose `stat` succeeds. */
  function Statable(es: seq<FileEntry>): (r: seq<FileEntry>)
    ensures |r| <= |es|
  {
    if es == [] then []
    else
      var e := es[|es| - 1];
      Statable(es[..|es| - 1]) + (if e.statOk then [e] else [])
  }

  function TotalSize(es: seq<FileEntry>): nat {
    if es == [] then 0 else TotalSize(es[..|es| - 1]) + es[|es| - 1].size
  }

  /** The largest modification time, with 0 as the floor the walk starts from. */
  function LatestMtime(es: seq<FileEntry>): (r: int)
    ensures r >= 0
  {
    if es == [] then 0
    else
      var m := LatestMtime(es[..|es| - 1]);
      var e := es[|es| - 1];
      if e.mtime > m then e.mtime else m
  }

  /** The latest time bounds every time in the sequence and, unless it is
      the floor 0, is one of them. */
  lemma {:induction false} LatestMtimeBounds(es: seq<FileEntry>)
    ensures forall e :: e in es ==> e.mtime <= LatestMtime(es)
    ensures LatestMtime(es) == 0 || exists e :: e in es && e.mtime == LatestMtime(es)
  {
    if es != [] {
      var front := es[..|es| - 1];
      var e := es[|es| - 1];
      LatestMtimeBounds(front);
      assert es == front + [e];
    }
  }

  /** The fingerprint of a tree: count, total size and latest modification
      time of exactly the non-excluded files whose `stat` succeeds. */
  function FingerprintOf(es: seq<FileEntry>, patterns: seq<string>): Fingerprint {
    Summary(Statable(Included(es, patterns)))
  }

  /** Count, total size and latest time of the given files. */
  function Summary(c: seq<FileEntry>): Fingerprint {
    Fingerprint(|c|, TotalSize(c), LatestMtime(c))
  }

  /** `folder_fingerprint`: a failing `stat` skips the file; otherwise the
      file is counted, its size added and its time compared with the latest. */
  method FolderFingerprint(es: seq<FileEntry>, patterns: seq<string>) returns (fp: Fingerprint)
    ensures fp == FingerprintOf(es, patterns)
  {
    var files: nat := 0;
    var total: nat := 0;
    var latest := 0;
    ghost var inc: seq<FileEntry> := [];
    for i := 0 to |es|
      invariant inc == Included(es[..i], patterns)
      invariant Fingerprint(files, total, latest) == Summary(Statable(inc))
    {
      var e := es[i];
      IncludedStep(es, i, patterns);
      if !Excluded(e, patterns) {
        CountStep(inc, e, Fingerprint(files, total, latest));
        if e.statOk {
          files := files + 1;
          total := total + e.size;
          if e.mtime > latest {
            latest := e.mtime;
          }
        }
        inc := inc + [e];
      }
    }
    assert es[..|es|] == es;
    fp := Fingerprint(files, total, latest);
  }

  /** What one more included file does to the running summary. */
  lemma CountStep(inc: seq<FileEntry>, e: FileEntry, f: Fingerprint)
    requires f == Summary(Statable(inc))
    ensures !e.statOk ==> Summary(Statable(inc + [e])) == f
    ensures e.statOk ==> Summary(Statable(inc + [e])) ==
                         Fingerprint(f.files + 1, f.bytes + e.size, Max(e.mtime, f.latestMtime))
  {
    StatableSnoc(inc, e);
    SnocSums(Statable(inc), e);
  }

  /** One more walked file extends the included ones by it, unless excluded. */
  lemma IncludedStep(es: seq<FileEntry>, i: nat, patterns: seq<string>)
    requires i < |es|
    ensures Excluded(es[i], patterns) ==> Included(es[..i + 1], patterns) == Included(es[..i], patterns)
    ensures !Excluded(es[i], patterns) ==> Included(es[..i + 1], patterns) == Included(es[..i], patterns) + [es[i]]
  {
    assert es[..i + 1][..i] == es[..i];
  }

  lemma StatableSnoc(s: seq<FileEntry>, e: FileEntry)
    ensures e.statOk ==> Statable(s + [e]) == Statable(s) + [e]
    ensures !e.statOk ==> Statable(s + [e]) == Statable(s)
  {
    assert (s + [e])[..|s|] == s;
  }

  lemma SnocSums(s: seq<FileEntry>, e: FileEntry)
    ensures |s + [e]| == |s| + 1
    ensures TotalSize(s + [e]) == TotalSize(s) + e.size
    ensures LatestMtime(s + [e]) == Max(e.mtime, LatestMtime(s))
    ensures ReportedBytes(s + [e]) == ReportedBytes(s) + ReportedSize(e)
  {
    assert (s + [e])[..|s|] == s;
  }

  lemma {:induction false} IncludedAppend(a: seq<FileEntry>, b: seq<FileEntry>, patterns: seq<string>)
    ensures Included(a + b, patterns) == Included(a, patterns) + Included(b, patterns)
    decreases |b|
  {
    if b == [] {
      assert a + b == a;
    } else {
      var x := b[|b| - 1];
      assert (a + b)[..|a + b| - 1] == a + b[..|b| - 1];
      IncludedAppend(a, b[..|b| - 1], patterns);
    }
  }

  lemma {:induction false} StatableAppend(a: seq<FileEntry>, b: seq<FileEntry>)
    ensures Statable(a + b) == Statable(a) + Statable(b)
    decreases |b|
  {
    if b == [] {
      assert a + b == a;
    } else {
      assert (a + b)[..|a + b| - 1] == a + b[..|b| - 1];
      StatableAppend(a, b[..|b| - 1]);
    }
  }

  lemma {:induction false} TotalSizeAppend(a: seq<FileEntry>, b: seq<FileEntry>)
    ensures TotalSize(a + b) == TotalSize(a) + TotalSize(b)
    decreases |b|
  {
    if b == [] {
      assert a + b == a;
    } else {
      assert (a + b)[..|a + b| - 1] == a + b[..|b| - 1];
      TotalSizeAppend(a, b[..|b| - 1]);
    }
  }

  function Max(x: int, y: int): int { if x > y then x else y }

  lemma {:induction false} LatestMtimeAppend(a: seq<FileEntry>, b: seq<FileEntry>)
    ensures LatestMtime(a + b) == Max(LatestMtime(a), LatestMtime(b))
    decreases |b|
  {
    if b == [] {
      assert a + b == a;
    } else {
      assert (a + b)[..|a + b| - 1] == a + b[..|b| - 1];
      LatestMtimeAppend(a, b[..|b| - 1]);
    }
  }

  /** How the fingerprints of two parts of a walk make up the whole. */
  function Combine(f: Fingerprint, g: Fingerprint): Fingerprint {
    Fingerprint(f.files + g.files, f.bytes + g.bytes, Max(f.latestMtime, g.latestMtime))
  }

  /** The fingerprint of a walk is assembled from those of its parts. */
  lemma FingerprintAppend(a: seq<FileEntry>, b: seq<FileEntry>, patterns: seq<string>)
    ensures FingerprintOf(a + b, patterns) == Combine(FingerprintOf(a, patterns), FingerprintOf(b, patterns))
  {
    IncludedAppend(a, b, patterns);
    StatableAppend(Included(a, patterns), Included(b, patterns));
    TotalSizeAppend(Statable(Included(a, patterns)), Statable(Included(b, patterns)));
    LatestMtimeAppend(Statable(Included(a, patterns)), Statable(Included(b, patterns)));
  }

  /** The order in which directories are walked does not change the fingerprint. */
  lemma WalkOrderIrrelevant(a: seq<FileEntry>, b: seq<FileEntry>, patterns: seq<string>)
    ensures FingerprintOf(a + b, patterns) == FingerprintOf(b + a, patterns)
  {
    FingerprintAppend(a, b, patterns);
    FingerprintAppend(b, a, patterns);
  }

  /** An excluded file, wherever it sits, leaves the fingerprint as it is. */
  lemma ExcludedIgnored(a: seq<FileEntry>, e: FileEntry, b: seq<FileEntry>, patterns: seq<string>)
    requires Excluded(e, patterns)
    ensures FingerprintOf(a + [e] + b, patterns) == FingerprintOf(a + b, patterns)
  {
    FingerprintAppend(a + [e], b, patterns);
    FingerprintAppend(a, [e], patterns);
    FingerprintAppend(a, b, patterns);
    ExcludedAlone(e, patterns);
    var fa := FingerprintOf(a, patterns);
    assert Combine(fa, Fingerprint(0, 0, 0)) == fa;
  }

  lemma ExcludedAlone(e: FileEntry, patterns: seq<string>)
    requires Excluded(e, patterns)
    ensures FingerprintOf([e], patterns) == Fingerprint(0, 0, 0)
  {
    assert [e][..0] == [];
    assert Included([e], patterns) == [];
  }

  /** With `*.tmp` among the patterns, a temporary file anywhere in the tree
      does not affect the fingerprint. */
  lemma TmpFileIgnored(a: seq<FileEntry>, e: FileEntry, b: seq<FileEntry>, patterns: seq<string>)
    requires "*.tmp" in patterns && EndsWith(e.rel, ".tmp")
    ensures FingerprintOf(a + [e] + b, patterns) == FingerprintOf(a + b, patterns)
  {
    TmpExcluded(e.rel, patterns);
    ExcludedIgnored(a, e, b, patterns);
  }

  /** An empty tree has the fingerprint (0, 0, 0); the latest time is never
      below 0 and bounds the time of every counted file. */
  lemma FingerprintBounds(es: seq<FileEntry>, patterns: seq<string>)
    ensures es == [] ==> FingerprintOf(es, patterns) == Fingerprint(0, 0, 0)
    ensures FingerprintOf(es, patterns).latestMtime >= 0
    ensures FingerprintOf(es, patterns).files <= |es|
    ensures forall e :: e in es && !Excluded(e, patterns) && e.statOk ==>
      e.mtime <= FingerprintOf(es, patterns).latestMtime
  {
    forall e | e in es && !Excluded(e, patterns) && e.statOk
      ensures e.mtime <= FingerprintOf(es, patterns).latestMtime
    {
      IncludedHas(es, patterns, e);
      StatableHas(Included(es, patterns), e);
      LatestMtimeBounds(Statable(Included(es, patterns)));
    }
  }

  /** The latest time of a tree with some counted file is the time of one
      of its counted files. */
  lemma LatestIsAttained(es: seq<FileEntry>, patterns: seq<string>)
    requires FingerprintOf(es, patterns).latestMtime != 0
    ensures exists e :: (e in es && !Excluded(e, patterns) && e.statOk &&
                         e.mtime == FingerprintOf(es, patterns).latestMtime)
  {
    var c := Statable(Included(es, patterns));
    LatestMtimeBounds(c);
    var e :| e in c && e.mtime == LatestMtime(c);
    StatableIn(Included(es, patterns), e);
    IncludedIn(es, patterns, e);
  }

  lemma {:induction false} IncludedHas(es: seq<FileEntry>, patterns: seq<string>, e: FileEntry)
    requires e in es && !Excluded(e, patterns)
    ensures e in Included(es, patterns)
  {
    if es[|es| - 1] != e {
      assert e in es[..|es| - 1] by {
        var i :| 0 <= i < |es| && es[i] == e;
        assert es[..|es| - 1][i] == e;
      }
      IncludedHas(es[..|es| - 1], patterns, e);
    }
  }

  lemma {:induction false} StatableHas(es: seq<FileEntry>, e: FileEntry)
    requires e in es && e.statOk
    ensures e in Statable(es)
  {
    if es[|es| - 1] != e {
      assert e in es[..|es| - 1] by {
        var i :| 0 <= i < |es| && es[i] == e;
        assert es[..|es| - 1][i] == e;
      }
      StatableHas(es[..|es| - 1], e);
    }
  }

  lemma {:induction false} IncludedIn(es: seq<FileEntry>, patterns: seq<string>, e: FileEntry)
    requires e in Included(es, patterns)
    ensures e in es && !Excluded(e, patterns)
  {
    var x := es[|es| - 1];
    if e != x || Excluded(x, patterns) {
      IncludedIn(es[..|es| - 1], patterns, e);
    }
  }

  lemma {:induction false} StatableIn(es: seq<FileEntry>, e: FileEntry)
    requires e in Statable(es)
    ensures e in es && e.statOk
  {
    var x := es[|es| - 1];
    if e != x || !x.statOk {
      StatableIn(es[..|es| - 1], e);
    }
  }

  /** The size a transfer adds for one file: 0 when `stat` fails. */
  function ReportedSize(e: FileEntry): nat {
    if e.statOk then e.size else 0
  }

  function ReportedBytes(es: seq<FileEntry>): nat {
    if es == [] then 0 else ReportedBytes(es[..|es| - 1]) + ReportedSize(es[|es| - 1])
  }

  /** The remote directory as `upload_tree` uses it: normalised and rooted. */
  function RootedDir(remoteDir: string): string {
    "/" + NormRemote(remoteDir)
  }

  /** The remote path `upload_tree` hands to `upload_file` for a file: the
      target directory of its walked directory, a slash and its name, which
      is the rooted remote directory, a slash and its relative path. */
  function RemoteFile(dir: string, rel: string): string {
    dir + "/" + rel
  }

  /** The remote paths handed to `upload_file` for the given files, in order. */
  function RemoteFiles(dir: string, es: seq<FileEntry>): (r: seq<string>)
    ensures |r| == |es|
  {
    if es == [] then []
    else RemoteFiles(dir, es[..|es| - 1]) + [RemoteFile(dir, es[|es| - 1].rel)]
  }

  /** The path `upload_file` stores a remote path at. */
  function StoredPath(rp: string): string {
    "/" + NormRemote(rp)
  }

  /** The paths `upload_file` stores the given remote paths at, in order. */
  function StoredPaths(rps: seq<string>): (r: seq<string>)
    ensures |r| == |rps|
  {
    if rps == [] then [] else StoredPaths(rps[..|rps| - 1]) + [StoredPath(rps[|rps| - 1])]
  }

  lemma StoredSnoc(rps: seq<string>, rp: string)
    ensures StoredPaths(rps + [rp]) == StoredPaths(rps) + [StoredPath(rp)]
  {
    assert (rps + [rp])[..|rps|] == rps;
  }

  /** `upload_file` as `upload_tree` calls it: the directories it creates
      are those `Paths.UploadFile` states; here only the stored path is kept. */
  method StoreFile(rp: string) returns (stor: string)
    ensures stor == StoredPath(rp)
  {
    var mkds;
    mkds, stor := UploadFile(rp);
  }

  lemma UploadSnoc(dir: string, es: seq<FileEntry>, e: FileEntry)
    ensures ReportedBytes(es + [e]) == ReportedBytes(es) + ReportedSize(e)
    ensures RemoteFiles(dir, es + [e]) == RemoteFiles(dir, es) + [RemoteFile(dir, e.rel)]
  {
    assert (es + [e])[..|es|] == es;
  }

  /** `FTPClient.upload_tree`: every non-excluded file is handed to
      `upload_file` under the normalised remote directory and counted, its
      size added (0 when `stat` fails); the result also lists the remote
      paths handed over, in walk order. */
  method UploadTree(es: seq<FileEntry>, remoteDir: string, patterns: seq<string>)
    returns (files: nat, bytes: nat, sent: seq<string>, stored: seq<string>)
    ensures files == |Included(es, patterns)|
    ensures bytes == ReportedBytes(Included(es, patterns))
    ensures sent == RemoteFiles(RootedDir(remoteDir), Included(es, patterns))
    ensures stored == StoredPaths(sent)
  {
    var dir := RootedDir(remoteDir);
    files, bytes, sent, stored := 0, 0, [], [];
    ghost var inc: seq<FileEntry> := [];
    for i := 0 to |es|
      invariant inc == Included(es[..i], patterns)
      invariant files == |inc| && bytes == ReportedBytes(inc) && sent == RemoteFiles(dir, inc)
      invariant stored == StoredPaths(sent)
    {
      var e := es[i];
      IncludedStep(es, i, patterns);
      if !Excluded(e, patterns) {
        var stor := StoreFile(RemoteFile(dir, e.rel));
        StoredSnoc(sent, RemoteFile(dir, e.rel));
        stored := stored + [stor];
        files, bytes, sent := UploadCounted(dir, inc, e, files, bytes, sent);
        inc := inc + [e];
      }
    }
    assert es[..|es|] == es;
  }

  /** The counters after one more uploaded file: its size is added (0 when
      `stat` fails) and its remote path is listed. */
  method UploadCounted(dir: string, ghost inc: seq<FileEntry>, e: FileEntry, files: nat, bytes: nat, sent: seq<string>)
    returns (files': nat, bytes': nat, sent': seq<string>)
    requires files == |inc| && bytes == ReportedBytes(inc) && sent == RemoteFiles(dir, inc)
    ensures files' == |inc + [e]| && bytes' == ReportedBytes(inc + [e]) && sent' == RemoteFiles(dir, inc + [e])
  {
    var rp := RemoteFile(dir, e.rel);
    UploadSnoc(dir, inc, e);
    files' := files + 1;
    bytes' := bytes + ReportedSize(e);
    sent' := sent + [rp];
  }

  /** The relative paths of the given files, in order. */
  function RelPaths(es: seq<FileEntry>): (r: seq<string>)
    ensures |r| == |es|
  {
    if es == [] then [] else RelPaths(es[..|es| - 1]) + [es[|es| - 1].rel]
  }

  /** `copy_tree`: every non-excluded file is copied to the same relative
      path under the destination and counted, its size added (0 when `stat`
      fails). The result also lists the relative paths copied, in order. */
  method CopyTree(es: seq<FileEntry>, patterns: seq<string>)
    returns (files: nat, bytes: nat, copied: seq<string>)
    ensures files == |Included(es, patterns)|
    ensures bytes == ReportedBytes(Included(es, patterns))
    ensures copied == RelPaths(Included(es, patterns))
  {
    files, bytes, copied := 0, 0, [];
    ghost var inc: seq<FileEntry> := [];
    for i := 0 to |es|
      invariant inc == Included(es[..i], patterns)
      invariant files == |inc|
      invariant bytes == ReportedBytes(inc)
      invariant copied == RelPaths(inc)
    {
      var e := es[i];
      IncludedStep(es, i, patterns);
      if !Excluded(e, patterns) {
        SnocSums(inc, e);
        assert (inc + [e])[..|inc|] == inc;
        files := files + 1;
        bytes := bytes + ReportedSize(e);
        copied := copied + [e.rel];
        inc := inc + [e];
      }
    }
    assert es[..|es|] == es;
  }

  /** Entries whose `stat` fails. */
  function Unstatable(es: seq<FileEntry>): (r: seq<FileEntry>)
    ensures |r| <= |es|
  {
    if es == [] then []
    else
      var e := es[|es| - 1];
      Unstatable(es[..|es| - 1]) + (if e.statOk then [] else [e])
  }

  /** A transfer moves as many bytes as the fingerprint counts, and one
      file more than the fingerprint for each included file whose `stat`
      fails. */
  lemma {:induction false} TransferVsFingerprint(es: seq<FileEntry>)
    ensures ReportedBytes(es) == TotalSize(Statable(es))
    ensures |es| == |Statable(es)| + |Unstatable(es)|
  {
    if es != [] {
      TransferVsFingerprint(es[..|es| - 1]);
      var e := es[|es| - 1];
      var s := Statable(es[..|es| - 1]);
      if e.statOk {
        assert Statable(es) == s + [e];
        SnocSums(s, e);
      } else {
        assert Statable(es) == s;
      }
    }
  }

  /** The counters of a transfer against the fingerprint of the same tree. */
  lemma TransferCounts(es: seq<FileEntry>, patterns: seq<string>)
    ensures ReportedBytes(Included(es, patterns)) == FingerprintOf(es, patterns).bytes
    ensures |Included(es, patterns)| == FingerprintOf(es, patterns).files + |Unstatable(Included(es, patterns))|
  {
    TransferVsFingerprint(Included(es, patterns));
  }

  /** For a file with a clean relative path, `upload_file` stores it at the
      FTP path made of the normalised remote directory and the relative
      path, joined as the deployer joins root and destination. */
  lemma StoredPathJoins(remoteDir: string, rel: string)
    requires rel != [] && rel[0] != '/' && rel[|rel| - 1] != '/'
    requires Plain(rel)
    ensures "/" + NormRemote(RemoteFile(RootedDir(remoteDir), rel)) == FtpFullPath(NormRemote(remoteDir), rel)
  {
    var n := NormRemote(remoteDir);
    var x := n + "/" + rel;
    var p := "/" + x;
    assert RemoteFile(RootedDir(remoteDir), rel) == p;
    assert Clean(p) == p by {
      PlainJoin(n, rel);
      assert "/" + n + "/" + rel == p;
      CleanFixed(p);
    }
    assert StripSlashes(p) == StripSlashes(x) by {
      StripSlashesRoot(x);
    }
  }
}
