/** Remote path handling of the FTP transport and of the deployer:
    `norm_remote`, the directory chain `FTPClient._ensure_dir` creates, the
    paths `FTPClient.upload_file` stores to, and how `App._deploy_many`
    composes a mod's destination (main.py:147-149, 301-317, 724-733). */
module Paths {
  import opened Text

  /** `norm_remote`: backslashes become slashes, CR and LF are dropped and
      slashes are stripped from both ends. */
  function NormRemote(path: string): (r: string)
    ensures '\\' !in r && '\r' !in r && '\n' !in r
    ensures r == [] || (r[0] != '/' && r[|r| - 1] != '/')
  {
    var c := Clean(path);
    StripSlashesClean(c);
    StripSlashes(c)
  }

  /** Stripping slashes keeps text free of backslashes and line breaks. */
  lemma StripSlashesClean(c: string)
    requires forall k :: 0 <= k < |c| ==> c[k] != '\\' && c[k] != '\r' && c[k] != '\n'
    ensures var r := StripSlashes(c); '\\' !in r && '\r' !in r && '\n' !in r
  {
    var l := LStrip(c, true);
    var r := RStrip(l, true);
    forall k | 0 <= k < |r| ensures r[k] != '\\' && r[k] != '\r' && r[k] != '\n' {
      assert r[k] == l[k] == c[|c| - |l| + k];
    }
  }

  /** The three `replace` calls of `norm_remote` in one pass over the text. */
  function Clean(s: string): (r: string)
    ensures |r| <= |s|
    ensures forall k :: 0 <= k < |r| ==> r[k] != '\\' && r[k] != '\r' && r[k] != '\n'
  {
    if s == [] then []
    else (if s[0] == '\r' || s[0] == '\n' then [] else [if s[0] == '\\' then '/' else s[0]]) + Clean(s[1..])
  }

  /** The single pass is the chain `replace("\\", "/")`, `replace("\r", "")`,
      `replace("\n", "")`. */
  lemma {:induction false} CleanIsReplaces(s: string)
    ensures Clean(s) == RemoveChar(RemoveChar(ReplaceChar(s, '\\', '/'), '\r'), '\n')
  {
    if s != [] {
      var t := s[1..];
      CleanIsReplaces(t);
      var x := ReplaceChar(s, '\\', '/');
      var c := x[0];
      var xt := ReplaceChar(t, '\\', '/');
      assert x == [c] + xt;
      var yt := RemoveChar(xt, '\r');
      var y := RemoveChar(x, '\r');
      assert y == (if c == '\r' then [] else [c]) + yt by {
        assert x[0] == c && x[1..] == xt;
      }
      assert c == (if s[0] == '\\' then '/' else s[0]);
      var ct := Clean(t);
      if c == '\r' {
        assert y == [] + yt == yt;
        assert Clean(s) == [] + ct == ct;
      } else {
        assert y[0] == c && y[1..] == yt;
        assert RemoveChar(y, '\n') == (if c == '\n' then [] else [c]) + ct;
        assert Clean(s) == (if c == '\n' then [] else [c]) + ct;
      }
    }
  }

  /** Text without backslashes and line breaks. */
  predicate Plain(s: string) {
    forall k :: 0 <= k < |s| ==> s[k] != '\\' && s[k] != '\r' && s[k] != '\n'
  }

  /** A rooted path joined from two plain parts is plain. */
  lemma PlainJoin(n: string, rel: string)
    requires '\\' !in n && '\r' !in n && '\n' !in n
    requires Plain(rel)
    ensures Plain("/" + n + "/" + rel)
  {
    var p := "/" + n + "/" + rel;
    forall k | 0 <= k < |p| ensures p[k] != '\\' && p[k] != '\r' && p[k] != '\n' {
      if 1 <= k <= |n| {
        assert p[k] == n[k - 1];
      } else if k > |n| + 1 {
        assert p[k] == rel[k - |n| - 2];
      }
    }
  }

  /** Text without backslashes and line breaks passes the single pass unchanged. */
  lemma {:induction false} CleanFixed(s: string)
    requires Plain(s)
    ensures Clean(s) == s
  {
    if s != [] {
      CleanFixed(s[1..]);
      assert s == [s[0]] + s[1..];
    }
  }

  /** Normalising a normalised path changes nothing. */
  lemma NormRemoteIdempotent(path: string)
    ensures NormRemote(NormRemote(path)) == NormRemote(path)
  {
    var n := NormRemote(path);
    CleanFixed(n);
    StripSlashesFixed(n);
  }

  /** On a path without backslashes or line breaks, `norm_remote` only
      strips slashes. */
  lemma NormRemoteClean(path: string)
    requires '\\' !in path && '\r' !in path && '\n' !in path
    ensures NormRemote(path) == StripSlashes(path)
  {
    CleanFixed(path);
  }

  /** A leading slash disappears in `strip("/")`. */
  lemma StripSlashesRoot(x: string)
    ensures StripSlashes("/" + x) == StripSlashes(x)
  {
    assert ("/" + x)[1..] == x;
  }

  /** `[p for p in parts if p]`. */
  function NonEmpty(parts: seq<string>): (r: seq<string>)
    ensures |r| <= |parts|
    ensures forall i :: 0 <= i < |r| ==> r[i] != [] && r[i] in parts
  {
    if parts == [] then []
    else (if parts[0] == [] then [] else [parts[0]]) + NonEmpty(parts[1..])
  }

  lemma {:induction false} NonEmptyAppend(a: seq<string>, b: seq<string>)
    ensures NonEmpty(a + b) == NonEmpty(a) + NonEmpty(b)
  {
    if a != [] {
      NonEmptyAppend(a[1..], b);
      assert (a + b)[1..] == a[1..] + b;
    } else {
      assert a + b == b;
    }
  }

  /** The non-empty `/`-separated segments of a path. */
  function Segments(path: string): seq<string> {
    NonEmpty(Split(path, '/'))
  }

  /** `"/" + part` for each part, concatenated: the value of `cur` in
      `_ensure_dir` after it has consumed `parts`. */
  function Slashed(parts: seq<string>): string {
    if parts == [] then "" else Slashed(parts[..|parts| - 1]) + "/" + parts[|parts| - 1]
  }

  /** The directories `_ensure_dir` asks the server to create, in order. */
  function DirChain(parts: seq<string>): (chain: seq<string>)
    ensures |chain| == |parts|
  {
    seq(|parts|, i requires 0 <= i < |parts| => Slashed(parts[..i + 1]))
  }

  /** Each directory of the chain is its predecessor plus one segment, so
      every parent is created before its child; the first is a child of `/`. */
  lemma DirChainParents(parts: seq<string>, i: nat)
    requires i < |parts|
    ensures DirChain(parts)[i] == (if i == 0 then "" else DirChain(parts)[i - 1]) + "/" + parts[i]
  {
    assert parts[..i + 1][..i] == parts[..i];
    if i == 0 {
      assert parts[..0] == [];
    }
  }

  /** A shorter prefix of the chain ends where a later one continues with a
      slash: every created directory is an ancestor of all later ones. */
  lemma {:induction false} DirChainAncestors(parts: seq<string>, i: nat, j: nat)
    requires i < j < |parts|
    ensures |DirChain(parts)[i]| < |DirChain(parts)[j]|
    ensures DirChain(parts)[i] + "/" == DirChain(parts)[j][..|DirChain(parts)[i]| + 1]
    decreases j - i
  {
    var c := DirChain(parts);
    DirChainParents(parts, j);
    if i < j - 1 {
      DirChainAncestors(parts, i, j - 1);
      assert c[j] == c[j - 1] + "/" + parts[j];
      assert c[j][..|c[i]| + 1] == c[j - 1][..|c[i]| + 1];
    } else {
      assert c[j] == c[i] + "/" + parts[j];
    }
  }

  /** `FTPClient._ensure_dir`: issues `mkd` for every `/`-prefix of the
      normalised directory, shortest first; a failing `mkd` is ignored, so
      the result lists every directory asked for. */
  method EnsureDir(remoteDir: string) returns (mkds: seq<string>)
    ensures mkds == DirChain(Segments("/" + NormRemote(remoteDir)))
  {
    var dir := "/" + NormRemote(remoteDir);
    var parts := Segments(dir);
    var cur := "";
    mkds := [];
    for i := 0 to |parts|
      invariant cur == Slashed(parts[..i])
      invariant mkds == DirChain(parts[..i])
    {
      assert parts[..i + 1] == parts[..i] + [parts[i]];
      DirChainSnoc(parts[..i], parts[i]);
      cur := cur + "/" + parts[i];
      mkds := mkds + [cur];
    }
    assert parts[..|parts|] == parts;
  }

  /** The directory part `upload_file` computes for a stored path:
      `"/" + "/".join(remote_full.split("/")[:-1])`. */
  function ParentDir(full: string): string {
    var parts := Split(full, '/');
    "/" + Join(parts[..|parts| - 1], '/')
  }

  /** The parent directory of a path with a slash is a slash followed by the
      text before the path's last slash. */
  lemma ParentDirPrefix(full: string)
    requires |Split(full, '/')| >= 2
    ensures var parts := Split(full, '/');
      |parts[|parts| - 1]| < |full| &&
      ParentDir(full) == "/" + full[..|full| - |parts[|parts| - 1]| - 1]
  {
    var parts := Split(full, '/');
    var front := parts[..|parts| - 1];
    var last := parts[|parts| - 1];
    assert parts == front + [last];
    JoinSnoc(front, last, '/');
    JoinSplit(full, '/');
    assert full == Join(front, '/') + "/" + last;
    assert full[..|full| - |last| - 1] == Join(front, '/');
  }

  /** `FTPClient.upload_file`: the directories created and the path stored. */
  method UploadFile(remoteFull: string) returns (mkds: seq<string>, stor: string)
    ensures stor == "/" + NormRemote(remoteFull)
    ensures mkds == DirChain(Segments(ParentDir(stor)))
  {
    stor := "/" + NormRemote(remoteFull);
    var dir := ParentDir(stor);
    mkds := EnsureDir(dir);
    ParentDirClean(NormRemote(remoteFull));
    SegmentsOfRooted(dir);
  }

  /** The parent of a rooted normalised path holds no backslash or line break. */
  lemma ParentDirClean(n: string)
    requires '\\' !in n && '\r' !in n && '\n' !in n
    ensures var dir := ParentDir("/" + n); '\\' !in dir && '\r' !in dir && '\n' !in dir
  {
    var stor := "/" + n;
    SplitAround("", n, '/');
    assert stor == "" + "/" + n;
    ParentDirPrefix(stor);
    var parts := Split(stor, '/');
    var m := |stor| - |parts[|parts| - 1]| - 1;
    var dir := "/" + stor[..m];
    forall i | 0 <= i < |dir| ensures dir[i] == '/' || dir[i] in n {
      if i > 1 {
        assert dir[i] == stor[i - 1] == n[i - 2];
      }
    }
  }

  /** Slashes at either end of a path add no segment. */
  lemma SegmentsSlash(x: string)
    ensures Segments("/" + x) == Segments(x)
    ensures Segments(x + "/") == Segments(x)
  {
    SplitAround("", x, '/');
    assert "" + "/" + x == "/" + x;
    NonEmptyAppend([""], Split(x, '/'));
    SplitAround(x, "", '/');
    assert x + "/" + "" == x + "/";
    NonEmptyAppend(Split(x, '/'), [""]);
  }

  lemma {:induction false} SegmentsLStrip(s: string)
    ensures Segments(LStrip(s, true)) == Segments(s)
  {
    if s != [] && s[0] == '/' {
      SegmentsLStrip(s[1..]);
      SegmentsSlash(s[1..]);
      assert s == "/" + s[1..];
    }
  }

  lemma {:induction false} SegmentsRStrip(s: string)
    ensures Segments(RStrip(s, true)) == Segments(s)
  {
    if s != [] && s[|s| - 1] == '/' {
      SegmentsRStrip(s[..|s| - 1]);
      SegmentsSlash(s[..|s| - 1]);
      assert s == s[..|s| - 1] + "/";
    }
  }

  /** Re-normalising a path free of backslashes and line breaks, and rooting
      it, does not change its segments. */
  lemma SegmentsOfRooted(dir: string)
    requires '\\' !in dir && '\r' !in dir && '\n' !in dir
    ensures Segments("/" + NormRemote(dir)) == Segments(dir)
  {
    NormRemoteClean(dir);
    var l := LStrip(dir, true);
    SegmentsLStrip(dir);
    SegmentsRStrip(l);
    SegmentsSlash(NormRemote(dir));
  }

  /** `upload_file` creates exactly the ancestor directories of the file it
      stores: adding the file's own path completes the directory chain of
      the stored path. */
  lemma UploadFileCreatesAncestors(remoteFull: string)
    requires NormRemote(remoteFull) != []
    ensures var stor := "/" + NormRemote(remoteFull);
      DirChain(Segments(ParentDir(stor))) + [Slashed(Segments(stor))] == DirChain(Segments(stor))
  {
    var n := NormRemote(remoteFull);
    SegmentsOfFile(n);
    DirChainSnoc(Segments(ParentDir("/" + n)), Split("/" + n, '/')[|Split("/" + n, '/')| - 1]);
  }

  /** The segments of a rooted file path are those of its parent directory
      followed by the (non-empty) file name. */
  lemma SegmentsOfFile(n: string)
    requires n != [] && n[|n| - 1] != '/'
    ensures var parts := Split("/" + n, '/');
      Segments("/" + n) == Segments(ParentDir("/" + n)) + [parts[|parts| - 1]]
  {
    var stor := "/" + n;
    SplitAround("", n, '/');
    assert stor == "" + "/" + n;
    var parts := Split(stor, '/');
    var front := parts[..|parts| - 1];
    SegmentsSplitLast(stor);
    ParentSegments(front);
  }

  /** The segments of a path not ending in a slash end with its last part. */
  lemma SegmentsSplitLast(s: string)
    requires s != [] && s[|s| - 1] != '/'
    ensures var parts := Split(s, '/');
      Segments(s) == NonEmpty(parts[..|parts| - 1]) + [parts[|parts| - 1]]
  {
    var parts := Split(s, '/');
    var last := parts[|parts| - 1];
    SplitLastNonEmpty(s, '/');
    assert parts == parts[..|parts| - 1] + [last];
    NonEmptyAppend(parts[..|parts| - 1], [last]);
  }

  /** The parent directory built from some slash-free parts has exactly
      their non-empty ones as segments. */
  lemma ParentSegments(front: seq<string>)
    requires |front| >= 1
    requires forall i :: 0 <= i < |front| ==> '/' !in front[i]
    ensures Segments("/" + Join(front, '/')) == NonEmpty(front)
  {
    SplitJoin(front, '/');
    SplitAround("", Join(front, '/'), '/');
    assert "" + "/" + Join(front, '/') == "/" + Join(front, '/');
    NonEmptyAppend([""], front);
  }

  lemma DirChainSnoc(p: seq<string>, x: string)
    ensures DirChain(p + [x]) == DirChain(p) + [Slashed(p + [x])]
  {
    var q := p + [x];
    forall i | 0 <= i < |p| ensures DirChain(q)[i] == DirChain(p)[i] {
      assert q[..i + 1] == p[..i + 1];
    }
    assert q[..|q|] == q;
  }

  /** `norm_remote(dpl.get("remote_mods_base","mods") or "mods")`. */
  function BaseRemote(raw: string): string {
    NormRemote(if raw == "" then "mods" else raw)
  }

  /** `norm_remote((p.root if p else "") or "/")`: an absent profile or an
      empty root means the server root. */
  function ProfileRoot(root: string, hasProfile: bool): string {
    NormRemote(if hasProfile && root != "" then root else "/")
  }

  /** A mod's destination relative to the root: its own remote path,
      normalised, when that is not blank, otherwise `<base>/<name>`. The
      blank test is made on the raw remote path. */
  function RelRemote(remotePath: string, base: string, name: string): string {
    if Strip(remotePath) != "" then NormRemote(remotePath) else base + "/" + name
  }

  /** `"/" + "/".join([root, rel]).strip("/")`: the absolute FTP path a mod
      is uploaded to. */
  function FtpFullPath(root: string, rel: string): (r: string)
    ensures r != [] && r[0] == '/'
    ensures r == "/" || r[|r| - 1] != '/'
  {
    "/" + StripSlashes(root + "/" + rel)
  }

  /** With a normalised root and relative path, the FTP path is the root
      followed by the relative path, an empty side contributing nothing. */
  lemma FtpFullPathJoins(root: string, rel: string)
    requires root == [] || (root[0] != '/' && root[|root| - 1] != '/')
    requires rel == [] || (rel[0] != '/' && rel[|rel| - 1] != '/')
    ensures root != "" && rel != "" ==> FtpFullPath(root, rel) == "/" + root + "/" + rel
    ensures root == "" ==> FtpFullPath(root, rel) == "/" + rel
    ensures rel == "" ==> FtpFullPath(root, rel) == "/" + root
  {
    var j := root + "/" + rel;
    if root == [] {
      assert j == "/" + rel;
      StripLeadingSlash(rel);
    } else if rel == [] {
      assert j == root + "/";
      StripTrailingSlash(root);
    } else {
      assert j[0] == root[0] && j[|j| - 1] == rel[|rel| - 1];
      StripSlashesFixed(j);
    }
  }

  /** A slash before a string without slashes at its ends is stripped away. */
  lemma StripLeadingSlash(s: string)
    requires s == [] || (s[0] != '/' && s[|s| - 1] != '/')
    ensures StripSlashes("/" + s) == s
  {
    assert ("/" + s)[1..] == s;
    assert LStrip("/" + s, true) == LStrip(s, true);
    StripSlashesFixed(s);
  }

  /** A slash after a string without slashes at its ends is stripped away. */
  lemma StripTrailingSlash(s: string)
    requires s != [] && s[0] != '/' && s[|s| - 1] != '/'
    ensures StripSlashes(s + "/") == s
  {
    var j := s + "/";
    assert j[..|j| - 1] == s;
    assert LStrip(j, true) == j;
    StripSlashesFixed(s);
  }
}
