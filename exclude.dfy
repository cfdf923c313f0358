/** `should_exclude` (main.py:388-397): a relative path is excluded when a
    non-blank pattern matches the path with backslashes turned into slashes,
    or matches its last component. */
module Exclude {
  import opened Text
  import opened Glob

  /** Whether `pathlib` keeps a segment: empty ones and `.` disappear. */
  predicate Kept(part: string) {
    part != "" && part != "."
  }

  /** The segments `pathlib` keeps, in order. */
  function PathParts(parts: seq<string>): seq<string>
  {
    if parts == [] then []
    else
      var last := parts[|parts| - 1];
      PathParts(parts[..|parts| - 1]) + (if Kept(last) then [last] else [])
  }

  /** One more kept segment is one more part. */
  lemma PathPartsSnoc(a: seq<string>, x: string)
    requires Kept(x)
    ensures PathParts(a + [x]) == PathParts(a) + [x]
  {
    assert (a + [x])[..|a|] == a;
  }

  /** `pathlib.Path(p).name` for a relative POSIX path: its last component,
      or the empty string when there is none. */
  function Basename(p: string): string {
    var parts := PathParts(Split(p, '/'));
    if parts == [] then "" else parts[|parts| - 1]
  }

  /** A name without slashes is its own last component below any directory. */
  lemma BasenameOfChild(dir: string, name: string)
    requires '/' !in name && Kept(name)
    ensures Basename(dir + "/" + name) == name
    ensures Basename(name) == name
  {
    SplitAround(dir, name, '/');
    SplitNoSep(name, '/');
    PathPartsSnoc(Split(dir, '/'), name);
    PathPartsSnoc([], name);
    assert [] + [name] == [name];
  }

  /** What one pattern does: blank patterns are skipped, the others are
      stripped and tried on the whole path and on its last component. */
  predicate PatternHits(pat: string, path: string) {
    var p := Strip(pat);
    p != "" && (FnMatch(path, p) || FnMatch(Basename(path), p))
  }

  /** `should_exclude(rel_posix, patterns)`: the patterns tried in order
      until one hits. */
  predicate ShouldExclude(rel: string, patterns: seq<string>) {
    AnyHits(ReplaceChar(rel, '\\', '/'), patterns)
  }

  predicate AnyHits(path: string, patterns: seq<string>) {
    if patterns == [] then false
    else PatternHits(patterns[0], path) || AnyHits(path, patterns[1..])
  }

  /** A path is excluded exactly when some pattern of the list hits it. */
  lemma {:induction false} ShouldExcludeIff(rel: string, patterns: seq<string>)
    ensures ShouldExclude(rel, patterns) <==>
      exists i :: 0 <= i < |patterns| && PatternHits(patterns[i], ReplaceChar(rel, '\\', '/'))
  {
    AnyHitsIff(ReplaceChar(rel, '\\', '/'), patterns);
  }

  lemma {:induction false} AnyHitsIff(path: string, patterns: seq<string>)
    ensures AnyHits(path, patterns) <==> exists i :: 0 <= i < |patterns| && PatternHits(patterns[i], path)
  {
    if patterns != [] {
      var tail := patterns[1..];
      AnyHitsIff(path, tail);
      if AnyHits(path, patterns) {
        if !PatternHits(patterns[0], path) {
          var j :| 0 <= j < |tail| && PatternHits(tail[j], path);
          assert patterns[j + 1] == tail[j];
        }
      } else {
        forall i | 0 <= i < |patterns| ensures !PatternHits(patterns[i], path) {
          if i > 0 {
            assert patterns[i] == tail[i - 1];
          }
        }
      }
    }
  }

  /** Blank and whitespace-only patterns exclude nothing; in particular an
      empty pattern list excludes nothing. */
  lemma BlankPatternsExcludeNothing(rel: string, patterns: seq<string>)
    requires forall i :: 0 <= i < |patterns| ==> AllSpace(patterns[i])
    ensures !ShouldExclude(rel, patterns)
  {
    ShouldExcludeIff(rel, patterns);
  }

  /** A pattern that matches a file name excludes that file in every
      directory, because the last component is tried as well. */
  lemma NameMatchAnyDepth(dir: string, name: string, patterns: seq<string>)
    requires '/' !in name && '\\' !in name && Kept(name)
    requires ShouldExclude(name, patterns)
    ensures ShouldExclude(dir + "/" + name, patterns)
  {
    ReplaceAbsent(name, '\\', '/');
    ShouldExcludeIff(name, patterns);
    var i :| 0 <= i < |patterns| && PatternHits(patterns[i], name);
    var d := ReplaceChar(dir, '\\', '/');
    var path := ReplaceChar(dir + "/" + name, '\\', '/');
    ReplaceConcat(dir + "/", name, '\\', '/');
    ReplaceConcat(dir, "/", '\\', '/');
    assert ReplaceChar("/", '\\', '/') == "/";
    assert path == d + "/" + name;
    BasenameOfChild(d, name);
    HitsSameBasename(patterns[i], name, path);
    ShouldExcludeIff(dir + "/" + name, patterns);
  }

  lemma HitsSameBasename(pat: string, name: string, path: string)
    requires PatternHits(pat, name) && Basename(name) == name && Basename(path) == name
    ensures PatternHits(pat, path)
  {
  }

  predicate EndsWith(s: string, t: string) {
    |t| <= |s| && s[|s| - |t|..] == t
  }

  /** With a single pattern `*` followed by plain text `t` (such as `*.tmp`),
      a path is excluded exactly when it, or its last component, ends in `t`
      (after backslashes become slashes), whatever its depth. */
  lemma {:induction false} StarPatternExcludes(rel: string, t: string)
    requires t != [] && !IsSpace(t[|t| - 1])
    requires forall k :: 0 <= k < |t| ==> !Special(t[k])
    ensures var p := ReplaceChar(rel, '\\', '/');
      ShouldExclude(rel, ["*" + t]) <==> EndsWith(p, t) || EndsWith(Basename(p), t)
  {
    var p := ReplaceChar(rel, '\\', '/');
    StarPatternSingle(rel, t);
    StarHitsIff(p, t);
  }

  /** The pattern `*` followed by `t` is its own strip, so it is tried as it is. */
  lemma StarPatternSingle(rel: string, t: string)
    requires t != [] && !IsSpace(t[|t| - 1])
    ensures var p := ReplaceChar(rel, '\\', '/');
      ShouldExclude(rel, ["*" + t]) <==> FnMatch(p, "*" + t) || FnMatch(Basename(p), "*" + t)
  {
    var pat := "*" + t;
    assert pat[0] == '*' && pat[|pat| - 1] == t[|t| - 1];
    StripFixed(pat);
    SingleExclude(rel, pat);
  }

  /** The pattern `*` followed by plain `t` hits a path or its last component
      exactly when it ends in `t`. */
  lemma StarHitsIff(p: string, t: string)
    requires forall k :: 0 <= k < |t| ==> !Special(t[k])
    ensures (FnMatch(p, "*" + t) || FnMatch(Basename(p), "*" + t)) <==> EndsWith(p, t) || EndsWith(Basename(p), t)
  {
    StarSuffix(t, p);
    StarSuffix(t, Basename(p));
  }

  /** A list of one pattern that is its own strip excludes exactly what the
      pattern matches, on the whole path or on its last component. */
  lemma SingleExclude(rel: string, pat: string)
    requires pat != [] && Strip(pat) == pat
    ensures var p := ReplaceChar(rel, '\\', '/');
      ShouldExclude(rel, [pat]) <==> FnMatch(p, pat) || FnMatch(Basename(p), pat)
  {
    SinglePattern(ReplaceChar(rel, '\\', '/'), pat);
  }

  /** One pattern that is its own strip: tried on the path and on its last component. */
  lemma SinglePattern(path: string, pat: string)
    requires pat != [] && Strip(pat) == pat
    ensures AnyHits(path, [pat]) <==> FnMatch(path, pat) || FnMatch(Basename(path), pat)
  {
    assert [pat][1..] == [];
  }

  /** Once a pattern `*` followed by plain text `t` is among the patterns,
      every path ending in `t` is excluded. */
  lemma SuffixExcluded(rel: string, patterns: seq<string>, t: string)
    requires t != [] && !IsSpace(t[|t| - 1])
    requires forall k :: 0 <= k < |t| ==> !Special(t[k])
    requires '\\' !in t && "*" + t in patterns && EndsWith(rel, t)
    ensures ShouldExclude(rel, patterns)
  {
    var p := ReplaceChar(rel, '\\', '/');
    ReplaceKeepsSuffix(rel, t);
    StarPatternHits(p, t);
    var i :| 0 <= i < |patterns| && patterns[i] == "*" + t;
    HitExcludes(rel, patterns, i);
  }

  lemma StarPatternHits(path: string, t: string)
    requires t != [] && !IsSpace(t[|t| - 1])
    requires forall k :: 0 <= k < |t| ==> !Special(t[k])
    requires EndsWith(path, t)
    ensures PatternHits("*" + t, path)
  {
    StripFixed("*" + t);
    StarSuffix(t, path);
  }

  lemma ReplaceKeepsSuffix(rel: string, t: string)
    requires '\\' !in t && EndsWith(rel, t)
    ensures EndsWith(ReplaceChar(rel, '\\', '/'), t)
  {
    var n := |rel| - |t|;
    assert rel == rel[..n] + t;
    ReplaceConcat(rel[..n], t, '\\', '/');
    ReplaceAbsent(t, '\\', '/');
  }

  lemma HitExcludes(rel: string, patterns: seq<string>, i: nat)
    requires i < |patterns| && PatternHits(patterns[i], ReplaceChar(rel, '\\', '/'))
    ensures ShouldExclude(rel, patterns)
  {
    ShouldExcludeIff(rel, patterns);
  }

  /** The `*.tmp` case: once `*.tmp` is among the patterns, every path
      ending in `.tmp` is excluded, at whatever depth. */
  lemma TmpExcluded(rel: string, patterns: seq<string>)
    requires "*.tmp" in patterns && EndsWith(rel, ".tmp")
    ensures ShouldExclude(rel, patterns)
  {
    var t := ".tmp";
    assert "*.tmp" == "*" + t;
    SuffixExcluded(rel, patterns, t);
  }
}
