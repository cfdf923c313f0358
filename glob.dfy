/** Shell-style pattern matching as Python's `fnmatch.fnmatch` performs it on
    a system that does not fold case: `*` matches any run of characters
    (slashes included), `?` any one character, `[...]` one character from a
    set (`[!...]` one character outside it, `a-z` a range, a `]` right after
    the opening bracket a literal), and a `[` without a closing `]` is an
    ordinary character. Every other character matches itself. */
module Glob {
  import opened Maybe

  datatype ClassItem = Single(c: char) | Range(lo: char, hi: char)

  datatype Token =
    | Star
    | AnyChar
    | Lit(c: char)
    | Class(negated: bool, items: seq<ClassItem>)

  predicate InItems(items: seq<ClassItem>, c: char) {
    exists i :: 0 <= i < |items| && ItemHas(items[i], c)
  }

  predicate ItemHas(item: ClassItem, c: char) {
    match item
    case Single(x) => c == x
    case Range(lo, hi) => lo <= c <= hi
  }

  /** The body of a bracket expression split into single characters and ranges. */
  function ParseItems(body: string): (items: seq<ClassItem>)
    ensures |items| <= |body|
  {
    if body == [] then []
    else if |body| >= 3 && body[1] == '-' then [Range(body[0], body[2])] + ParseItems(body[3..])
    else [Single(body[0])] + ParseItems(body[1..])
  }

  /** Position of the `]` that closes a bracket expression whose text (after
      the `[`) is `rest`; a `!` and then a `]` at its start do not close it. */
  function ClassEnd(rest: string): (r: Option<nat>)
    ensures r.Some? ==> r.value < |rest| && rest[r.value] == ']'
  {
    var j0 := if |rest| > 0 && rest[0] == '!' then 1 else 0;
    var j1 := if j0 < |rest| && rest[j0] == ']' then j0 + 1 else j0;
    FindClose(rest, j1)
  }

  function FindClose(s: string, from: nat): (r: Option<nat>)
    ensures r.Some? ==> from <= r.value < |s| && s[r.value] == ']'
    ensures r.None? ==> forall k :: from <= k < |s| ==> s[k] != ']'
    decreases |s| - from
  {
    if from >= |s| then None
    else if s[from] == ']' then Some(from)
    else FindClose(s, from + 1)
  }

  function ClassToken(body: string): Token {
    if |body| > 0 && body[0] == '!' then Class(true, ParseItems(body[1..]))
    else Class(false, ParseItems(body))
  }

  /** The pattern as a sequence of tokens. */
  function Parse(p: string): (toks: seq<Token>)
    ensures |toks| <= |p|
    decreases |p|
  {
    if p == [] then []
    else if p[0] == '*' then [Star] + Parse(p[1..])
    else if p[0] == '?' then [AnyChar] + Parse(p[1..])
    else if p[0] == '[' then
      match ClassEnd(p[1..])
      case None => [Lit('[')] + Parse(p[1..])
      case Some(j) => [ClassToken(p[1..][..j])] + Parse(p[1..][j + 1..])
    else [Lit(p[0])] + Parse(p[1..])
  }

  /** Whether the tokens match the whole of `s`. */
  predicate Match(toks: seq<Token>, s: string)
    decreases |toks|, |s|
  {
    if toks == [] then s == []
    else match toks[0]
      case Star => Match(toks[1..], s) || (s != [] && Match(toks, s[1..]))
      case AnyChar => s != [] && Match(toks[1..], s[1..])
      case Lit(c) => s != [] && s[0] == c && Match(toks[1..], s[1..])
      case Class(neg, items) => s != [] && InItems(items, s[0]) != neg && Match(toks[1..], s[1..])
  }

  /** Python's `fnmatch.fnmatch(name, pat)` without case folding. */
  predicate FnMatch(name: string, pat: string) {
    Match(Parse(pat), name)
  }

  predicate Special(c: char) { c == '*' || c == '?' || c == '[' }

  function Lits(t: string): (toks: seq<Token>)
    ensures |toks| == |t|
  {
    if t == [] then [] else [Lit(t[0])] + Lits(t[1..])
  }

  /** A pattern without `*`, `?` or `[` is a string of literal tokens. */
  lemma {:induction false} ParsePlain(t: string)
    requires forall k :: 0 <= k < |t| ==> !Special(t[k])
    ensures Parse(t) == Lits(t)
  {
    if t != [] {
      ParsePlain(t[1..]);
    }
  }

  /** Literal tokens match exactly their own text. */
  lemma {:induction false} LitsMatch(t: string, s: string)
    ensures Match(Lits(t), s) <==> s == t
  {
    if t != [] {
      LitsMatch(t[1..], if s == [] then [] else s[1..]);
      if s != [] && s[0] == t[0] && s[1..] == t[1..] {
        assert s == [s[0]] + s[1..] && t == [t[0]] + t[1..];
      }
    }
  }

  /** A leading `*` lets the rest of the pattern match any suffix. */
  lemma StarMatch(rest: seq<Token>, s: string)
    ensures Match([Star] + rest, s) <==> exists k :: 0 <= k <= |s| && Match(rest, s[k..])
  {
    if Match([Star] + rest, s) {
      StarMatchElim(rest, s);
    }
    if exists k :: 0 <= k <= |s| && Match(rest, s[k..]) {
      var k :| 0 <= k <= |s| && Match(rest, s[k..]);
      StarMatchIntro(rest, s, k);
    }
  }

  /** A match of the rest on the suffix from `k` is a match of `*` and the rest. */
  lemma {:induction false} StarMatchIntro(rest: seq<Token>, s: string, k: nat)
    requires k <= |s| && Match(rest, s[k..])
    ensures Match([Star] + rest, s)
    decreases k
  {
    var toks := [Star] + rest;
    assert toks[0] == Star && toks[1..] == rest;
    if k == 0 {
      assert s[k..] == s;
    } else {
      assert s[1..][k - 1..] == s[k..];
      StarMatchIntro(rest, s[1..], k - 1);
    }
  }

  /** A match of `*` and the rest has a suffix the rest matches. */
  lemma {:induction false} StarMatchElim(rest: seq<Token>, s: string)
    requires Match([Star] + rest, s)
    ensures exists k :: 0 <= k <= |s| && Match(rest, s[k..])
    decreases |s|
  {
    var toks := [Star] + rest;
    assert toks[0] == Star && toks[1..] == rest;
    if Match(rest, s) {
      assert s[0..] == s;
    } else {
      assert s != [] && Match(toks, s[1..]);
      StarMatchElim(rest, s[1..]);
      var k :| 0 <= k <= |s[1..]| && Match(rest, s[1..][k..]);
      assert s[1..][k..] == s[k + 1..];
    }
  }

  /** A pattern `*` followed by plain text `t` (as `*.tmp`) matches exactly the
      names that end in `t`. */
  lemma StarSuffix(t: string, s: string)
    requires forall k :: 0 <= k < |t| ==> !Special(t[k])
    ensures FnMatch(s, "*" + t) <==> |t| <= |s| && s[|s| - |t|..] == t
  {
    var p := "*" + t;
    assert p[0] == '*' && p[1..] == t;
    ParsePlain(t);
    assert Parse(p) == [Star] + Lits(t);
    StarMatch(Lits(t), s);
    if FnMatch(s, p) {
      var k :| 0 <= k <= |s| && Match(Lits(t), s[k..]);
      LitsMatch(t, s[k..]);
    }
    if |t| <= |s| && s[|s| - |t|..] == t {
      LitsMatch(t, s[|s| - |t|..]);
    }
  }
}
