/** The few Python `str` operations the deployment engine relies on:
    `strip`, `strip(ch)`, `split(sep)`, `sep.join`, `replace` of one
    character and ASCII `lower`. Strings are sequences of characters. */
module Text {

  /** Characters for which Python's `str.isspace()` holds. */
  predicate IsSpace(c: char) {
    c == ' ' || ('\t' <= c <= '\r') || ('\U{1c}' <= c <= '\U{1f}')
    || c == '\U{85}' || c == '\U{a0}' || c == '\U{1680}'
    || ('\U{2000}' <= c <= '\U{200a}') || c == '\U{2028}' || c == '\U{2029}'
    || c == '\U{202f}' || c == '\U{205f}' || c == '\U{3000}'
  }

  /** The characters a strip removes: `/` for `strip("/")`, whitespace for `strip()`. */
  predicate Dropped(c: char, slash: bool) {
    if slash then c == '/' else IsSpace(c)
  }

  predicate AllSpace(s: string) {
    forall k :: 0 <= k < |s| ==> IsSpace(s[k])
  }

  /** Drops the leading characters satisfying `drop`. */
  function LStrip(s: string, slash: bool): (r: string)
    ensures |r| <= |s| && r == s[|s| - |r|..]
    ensures r == [] || !Dropped(r[0], slash)
    ensures forall k :: 0 <= k < |s| - |r| ==> Dropped(s[k], slash)
  {
    if s != [] && Dropped(s[0], slash) then LStrip(s[1..], slash) else s
  }

  /** Drops the trailing characters satisfying `drop`. */
  function RStrip(s: string, slash: bool): (r: string)
    ensures |r| <= |s| && r == s[..|r|]
    ensures r == [] || !Dropped(r[|r| - 1], slash)
    ensures forall k :: |r| <= k < |s| ==> Dropped(s[k], slash)
  {
    if s != [] && Dropped(s[|s| - 1], slash) then RStrip(s[..|s| - 1], slash) else s
  }

  /** Python's `s.strip()`: whitespace removed at both ends. */
  function Strip(s: string): (r: string)
    ensures r == [] || (!IsSpace(r[0]) && !IsSpace(r[|r| - 1]))
    ensures r == [] <==> AllSpace(s)
  {
    var l := LStrip(s, false);
    var r := RStrip(l, false);
    StripEnds(s, l, r);
    StripEmptyIffAllSpace(s, l, r);
    r
  }

  lemma StripEnds(s: string, l: string, r: string)
    requires l == LStrip(s, false) && r == RStrip(l, false)
    ensures r == [] || (!IsSpace(r[0]) && !IsSpace(r[|r| - 1]))
  {
    if r != [] {
      assert !Dropped(r[|r| - 1], false);
      assert r[0] == l[0];
      assert !Dropped(l[0], false);
    }
  }

  lemma StripEmptyIffAllSpace(s: string, l: string, r: string)
    requires l == LStrip(s, false) && r == RStrip(l, false)
    ensures r == [] <==> AllSpace(s)
  {
    var d := |s| - |l|;
    if r == [] {
      assert l == [];
      forall k | 0 <= k < |s| ensures IsSpace(s[k]) {
        assert Dropped(s[k], false);
      }
    } else {
      assert r[0] == l[0] == s[d];
      assert !Dropped(r[0], false);
    }
  }

  /** A string that neither starts nor ends with whitespace is its own strip. */
  lemma StripFixed(s: string)
    requires s != [] && !IsSpace(s[0]) && !IsSpace(s[|s| - 1])
    ensures Strip(s) == s
  {
    assert LStrip(s, false) == s;
  }

  /** Python's `s.strip("/")`. */
  function StripSlashes(s: string): (r: string)
    ensures r == [] || (r[0] != '/' && r[|r| - 1] != '/')
  {
    var l := LStrip(s, true);
    var r := RStrip(l, true);
    r
  }

  /** Stripping slashes leaves a string without a slash at either end unchanged. */
  lemma StripSlashesFixed(s: string)
    requires s == [] || (s[0] != '/' && s[|s| - 1] != '/')
    ensures StripSlashes(s) == s
  {
  }

  /** Python's `s.split(sep)`: at least one part, none containing `sep`. */
  function Split(s: string, sep: char): (parts: seq<string>)
    ensures |parts| >= 1
    ensures forall i :: 0 <= i < |parts| ==> sep !in parts[i]
  {
    if s == [] then [""]
    else
      var rest := Split(s[1..], sep);
      if s[0] == sep then [""] + rest else [[s[0]] + rest[0]] + rest[1..]
  }

  /** Python's `sep.join(parts)`. */
  function Join(parts: seq<string>, sep: char): string
  {
    if |parts| == 0 then ""
    else if |parts| == 1 then parts[0]
    else parts[0] + [sep] + Join(parts[1..], sep)
  }

  /** Joining the parts of a split gives back the original string. */
  lemma {:induction false} JoinSplit(s: string, sep: char)
    ensures Join(Split(s, sep), sep) == s
  {
    if s != [] {
      var rest := Split(s[1..], sep);
      JoinSplit(s[1..], sep);
      if s[0] == sep {
        assert Split(s, sep) == [""] + rest;
        assert s == [sep] + s[1..];
      } else {
        assert Split(s, sep) == [[s[0]] + rest[0]] + rest[1..];
        if |rest| == 1 {
          assert s == [s[0]] + s[1..];
        } else {
          assert Join(rest, sep) == rest[0] + [sep] + Join(rest[1..], sep);
          assert s == [s[0]] + s[1..];
        }
      }
    }
  }

  /** Splitting at a separator occurrence splits both sides independently. */
  lemma {:induction false} SplitAround(a: string, b: string, sep: char)
    ensures Split(a + [sep] + b, sep) == Split(a, sep) + Split(b, sep)
  {
    var s := a + [sep] + b;
    var sb := Split(b, sep);
    if a == [] {
      assert s == [sep] + b;
      assert s[1..] == b;
      assert Split(s, sep) == [""] + sb;
    } else {
      var tail := a[1..] + [sep] + b;
      assert s == [a[0]] + tail;
      assert s[1..] == tail;
      SplitAround(a[1..], b, sep);
      var ra := Split(a[1..], sep);
      var rest := Split(tail, sep);
      assert rest == ra + sb;
      if a[0] == sep {
        assert Split(s, sep) == [""] + rest;
        assert Split(a, sep) == [""] + ra;
        assert [""] + (ra + sb) == ([""] + ra) + sb;
      } else {
        assert Split(s, sep) == [[a[0]] + rest[0]] + rest[1..];
        assert Split(a, sep) == [[a[0]] + ra[0]] + ra[1..];
        SplitConsHead(ra, sb, a[0]);
      }
    }
  }

  /** Prefixing the first part commutes with appending more parts. */
  lemma SplitConsHead(ra: seq<string>, sb: seq<string>, c: char)
    requires |ra| >= 1
    ensures [[c] + (ra + sb)[0]] + (ra + sb)[1..] == ([[c] + ra[0]] + ra[1..]) + sb
  {
    assert (ra + sb)[0] == ra[0];
    assert (ra + sb)[1..] == ra[1..] + sb;
  }

  /** A string without the separator splits into itself. */
  lemma {:induction false} SplitNoSep(s: string, sep: char)
    requires sep !in s
    ensures Split(s, sep) == [s]
  {
    if s != [] {
      SplitNoSep(s[1..], sep);
      assert s == [s[0]] + s[1..];
    }
  }

  /** Replacing a character that does not occur changes nothing. */
  lemma {:induction false} ReplaceAbsent(s: string, from: char, to: char)
    requires from !in s
    ensures ReplaceChar(s, from, to) == s
  {
    if s != [] {
      ReplaceAbsent(s[1..], from, to);
      assert s == [s[0]] + s[1..];
    }
  }

  /** The last part of a split is non-empty when the string does not end
      with the separator. */
  lemma {:induction false} SplitLastNonEmpty(s: string, sep: char)
    requires s != [] && s[|s| - 1] != sep
    ensures var parts := Split(s, sep); parts[|parts| - 1] != []
  {
    if |s| > 1 {
      SplitLastNonEmpty(s[1..], sep);
    }
  }

  /** Splitting a join of separator-free parts gives the parts back. */
  lemma {:induction false} SplitJoin(parts: seq<string>, sep: char)
    requires |parts| >= 1
    requires forall i :: 0 <= i < |parts| ==> sep !in parts[i]
    ensures Split(Join(parts, sep), sep) == parts
  {
    if |parts| == 1 {
      SplitNoSep(parts[0], sep);
    } else {
      SplitJoin(parts[1..], sep);
      SplitAround(parts[0], Join(parts[1..], sep), sep);
      SplitNoSep(parts[0], sep);
      assert parts == [parts[0]] + parts[1..];
    }
  }

  /** Joining one more part appends the separator and the part. */
  lemma {:induction false} JoinSnoc(parts: seq<string>, x: string, sep: char)
    requires |parts| >= 1
    ensures Join(parts + [x], sep) == Join(parts, sep) + [sep] + x
  {
    if |parts| > 1 {
      JoinSnoc(parts[1..], x, sep);
      assert (parts + [x])[1..] == parts[1..] + [x];
    }
  }

  /** Every character replaced as by Python's `s.replace(from, to)` for
      one-character `from` and `to`. */
  function ReplaceChar(s: string, from: char, to: char): (r: string)
    ensures |r| == |s|
    ensures forall k :: 0 <= k < |s| ==> r[k] == (if s[k] == from then to else s[k])
  {
    if s == [] then [] else [if s[0] == from then to else s[0]] + ReplaceChar(s[1..], from, to)
  }

  lemma ReplaceConcat(a: string, b: string, from: char, to: char)
    ensures ReplaceChar(a + b, from, to) == ReplaceChar(a, from, to) + ReplaceChar(b, from, to)
  {
    var ab := a + b;
    var ra := ReplaceChar(a, from, to);
    var rb := ReplaceChar(b, from, to);
    var l := ReplaceChar(ab, from, to);
    var r := ra + rb;
    assert |l| == |r|;
    forall k | 0 <= k < |l| ensures l[k] == r[k] {
      if k < |a| {
        assert ab[k] == a[k] && r[k] == ra[k];
      } else {
        assert ab[k] == b[k - |a|] && r[k] == rb[k - |a|];
      }
    }
  }

  /** Every occurrence of `c` removed, as by Python's `s.replace(c, "")`. */
  function RemoveChar(s: string, c: char): (r: string)
    ensures |r| <= |s|
  {
    if s == [] then [] else (if s[0] == c then [] else [s[0]]) + RemoveChar(s[1..], c)
  }

  /** Python's `s.lower()` restricted to ASCII letters. */
  function Lower(s: string): (r: string)
    ensures |r| == |s|
    ensures forall k :: 0 <= k < |s| ==>
      r[k] == (if 'A' <= s[k] <= 'Z' then (s[k] as int + 32) as char else s[k])
  {
    if s == [] then [] else
      [if 'A' <= s[0] <= 'Z' then (s[0] as int + 32) as char else s[0]] + Lower(s[1..])
  }
}
