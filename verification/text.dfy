/** String helpers with the semantics of the JavaScript and Node.js built-ins that
    server/router.ts, server/transform.ts and server/index.ts rely on: `Array.prototype.join`, `String.prototype.split` with a
    one-character separator, `filter(Boolean)`, `startsWith`/`endsWith`,
    `path.extname`, the regex class `\s`, and `String.prototype.replace` with a
    string pattern (including its `$` substitution patterns). */
module Text {
  import opened Wrappers

  /** `parts.join(sep)`. */
  function Join(parts: seq<string>, sep: string): string {
    if |parts| == 0 then ""
    else if |parts| == 1 then parts[0]
    else parts[0] + sep + Join(parts[1..], sep)
  }

  /** `s.split(c)` for a one-character separator: there is always at least one
      piece, and no piece contains the separator. */
  function Split(s: string, c: char): (r: seq<string>)
    ensures |r| >= 1
    ensures forall i :: 0 <= i < |r| ==> c !in r[i]
  {
    if |s| == 0 then [""]
    else
      var rest := Split(s[1..], c);
      if s[0] == c then [""] + rest
      else [[s[0]] + rest[0]] + rest[1..]
  }

  /** `parts.filter(Boolean)`: drops the empty strings, keeps the order. */
  function NonEmpty(parts: seq<string>): (r: seq<string>)
    ensures forall i :: 0 <= i < |r| ==> r[i] != ""
    ensures |r| <= |parts|
  {
    if |parts| == 0 then []
    else if parts[0] == "" then NonEmpty(parts[1..])
    else [parts[0]] + NonEmpty(parts[1..])
  }

  /** `pattern.split("/").filter(Boolean)`: the non-empty `/`-separated pieces. */
  function Segments(pattern: string): (r: seq<string>)
    ensures forall i :: 0 <= i < |r| ==> r[i] != "" && '/' !in r[i]
  {
    var pieces := Split(pattern, '/');
    var r := NonEmpty(pieces);
    NonEmptyKeepsPieces(pieces, '/');
    r
  }

  lemma NonEmptyKeepsPieces(pieces: seq<string>, c: char)
    requires forall i :: 0 <= i < |pieces| ==> c !in pieces[i]
    ensures forall i :: 0 <= i < |NonEmpty(pieces)| ==> c !in NonEmpty(pieces)[i]
  {
    if |pieces| > 0 {
      NonEmptyKeepsPieces(pieces[1..], c);
    }
  }

  /** A name usable as one path segment: non-empty and free of `/`. */
  predicate IsSegmentName(s: string) {
    s != "" && '/' !in s
  }

  /** `s.startsWith(p)`. */
  predicate StartsWith(s: string, p: string) {
    p <= s
  }

  /** `s.endsWith(p)`. */
  predicate EndsWith(s: string, p: string) {
    |p| <= |s| && s[|s| - |p|..] == p
  }

  // ---------------------------------------------------------------------------
  // split / join round trip

  /** Splitting the join of slash-free pieces gives the pieces back. */
  lemma {:induction false} SplitJoin(parts: seq<string>, c: char)
    requires |parts| >= 1
    requires forall i :: 0 <= i < |parts| ==> c !in parts[i]
    ensures Split(Join(parts, [c]), c) == parts
  {
    if |parts| == 1 {
      SplitNoSeparator(parts[0], c);
    } else {
      SplitJoin(parts[1..], c);
      SplitAtFirst(parts[0], Join(parts[1..], [c]), c);
    }
  }

  /** A string without the separator splits into itself alone. */
  lemma {:induction false} SplitNoSeparator(s: string, c: char)
    requires c !in s
    ensures Split(s, c) == [s]
  {
    if |s| > 0 {
      assert c !in s[1..];
      SplitNoSeparator(s[1..], c);
      assert s == [s[0]] + s[1..];
    }
  }

  /** Splitting at the first separator: the piece before it comes first. */
  lemma {:induction false} SplitAtFirst(a: string, b: string, c: char)
    requires c !in a
    ensures Split(a + [c] + b, c) == [a] + Split(b, c)
  {
    var s := a + [c] + b;
    if |a| == 0 {
      assert s[1..] == b;
    } else {
      assert s[1..] == a[1..] + [c] + b;
      SplitAtFirst(a[1..], b, c);
      assert [a[0]] + a[1..] == a;
    }
  }

  /** Joining the pieces of a split restores the string. */
  lemma {:induction false} JoinSplit(s: string, c: char)
    ensures Join(Split(s, c), [c]) == s
  {
    if |s| > 0 {
      JoinSplit(s[1..], c);
      var rest := Split(s[1..], c);
      if s[0] == c {
        assert Join([""] + rest, [c]) == "" + [c] + Join(rest, [c]);
        assert s == [c] + s[1..];
      } else {
        var r := [[s[0]] + rest[0]] + rest[1..];
        if |rest| == 1 {
          assert Join(r, [c]) == [s[0]] + rest[0];
          assert Join(rest, [c]) == rest[0];
        } else {
          assert Join(r, [c]) == [s[0]] + rest[0] + [c] + Join(rest[1..], [c]);
          assert Join(rest, [c]) == rest[0] + [c] + Join(rest[1..], [c]);
        }
        assert s == [s[0]] + s[1..];
      }
    }
  }

  /** A pattern built as "/" + the `/`-join of segment names yields exactly
      those names again as its segments. */
  lemma SegmentsOfPath(names: seq<string>)
    requires forall i :: 0 <= i < |names| ==> IsSegmentName(names[i])
    ensures Segments("/" + Join(names, "/")) == names
  {
    if |names| == 0 {
      assert "/" + Join(names, "/") == "/";
      assert Split("/", '/') == [""] + Split("", '/');
    } else {
      SplitJoin(names, '/');
      var s := "/" + Join(names, "/");
      assert s[1..] == Join(names, "/");
      assert Split(s, '/') == [""] + names;
      NonEmptyOfNonEmpty(names);
    }
  }

  lemma {:induction false} NonEmptyOfNonEmpty(names: seq<string>)
    requires forall i :: 0 <= i < |names| ==> names[i] != ""
    ensures NonEmpty(names) == names
    ensures NonEmpty([""] + names) == names
  {
    assert ([""] + names)[1..] == names;
    if |names| > 0 {
      NonEmptyOfNonEmpty(names[1..]);
      assert [names[0]] + names[1..] == names;
    }
  }

  // ---------------------------------------------------------------------------
  // lexicographic comparison by character (the model of `localeCompare`)

  /** Three-way lexicographic comparison of strings, character by character
      (a Dafny `char` is a Unicode scalar value): -1, 0 or 1. */
  function StrCmp(a: string, b: string): (r: int)
    ensures -1 <= r <= 1
    ensures r == 0 <==> a == b
  {
    if |a| == 0 && |b| == 0 then 0
    else if |a| == 0 then -1
    else if |b| == 0 then 1
    else if a[0] < b[0] then -1
    else if a[0] > b[0] then 1
    else
      var r := StrCmp(a[1..], b[1..]);
      assert a == [a[0]] + a[1..] && b == [b[0]] + b[1..];
      r
  }

  lemma {:induction false} StrCmpAntisymmetric(a: string, b: string)
    ensures StrCmp(a, b) == -StrCmp(b, a)
  {
    if |a| > 0 && |b| > 0 && a[0] == b[0] {
      StrCmpAntisymmetric(a[1..], b[1..]);
    }
  }

  lemma {:induction false} StrCmpTransitive(a: string, b: string, c: string)
    requires StrCmp(a, b) <= 0 && StrCmp(b, c) <= 0
    ensures StrCmp(a, c) <= 0
  {
    if |a| > 0 && |b| > 0 && |c| > 0 && a[0] == b[0] && b[0] == c[0] {
      StrCmpTransitive(a[1..], b[1..], c[1..]);
    }
  }

  // ---------------------------------------------------------------------------
  // path.extname

  /** The path without its trailing `/` characters. */
  function TrimTrailingSlashes(p: string): (r: string)
    ensures r <= p
    ensures |r| == 0 || r[|r| - 1] != '/'
  {
    if |p| > 0 && p[|p| - 1] == '/' then TrimTrailingSlashes(p[..|p| - 1]) else p
  }

  /** Index of the last occurrence of `c`, if any. */
  function LastIndexOf(s: string, c: char): (r: Option<nat>)
    ensures r.None? <==> c !in s
    ensures r.Some? ==> r.value < |s| && s[r.value] == c
    ensures r.Some? ==> forall j :: r.value < j < |s| ==> s[j] != c
  {
    if |s| == 0 then None
    else if s[|s| - 1] == c then Some(|s| - 1)
    else
      var r := LastIndexOf(s[..|s| - 1], c);
      assert s == s[..|s| - 1] + [s[|s| - 1]];
      r
  }

  /** Index of the first occurrence of `c`, if any. */
  function FirstIndexOf(s: string, c: char): (r: Option<nat>)
    ensures r.None? <==> c !in s
    ensures r.Some? ==> r.value < |s| && s[r.value] == c && c !in s[..r.value]
  {
    if |s| == 0 then None
    else if s[0] == c then Some(0)
    else
      match FirstIndexOf(s[1..], c)
      case None => None
      case Some(k) =>
        assert s[..k + 1] == [s[0]] + s[1..][..k];
        Some(k + 1)
  }

  /** The last path component (after the last `/`). */
  function BaseName(p: string): (r: string)
    ensures '/' !in r
    ensures EndsWith(p, r)
  {
    match LastIndexOf(p, '/')
    case None => p
    case Some(i) => p[i + 1..]
  }

  /** Node's `path.extname`: from the last `.` of the last component to its end,
      ignoring trailing slashes; "" when that component has no `.`, starts with
      its only `.`, or is `..`. */
  function ExtName(p: string): (r: string)
    ensures r == "" || r[0] == '.'
    ensures forall j :: 1 <= j < |r| ==> r[j] != '.' && r[j] != '/'
  {
    var b := BaseName(TrimTrailingSlashes(p));
    if b == ".." then ""
    else
      match LastIndexOf(b, '.')
      case None => ""
      case Some(i) =>
        if i == 0 then ""
        else b[i..]
  }

  /** `extname(stem + ext)` is `ext` for a dotted extension whose stem ends in
      something other than `/`. */
  lemma ExtNameOfSuffix(stem: string, ext: string)
    requires |stem| > 0 && stem[|stem| - 1] != '/'
    requires |ext| >= 2 && ext[0] == '.'
    requires forall j :: 1 <= j < |ext| ==> ext[j] != '.' && ext[j] != '/'
    ensures ExtName(stem + ext) == ext
  {
    var p := stem + ext;
    assert p[|p| - 1] == ext[|ext| - 1];
    assert TrimTrailingSlashes(p) == p;
    var b := BaseName(p);
    assert EndsWith(p, ext) by { assert p[|p| - |ext|..] == ext; }
    assert |b| > |ext|;
    assert b[|b| - |ext|..] == ext;
    var d := LastIndexOf(b, '.');
    assert b[|b| - |ext|] == '.';
    assert d.Some?;
    assert d.value == |b| - |ext|;
    assert b != "..";
  }

  // ---------------------------------------------------------------------------
  // regex class \s

  /** The characters JavaScript's `\s` matches. */
  predicate IsSpace(c: char) {
    c == '\t' || c == '\n' || c == '\U{B}' || c == '\U{C}' || c == '\r' || c == ' '
    || c == '\U{A0}' || c == '\U{1680}' || ('\U{2000}' <= c <= '\U{200A}')
    || c == '\U{2028}' || c == '\U{2029}' || c == '\U{202F}' || c == '\U{205F}'
    || c == '\U{3000}' || c == '\U{FEFF}'
  }

  // ---------------------------------------------------------------------------
  // String.prototype.replace with a string pattern

  /** `pat` occurs in `s` starting at index `j`. */
  predicate OccursAt(s: string, pat: string, j: int) {
    0 <= j && j + |pat| <= |s| && s[j..j + |pat|] == pat
  }

  /** Index of the first occurrence of `pat` in `s`, if any. */
  function IndexOf(s: string, pat: string): (r: Option<nat>)
    ensures r.Some? ==> OccursAt(s, pat, r.value)
    ensures r.Some? ==> forall j :: 0 <= j < r.value ==> !OccursAt(s, pat, j)
    ensures r.None? ==> forall j :: !OccursAt(s, pat, j)
  {
    IndexOfFrom(s, pat, 0)
  }

  function IndexOfFrom(s: string, pat: string, k: nat): (r: Option<nat>)
    requires forall j :: 0 <= j < k ==> !OccursAt(s, pat, j)
    ensures r.Some? ==> OccursAt(s, pat, r.value)
    ensures r.Some? ==> forall j :: 0 <= j < r.value ==> !OccursAt(s, pat, j)
    ensures r.None? ==> forall j :: !OccursAt(s, pat, j)
    decreases |s| + 1 - k
  {
    if k + |pat| > |s| then None
    else if s[k..k + |pat|] == pat then Some(k)
    else IndexOfFrom(s, pat, k + 1)
  }

  /** The ECMAScript GetSubstitution step for a match without capture groups:
      `$$`, `$&`, `` $` `` and `$'` are expanded, every other `$` is literal. */
  function Substitute(matched: string, str: string, position: nat, replacement: string): string
    requires position + |matched| <= |str|
  {
    if |replacement| == 0 then ""
    else if replacement[0] == '$' && |replacement| >= 2 then
      var rest := Substitute(matched, str, position, replacement[2..]);
      match replacement[1]
      case '$' => "$" + rest
      case '&' => matched + rest
      case '`' => str[..position] + rest
      case '\'' => str[position + |matched|..] + rest
      case _ => "$" + Substitute(matched, str, position, replacement[1..])
    else [replacement[0]] + Substitute(matched, str, position, replacement[1..])
  }

  /** A replacement text without `$` is inserted verbatim. */
  lemma {:induction false} SubstituteLiteral(matched: string, str: string, position: nat, replacement: string)
    requires position + |matched| <= |str|
    requires '$' !in replacement
    ensures Substitute(matched, str, position, replacement) == replacement
  {
    if |replacement| > 0 {
      SubstituteLiteral(matched, str, position, replacement[1..]);
      assert replacement == [replacement[0]] + replacement[1..];
    }
  }

  /** `s.replace(pat, replacement)`: only the first occurrence is replaced. */
  function ReplaceFirst(s: string, pat: string, replacement: string): string {
    match IndexOf(s, pat)
    case None => s
    case Some(i) => s[..i] + Substitute(pat, s, i, replacement) + s[i + |pat|..]
  }
}
