/** Module-path resolution and `@/` alias rewriting of server/transform.ts.
    The filesystem is the set of paths, relative to the project root, for
    which `access` succeeds (files and directories alike). */
module Aliases {
  import opened Wrappers
  import opened Text

  // ---------------------------------------------------------------------------
  // candidate lists

  /** `cands[i]` is the first candidate that exists. */
  predicate FirstIn(cands: seq<string>, fs: set<string>, i: int) {
    0 <= i < |cands| && cands[i] in fs && forall j :: 0 <= j < i ==> cands[j] !in fs
  }

  /** The first candidate, in order, that exists. */
  function FirstExisting(cands: seq<string>, fs: set<string>): (r: Option<string>)
    ensures r.None? <==> forall i :: 0 <= i < |cands| ==> cands[i] !in fs
    ensures r.Some? ==> exists i :: FirstIn(cands, fs, i) && cands[i] == r.value
  {
    if |cands| == 0 then None
    else if cands[0] in fs then
      assert FirstIn(cands, fs, 0);
      Some(cands[0])
    else
      var r := FirstExisting(cands[1..], fs);
      assert forall j :: 1 <= j < |cands| ==> cands[j] == cands[1..][j - 1];
      if r.Some? then
        var i :| FirstIn(cands[1..], fs, i) && cands[1..][i] == r.value;
        assert FirstIn(cands, fs, i + 1);
        r
      else r
  }

  /** The first candidate is chosen whenever it exists. */
  lemma FirstExistingPicksFirst(cands: seq<string>, fs: set<string>, i: nat)
    requires FirstIn(cands, fs, i)
    ensures FirstExisting(cands, fs) == Some(cands[i])
  {
    var r := FirstExisting(cands, fs);
    var k :| FirstIn(cands, fs, k) && cands[k] == r.value;
    assert k == i;
  }

  /** The index files tried for a directory specifier, `.tsx`, `.ts`, `.jsx`,
      `.js` and bare. */
  function IndexCandidates(x: string): seq<string> {
    [x + "/index.tsx", x + "/index.ts", x + "/index.jsx", x + "/index.js", x + "/index"]
  }

  /** `resolveModulePath` as written: the specifier with each extension, then
      bare, then each index file. */
  function AliasCandidatesAsWritten(x: string): seq<string> {
    [x + ".tsx", x + ".ts", x + ".jsx", x + ".js", x] + IndexCandidates(x)
  }

  /** `resolveModulePath` as written: some candidate that exists, and none
      exactly when no candidate exists. */
  function ResolveAsWritten(fs: set<string>, x: string): (r: Option<string>)
    ensures r.Some? ==> r.value in fs && r.value in AliasCandidatesAsWritten(x)
    ensures r.None? <==> forall c :: c in AliasCandidatesAsWritten(x) ==> c !in fs
  {
    FirstExisting(AliasCandidatesAsWritten(x), fs)
  }

  /** Every ancestor directory of an existing path exists, as on a real
      filesystem. */
  predicate ParentsExist(fs: set<string>) {
    forall p, i :: p in fs && 0 < i < |p| && p[i] == '/' ==> p[..i] in fs
  }

  /** With no file for an extension, an existing `x` resolves to itself, even
      when it is a directory holding an index file. */
  lemma DirectoryResolvesToItself(fs: set<string>, x: string)
    requires x in fs
    requires x + ".tsx" !in fs && x + ".ts" !in fs && x + ".jsx" !in fs && x + ".js" !in fs
    ensures ResolveAsWritten(fs, x) == Some(x)
  {
    FirstExistingPicksFirst(AliasCandidatesAsWritten(x), fs, 4);
  }

  /** On a real filesystem, the index files are never the answer: an index
      file's directory exists and is tried first. */
  lemma {:induction false} IndexNeverChosen(fs: set<string>, x: string)
    requires ParentsExist(fs) && x != ""
    ensures ResolveAsWritten(fs, x).None?
      || ResolveAsWritten(fs, x).value in AliasCandidatesAsWritten(x)[..5]
  {
    var c := AliasCandidatesAsWritten(x);
    var r := ResolveAsWritten(fs, x);
    if r.Some? {
      var k :| FirstIn(c, fs, k) && c[k] == r.value;
      assert c[4] == x;
      if k == 5 { ParentOfChild(fs, x, "/index.tsx"); }
      else if k == 6 { ParentOfChild(fs, x, "/index.ts"); }
      else if k == 7 { ParentOfChild(fs, x, "/index.jsx"); }
      else if k == 8 { ParentOfChild(fs, x, "/index.js"); }
      else if k == 9 { ParentOfChild(fs, x, "/index"); }
      else { assert c[..5][k] == c[k]; }
    }
  }

  lemma ParentOfChild(fs: set<string>, x: string, rest: string)
    requires ParentsExist(fs) && x != "" && |rest| > 0 && rest[0] == '/' && x + rest in fs
    ensures x in fs
  {
    var p := x + rest;
    assert p[|x|] == '/' && p[..|x|] == x;
  }

  /** `@/components` with `components/index.tsx` present resolves to the
      directory `components`. */
  lemma DirectoryImportCounterexample()
    ensures ParentsExist({"components", "components/index.tsx"})
    ensures ResolveAsWritten({"components", "components/index.tsx"}, "components") == Some("components")
  {
    var fs := {"components", "components/index.tsx"};
    forall p, i | p in fs && 0 < i < |p| && p[i] == '/' ensures p[..i] in fs {
      if p != "components" {
        assert p == "components" + "/index.tsx";
        assert forall j :: 0 <= j < |p| && j != 10 ==> p[j] != '/';
      }
    }
    DirectoryResolvesToItself(fs, "components");
  }

  /** The resolution order with the bare specifier last: extensions, then
      index files, then the specifier itself. */
  function AliasCandidates(x: string): seq<string> {
    [x + ".tsx", x + ".ts", x + ".jsx", x + ".js"] + IndexCandidates(x) + [x]
  }

  /** Alias resolution with directories resolved to their index file: some
      candidate that exists, and none exactly when no candidate exists. */
  function ResolveAlias(fs: set<string>, x: string): (r: Option<string>)
    ensures r.Some? ==> r.value in fs && r.value in AliasCandidates(x)
    ensures r.None? <==> forall c :: c in AliasCandidates(x) ==> c !in fs
  {
    FirstExisting(AliasCandidates(x), fs)
  }

  /** Both orders try the same candidates, so they find a module for the same
      specifiers; they differ only in which one they pick. */
  lemma ResolversFindSame(fs: set<string>, x: string)
    ensures ResolveAlias(fs, x).Some? <==> ResolveAsWritten(fs, x).Some?
  {
    assert forall c :: c in AliasCandidates(x) <==> c in AliasCandidatesAsWritten(x);
  }

  /** A directory import with an index file (and no file for an extension)
      resolves to the first index file that exists. */
  lemma DirectoryResolvesToIndex(fs: set<string>, x: string, i: nat)
    requires FirstIn(IndexCandidates(x), fs, i)
    requires x + ".tsx" !in fs && x + ".ts" !in fs && x + ".jsx" !in fs && x + ".js" !in fs
    ensures ResolveAlias(fs, x) == Some(IndexCandidates(x)[i])
  {
    var c := AliasCandidates(x);
    assert c[4 + i] == IndexCandidates(x)[i];
    assert FirstIn(c, fs, 4 + i);
    FirstExistingPicksFirst(c, fs, 4 + i);
  }

  /** Where no index file exists, both orders agree; in particular a file
      specifier with an explicit extension resolves to itself in both. */
  lemma ResolveAgreesWithoutIndex(fs: set<string>, x: string)
    requires forall i :: 0 <= i < 5 ==> IndexCandidates(x)[i] !in fs
    ensures ResolveAlias(fs, x) == ResolveAsWritten(fs, x)
  {
    var a := AliasCandidates(x);
    var w := AliasCandidatesAsWritten(x);
    var r := ResolveAlias(fs, x);
    if r.Some? {
      var k :| FirstIn(a, fs, k) && a[k] == r.value;
      assert forall j :: 0 <= j < 4 ==> w[j] == a[j];
      assert forall j :: 4 <= j < 9 ==> a[j] == IndexCandidates(x)[j - 4];
      var kw := if k < 4 then k else 4;
      assert w[kw] == a[k];
      assert FirstIn(w, fs, kw);
      FirstExistingPicksFirst(w, fs, kw);
    } else {
      forall i | 0 <= i < |w| ensures w[i] !in fs {
        if i < 4 { assert w[i] == a[i]; }
        else if i == 4 { assert w[i] == a[9]; }
        else { assert w[i] == IndexCandidates(x)[i - 5]; }
      }
    }
  }

  // ---------------------------------------------------------------------------
  // the two import scanners

  /** The regex classes `\s` and `[^'"]`. */
  datatype CharClass = Space | NonQuote

  predicate IsQuote(c: char) {
    c == '\'' || c == '"'
  }

  predicate InClass(k: CharClass, c: char) {
    match k
    case Space => IsSpace(c)
    case NonQuote => !IsQuote(c)
  }

  /** The end of the longest run of `k` characters of `u` from `j`. */
  function Skip(u: string, j: nat, k: CharClass): (r: nat)
    requires j <= |u|
    ensures j <= r <= |u|
    decreases |u| - j
  {
    if j < |u| && InClass(k, u[j]) then Skip(u, j + 1, k) else j
  }

  /** The run from `j` to `Skip(u, j, k)` is all `k`, and the character
      that stops it is not. */
  lemma {:induction false} SkipRun(u: string, j: nat, k: CharClass)
    requires j <= |u|
    ensures forall t :: j <= t < Skip(u, j, k) ==> InClass(k, u[t])
    ensures Skip(u, j, k) < |u| ==> !InClass(k, u[Skip(u, j, k)])
    decreases |u| - j
  {
    if j < |u| && InClass(k, u[j]) {
      SkipRun(u, j + 1, k);
    }
  }

  /** A run is determined by its characters and the one that stops it. */
  lemma {:induction false} SkipIsRunEnd(u: string, j: nat, k: CharClass, e: nat)
    requires j <= e < |u|
    requires forall t :: j <= t < e ==> InClass(k, u[t])
    requires !InClass(k, u[e])
    ensures Skip(u, j, k) == e
    decreases e - j
  {
    if j < e {
      SkipIsRunEnd(u, j + 1, k, e);
    }
  }

  /** White space holds neither `@` nor `$`. */
  lemma SpacesClean(u: string, j: nat)
    requires j <= |u|
    ensures forall t :: j <= t < Skip(u, j, Space) ==> u[t] != '@' && u[t] != '$'
  {
    SkipRun(u, j, Space);
  }

  /** Offsets, from the start of the match, of the specifier (`@/` included)
      and of the match's end. */
  datatype Shape = Shape(specStart: nat, specEnd: nat, len: nat)

  /** The two regexes: `from\s+['"]@/[^'"]+['"]` and
      `import\s*\(\s*['"]@/[^'"]+['"]\s*\)`. */
  datatype Kind = FromClause | DynamicImport

  /** What any match looks like: a prefix with neither `@` nor `$`, the
      specifier `@/` followed by non-quote characters, a quote, and a suffix
      without `$`. */
  predicate ValidShape(u: string, sh: Shape) {
    && sh.specStart + 2 < sh.specEnd < sh.len <= |u|
    && u[sh.specStart..sh.specStart + 2] == "@/"
    && (forall t :: sh.specStart + 2 <= t < sh.specEnd ==> !IsQuote(u[t]))
    && IsQuote(u[sh.specEnd])
    && (forall t :: 0 <= t < sh.specStart ==> u[t] != '@' && u[t] != '$')
    && (forall t :: sh.specEnd <= t < sh.len ==> u[t] != '$')
  }

  /** The shape holds of the matched text alone. */
  lemma ValidShapeOfMatch(u: string, sh: Shape)
    requires ValidShape(u, sh)
    ensures ValidShape(u[..sh.len], sh)
  {
    var t := u[..sh.len];
    assert t[sh.specStart..sh.specStart + 2] == u[sh.specStart..sh.specStart + 2];
  }

  /** The specifier part shared by both regexes, from index `k` (the opening
      quote) on: its end, when it is there. */
  function SpecifierAt(u: string, k: nat): (m: Option<nat>)
    requires k <= |u|
    ensures m.Some? ==> k + 3 < m.value < |u| && IsQuote(u[k]) && u[k + 1..k + 3] == "@/"
    ensures m.Some? ==> m.value == Skip(u, k + 3, NonQuote)
  {
    if k + 3 > |u| || !IsQuote(u[k]) || u[k + 1..k + 3] != "@/" then None
    else
      var m := Skip(u, k + 3, NonQuote);
      if m == k + 3 || m == |u| then None else Some(m)
  }

  /** A match of `from\s+['"]@/[^'"]+['"]` at index 0 of `u`, if any. */
  function FromAt(u: string): Option<Shape> {
    if |u| < 4 || u[..4] != "from" then None
    else
      var k := Skip(u, 4, Space);
      if k == 4 then None
      else
        match SpecifierAt(u, k)
        case None => None
        case Some(m) => Some(Shape(k + 1, m, m + 1))
  }

  /** A match of `import\s*\(\s*['"]@/[^'"]+['"]\s*\)` at index 0 of `u`, if any. */
  function ImportAt(u: string): Option<Shape> {
    if |u| < 6 || u[..6] != "import" then None
    else
      var k1 := Skip(u, 6, Space);
      if k1 == |u| || u[k1] != '(' then None
      else
        var k := Skip(u, k1 + 1, Space);
        match SpecifierAt(u, k)
        case None => None
        case Some(m) =>
          var e := Skip(u, m + 1, Space);
          if e == |u| || u[e] != ')' then None
          else Some(Shape(k + 1, m, e + 1))
  }

  /** Every match `FromAt` finds has the shape of a match. */
  lemma FromAtShape(u: string)
    ensures FromAt(u).Some? ==> ValidShape(u, FromAt(u).value)
  {
    if FromAt(u).Some? {
      var k, m := FromParts(u);
      assert forall t :: 0 <= t < 4 ==> u[t] == "from"[t];
      SpacesClean(u, 4);
      SkipRun(u, k + 3, NonQuote);
    }
  }

  /** Every match `ImportAt` finds has the shape of a match. */
  lemma ImportAtShape(u: string)
    ensures ImportAt(u).Some? ==> ValidShape(u, ImportAt(u).value)
  {
    if ImportAt(u).Some? {
      var k1, k, m, e := ImportParts(u);
      ImportPiecesShape(u, k1, k, m, e);
    }
  }

  /** The pieces `ImportAt` finds make up the shape of a match. */
  lemma ImportPiecesShape(u: string, k1: nat, k: nat, m: nat, e: nat)
    requires 6 <= |u| && u[..6] == "import"
    requires k1 < |u| && Skip(u, 6, Space) == k1 && u[k1] == '('
    requires Skip(u, k1 + 1, Space) == k && SpecifierAt(u, k) == Some(m)
    requires Skip(u, m + 1, Space) == e && e < |u| && u[e] == ')'
    ensures ValidShape(u, Shape(k + 1, m, e + 1))
  {
    SpacesClean(u, 6);
    SpacesClean(u, k1 + 1);
    SpacesClean(u, m + 1);
    SkipRun(u, k + 3, NonQuote);
    forall t | 0 <= t < k + 1 ensures u[t] != '@' && u[t] != '$' {
      if t < 6 { assert u[t] == "import"[t]; }
    }
    forall t | m <= t < e + 1 ensures u[t] != '$' {
      if m < t < e { assert t < Skip(u, m + 1, Space); }
    }
  }

  /** The match of the regex of `kind` starting at index 0 of `u`, if any. */
  function MatchAtStart(kind: Kind, u: string): (r: Option<Shape>)
    ensures r.Some? ==> ValidShape(u, r.value)
  {
    match kind
    case FromClause => FromAtShape(u); FromAt(u)
    case DynamicImport => ImportAtShape(u); ImportAt(u)
  }

  /** `v` agrees with `u` on its first `n` characters. */
  predicate AgreeUpTo(u: string, v: string, n: nat) {
    n <= |u| && n <= |v| && forall t :: 0 <= t < n ==> v[t] == u[t]
  }

  /** A run that ends inside the agreeing prefix ends at the same place. */
  lemma SkipIsLocal(u: string, v: string, j: nat, c: CharClass, n: nat)
    requires j <= |u| && AgreeUpTo(u, v, n) && Skip(u, j, c) < n
    ensures j <= |v| && Skip(v, j, c) == Skip(u, j, c)
  {
    SkipRun(u, j, c);
    SkipIsRunEnd(v, j, c, Skip(u, j, c));
  }

  lemma SpecifierIsLocal(u: string, v: string, k: nat, n: nat)
    requires k <= |u| && SpecifierAt(u, k).Some?
    requires AgreeUpTo(u, v, n) && SpecifierAt(u, k).value < n
    ensures k <= |v| && SpecifierAt(v, k) == SpecifierAt(u, k)
  {
    var m := SpecifierAt(u, k).value;
    assert v[k + 1..k + 3] == u[k + 1..k + 3];
    SkipIsLocal(u, v, k + 3, NonQuote, n);
  }

  /** The pieces `FromAt` finds in a match. */
  lemma FromParts(u: string) returns (k: nat, m: nat)
    requires FromAt(u).Some?
    ensures 4 <= |u| && u[..4] == "from" && Skip(u, 4, Space) == k && 4 < k
    ensures SpecifierAt(u, k) == Some(m) && FromAt(u) == Some(Shape(k + 1, m, m + 1))
  {
    k := Skip(u, 4, Space);
    m := SpecifierAt(u, k).value;
  }

  /** `FromAt` from the pieces it finds. */
  lemma FromAtPieces(u: string, k: nat, m: nat)
    requires 4 <= |u| && u[..4] == "from" && Skip(u, 4, Space) == k && 4 < k
    requires SpecifierAt(u, k) == Some(m)
    ensures FromAt(u) == Some(Shape(k + 1, m, m + 1))
  {
  }

  lemma FromIsLocal(u: string, v: string)
    requires FromAt(u).Some? && AgreeUpTo(u, v, FromAt(u).value.len)
    ensures FromAt(v) == FromAt(u)
  {
    var k, m := FromParts(u);
    var n := m + 1;
    assert v[..4] == u[..4];
    SkipIsLocal(u, v, 4, Space, n);
    SpecifierIsLocal(u, v, k, n);
    FromAtPieces(v, k, m);
  }

  /** The pieces `ImportAt` finds in a match. */
  lemma ImportParts(u: string) returns (k1: nat, k: nat, m: nat, e: nat)
    requires ImportAt(u).Some?
    ensures 6 <= |u| && u[..6] == "import"
    ensures k1 < |u| && Skip(u, 6, Space) == k1 && u[k1] == '('
    ensures Skip(u, k1 + 1, Space) == k && SpecifierAt(u, k) == Some(m)
    ensures Skip(u, m + 1, Space) == e && e < |u| && u[e] == ')'
    ensures ImportAt(u) == Some(Shape(k + 1, m, e + 1))
  {
    k1 := Skip(u, 6, Space);
    k := Skip(u, k1 + 1, Space);
    m := SpecifierAt(u, k).value;
    e := Skip(u, m + 1, Space);
  }

  /** `ImportAt` from the pieces it finds. */
  lemma ImportAtPieces(u: string, k1: nat, k: nat, m: nat, e: nat)
    requires 6 <= |u| && u[..6] == "import"
    requires k1 < |u| && Skip(u, 6, Space) == k1 && u[k1] == '('
    requires Skip(u, k1 + 1, Space) == k && SpecifierAt(u, k) == Some(m)
    requires Skip(u, m + 1, Space) == e && e < |u| && u[e] == ')'
    ensures ImportAt(u) == Some(Shape(k + 1, m, e + 1))
  {
  }

  lemma ImportIsLocal(u: string, v: string)
    requires ImportAt(u).Some? && AgreeUpTo(u, v, ImportAt(u).value.len)
    ensures ImportAt(v) == ImportAt(u)
  {
    var k1, k, m, e := ImportParts(u);
    var n := e + 1;
    assert v[..6] == u[..6];
    SkipIsLocal(u, v, 6, Space, n);
    assert v[k1] == u[k1];
    SkipIsLocal(u, v, k1 + 1, Space, n);
    SpecifierIsLocal(u, v, k, n);
    SkipIsLocal(u, v, m + 1, Space, n);
    assert v[e] == u[e];
    ImportAtPieces(v, k1, k, m, e);
  }

  /** A match depends only on the characters it spans. */
  lemma MatchIsLocal(kind: Kind, u: string, v: string)
    requires MatchAtStart(kind, u).Some?
    requires AgreeUpTo(u, v, MatchAtStart(kind, u).value.len)
    ensures MatchAtStart(kind, v) == MatchAtStart(kind, u)
  {
    match kind
    case FromClause => FromIsLocal(u, v);
    case DynamicImport => ImportIsLocal(u, v);
  }

  /** Every character of `ws` is white space. */
  predicate AllSpace(ws: string) {
    forall i :: 0 <= i < |ws| ==> IsSpace(ws[i])
  }

  /** No character of `x` is a quote. */
  predicate QuoteFree(x: string) {
    forall i :: 0 <= i < |x| ==> !IsQuote(x[i])
  }

  /** `p` begins `u` when `p + w` does. */
  lemma Shorter(u: string, p: string, w: string)
    requires p + w <= u
    ensures p <= u
  {
    forall k | 0 <= k < |p|
      ensures u[k] == p[k]
    {
      assert u[k] == (p + w)[k];
    }
  }

  /** The character of `u` right after its beginning `p`. */
  lemma Next(u: string, p: string, c: char)
    requires p + [c] <= u
    ensures |p| < |u| && u[|p|] == c
  {
    assert u[|p|] == (p + [c])[|p|];
  }

  /** A run of white space that a non-space ends is skipped exactly: here
      the run `ws` follows the text `p` that begins `u`. */
  lemma SpacesSkipped(u: string, p: string, ws: string)
    requires p + ws <= u && |p| + |ws| < |u|
    requires AllSpace(ws) && !IsSpace(u[|p| + |ws|])
    ensures Skip(u, |p|, Space) == |p| + |ws|
  {
    forall t | |p| <= t < |p| + |ws|
      ensures InClass(Space, u[t])
    {
      assert u[t] == (p + ws)[t] == ws[t - |p|];
    }
    SkipIsRunEnd(u, |p|, Space, |p| + |ws|);
  }

  /** A quote, `@/`, a non-empty quote-free path and a quote make a
      specifier, here right after the text `p` that begins `u`. */
  lemma SpecifierRecognised(u: string, p: string, q: char, x: string, q2: char)
    requires p + [q] + "@/" + x + [q2] <= u
    requires IsQuote(q) && IsQuote(q2) && |x| > 0 && QuoteFree(x)
    ensures SpecifierAt(u, |p|) == Some(|p| + 3 + |x|)
  {
    var w := p + [q] + "@/" + x + [q2];
    var k := |p|;
    assert |w| == k + 4 + |x|;
    assert u[k] == w[k] == q;
    assert u[k + 1] == w[k + 1] == '@' && u[k + 2] == w[k + 2] == '/';
    assert u[k + 1..k + 3] == "@/";
    assert u[k + 3 + |x|] == w[k + 3 + |x|] == q2;
    forall t | k + 3 <= t < k + 3 + |x|
      ensures InClass(NonQuote, u[t])
    {
      assert u[t] == w[t] == x[t - k - 3];
    }
    SkipIsRunEnd(u, k + 3, NonQuote, k + 3 + |x|);
  }

  lemma QuoteNotSpace(c: char)
    requires IsQuote(c)
    ensures !IsSpace(c)
  {
  }

  /** Every text that `from\s+['"]@/[^'"]+['"]` matches at its start is
      recognised, with the specifier and the end where the regex puts them. */
  lemma FromRecognised(ws: string, q: char, x: string, q2: char, rest: string)
    requires |ws| > 0 && AllSpace(ws)
    requires IsQuote(q) && IsQuote(q2)
    requires |x| > 0 && QuoteFree(x)
    ensures FromAt("from" + ws + [q] + "@/" + x + [q2] + rest)
         == Some(Shape(|ws| + 5, |ws| + 7 + |x|, |ws| + 8 + |x|))
  {
    var p1 := "from" + ws;
    var p5 := p1 + [q] + "@/" + x + [q2];
    var u := p5 + rest;
    assert p1 <= p1 + [q] <= p5 <= u;
    assert u[..4] == "from";
    Next(u, p1, q);
    QuoteNotSpace(q);
    assert |p1| == |"from"| + |ws|;
    SpacesSkipped(u, "from", ws);
    SpecifierRecognised(u, p1, q, x, q2);
    FromAtPieces(u, |p1|, |p1| + 3 + |x|);
  }

  /** Every text that `import\s*\(\s*['"]@/[^'"]+['"]\s*\)` matches at its
      start is recognised, with the specifier and the end where the regex
      puts them. */
  lemma ImportRecognised(ws1: string, ws2: string, q: char, x: string, q2: char, ws3: string, rest: string)
    requires AllSpace(ws1) && AllSpace(ws2) && AllSpace(ws3)
    requires IsQuote(q) && IsQuote(q2)
    requires |x| > 0 && QuoteFree(x)
    ensures ImportAt("import" + ws1 + "(" + ws2 + [q] + "@/" + x + [q2] + ws3 + ")" + rest)
         == Some(Shape(|ws1| + |ws2| + 8, |ws1| + |ws2| + 10 + |x|, |ws1| + |ws2| + |x| + |ws3| + 12))
  {
    var p3 := "import" + ws1 + "(" + ws2;
    var p7 := p3 + [q] + "@/" + x + [q2];
    var u := p7 + ws3 + ")" + rest;
    assert p3 + [q] <= p7 <= p7 + ws3 + ")" <= u;
    ImportRecognisedAt(u, p3, p7, ws1, ws2, q, x, q2, ws3);
  }

  /** `ImportRecognised` for any text `u` that begins with the match, whose
      part up to the first quote is `p3` and up to the second quote `p7`. */
  lemma ImportRecognisedAt(u: string, p3: string, p7: string, ws1: string, ws2: string, q: char, x: string, q2: char, ws3: string)
    requires p3 == "import" + ws1 + "(" + ws2 && p7 == p3 + [q] + "@/" + x + [q2]
    requires p3 + [q] <= u && p7 <= u && p7 + ws3 + ")" <= u
    requires AllSpace(ws1) && AllSpace(ws2) && AllSpace(ws3)
    requires IsQuote(q) && IsQuote(q2)
    requires |x| > 0 && QuoteFree(x)
    ensures ImportAt(u)
         == Some(Shape(|ws1| + |ws2| + 8, |ws1| + |ws2| + 10 + |x|, |ws1| + |ws2| + |x| + |ws3| + 12))
  {
    var k1, k := |ws1| + 6, |ws1| + |ws2| + 7;
    var m, e := k + 3 + |x|, k + 4 + |x| + |ws3|;
    assert |p3| == k && |p7| == m + 1;
    ImportOpen(u, ws1, ws2, q);
    SpecifierRecognised(u, p3, q, x, q2);
    ImportClose(u, p7, ws3);
    ImportAtPieces(u, k1, k, m, e);
  }

  /** `import`, white space, `(` and white space up to a quote at the start
      of `u`. */
  lemma ImportOpen(u: string, ws1: string, ws2: string, q: char)
    requires "import" + ws1 + "(" + ws2 + [q] <= u
    requires AllSpace(ws1) && AllSpace(ws2) && IsQuote(q)
    ensures u[..6] == "import" && |ws1| + 6 < |u| && u[|ws1| + 6] == '('
    ensures Skip(u, 6, Space) == |ws1| + 6
    ensures Skip(u, |ws1| + 7, Space) == |ws1| + |ws2| + 7
  {
    var p1 := "import" + ws1;
    var p3 := p1 + "(" + ws2;
    Next(u, p3, q);
    Shorter(u, p3, [q]);
    Shorter(u, p1 + "(", ws2);
    ImportWord(u, ws1);
    QuoteNotSpace(q);
    assert |p3| == |p1 + "("| + |ws2| && |p1 + "("| == |ws1| + 7;
    SpacesSkipped(u, p1 + "(", ws2);
  }

  /** `import`, white space and `(` at the start of `u`. */
  lemma ImportWord(u: string, ws1: string)
    requires "import" + ws1 + "(" <= u && AllSpace(ws1)
    ensures u[..6] == "import" && |ws1| + 6 < |u| && u[|ws1| + 6] == '('
    ensures Skip(u, 6, Space) == |ws1| + 6
  {
    var p1 := "import" + ws1;
    Next(u, p1, '(');
    Shorter(u, p1, "(");
    forall k | 0 <= k < 6
      ensures u[k] == "import"[k]
    {
      assert u[k] == p1[k];
    }
    assert u[..6] == "import";
    assert |p1| == |"import"| + |ws1| == |ws1| + 6;
    SpacesSkipped(u, "import", ws1);
  }

  /** White space and `)` after the text `p` that begins `u`. */
  lemma ImportClose(u: string, p: string, ws3: string)
    requires p + ws3 + ")" <= u && AllSpace(ws3)
    ensures |p| + |ws3| < |u| && u[|p| + |ws3|] == ')'
    ensures Skip(u, |p|, Space) == |p| + |ws3|
  {
    Shorter(u, p + ws3, ")");
    Next(u, p + ws3, ')');
    assert |p + ws3| == |p| + |ws3|;
    SpacesSkipped(u, p, ws3);
  }

  /** One match in the code: where it starts and its shape. */
  datatype Hit = Hit(kind: Kind, start: nat, shape: Shape)

  /** The match of the regex of `kind` starting at index `p` of `s`. */
  function MatchAt(kind: Kind, s: string, p: nat): (r: Option<Shape>)
    requires p <= |s|
    ensures r.Some? ==> ValidShape(s[p..], r.value)
  {
    MatchAtStart(kind, s[p..])
  }

  /** `h` is the match its regex finds at `h.start`. */
  predicate HitIn(s: string, h: Hit) {
    h.start <= |s| && MatchAt(h.kind, s, h.start) == Some(h.shape)
  }

  /** `h` has the shape of a match where it lies in `s`. */
  predicate Located(s: string, h: Hit) {
    h.start <= |s| && ValidShape(s[h.start..], h.shape)
  }

  function EndOf(h: Hit): nat {
    h.start + h.shape.len
  }

  predicate NoMatchBetween(kind: Kind, s: string, i: nat, j: nat) {
    forall p :: i <= p < j && p <= |s| ==> MatchAt(kind, s, p).None?
  }

  /** Every hit in `hs` lies in `s` with the shape of a match. */
  predicate HitsIn(s: string, hs: seq<Hit>) {
    |hs| == 0 || (Located(s, hs[0]) && HitsIn(s, hs[1..]))
  }

  lemma {:induction false} HitsInAppend(s: string, a: seq<Hit>, b: seq<Hit>)
    requires HitsIn(s, a) && HitsIn(s, b)
    ensures HitsIn(s, a + b)
  {
    if |a| > 0 {
      assert (a + b)[1..] == a[1..] + b;
      HitsInAppend(s, a[1..], b);
    } else {
      assert a + b == b;
    }
  }

  /** The global `exec` loop of one regex: leftmost matches from `i` on, each
      search resuming where the previous match ended. */
  function Scan(kind: Kind, s: string, i: nat): (hs: seq<Hit>)
    requires i <= |s|
    ensures hs == [] <==> NoMatchBetween(kind, s, i, |s| + 1)
    ensures HitsIn(s, hs) && forall h :: h in hs ==> h.kind == kind
    ensures hs != [] ==> HitIn(s, hs[0]) && i <= hs[0].start && NoMatchBetween(kind, s, i, hs[0].start)
    decreases |s| - i
  {
    match MatchAt(kind, s, i)
    case Some(sh) =>
      var rest := Scan(kind, s, i + sh.len);
      assert ([Hit(kind, i, sh)] + rest)[1..] == rest;
      [Hit(kind, i, sh)] + rest
    case None =>
      if i == |s| then
        []
      else
        var hs := Scan(kind, s, i + 1);
        NoMatchStep(kind, s, i, |s| + 1);
        if hs == [] then hs
        else
          NoMatchStep(kind, s, i, hs[0].start);
          hs
  }

  /** Where no match starts at `i`, the matchless stretches from `i` and from
      `i + 1` end at the same places. */
  lemma NoMatchStep(kind: Kind, s: string, i: nat, j: nat)
    requires i < |s| && i < j && MatchAt(kind, s, i).None?
    ensures NoMatchBetween(kind, s, i, j) <==> NoMatchBetween(kind, s, i + 1, j)
  {
  }

  // ---------------------------------------------------------------------------
  // rewriting

  /** `match.replace(/@\/[^'"]+/, replacement)`: the first `@/` followed by a
      non-quote, with the run of non-quotes after it, is replaced (with `$`
      patterns expanded). */
  function ReplaceAliasRun(t: string, replacement: string): string {
    match AliasRunFrom(t, 0)
    case None => t
    case Some(p) =>
      var e := Skip(t, p + 2, NonQuote);
      t[..p] + Substitute(t[p..e], t, p, replacement) + t[e..]
  }

  predicate AliasRunAt(t: string, p: nat) {
    p + 3 <= |t| && t[p..p + 2] == "@/" && !IsQuote(t[p + 2])
  }

  function AliasRunFrom(t: string, p: nat): (r: Option<nat>)
    requires p <= |t|
    ensures r.Some? ==> p <= r.value && AliasRunAt(t, r.value)
    ensures r.Some? ==> forall q :: p <= q < r.value ==> !AliasRunAt(t, q)
    decreases |t| - p
  {
    if AliasRunAt(t, p) then Some(p)
    else if p == |t| then None
    else AliasRunFrom(t, p + 1)
  }

  /** Inside a match, the regex replacement touches exactly the specifier:
      the prefix (`from '`, `import('`) and the suffix (the closing quote, and
      `)`) stay as they are. */
  lemma AliasRunIsSpecifier(t: string, sh: Shape, replacement: string)
    requires ValidShape(t, sh) && sh.len == |t|
    requires '$' !in replacement
    ensures ReplaceAliasRun(t, replacement) == t[..sh.specStart] + replacement + t[sh.specEnd..]
  {
    var a := sh.specStart;
    assert t[a] == '@';
    FirstRunAt(t, 0, a);
    SkipIsRunEnd(t, a + 2, NonQuote, sh.specEnd);
    SubstituteLiteral(t[a..sh.specEnd], t, a, replacement);
  }

  lemma {:induction false} FirstRunAt(t: string, p: nat, a: nat)
    requires p <= a && AliasRunAt(t, a)
    requires forall q :: p <= q < a ==> t[q] != '@'
    ensures AliasRunFrom(t, p) == Some(a)
    decreases a - p
  {
    if p < a {
      assert t[p] != '@';
      assert !AliasRunAt(t, p);
      FirstRunAt(t, p + 1, a);
    }
  }

  /** The text to put in place of a specifier `@/x`: "/" and the module path
      `resolveModulePath` answers (in its order as written), or `/x` when
      nothing exists. Either way the result is `/` + an existing path or `/x`. */
  function Replacement(fs: set<string>, spec: string): (r: string)
    requires StartsWith(spec, "@/")
    ensures |r| > 0 && r[0] == '/'
    ensures r[1..] in fs || r[1..] == spec[2..]
    ensures ResolveAsWritten(fs, spec[2..]).Some? ==> r == "/" + ResolveAsWritten(fs, spec[2..]).value
    ensures ResolveAsWritten(fs, spec[2..]).None? ==> r == "/" + spec[2..]
  {
    match ResolveAsWritten(fs, spec[2..])
    case Some(path) => "/" + path
    case None => "/" + spec[2..]
  }

  /** `@/components` with `components/index.tsx` present becomes
      `/components`, the directory, and not its index file. */
  lemma DirectoryImportRewrite()
    ensures Replacement({"components", "components/index.tsx"}, "@/" + "components") == "/" + "components"
  {
    ComponentsResolvesToItself();
    ReplacementOfResolved({"components", "components/index.tsx"}, "components", "components");
  }

  lemma ComponentsResolvesToItself()
    ensures ResolveAsWritten({"components", "components/index.tsx"}, "components") == Some("components")
  {
    var fs := {"components", "components/index.tsx"};
    assert "components" + ".tsx" != "components" && "components" + ".tsx" != "components/index.tsx";
    assert "components" + ".ts" != "components" && "components" + ".ts" != "components/index.tsx";
    assert "components" + ".jsx" != "components" && "components" + ".jsx" != "components/index.tsx";
    assert "components" + ".js" != "components" && "components" + ".js" != "components/index.tsx";
    DirectoryResolvesToItself(fs, "components");
  }

  /** The specifier `@/x` is replaced by `/` + whatever `x` resolves to. */
  lemma ReplacementOfResolved(fs: set<string>, x: string, path: string)
    requires ResolveAsWritten(fs, x) == Some(path)
    ensures StartsWith("@/" + x, "@/") && Replacement(fs, "@/" + x) == "/" + path
  {
    assert ("@/" + x)[2..] == x;
  }

  /** The corrected order resolves the same import to the index file. */
  lemma DirectoryImportCorrected()
    ensures ResolveAlias({"components", "components/index.tsx"}, "components") == Some("components/index.tsx")
  {
    var fs := {"components", "components/index.tsx"};
    assert "components" + ".tsx" != "components" && "components" + ".tsx" != "components/index.tsx";
    assert "components" + ".ts" != "components" && "components" + ".ts" != "components/index.tsx";
    assert "components" + ".jsx" != "components" && "components" + ".jsx" != "components/index.tsx";
    assert "components" + ".js" != "components" && "components" + ".js" != "components/index.tsx";
    assert IndexCandidates("components")[0] == "components/index.tsx";
    assert FirstIn(IndexCandidates("components"), fs, 0);
    DirectoryResolvesToIndex(fs, "components", 0);
  }

  /** A replacement of the whole matched text. */
  datatype Edit = Edit(matched: string, replacement: string)

  function MatchedText(s: string, h: Hit): string
    requires Located(s, h)
  {
    s[h.start..EndOf(h)]
  }

  function SpecifierOf(s: string, h: Hit): (spec: string)
    requires Located(s, h)
    ensures StartsWith(spec, "@/")
  {
    s[h.start + h.shape.specStart..h.start + h.shape.specEnd]
  }

  function EditOf(fs: set<string>, s: string, h: Hit): Edit
    requires Located(s, h)
  {
    var t := MatchedText(s, h);
    Edit(t, ReplaceAliasRun(t, Replacement(fs, SpecifierOf(s, h))))
  }

  function Edits(fs: set<string>, s: string, hs: seq<Hit>): (es: seq<Edit>)
    requires HitsIn(s, hs)
    ensures |es| == |hs|
  {
    if |hs| == 0 then [] else [EditOf(fs, s, hs[0])] + Edits(fs, s, hs[1..])
  }

  /** Each `result.replace(match, newMatch)` in turn. */
  function ApplyEdits(code: string, es: seq<Edit>): string
    decreases |es|
  {
    if |es| == 0 then code
    else ApplyEdits(ReplaceFirst(code, es[0].matched, es[0].replacement), es[1..])
  }

  /** All the hits of the two regexes: each hit is a match in `code`, and
      every static-import hit comes before every dynamic-import hit. */
  function Hits(code: string): (hs: seq<Hit>)
    ensures HitsIn(code, hs)
    ensures forall i, j :: 0 <= i < |hs| && 0 <= j < |hs| && hs[i].kind == FromClause && hs[j].kind == DynamicImport ==> i < j
  {
    var a := Scan(FromClause, code, 0);
    var b := Scan(DynamicImport, code, 0);
    HitsInAppend(code, a, b);
    KindsInOrder(a, b);
    a + b
  }

  /** Static-import hits followed by dynamic-import hits keep the two kinds
      apart, in that order. */
  lemma KindsInOrder(a: seq<Hit>, b: seq<Hit>)
    requires forall h :: h in a ==> h.kind == FromClause
    requires forall h :: h in b ==> h.kind == DynamicImport
    ensures forall i, j :: 0 <= i < |a + b| && 0 <= j < |a + b| && (a + b)[i].kind == FromClause && (a + b)[j].kind == DynamicImport ==> i < j
  {
  }

  /** `rewritePathAliases`: every static-import match, then every
      dynamic-import match, rewritten in that order. */
  function RewritePathAliases(fs: set<string>, code: string): string {
    var hs := Hits(code);
    if |hs| == 0 then code else ApplyEdits(code, Edits(fs, code, hs))
  }

  /** `from '@/a'` holds one match, a static import, and no dynamic one. */
  lemma HitsExample()
    ensures Hits("from '@/a'") == [Hit(FromClause, 0, Shape(6, 9, 10))]
  {
    HitsOfExample("from '@/a'");
  }

  lemma HitsOfExample(code: string)
    requires code == "from '@/a'"
    ensures Hits(code) == [Hit(FromClause, 0, Shape(6, 9, 10))]
  {
    ScanFromExample(code);
    ScanImportExample(code);
  }

  lemma ScanFromExample(code: string)
    requires code == "from '@/a'"
    ensures Scan(FromClause, code, 0) == [Hit(FromClause, 0, Shape(6, 9, 10))]
  {
    assert code == "from" + " " + ['\''] + "@/" + "a" + ['\''] + "";
    FromRecognised(" ", '\'', "a", '\'', "");
    assert code[0..] == code && code[10..] == [];
  }

  lemma ScanImportExample(code: string)
    requires code == "from '@/a'"
    ensures Scan(DynamicImport, code, 0) == []
  {
    forall p | 0 <= p < 11 && p <= |code|
      ensures MatchAt(DynamicImport, code, p).None?
    {
      if p <= 4 {
        assert code[p..][0] == code[p] != 'i';
      }
    }
  }

  /** Rewriting `from '@/a'` with `a.tsx` present resolves the alias. */
  lemma RewriteExample()
    ensures RewritePathAliases({"a.tsx"}, "from '@/a'") == "from '/a.tsx'"
  {
    RewriteOfExample({"a.tsx"}, "from '@/a'");
  }

  lemma RewriteOfExample(fs: set<string>, code: string)
    requires fs == {"a.tsx"} && code == "from '@/a'"
    ensures RewritePathAliases(fs, code) == "from '/a.tsx'"
  {
    var h := Hit(FromClause, 0, Shape(6, 9, 10));
    HitsOfExample(code);
    ExamplePieces(code);
    assert SpecifierOf(code, h) == "@/" + "a";
    ExampleResolves(fs);
    ReplacementOfResolved(fs, "a", "a.tsx");
    SingleAliasRewrite(fs, code, h);
  }

  lemma ExamplePieces(code: string)
    requires code == "from '@/a'"
    ensures code[6..9] == "@/" + "a"
    ensures code[..6] + ("/" + "a.tsx") + code[9..] == "from '/a.tsx'"
  {
    assert code[..6] == "from '" && code[9..] == "'";
  }

  lemma ExampleResolves(fs: set<string>)
    requires fs == {"a.tsx"}
    ensures ResolveAsWritten(fs, "a") == Some("a.tsx")
  {
    assert AliasCandidatesAsWritten("a")[0] == "a.tsx";
    FirstExistingPicksFirst(AliasCandidatesAsWritten("a"), fs, 0);
  }

  /** Every match contains `@/`, so code without it is returned unchanged. */
  lemma NoAliasUnchanged(fs: set<string>, code: string)
    requires forall j :: !OccursAt(code, "@/", j)
    ensures RewritePathAliases(fs, code) == code
  {
    var hs := Hits(code);
    if |hs| > 0 {
      HitHasAlias(code, hs[0]);
    }
  }

  /** Every located hit has `@/` at the start of its specifier. */
  lemma HitHasAlias(s: string, h: Hit)
    requires Located(s, h)
    ensures OccursAt(s, "@/", h.start + h.shape.specStart)
  {
    var u := s[h.start..];
    var a := h.shape.specStart;
    assert s[h.start + a..h.start + a + 2] == u[a..a + 2];
  }

  /** The matched text of a hit occurs nowhere in the code before the hit
      when no match of its kind starts earlier. */
  lemma FirstOccurrenceIsHit(s: string, h: Hit)
    requires HitIn(s, h) && NoMatchBetween(h.kind, s, 0, h.start)
    ensures IndexOf(s, MatchedText(s, h)) == Some(h.start)
  {
    var t := MatchedText(s, h);
    assert OccursAt(s, t, h.start);
    var i := IndexOf(s, t);
    assert i.Some?;
    if i.value < h.start {
      var p := i.value;
      assert MatchAt(h.kind, s, p).None?;
      var u := s[h.start..];
      var v := s[p..];
      assert AgreeUpTo(u, v, |t|) by {
        forall q | 0 <= q < |t|
          ensures v[q] == u[q]
        {
          assert v[q] == s[p..p + |t|][q] == t[q];
        }
      }
      MatchIsLocal(h.kind, u, v);
      assert false;
    }
  }

  /** With a single alias in the code, the result is the code with just that
      specifier replaced by its resolution. */
  lemma SingleAliasRewrite(fs: set<string>, code: string, h: Hit)
    requires Hits(code) == [h]
    requires '$' !in Replacement(fs, SpecifierOf(code, h))
    ensures RewritePathAliases(fs, code) == code[..h.start + h.shape.specStart]
      + Replacement(fs, SpecifierOf(code, h)) + code[h.start + h.shape.specEnd..]
  {
    OnlyHit(code, h);
    FirstHitRewrite(fs, code, h);
  }

  /** Rewriting with the first match of its kind alone replaces just its
      specifier. */
  lemma FirstHitRewrite(fs: set<string>, code: string, h: Hit)
    requires HitIn(code, h) && Located(code, h) && NoMatchBetween(h.kind, code, 0, h.start)
    requires '$' !in Replacement(fs, SpecifierOf(code, h))
    ensures ApplyEdits(code, Edits(fs, code, [h])) == code[..h.start + h.shape.specStart]
      + Replacement(fs, SpecifierOf(code, h)) + code[h.start + h.shape.specEnd..]
  {
    FirstOccurrenceIsHit(code, h);
    EditAtFirstOccurrence(fs, code, h);
  }

  /** The edit of a hit whose matched text first occurs where the hit is
      replaces just its specifier. */
  lemma EditAtFirstOccurrence(fs: set<string>, code: string, h: Hit)
    requires Located(code, h) && IndexOf(code, MatchedText(code, h)) == Some(h.start)
    requires '$' !in Replacement(fs, SpecifierOf(code, h))
    ensures ApplyEdits(code, Edits(fs, code, [h])) == code[..h.start + h.shape.specStart]
      + Replacement(fs, SpecifierOf(code, h)) + code[h.start + h.shape.specEnd..]
  {
    var t := MatchedText(code, h);
    var r := Replacement(fs, SpecifierOf(code, h));
    assert Edits(fs, code, [h]) == [Edit(t, ReplaceAliasRun(t, r))];
    assert code[h.start..][..h.shape.len] == t;
    ValidShapeOfMatch(code[h.start..], h.shape);
    SpliceEdit(code, h.start, t, h.shape, r);
  }

  /** Rewriting the first occurrence of a match `t` at `p` with `r` in
      place of its specifier. */
  lemma SpliceEdit(code: string, p: nat, t: string, sh: Shape, r: string)
    requires IndexOf(code, t) == Some(p) && ValidShape(t, sh) && sh.len == |t| && '$' !in r
    ensures ApplyEdits(code, [Edit(t, ReplaceAliasRun(t, r))])
      == code[..p + sh.specStart] + r + code[p + sh.specEnd..]
  {
    NoDollar(t, sh, r);
    SpliceRun(code, p, t, sh, r);
  }

  lemma SpliceRun(code: string, p: nat, t: string, sh: Shape, r: string)
    requires IndexOf(code, t) == Some(p) && sh.specStart <= sh.specEnd <= |t|
    requires ReplaceAliasRun(t, r) == t[..sh.specStart] + r + t[sh.specEnd..]
    requires '$' !in t[..sh.specStart] + r + t[sh.specEnd..]
    ensures ApplyEdits(code, [Edit(t, ReplaceAliasRun(t, r))])
      == code[..p + sh.specStart] + r + code[p + sh.specEnd..]
  {
    SplicedEdit(code, p, t, sh.specStart, sh.specEnd, r);
  }

  /** The edit of `t` at its first occurrence `p` that puts `r` in place of
      `t[a..e]`. */
  lemma SplicedEdit(code: string, p: nat, t: string, a: nat, e: nat, r: string)
    requires IndexOf(code, t) == Some(p) && a <= e <= |t|
    requires '$' !in t[..a] + r + t[e..]
    ensures ApplyEdits(code, [Edit(t, t[..a] + r + t[e..])]) == code[..p + a] + r + code[p + e..]
  {
    OneEdit(code, t, t[..a] + r + t[e..], p);
    Splice(code, p, t, a, e, r);
  }

  /** A single edit whose text occurs first at `p` and whose replacement has
      no `$` splices the replacement in at `p`. */
  lemma OneEdit(code: string, t: string, n: string, p: nat)
    requires IndexOf(code, t) == Some(p) && '$' !in n
    ensures ApplyEdits(code, [Edit(t, n)]) == code[..p] + n + code[p + |t|..]
  {
    assert ApplyEdits(code, [Edit(t, n)]) == ReplaceFirst(code, t, n);
    SubstituteLiteral(t, code, p, n);
  }

  /** Splicing `r` into a match adds no `$` when `r` has none. */
  lemma NoDollar(t: string, sh: Shape, r: string)
    requires ValidShape(t, sh) && sh.len == |t| && '$' !in r
    ensures sh.specStart <= sh.specEnd <= |t|
    ensures ReplaceAliasRun(t, r) == t[..sh.specStart] + r + t[sh.specEnd..]
    ensures '$' !in t[..sh.specStart] + r + t[sh.specEnd..]
  {
    AliasRunIsSpecifier(t, sh, r);
    var n := t[..sh.specStart] + r + t[sh.specEnd..];
    forall c | c in n
      ensures c != '$'
    {
      if c in t[..sh.specStart] {
        var q :| 0 <= q < sh.specStart && t[q] == c;
      } else if c in t[sh.specEnd..] {
        var q :| 0 <= q < |t[sh.specEnd..]| && t[sh.specEnd..][q] == c;
        assert t[sh.specEnd + q] == c;
      }
    }
  }

  /** Replacing `t[a..e]` inside an occurrence of `t` at `p` is replacing
      `code[p + a..p + e]`. */
  lemma Splice(code: string, p: nat, t: string, a: nat, e: nat, r: string)
    requires p + |t| <= |code| && code[p..p + |t|] == t && a <= e <= |t|
    ensures code[..p] + (t[..a] + r + t[e..]) + code[p + |t|..] == code[..p + a] + r + code[p + e..]
  {
    assert code[..p] + t[..a] == code[..p + a];
    assert t[e..] + code[p + |t|..] == code[p + e..];
  }

  /** The only hit is the first match of its kind. */
  lemma OnlyHit(code: string, h: Hit)
    requires Hits(code) == [h]
    ensures HitIn(code, h) && Located(code, h) && NoMatchBetween(h.kind, code, 0, h.start)
  {
    var hf := Scan(FromClause, code, 0);
    if hf == [] {
      assert Scan(DynamicImport, code, 0) == [h];
    } else {
      assert hf[0] == h;
    }
  }

}
