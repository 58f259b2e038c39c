/** The route table of server/router.ts: `RouteEntry`, the specificity order of
    `sortRoutes`, and first-match lookup `matchRoute`. */
module Routes {
  import opened Wrappers
  import opened Text
  import opened Pattern
  import opened Matching
  import opened Sorting

  /** `RouteEntry`: the compiled matcher travels with the pattern it came from. */
  datatype Route = Route(
    pattern: string,
    regex: Regex,
    paramNames: seq<string>,
    pagePath: string,
    layoutPaths: seq<string>,
    loadingPath: Option<string>,
    errorPath: Option<string>,
    notFoundPath: Option<string>)

  /** A record as scanning builds it: matcher and names are `compilePattern`'s. */
  predicate WellCompiled(r: Route) {
    CompilePattern(r.pattern) == Compiled(r.regex, r.paramNames)
  }

  predicate WellCompiledTable(routes: seq<Route>) {
    forall i {:trigger WellCompiled(routes[i])} :: 0 <= i < |routes| ==> WellCompiled(routes[i])
  }

  // ---------------------------------------------------------------------------
  // sortRoutes

  /** The comparator of `sortRoutes`, on the two patterns (negative: `p`
      first). `localeCompare` is modelled as `StrCmp`, lexicographic order on
      Unicode scalar values. */
  function ComparePatterns(p: string, q: string): int {
    var a := SegmentTypes(p);
    var b := SegmentTypes(q);
    if a.hasCatchAll != b.hasCatchAll then (if a.hasCatchAll then 1 else -1)
    else if a.hasDynamic != b.hasDynamic then (if a.hasDynamic then 1 else -1)
    else if a.total != b.total then b.total - a.total
    else if a.staticCount != b.staticCount then b.staticCount - a.staticCount
    else StrCmp(p, q)
  }

  function Compare(a: Route, b: Route): int {
    ComparePatterns(a.pattern, b.pattern)
  }

  /** The specificity key, most significant first: no catch-all, then no
      dynamic segment, then more segments, then more literal segments. */
  predicate KeyBefore(p: string, q: string) {
    var a := SegmentTypes(p);
    var b := SegmentTypes(q);
    (!a.hasCatchAll && b.hasCatchAll)
    || (a.hasCatchAll == b.hasCatchAll && !a.hasDynamic && b.hasDynamic)
    || (a.hasCatchAll == b.hasCatchAll && a.hasDynamic == b.hasDynamic && a.total > b.total)
    || (a.hasCatchAll == b.hasCatchAll && a.hasDynamic == b.hasDynamic && a.total == b.total
        && a.staticCount > b.staticCount)
  }

  predicate KeyEqual(p: string, q: string) {
    SegmentTypes(p) == SegmentTypes(q)
  }

  /** The comparator puts `p` first exactly when its specificity key is
      smaller, or the keys tie and `p` is lexicographically smaller; it returns
      0 only for equal patterns. */
  lemma ComparePatternsIsKeyOrder(p: string, q: string)
    ensures ComparePatterns(p, q) < 0 <==> KeyBefore(p, q) || (KeyEqual(p, q) && StrCmp(p, q) < 0)
    ensures ComparePatterns(p, q) == 0 <==> p == q
  {
  }

  lemma ComparePatternsAntisymmetric(p: string, q: string)
    ensures ComparePatterns(p, q) < 0 <==> ComparePatterns(q, p) > 0
  {
    StrCmpAntisymmetric(p, q);
  }

  lemma ComparePatternsTransitive(p: string, q: string, r: string)
    requires ComparePatterns(p, q) <= 0 && ComparePatterns(q, r) <= 0
    ensures ComparePatterns(p, r) <= 0
  {
    var a, b, c := SegmentTypes(p), SegmentTypes(q), SegmentTypes(r);
    if a == b && b == c {
      StrCmpTransitive(p, q, r);
    }
  }

  /** `Compare` is a consistent comparator: a total preorder whose ties are
      exactly the routes with the same pattern. */
  lemma CompareIsTotalPreorder()
    ensures IsTotalPreorder(Compare)
    ensures forall a, b :: Compare(a, b) == 0 <==> a.pattern == b.pattern
  {
    forall a: Route, b: Route ensures Compare(a, b) < 0 <==> Compare(b, a) > 0 {
      ComparePatternsAntisymmetric(a.pattern, b.pattern);
    }
    forall a: Route, b: Route ensures Compare(a, b) == 0 <==> a.pattern == b.pattern {
      ComparePatternsIsKeyOrder(a.pattern, b.pattern);
    }
    forall a: Route, b: Route, c: Route | Chain(Compare, a, b, c) ensures Compare(a, c) <= 0 {
      ComparePatternsTransitive(a.pattern, b.pattern, c.pattern);
    }
  }

  /** `sortRoutes`: a stable sort (as `Array.prototype.sort` is) by `Compare`. */
  function SortRoutes(routes: seq<Route>): (r: seq<Route>)
    ensures multiset(r) == multiset(routes)
    ensures SortedBy(r, Compare)
  {
    CompareIsTotalPreorder();
    SortBySorted(routes, Compare);
    SortBy(routes, Compare)
  }

  /** The routes with pattern `p`, in table order. */
  function WithPattern(t: seq<Route>, p: string): (r: seq<Route>)
    ensures forall i :: 0 <= i < |r| ==> r[i].pattern == p
  {
    if |t| == 0 then []
    else (if t[0].pattern == p then [t[0]] else []) + WithPattern(t[1..], p)
  }

  lemma {:induction false} WithPatternIsEquivalentTo(t: seq<Route>, y: Route)
    ensures WithPattern(t, y.pattern) == EquivalentTo(t, y, Compare)
  {
    if |t| > 0 {
      WithPatternIsEquivalentTo(t[1..], y);
      ComparePatternsIsKeyOrder(t[0].pattern, y.pattern);
    }
  }

  /** Stability: routes sharing a pattern keep their discovery order. */
  lemma SortRoutesStable(routes: seq<Route>, y: Route)
    ensures WithPattern(SortRoutes(routes), y.pattern) == WithPattern(routes, y.pattern)
  {
    CompareIsTotalPreorder();
    SortByStable(routes, y, Compare);
    WithPatternIsEquivalentTo(routes, y);
    WithPatternIsEquivalentTo(SortRoutes(routes), y);
  }

  /** No two different records share a pattern. */
  predicate DistinctPatterns(t: seq<Route>) {
    forall x, y :: x in t && y in t && x.pattern == y.pattern ==> x == y
  }

  /** The table order depends on the records only, never on the order discovery
      produced them in, when no two records share a pattern. */
  lemma SortIgnoresInputOrder(a: seq<Route>, b: seq<Route>)
    requires multiset(a) == multiset(b)
    requires DistinctPatterns(a)
    ensures SortRoutes(a) == SortRoutes(b)
  {
    CompareIsTotalPreorder();
    SortByIgnoresInputOrder(a, b, Compare);
  }

  /** `/a/b`, `/a/[id]` and `/a/[...rest]` come out in that order whatever
      order they were discovered in. */
  lemma SpecificityExample(x: Route, y: Route, z: Route, routes: seq<Route>)
    requires x.pattern == "/a/b" && y.pattern == "/a/[id]" && z.pattern == "/a/[...rest]"
    requires multiset(routes) == multiset{x, y, z}
    ensures SortRoutes(routes) == [x, y, z]
  {
    ExampleOrder();
    CompareIsTotalPreorder();
    SortThree(x, y, z, routes, Compare);
  }

  lemma ExampleOrder()
    ensures ComparePatterns("/a/b", "/a/[id]") < 0
    ensures ComparePatterns("/a/[id]", "/a/[...rest]") < 0
    ensures ComparePatterns("/a/b", "/a/[...rest]") < 0
  {
    ExampleStats();
  }

  lemma ExampleStats()
    ensures SegmentTypes("/a/b") == SegStats(2, 2, false, false)
    ensures SegmentTypes("/a/[id]") == SegStats(2, 1, true, false)
    ensures SegmentTypes("/a/[...rest]") == SegStats(2, 1, false, true)
  {
    StaticExampleStats();
    DynamicExampleStats();
    CatchAllExampleStats();
  }

  lemma StaticExampleStats()
    ensures SegmentTypes("/a/b") == SegStats(2, 2, false, false)
  {
    RankByPrefix("a");
    RankByPrefix("b");
    TwoSegmentStats("/a/b", "a", "b");
  }

  lemma DynamicExampleStats()
    ensures SegmentTypes("/a/[id]") == SegStats(2, 1, true, false)
  {
    RankByPrefix("a");
    RankByPrefix("[id]");
    TwoSegmentStats("/a/[id]", "a", "[id]");
  }

  lemma CatchAllExampleStats()
    ensures SegmentTypes("/a/[...rest]") == SegStats(2, 1, false, true)
  {
    RankByPrefix("a");
    RankByPrefix("[...rest]");
    assert "[...rest]"[..4] == "[...";
    TwoSegmentStats("/a/[...rest]", "a", "[...rest]");
  }

  lemma TwoSegmentStats(p: string, u: string, v: string)
    requires u != "" && v != "" && '/' !in u && '/' !in v
    requires p == "/" + u + "/" + v
    ensures SegmentTypes(p) == SegStats(2,
      (if RankSeg(u) == RankStatic then 1 else 0) + (if RankSeg(v) == RankStatic then 1 else 0),
      RankSeg(u) == RankDynamic || RankSeg(v) == RankDynamic,
      RankSeg(u) == RankCatchAll || RankSeg(v) == RankCatchAll)
  {
    TwoSegments(u, v);
    TwoStats(u, v);
  }


  lemma TwoSegments(u: string, v: string)
    requires u != "" && v != "" && '/' !in u && '/' !in v
    ensures Segments("/" + u + "/" + v) == [u, v]
  {
    SegmentsOfPath([u, v]);
    assert Join([u, v], "/") == u + "/" + v;
    assert "/" + u + "/" + v == "/" + (u + "/" + v);
  }

  lemma TwoStats(u: string, v: string)
    ensures StatsOf([u, v]) == SegStats(2,
      (if RankSeg(u) == RankStatic then 1 else 0) + (if RankSeg(v) == RankStatic then 1 else 0),
      RankSeg(u) == RankDynamic || RankSeg(v) == RankDynamic,
      RankSeg(u) == RankCatchAll || RankSeg(v) == RankCatchAll)
  {
    assert [u, v][1..] == [v];
    assert [v][1..] == [];
    assert CountRank([v], RankStatic) == (if RankSeg(v) == RankStatic then 1 else 0);
    assert CountRank([v], RankDynamic) == (if RankSeg(v) == RankDynamic then 1 else 0);
    assert CountRank([v], RankCatchAll) == (if RankSeg(v) == RankCatchAll then 1 else 0);
  }


  // ---------------------------------------------------------------------------
  // matchRoute

  /** The values of the capture groups: those of the non-literal segments. */
  function Captures(segs: seq<Seg>, vs: seq<string>): (r: seq<string>)
    requires |vs| == |segs|
    ensures |r| == |ParamNames(segs)|
  {
    if |segs| == 0 then []
    else if segs[0].Static? then Captures(segs[1..], vs[1..])
    else [vs[0]] + Captures(segs[1..], vs[1..])
  }

  /** `params[k] = v` on a plain object `{}` with `k == "__proto__"` runs the
      setter inherited from `Object.prototype`, which ignores a string value:
      no own key is created. Every other word-character name becomes a key. */
  const ProtoKey: string := "__proto__"

  /** The `params` object: `params[names[i]] = values[i]` for i ascending. */
  function BuildParams(names: seq<string>, values: seq<string>): map<string, string>
    requires |names| == |values|
  {
    if |names| == 0 then map[]
    else
      var m := BuildParams(names[..|names| - 1], values[..|values| - 1]);
      var k := names[|names| - 1];
      if k == ProtoKey then m else m[k := values[|values| - 1]]
  }

  /** The keys are exactly the names other than `__proto__`. Such a name maps
      to the value of its last occurrence; with distinct names
      `params[names[i]]` is `values[i]`. */
  lemma BuildParamsLookup(names: seq<string>, values: seq<string>)
    requires |names| == |values|
    ensures BuildParams(names, values).Keys == set i | 0 <= i < |names| && names[i] != ProtoKey :: names[i]
    ensures ProtoKey !in BuildParams(names, values)
    ensures forall i :: 0 <= i < |names| && names[i] != ProtoKey && (forall j :: i < j < |names| ==> names[j] != names[i])
              ==> BuildParams(names, values)[names[i]] == values[i]
  {
    BuildParamsKeys(names, values);
    forall i | 0 <= i < |names| && names[i] != ProtoKey && (forall j :: i < j < |names| ==> names[j] != names[i])
      ensures BuildParams(names, values)[names[i]] == values[i]
    {
      BuildParamsLast(names, values, i);
    }
  }

  lemma {:induction false} BuildParamsKeys(names: seq<string>, values: seq<string>)
    requires |names| == |values|
    ensures BuildParams(names, values).Keys == set i | 0 <= i < |names| && names[i] != ProtoKey :: names[i]
  {
    if |names| > 0 {
      var n := |names| - 1;
      BuildParamsKeys(names[..n], values[..n]);
      assert forall i :: 0 <= i < n ==> names[..n][i] == names[i];
      if names[n] == ProtoKey {
        assert (set i | 0 <= i < |names| && names[i] != ProtoKey :: names[i])
          == (set i | 0 <= i < n && names[i] != ProtoKey :: names[i]);
      } else {
        assert (set i | 0 <= i < |names| && names[i] != ProtoKey :: names[i])
          == (set i | 0 <= i < n && names[i] != ProtoKey :: names[i]) + {names[n]};
      }
    }
  }

  /** A name other than `__proto__` that does not occur again later maps to
      its own value. */
  lemma {:induction false} BuildParamsLast(names: seq<string>, values: seq<string>, i: nat)
    requires |names| == |values| && i < |names| && names[i] != ProtoKey
    requires forall j :: i < j < |names| ==> names[j] != names[i]
    ensures names[i] in BuildParams(names, values) && BuildParams(names, values)[names[i]] == values[i]
  {
    var n := |names| - 1;
    if i < n {
      assert names[..n][i] == names[i] && values[..n][i] == values[i];
      BuildParamsLast(names[..n], values[..n], i);
    }
  }

  /** The position of the `i`-th capture group among the segments. */
  function CaptureIndex(segs: seq<Seg>, i: nat): (j: nat)
    requires i < |ParamNames(segs)|
    ensures j < |segs| && !segs[j].Static? && segs[j].name == ParamNames(segs)[i]
  {
    if segs[0].Static? then 1 + CaptureIndex(segs[1..], i)
    else if i == 0 then 0
    else 1 + CaptureIndex(segs[1..], i - 1)
  }

  /** The `i`-th capture is the value of the `i`-th non-literal segment. */
  lemma {:induction false} CapturesAt(segs: seq<Seg>, vs: seq<string>, i: nat)
    requires |vs| == |segs| && i < |ParamNames(segs)|
    ensures Captures(segs, vs)[i] == vs[CaptureIndex(segs, i)]
  {
    if segs[0].Static? {
      CapturesAt(segs[1..], vs[1..], i);
    } else if i > 0 {
      CapturesAt(segs[1..], vs[1..], i - 1);
    }
  }

  /** `params[paramNames[i]]` is the value the path gives the segment that
      declares `paramNames[i]`, whenever no later segment reuses the name and
      the name is not `__proto__` (which never becomes a key); a `[name]`
      value is therefore one non-empty, slash-free piece of the path. */
  lemma ParamsOfCapture(r: Route, path: string, i: nat)
    requires WellCompiled(r) && RouteMatches(r, path) && i < |r.paramNames|
    requires forall j :: i < j < |r.paramNames| ==> r.paramNames[j] != r.paramNames[i]
    ensures var vs := MatchRegex(r.regex, path).value;
      var k := CaptureIndex(r.regex.segs, i);
      && (r.paramNames[i] != ProtoKey ==>
            r.paramNames[i] in ParamsOf(r, path) && ParamsOf(r, path)[r.paramNames[i]] == vs[k])
      && ProtoKey !in ParamsOf(r, path)
      && Fits(r.regex.segs[k], vs[k])
  {
    var vs := MatchRegex(r.regex, path).value;
    MatchRegexSound(r.regex, path);
    CapturesAt(r.regex.segs, vs, i);
    BuildParamsLookup(r.paramNames, Captures(r.regex.segs, vs));
    if r.paramNames[i] != ProtoKey {
      BuildParamsLast(r.paramNames, Captures(r.regex.segs, vs), i);
    }
  }

  /** For `/[__proto__]` on `/x` the segment is a capture, yet `params` is
      empty. */
  lemma ProtoParamIsDropped()
    ensures DynamicName("[__proto__]") == Some(ProtoKey)
    ensures BuildParams([ProtoKey], ["x"]) == map[]
  {
    assert IsWordName(ProtoKey);
    assert "[__proto__]" == "[" + ProtoKey + "]";
    DynamicNameComplete(ProtoKey);
  }

  /** What `matchRoute` returns. */
  datatype RouteMatch = RouteMatch(route: Route, params: map<string, string>)

  predicate RouteMatches(r: Route, path: string) {
    MatchRegex(r.regex, path).Some?
  }

  /** Params of a successful match: names zipped with the capture groups. */
  function ParamsOf(r: Route, path: string): map<string, string>
    requires WellCompiled(r) && RouteMatches(r, path)
  {
    var vs := MatchRegex(r.regex, path).value;
    BuildParams(r.paramNames, Captures(r.regex.segs, vs))
  }

  /** Index of the first route whose regex accepts the path. */
  function FirstMatch(path: string, routes: seq<Route>): (r: Option<nat>)
    ensures r.Some? ==> r.value < |routes| && RouteMatches(routes[r.value], path)
    ensures r.Some? ==> forall j :: 0 <= j < r.value ==> !RouteMatches(routes[j], path)
    ensures r.None? <==> forall j :: 0 <= j < |routes| ==> !RouteMatches(routes[j], path)
  {
    if |routes| == 0 then None
    else if RouteMatches(routes[0], path) then Some(0)
    else
      match FirstMatch(path, routes[1..])
      case None => None
      case Some(k) =>
        assert forall j :: 1 <= j <= k ==> routes[j] == routes[1..][j - 1];
        Some(k + 1)
  }

  /** `routes[i]` is the first route accepting `path`, and `m` is it with the
      parameters of that match. */
  predicate AnswersAt(path: string, routes: seq<Route>, i: int, m: RouteMatch)
    requires WellCompiledTable(routes)
  {
    && 0 <= i < |routes| && m.route == routes[i] && RouteMatches(routes[i], path)
    && (forall j :: 0 <= j < i ==> !RouteMatches(routes[j], path))
    && m.params == ParamsOf(routes[i], path)
  }

  /** `matchRoute` (server): the first route in table order whose regex
      matches, with its parameters; None when none matches. */
  function MatchRoute(path: string, routes: seq<Route>): (m: Option<RouteMatch>)
    requires WellCompiledTable(routes)
    ensures m.None? <==> forall j :: 0 <= j < |routes| ==> !RouteMatches(routes[j], path)
    ensures m.Some? ==> exists i :: AnswersAt(path, routes, i, m.value)
  {
    match FirstMatch(path, routes)
    case None => None
    case Some(i) =>
      var m := RouteMatch(routes[i], ParamsOf(routes[i], path));
      assert AnswersAt(path, routes, i, m);
      Some(m)
  }

  // ---------------------------------------------------------------------------
  // what a compiled route accepts

  /** A pattern none of whose segments starts with `[`. */
  predicate RankedStatic(pattern: string) {
    var st := SegmentTypes(pattern);
    !st.hasDynamic && !st.hasCatchAll
  }

  /** A pattern in the form scanning produces: "/" + its segments joined. */
  predicate Canonical(pattern: string) {
    pattern == "/" + Join(Segments(pattern), "/")
  }

  /** A route ranked static compiles to literals only. */
  lemma RankedStaticCompilesToLiterals(pattern: string)
    requires RankedStatic(pattern)
    ensures forall i :: 0 <= i < |CompilePattern(pattern).regex.segs| ==>
      CompilePattern(pattern).regex.segs[i] == Static(Segments(pattern)[i])
  {
    var segs := CompilePattern(pattern).regex.segs;
    forall i | 0 <= i < |segs| ensures segs[i] == Static(Segments(pattern)[i]) {
      var seg := Segments(pattern)[i];
      assert RankSeg(seg) == RankStatic;
      CaptureIsRankedAsCapture(seg);
    }
  }

  /** A canonical pattern ranked static accepts exactly the path equal to the
      pattern: regex metacharacters in it are matched literally, and no
      trailing-slash normalisation takes place. */
  lemma StaticPatternMatchesOnlyItself(pattern: string, path: string)
    requires RankedStatic(pattern) && Canonical(pattern)
    ensures MatchRegex(CompilePattern(pattern).regex, path).Some? <==> path == pattern
  {
    var re := CompilePattern(pattern).regex;
    RankedStaticCompilesToLiterals(pattern);
    StaticSegsMatchOnlyTheirText(re.segs, path);
    assert Texts(re.segs) == Segments(pattern);
    MatchRegexSourceIndependent(re, path);
  }

  /** Matching depends on the segment list only. */
  lemma MatchRegexSourceIndependent(re: Regex, path: string)
    ensures MatchRegex(re, path) == MatchRegex(Regex("", re.segs), path)
  {
  }

  /** The root pattern matches only "/", and `/blog` does not match `/blog/`. */
  lemma RootAndTrailingSlash()
    ensures forall path :: MatchRegex(CompilePattern("/").regex, path).Some? <==> path == "/"
    ensures MatchRegex(CompilePattern("/blog").regex, "/blog").Some?
    ensures MatchRegex(CompilePattern("/blog").regex, "/blog/").None?
  {
    RootMatchesOnlyRoot();
    BlogIsStatic();
    StaticPatternMatchesOnlyItself("/blog", "/blog");
    StaticPatternMatchesOnlyItself("/blog", "/blog/");
  }

  lemma RootMatchesOnlyRoot()
    ensures forall path :: MatchRegex(CompilePattern("/").regex, path).Some? <==> path == "/"
  {
  }

  lemma BlogIsStatic()
    ensures RankedStatic("/blog") && Canonical("/blog")
  {
    assert Segments("/blog") == ["blog"] by { SegmentsOfPath(["blog"]); }
    assert RankSeg("blog") == RankStatic;
  }

  /** On a sorted table, a path accepted by a route ranked static is answered
      by a route ranked static: no dynamic or catch-all route can shadow it. */
  lemma StaticRouteWins(path: string, routes: seq<Route>, k: nat)
    requires WellCompiledTable(routes) && SortedBy(routes, Compare)
    requires k < |routes| && RankedStatic(routes[k].pattern) && RouteMatches(routes[k], path)
    ensures MatchRoute(path, routes).Some?
    ensures RankedStatic(MatchRoute(path, routes).value.route.pattern)
  {
    var i := FirstMatch(path, routes).value;
    assert i <= k;
    if i < k {
      assert Compare(routes[i], routes[k]) <= 0;
    }
  }

  /** A `[foo-bar]` segment is compiled as a literal (no parameter) while the
      ordering ranks the route as dynamic. */
  lemma HyphenatedParamIsLiteralButRankedDynamic()
    ensures CompilePattern("/a/[foo-bar]").regex.segs == [Static("a"), Static("[foo-bar]")]
    ensures CompilePattern("/a/[foo-bar]").paramNames == []
    ensures SegmentTypes("/a/[foo-bar]").hasDynamic
  {
    HyphenatedCompiles();
    HyphenatedStats();
  }

  lemma HyphenatedPieces()
    ensures "a" != "" && "[foo-bar]" != "" && '/' !in "a" && '/' !in "[foo-bar]"
    ensures "/a/[foo-bar]" == "/" + "a" + "/" + "[foo-bar]"
  {
  }

  lemma HyphenatedCompiles()
    ensures CompilePattern("/a/[foo-bar]").regex.segs == [Static("a"), Static("[foo-bar]")]
    ensures CompilePattern("/a/[foo-bar]").paramNames == []
  {
    HyphenatedPieces();
    RankDivergesFromCompile();
    ClassifyUnbracketed("a");
    TwoLiteralsCompile("/a/[foo-bar]", "a", "[foo-bar]");
  }

  lemma HyphenatedStats()
    ensures SegmentTypes("/a/[foo-bar]").hasDynamic
  {
    HyphenatedPieces();
    RankByPrefix("a");
    RankByPrefix("[foo-bar]");
    TwoSegmentStats("/a/[foo-bar]", "a", "[foo-bar]");
  }

  lemma TwoLiteralsCompile(p: string, u: string, v: string)
    requires u != "" && v != "" && '/' !in u && '/' !in v
    requires p == "/" + u + "/" + v
    requires ClassifySeg(u) == Static(u) && ClassifySeg(v) == Static(v)
    ensures CompilePattern(p).regex.segs == [Static(u), Static(v)]
    ensures CompilePattern(p).paramNames == []
  {
    TwoSegments(u, v);
    assert p != "/" by { assert |p| > 1; }
    var segs := ClassifyAll([u, v]);
    assert segs == [Static(u), Static(v)];
    assert segs[1..] == [Static(v)] && segs[1..][1..] == [];
    assert ParamNames(segs[1..][1..]) == [];
    assert ParamNames(segs[1..]) == [];
  }
}
