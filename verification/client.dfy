/** Client-side route matching of client/router.tsx: the route table as the
    browser receives it from `/__routes`, the client's own copy of
    `compilePattern`, `matchRoute` recompiling from the pattern, and
    `findNotFoundPath`. */
module Client {
  import opened Wrappers
  import opened Text
  import opened Pattern
  import opened Matching
  import opened Routes

  /** `ClientRoute`: a route record without its compiled regex. */
  datatype ClientRoute = ClientRoute(
    pattern: string,
    pagePath: string,
    layoutPaths: seq<string>,
    paramNames: seq<string>,
    loadingPath: Option<string>,
    errorPath: Option<string>,
    notFoundPath: Option<string>)

  /** The `/__routes` projection: every field but `regex`. */
  function ToClient(r: Route): (c: ClientRoute)
    ensures c.pattern == r.pattern && c.paramNames == r.paramNames && c.pagePath == r.pagePath
    ensures c.layoutPaths == r.layoutPaths
    ensures c.loadingPath == r.loadingPath && c.errorPath == r.errorPath && c.notFoundPath == r.notFoundPath
  {
    ClientRoute(r.pattern, r.pagePath, r.layoutPaths, r.paramNames, r.loadingPath, r.errorPath, r.notFoundPath)
  }

  /** The route as the client rebuilds it: the matcher recompiled from the
      pattern, every other field as received. */
  function FromClient(c: ClientRoute): (r: Route)
    ensures WellCompiled(r) <==> CompilePattern(c.pattern).paramNames == c.paramNames
  {
    var compiled := CompilePattern(c.pattern);
    Route(c.pattern, compiled.regex, c.paramNames, c.pagePath, c.layoutPaths,
      c.loadingPath, c.errorPath, c.notFoundPath)
  }

  /** Dropping the matcher loses nothing: for a route whose matcher is its
      pattern's compilation, recompiling on the client gives the route back. */
  lemma ToClientRoundTrip(r: Route)
    requires WellCompiled(r)
    ensures FromClient(ToClient(r)) == r
  {
  }

  /** The route table as served by `/__routes`, in table order. */
  function ToClientTable(routes: seq<Route>): (t: seq<ClientRoute>)
    ensures |t| == |routes|
    ensures forall i :: 0 <= i < |routes| ==> t[i] == ToClient(routes[i])
  {
    if |routes| == 0 then [] else [ToClient(routes[0])] + ToClientTable(routes[1..])
  }

  lemma ParamNamesSnoc(segs: seq<Seg>, s: Seg)
    ensures ParamNames(segs + [s]) == ParamNames(segs) + (if s.Static? then [] else [s.name])
  {
    if |segs| > 0 {
      assert (segs + [s])[1..] == segs[1..] + [s];
      ParamNamesSnoc(segs[1..], s);
    } else {
      assert [s][1..] == [];
    }
  }

  lemma RegexPartsSnoc(segs: seq<Seg>, s: Seg)
    ensures RegexParts(segs + [s]) == RegexParts(segs) + [RegexPart(s)]
  {
  }

  lemma ClassifyAllSnoc(segments: seq<string>, i: nat)
    requires i < |segments|
    ensures ClassifyAll(segments[..i + 1]) == ClassifyAll(segments[..i]) + [ClassifySeg(segments[i])]
  {
    var a := ClassifyAll(segments[..i + 1]);
    var b := ClassifyAll(segments[..i]) + [ClassifySeg(segments[i])];
    forall k | 0 <= k < i + 1 ensures a[k] == b[k] {
      if k < i {
        assert segments[..i + 1][k] == segments[..i][k];
      }
    }
  }

  /** One turn of the client's loop: the catch-all form first, then the
      dynamic form, else a literal; with the regex piece and the capture name
      it contributes. */
  method ReadSegment(seg: string) returns (s: Seg, part: string, name: seq<string>)
    ensures s == ClassifySeg(seg)
    ensures part == RegexPart(s)
    ensures name == if s.Static? then [] else [s.name]
  {
    match CatchAllName(seg) {
      case Some(n) =>
        name := [n];
        part := "(.+)";
        s := CatchAll(n);
      case None =>
        match DynamicName(seg) {
          case Some(n) =>
            name := [n];
            part := "([^/]+)";
            s := Dyn(n);
          case None =>
            name := [];
            part := EscapeRegex(seg);
            s := Static(seg);
        }
    }
  }

  /** The client's `compilePattern`, written as its loop: it yields exactly
      the matcher and parameter names the server's `compilePattern` does. */
  method ClientCompilePattern(pattern: string) returns (c: Compiled)
    ensures c == CompilePattern(pattern)
  {
    if pattern == "/" {
      return Compiled(Regex(RootSource, []), []);
    }
    var segments := Segments(pattern);
    var names: seq<string> := [];
    var parts: seq<string> := [];
    var segs: seq<Seg> := [];
    for i := 0 to |segments|
      invariant segs == ClassifyAll(segments[..i])
      invariant parts == RegexParts(segs)
      invariant names == ParamNames(segs)
    {
      var s, part, name := ReadSegment(segments[i]);
      names := names + name;
      parts := parts + [part];
      ParamNamesSnoc(segs, s);
      RegexPartsSnoc(segs, s);
      ClassifyAllSnoc(segments, i);
      segs := segs + [s];
    }
    assert segments[..|segments|] == segments;
    c := Compiled(Regex("^/" + Join(parts, "/") + "$", segs), names);
  }

  /** What the client `matchRoute` returns. */
  datatype ClientMatch = ClientMatch(route: ClientRoute, params: map<string, string>)

  /** Whether the regex recompiled from a client route's pattern accepts the path. */
  predicate ClientMatches(r: ClientRoute, path: string) {
    MatchRegex(CompilePattern(r.pattern).regex, path).Some?
  }

  /** Params of a successful client match, with the recompiled names. */
  function ClientParams(r: ClientRoute, path: string): map<string, string>
    requires ClientMatches(r, path)
  {
    var c := CompilePattern(r.pattern);
    BuildParams(c.paramNames, Captures(c.regex.segs, MatchRegex(c.regex, path).value))
  }

  /** `routes[i]` is the first route whose recompiled regex accepts `path`. */
  predicate FirstClientMatch(routes: seq<ClientRoute>, path: string, i: int) {
    0 <= i < |routes| && ClientMatches(routes[i], path)
    && forall j :: 0 <= j < i ==> !ClientMatches(routes[j], path)
  }

  /** Index of the first route whose recompiled regex accepts the path: the
      client's loop over the table. */
  function ClientFirstMatch(path: string, routes: seq<ClientRoute>): (r: Option<nat>)
    ensures r.Some? ==> r.value < |routes|
  {
    if |routes| == 0 then None
    else if ClientMatches(routes[0], path) then Some(0)
    else
      match ClientFirstMatch(path, routes[1..])
      case None => None
      case Some(k) => Some(k + 1)
  }

  /** `ClientFirstMatch` finds the first accepting route, and none exactly
      when no route accepts. */
  lemma {:induction false} ClientFirstMatchIsFirst(path: string, routes: seq<ClientRoute>)
    ensures var r := ClientFirstMatch(path, routes);
      (r.Some? ==> FirstClientMatch(routes, path, r.value))
      && (r.None? <==> forall j :: 0 <= j < |routes| ==> !ClientMatches(routes[j], path))
    decreases |routes|
  {
    if |routes| > 0 && !ClientMatches(routes[0], path) {
      ClientFirstMatchIsFirst(path, routes[1..]);
      assert forall j :: 1 <= j < |routes| ==> routes[j] == routes[1..][j - 1];
    }
  }

  /** The client `matchRoute`: the first route in table order whose
      recompiled regex matches, with its parameters. */
  function ClientMatchRoute(path: string, routes: seq<ClientRoute>): (m: Option<ClientMatch>)
    ensures m.None? <==> forall j :: 0 <= j < |routes| ==> !ClientMatches(routes[j], path)
    ensures m.Some? ==> exists i :: FirstClientMatch(routes, path, i) && m.value.route == routes[i]
    ensures m.Some? ==> ClientMatches(m.value.route, path) && m.value.params == ClientParams(m.value.route, path)
  {
    ClientFirstMatchIsFirst(path, routes);
    match ClientFirstMatch(path, routes)
    case None => None
    case Some(i) => Some(ClientMatch(routes[i], ClientParams(routes[i], path)))
  }

  /** The server's answer as the client sees it. */
  function ToClientMatch(m: Option<RouteMatch>): Option<ClientMatch> {
    match m
    case None => None
    case Some(rm) => Some(ClientMatch(ToClient(rm.route), rm.params))
  }

  /** Server/client agreement: for every path, the client matching the served
      table answers with the route and params the server matches on the
      original table. */
  lemma ClientAgreesWithServer(path: string, routes: seq<Route>)
    requires WellCompiledTable(routes)
    ensures ClientMatchRoute(path, ToClientTable(routes)) == ToClientMatch(MatchRoute(path, routes))
  {
    var t := ToClientTable(routes);
    FirstMatchAgrees(path, routes);
    MatchRouteAt(path, routes);
    match FirstMatch(path, routes) {
      case None =>
      case Some(i) =>
        assert WellCompiled(routes[i]);
        RecompiledRouteAgrees(routes[i], path);
        assert ClientMatchRoute(path, t) == Some(ClientMatch(t[i], ClientParams(t[i], path)));
    }
  }

  /** A well-compiled route accepts the same paths, with the same params,
      once its regex is dropped and recompiled from its pattern. */
  lemma RecompiledRouteAgrees(r: Route, path: string)
    requires WellCompiled(r)
    ensures ClientMatches(ToClient(r), path) == RouteMatches(r, path)
    ensures RouteMatches(r, path) ==> ClientParams(ToClient(r), path) == ParamsOf(r, path)
  {
  }

  /** The client finds its first match at the same index as the server. */
  lemma {:induction false} FirstMatchAgrees(path: string, routes: seq<Route>)
    requires WellCompiledTable(routes)
    ensures ClientFirstMatch(path, ToClientTable(routes)) == FirstMatch(path, routes)
    decreases |routes|
  {
    if |routes| > 0 {
      var t := ToClientTable(routes);
      assert t[1..] == ToClientTable(routes[1..]);
      assert WellCompiled(routes[0]);
      RecompiledRouteAgrees(routes[0], path);
      TableTail(routes);
      FirstMatchAgrees(path, routes[1..]);
    }
  }

  lemma TableTail(routes: seq<Route>)
    requires WellCompiledTable(routes) && |routes| > 0
    ensures WellCompiledTable(routes[1..])
  {
    assert forall j :: 0 <= j < |routes| - 1 ==> routes[1..][j] == routes[j + 1];
    assert forall j :: 0 <= j < |routes| - 1 ==> WellCompiled(routes[1..][j]);
  }

  /** `matchRoute` answers with the route `FirstMatch` finds. */
  lemma MatchRouteAt(path: string, routes: seq<Route>)
    requires WellCompiledTable(routes)
    ensures FirstMatch(path, routes).None? ==> MatchRoute(path, routes).None?
    ensures FirstMatch(path, routes).Some? ==>
      var i := FirstMatch(path, routes).value;
      MatchRoute(path, routes) == Some(RouteMatch(routes[i], ParamsOf(routes[i], path)))
  {
  }

  /** `routes[i]` is the first route carrying a non-empty `notFoundPath`. */
  predicate FirstWithNotFound(routes: seq<ClientRoute>, i: int) {
    0 <= i < |routes| && Truthy(routes[i].notFoundPath)
    && forall j :: 0 <= j < i ==> !Truthy(routes[j].notFoundPath)
  }

  /** `findNotFoundPath`: the first non-empty `notFoundPath` in table order. */
  function FindNotFoundPath(routes: seq<ClientRoute>): (r: Option<string>)
    ensures r.None? <==> forall i :: 0 <= i < |routes| ==> !Truthy(routes[i].notFoundPath)
    ensures r.Some? ==> Truthy(r)
    ensures r.Some? ==> exists i :: FirstWithNotFound(routes, i) && routes[i].notFoundPath == r
  {
    if |routes| == 0 then None
    else if Truthy(routes[0].notFoundPath) then
      assert FirstWithNotFound(routes, 0);
      routes[0].notFoundPath
    else
      var r := FindNotFoundPath(routes[1..]);
      assert forall j :: 1 <= j < |routes| ==> routes[j] == routes[1..][j - 1];
      if r.Some? then
        var i :| FirstWithNotFound(routes[1..], i) && routes[1..][i].notFoundPath == r;
        assert FirstWithNotFound(routes, i + 1);
        r
      else r
  }
}
