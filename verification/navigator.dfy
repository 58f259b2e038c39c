/** The client navigator of client/router.tsx as explicit state transitions:
    `loadRouteModules`, `resolve`, the route-table fetch, `navigate`, the
    popstate listener and the render-precedence branch of `Router`. Dynamic
    `import()` is a parameter giving the outcome per module path. */
module Navigator {
  import opened Wrappers
  import opened Client
  import opened Layout
  import opened Text
  import opened Pattern
  import opened Matching
  import opened Routes

  /** The outcome of `import(path)`. */
  datatype Import = Imported | ImportFailed(message: string)

  /** `LoadedRoute`. */
  datatype Loaded = Loaded(
    page: Component,
    layouts: seq<Component>,
    params: map<string, string>,
    loading: Option<Component>,
    error: Option<Component>)

  /** The `Router` state: `routes`, `loaded`, `notFound`,
      `notFoundComponent`, `error`. */
  datatype State = State(
    routes: Option<seq<ClientRoute>>,
    loaded: Option<Loaded>,
    notFound: bool,
    notFoundComponent: Option<Component>,
    error: Option<string>)

  function Initial(): State {
    State(None, None, false, None, None)
  }

  // ---------------------------------------------------------------------------
  // loadRouteModules

  /** The message of the first failing import, in array order. */
  function FirstFailure(paths: seq<string>, imp: string -> Import): (r: Option<string>)
    ensures r.None? <==> forall i :: 0 <= i < |paths| ==> imp(paths[i]).Imported?
    ensures r.Some? ==> exists i :: 0 <= i < |paths| && imp(paths[i]) == ImportFailed(r.value)
  {
    if |paths| == 0 then None
    else if imp(paths[0]).ImportFailed? then Some(imp(paths[0]).message)
    else
      var r := FirstFailure(paths[1..], imp);
      assert forall i :: 1 <= i < |paths| ==> paths[i] == paths[1..][i - 1];
      r
  }

  /** The boundary paths that are imported: the non-empty ones. */
  function BoundaryPaths(r: ClientRoute): seq<string> {
    (if Truthy(r.loadingPath) then [r.loadingPath.value] else [])
    + (if Truthy(r.errorPath) then [r.errorPath.value] else [])
  }

  function Components(paths: seq<string>): (cs: seq<Component>)
    ensures |cs| == |paths|
    ensures forall i :: 0 <= i < |paths| ==> cs[i] == Default(paths[i])
  {
    if |paths| == 0 then [] else [Default(paths[0])] + Components(paths[1..])
  }

  function OptionalComponent(p: Option<string>): Option<Component> {
    if Truthy(p) then Some(Default(p.value)) else None
  }

  /** `loadRouteModules`: the page and layouts are imported together, then
      the loading and error components when their paths are non-empty; any
      failing import fails the whole load. */
  function LoadRouteModules(m: ClientMatch, imp: string -> Import): (r: Result<Loaded, string>)
    ensures r.Ok? <==> (forall i :: 0 <= i < |[m.route.pagePath] + m.route.layoutPaths| ==>
                          imp(([m.route.pagePath] + m.route.layoutPaths)[i]).Imported?)
                       && (forall i :: 0 <= i < |BoundaryPaths(m.route)| ==> imp(BoundaryPaths(m.route)[i]).Imported?)
    ensures r.Ok? ==> r.value.page == Default(m.route.pagePath) && r.value.params == m.params
    ensures r.Ok? ==> |r.value.layouts| == |m.route.layoutPaths|
    ensures r.Ok? ==> forall i :: 0 <= i < |m.route.layoutPaths| ==> r.value.layouts[i] == Default(m.route.layoutPaths[i])
    ensures r.Ok? ==> (r.value.loading.Some? <==> Truthy(m.route.loadingPath))
    ensures r.Ok? ==> (r.value.error.Some? <==> Truthy(m.route.errorPath))
  {
    match FirstFailure([m.route.pagePath] + m.route.layoutPaths, imp)
    case Some(msg) => Err(msg)
    case None =>
      match FirstFailure(BoundaryPaths(m.route), imp)
      case Some(msg) => Err(msg)
      case None =>
        Ok(Loaded(Default(m.route.pagePath), Components(m.route.layoutPaths), m.params,
                  OptionalComponent(m.route.loadingPath), OptionalComponent(m.route.errorPath)))
  }

  // ---------------------------------------------------------------------------
  // resolve

  /** `err.message || "Failed to load page"`. */
  function LoadErrorMessage(message: string): (r: string)
    ensures r != ""
    ensures message != "" ==> r == message
  {
    if message == "" then "Failed to load page" else message
  }

  /** `resolve(pathname, routeTable)` run to completion. */
  function Resolve(s: State, path: string, table: seq<ClientRoute>, imp: string -> Import): State {
    var s1 := s.(notFound := false, error := None);
    match ClientMatchRoute(path, table)
    case None =>
      var s2 := s1.(notFound := true, loaded := None);
      (match FindNotFoundPath(table)
       case None => s2
       case Some(nf) => s2.(notFoundComponent := if imp(nf).Imported? then Some(Default(nf)) else None))
    case Some(m) =>
      match LoadRouteModules(m, imp)
      case Ok(l) => s1.(loaded := Some(l))
      case Err(msg) => s1.(error := Some(LoadErrorMessage(msg)))
  }

  /** What `resolve` leaves behind, case by case: on no match the 404 state
      with the custom component installed only when it imports; on a match
      the loaded route, or an error with the previous `loaded` kept. */
  lemma ResolveOutcome(s: State, path: string, table: seq<ClientRoute>, imp: string -> Import)
    ensures var r := Resolve(s, path, table, imp);
      && r.routes == s.routes
      && (r.notFound <==> ClientMatchRoute(path, table).None?)
      && (r.notFound ==> r.loaded.None? && r.error.None?)
      && (r.notFound && FindNotFoundPath(table).Some? ==>
            (r.notFoundComponent.Some? <==> imp(FindNotFoundPath(table).value).Imported?))
      && (r.notFound && FindNotFoundPath(table).None? ==> r.notFoundComponent == s.notFoundComponent)
      && (!r.notFound ==> r.notFoundComponent == s.notFoundComponent)
      && (!r.notFound ==> (r.error.None? <==> LoadRouteModules(ClientMatchRoute(path, table).value, imp).Ok?))
      && (!r.notFound && r.error.None? ==> r.loaded == Some(LoadRouteModules(ClientMatchRoute(path, table).value, imp).value))
      && (!r.notFound && r.error.Some? ==> r.loaded == s.loaded && r.error.value != "")
      && (!r.notFound && r.error.Some? ==>
            r.error.value == LoadErrorMessage(LoadRouteModules(ClientMatchRoute(path, table).value, imp).error))
  {
  }

  /** Resolving the same path twice in a row changes nothing the second time. */
  lemma ResolveIdempotent(s: State, path: string, table: seq<ClientRoute>, imp: string -> Import)
    ensures Resolve(Resolve(s, path, table, imp), path, table, imp) == Resolve(s, path, table, imp)
  {
  }

  // ---------------------------------------------------------------------------
  // effects: the route-table fetch, navigate, popstate

  /** The outcome of fetching and decoding `/__routes`. */
  datatype Fetch = Fetched(routes: seq<ClientRoute>) | FetchFailed

  /** The mount effect's completion: store the table and resolve the current
      location, or record the failure; nothing once the effect is cancelled. */
  function FetchDone(s: State, f: Fetch, cancelled: bool, location: string, imp: string -> Import): State {
    if cancelled then s
    else match f
      case Fetched(rs) => Resolve(s.(routes := Some(rs)), location, rs, imp)
      case FetchFailed => s.(error := Some("Failed to fetch route table"))
  }

  /** A cancelled effect changes nothing; otherwise a failed fetch shows the
      error view with its fixed message, and a fetched table is stored and the
      current location is resolved against it. */
  lemma FetchOutcome(s: State, f: Fetch, cancelled: bool, location: string, imp: string -> Import)
    ensures cancelled ==> FetchDone(s, f, cancelled, location, imp) == s
    ensures !cancelled && f.FetchFailed? ==>
      Render(FetchDone(s, f, cancelled, location, imp)) == ErrorView("Failed to fetch route table")
    ensures !cancelled && f.Fetched? ==>
      var r := FetchDone(s, f, cancelled, location, imp);
      r.routes == Some(f.routes) && (r.notFound <==> ClientMatchRoute(location, f.routes).None?)
  {
    if !cancelled && f.Fetched? {
      ResolveOutcome(s.(routes := Some(f.routes)), location, f.routes, imp);
    }
  }

  /** The navigator together with the history entries it pushed. */
  datatype Nav = Nav(state: State, history: seq<string>)

  /** `navigate(href)`: nothing until the route table is loaded; afterwards
      the href is pushed onto the history and resolved as given. */
  function Navigate(n: Nav, href: string, imp: string -> Import): Nav {
    match n.state.routes
    case None => n
    case Some(rs) => Nav(Resolve(n.state, href, rs, imp), n.history + [href])
  }

  /** The popstate listener: resolve the location's pathname once the table is
      loaded (before that, no listener is registered). */
  function PopState(s: State, pathname: string, imp: string -> Import): State {
    match s.routes
    case None => s
    case Some(rs) => Resolve(s, pathname, rs, imp)
  }

  lemma NavigateBeforeRoutes(n: Nav, href: string, imp: string -> Import)
    requires n.state.routes.None?
    ensures Navigate(n, href, imp) == n
  {
  }

  /** Before the table loads no listener exists, so a popstate changes
      nothing; afterwards it keeps the table and shows the 404 exactly when no
      route matches the pathname. */
  lemma PopStateOutcome(s: State, pathname: string, imp: string -> Import)
    ensures s.routes.None? ==> PopState(s, pathname, imp) == s
    ensures s.routes.Some? ==>
      var r := PopState(s, pathname, imp);
      r.routes == s.routes && (r.notFound <==> ClientMatchRoute(pathname, s.routes.value).None?)
  {
    if s.routes.Some? {
      ResolveOutcome(s, pathname, s.routes.value, imp);
    }
  }

  /** With the table loaded, `navigate` appends exactly the href to the
      history, keeps the table, shows the 404 exactly when no route matches the
      href as given, and otherwise loads the matched route's modules (or keeps
      the previous page and reports the failed import). */
  lemma NavigateOutcome(n: Nav, href: string, imp: string -> Import)
    requires n.state.routes.Some?
    ensures var r := Navigate(n, href, imp);
      var m := ClientMatchRoute(href, n.state.routes.value);
      && |r.history| == |n.history| + 1 && r.history[..|n.history|] == n.history
      && r.history[|n.history|] == href
      && r.state.routes == n.state.routes
      && (r.state.notFound <==> m.None?)
      && (m.Some? && LoadRouteModules(m.value, imp).Ok? ==>
            r.state.loaded == Some(LoadRouteModules(m.value, imp).value) && r.state.error.None?)
      && (m.Some? && LoadRouteModules(m.value, imp).Err? ==>
            r.state.loaded == n.state.loaded && r.state.error.Some?)
  {
    var r := Navigate(n, href, imp);
    assert r.history == n.history + [href];
    ResolveOutcome(n.state, href, n.state.routes.value, imp);
  }

  // ---------------------------------------------------------------------------
  // invariants of every reachable state

  /** A 404 shows no loaded route, and an error always has a message. */
  predicate Consistent(s: State) {
    (s.notFound ==> s.loaded.None?) && (s.error.Some? ==> s.error.value != "")
  }

  lemma InitialConsistent()
    ensures Consistent(Initial())
  {
  }

  lemma ResolveConsistent(s: State, path: string, table: seq<ClientRoute>, imp: string -> Import)
    ensures Consistent(Resolve(s, path, table, imp))
  {
    ResolveOutcome(s, path, table, imp);
  }

  lemma FetchDoneConsistent(s: State, f: Fetch, cancelled: bool, location: string, imp: string -> Import)
    requires Consistent(s)
    ensures Consistent(FetchDone(s, f, cancelled, location, imp))
  {
    if !cancelled && f.Fetched? {
      ResolveConsistent(s.(routes := Some(f.routes)), location, f.routes, imp);
    }
  }

  lemma NavigateConsistent(n: Nav, href: string, imp: string -> Import)
    requires Consistent(n.state)
    ensures Consistent(Navigate(n, href, imp).state)
  {
    if n.state.routes.Some? {
      ResolveConsistent(n.state, href, n.state.routes.value, imp);
    }
  }

  lemma PopStateConsistent(s: State, pathname: string, imp: string -> Import)
    requires Consistent(s)
    ensures Consistent(PopState(s, pathname, imp))
  {
    if s.routes.Some? {
      ResolveConsistent(s, pathname, s.routes.value, imp);
    }
  }

  // ---------------------------------------------------------------------------
  // render precedence

  datatype View =
    | ErrorView(message: string)
    | LoadingView
    | CustomNotFound(component: Component)
    | BuiltInNotFound
    | PageView(tree: Tree)

  /** The tree `LayoutRenderer` builds for a loaded route. */
  function TreeOf(l: Loaded): Tree {
    Wrap(l.layouts, l.params, Core(l.page, l.params, l.loading, l.error))
  }

  /** The render branch of `Router`: error, then no table, then 404, then
      nothing loaded yet, then the page. */
  function Render(s: State): View {
    if Truthy(s.error) then ErrorView(s.error.value)
    else if s.routes.None? then LoadingView
    else if s.notFound then (if s.notFoundComponent.Some? then CustomNotFound(s.notFoundComponent.value) else BuiltInNotFound)
    else if s.loaded.None? then LoadingView
    else PageView(TreeOf(s.loaded.value))
  }

  /** Each view is shown exactly when the states before it in precedence
      order do not apply. */
  lemma RenderPrecedence(s: State)
    ensures Render(s).ErrorView? <==> Truthy(s.error)
    ensures Render(s).LoadingView? <==> !Truthy(s.error) && (s.routes.None? || (!s.notFound && s.loaded.None?))
    ensures Render(s).CustomNotFound? <==> !Truthy(s.error) && s.routes.Some? && s.notFound && s.notFoundComponent.Some?
    ensures Render(s).BuiltInNotFound? <==> !Truthy(s.error) && s.routes.Some? && s.notFound && s.notFoundComponent.None?
    ensures Render(s).PageView? <==> !Truthy(s.error) && s.routes.Some? && !s.notFound && s.loaded.Some?
  {
  }

  /** After navigating with a loaded table: an unmatched path shows the custom
      404 exactly when a not-found path exists and imports, else the built-in
      one; a matched path whose modules all import shows its layout tree. */
  lemma NavigateThenRender(n: Nav, href: string, imp: string -> Import)
    requires n.state.routes.Some?
    ensures var table := n.state.routes.value;
      var v := Render(Navigate(n, href, imp).state);
      && (ClientMatchRoute(href, table).None? ==>
            (v.CustomNotFound? <==> (FindNotFoundPath(table).Some? && imp(FindNotFoundPath(table).value).Imported?)
                                    || (FindNotFoundPath(table).None? && n.state.notFoundComponent.Some?)))
      && (ClientMatchRoute(href, table).None? ==> v.CustomNotFound? || v.BuiltInNotFound?)
      && (ClientMatchRoute(href, table).Some? && LoadRouteModules(ClientMatchRoute(href, table).value, imp).Ok? ==>
            v == PageView(TreeOf(LoadRouteModules(ClientMatchRoute(href, table).value, imp).value)))
      && (ClientMatchRoute(href, table).Some? && LoadRouteModules(ClientMatchRoute(href, table).value, imp).Err? ==>
            v.ErrorView?)
  {
    ResolveOutcome(n.state, href, n.state.routes.value, imp);
  }

  // ---------------------------------------------------------------------------
  // navigating to a URL with a query string or fragment

  /** The pathname of a URL reference: the part before the first `?` or `#`. */
  function PathnameOf(href: string): (p: string)
    ensures p <= href
    ensures '?' !in p && '#' !in p
    ensures '?' !in href && '#' !in href ==> p == href
    ensures |p| < |href| ==> href[|p|] == '?' || href[|p|] == '#'
  {
    if |href| == 0 || href[0] == '?' || href[0] == '#' then ""
    else [href[0]] + PathnameOf(href[1..])
  }

  /** `navigate` resolving the pathname of the href, as the mount effect and
      the popstate listener do, instead of the href itself. */
  function NavigateToPathname(n: Nav, href: string, imp: string -> Import): Nav {
    match n.state.routes
    case None => n
    case Some(rs) => Nav(Resolve(n.state, PathnameOf(href), rs, imp), n.history + [href])
  }

  /** With the pathname resolved, arriving at a history entry by `navigate`
      and returning to it later by popstate show the same state; a popstate
      straight after the navigation changes nothing. */
  lemma NavigateAgreesWithPopState(n: Nav, href: string, imp: string -> Import)
    requires n.state.routes.Some?
    ensures NavigateToPathname(n, href, imp).state == PopState(n.state, PathnameOf(href), imp)
    ensures NavigateToPathname(n, href, imp).history == n.history + [href]
    ensures var s := NavigateToPathname(n, href, imp).state;
      PopState(s, PathnameOf(href), imp) == s
  {
    ResolveIdempotent(n.state, PathnameOf(href), n.state.routes.value, imp);
  }

  /** On hrefs without `?` or `#` the two navigations coincide. */
  lemma NavigateToPlainPath(n: Nav, href: string, imp: string -> Import)
    requires '?' !in href && '#' !in href
    ensures NavigateToPathname(n, href, imp) == Navigate(n, href, imp)
  {
  }

  lemma BlogMatchesOnlyItself(path: string)
    ensures MatchRegex(CompilePattern("/blog").regex, path).Some? <==> path == "/blog"
  {
    assert Segments("/blog") == ["blog"] by { SegmentsOfPath(["blog"]); }
    assert Canonical("/blog");
    assert RankSeg("blog") == RankStatic;
    StaticPatternMatchesOnlyItself("/blog", path);
  }

  function BlogRoute(): ClientRoute {
    ClientRoute("/blog", "/app/blog/page.tsx", [], [], None, None, None)
  }

  lemma BlogQueryPathname()
    ensures PathnameOf("/blog?tab=2") == "/blog"
  {
    assert "/blog?tab=2"[5] == '?';
    assert "/blog?tab=2"[..5] == "/blog";
  }

  /** The one-route table answers `/blog` and nothing else. */
  lemma BlogTable(path: string)
    ensures ClientMatchRoute(path, [BlogRoute()]).None? <==> path != "/blog"
  {
    BlogMatchesOnlyItself(path);
  }

  /** Navigating to an unmatched href shows the 404; popping to a matched
      pathname does not. */
  lemma NavigateAndPop(n: Nav, href: string, pathname: string, imp: string -> Import)
    requires n.state.routes.Some?
    requires ClientMatchRoute(href, n.state.routes.value).None?
    requires ClientMatchRoute(pathname, n.state.routes.value).Some?
    ensures Navigate(n, href, imp).state.notFound
    ensures Navigate(n, href, imp).history == n.history + [href]
    ensures !PopState(Navigate(n, href, imp).state, pathname, imp).notFound
  {
    var table := n.state.routes.value;
    ResolveOutcome(n.state, href, table, imp);
    ResolveOutcome(Navigate(n, href, imp).state, pathname, table, imp);
  }

  /** As written, `navigate("/blog?tab=2")` on a table whose only route is
      `/blog` resolves the whole href, matches nothing and shows the 404,
      while a popstate back to that same history entry resolves its pathname
      `/blog` and loads the page. */
  lemma NavigateWithQueryIsNotFound(imp: string -> Import)
    ensures var n := Nav(Initial().(routes := Some([BlogRoute()])), []);
      var after := Navigate(n, "/blog?tab=2", imp);
      && after.history == ["/blog?tab=2"]
      && after.state.notFound
      && !PopState(after.state, "/blog", imp).notFound
      && !NavigateToPathname(n, "/blog?tab=2", imp).state.notFound
  {
    var n := Nav(Initial().(routes := Some([BlogRoute()])), []);
    var href := "/blog?tab=2";
    BlogTable(href);
    BlogTable("/blog");
    BlogQueryPathname();
    NavigateAndPop(n, href, "/blog", imp);
    ResolveOutcome(n.state, "/blog", [BlogRoute()], imp);
  }
}
