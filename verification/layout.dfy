/** `LayoutRenderer` of client/layout-renderer.tsx: the render tree built
    around a page from its layouts and optional loading and error boundary
    components. */
module Layout {
  import opened Wrappers

  /** A component: the default export of the module at `modulePath`. */
  datatype Component = Default(modulePath: string)

  /** The render tree, outermost node first. */
  datatype Tree =
    | Page(page: Component, params: map<string, string>)
    | Suspense(fallback: Component, child: Tree)
    | ErrorBoundary(fallback: Component, params: map<string, string>, child: Tree)
    | LayoutNode(layout: Component, params: map<string, string>, child: Tree)

  /** The page, wrapped in a Suspense when a loading component is given, then
      in an error boundary when an error component is given. */
  function Core(page: Component, params: map<string, string>, loading: Option<Component>, error: Option<Component>): Tree {
    var content := Page(page, params);
    var content := if loading.Some? then Suspense(loading.value, content) else content;
    if error.Some? then ErrorBoundary(error.value, params, content) else content
  }

  /** `layouts[0]` outermost, each layout wrapping the next. */
  function Wrap(layouts: seq<Component>, params: map<string, string>, inner: Tree): Tree {
    if |layouts| == 0 then inner
    else LayoutNode(layouts[0], params, Wrap(layouts[1..], params, inner))
  }

  /** `LayoutRenderer`: starts from the page and wraps from the last layout to
      the first. */
  method LayoutRenderer(layouts: seq<Component>, page: Component, params: map<string, string>,
                        loading: Option<Component>, error: Option<Component>) returns (t: Tree)
    ensures t == Wrap(layouts, params, Core(page, params, loading, error))
  {
    var content := Page(page, params);
    if loading.Some? {
      content := Suspense(loading.value, content);
    }
    if error.Some? {
      content := ErrorBoundary(error.value, params, content);
    }
    ghost var core := content;
    var i := |layouts|;
    while i > 0
      invariant 0 <= i <= |layouts|
      invariant content == Wrap(layouts[i..], params, core)
    {
      assert layouts[i - 1..][1..] == layouts[i..];
      content := LayoutNode(layouts[i - 1], params, content);
      i := i - 1;
    }
    t := content;
  }

  /** One node of the spine from the root down to the page. */
  datatype Level = AtLayout(c: Component) | AtErrorBoundary(c: Component) | AtSuspense(c: Component) | AtPage(c: Component)

  function Spine(t: Tree): (s: seq<Level>)
    ensures |s| >= 1
  {
    match t
    case Page(c, _) => [AtPage(c)]
    case Suspense(c, child) => [AtSuspense(c)] + Spine(child)
    case ErrorBoundary(c, _, child) => [AtErrorBoundary(c)] + Spine(child)
    case LayoutNode(c, _, child) => [AtLayout(c)] + Spine(child)
  }

  function Depth(t: Tree): nat {
    match t
    case Page(_, _) => 1
    case Suspense(_, child) => 1 + Depth(child)
    case ErrorBoundary(_, _, child) => 1 + Depth(child)
    case LayoutNode(_, _, child) => 1 + Depth(child)
  }

  /** Every node that takes params in the tree is given `params`. */
  predicate AllGet(t: Tree, params: map<string, string>) {
    match t
    case Page(_, p) => p == params
    case Suspense(_, child) => AllGet(child, params)
    case ErrorBoundary(_, p, child) => p == params && AllGet(child, params)
    case LayoutNode(_, p, child) => p == params && AllGet(child, params)
  }

  function LayoutLevels(layouts: seq<Component>): (r: seq<Level>)
    ensures |r| == |layouts|
    ensures forall i :: 0 <= i < |layouts| ==> r[i] == AtLayout(layouts[i])
  {
    if |layouts| == 0 then [] else [AtLayout(layouts[0])] + LayoutLevels(layouts[1..])
  }

  function ErrorLevel(error: Option<Component>): seq<Level> {
    if error.Some? then [AtErrorBoundary(error.value)] else []
  }

  function SuspenseLevel(loading: Option<Component>): seq<Level> {
    if loading.Some? then [AtSuspense(loading.value)] else []
  }

  /** The tree from the root down: the layouts in array order (`layouts[0]`
      outermost), then the error boundary iff an error component is given,
      then the Suspense iff a loading component is given, directly around the
      page, which is the innermost node. */
  lemma {:induction false} RenderSpine(layouts: seq<Component>, page: Component, params: map<string, string>,
                                       loading: Option<Component>, error: Option<Component>)
    ensures Spine(Wrap(layouts, params, Core(page, params, loading, error)))
      == LayoutLevels(layouts) + ErrorLevel(error) + SuspenseLevel(loading) + [AtPage(page)]
  {
    WrapSpine(layouts, params, Core(page, params, loading, error));
    CoreSpine(page, params, loading, error);
  }

  lemma CoreSpine(page: Component, params: map<string, string>, loading: Option<Component>, error: Option<Component>)
    ensures Spine(Core(page, params, loading, error)) == ErrorLevel(error) + SuspenseLevel(loading) + [AtPage(page)]
  {
    var s := if loading.Some? then Suspense(loading.value, Page(page, params)) else Page(page, params);
    assert Spine(s) == SuspenseLevel(loading) + [AtPage(page)];
    if error.Some? {
      assert Spine(ErrorBoundary(error.value, params, s)) == [AtErrorBoundary(error.value)] + Spine(s);
    }
  }

  lemma {:induction false} WrapSpine(layouts: seq<Component>, params: map<string, string>, inner: Tree)
    ensures Spine(Wrap(layouts, params, inner)) == LayoutLevels(layouts) + Spine(inner)
  {
    if |layouts| > 0 {
      WrapSpine(layouts[1..], params, inner);
    }
  }

  /** Every layout, the error boundary and the page receive the same params. */
  lemma {:induction false} RenderParams(layouts: seq<Component>, page: Component, params: map<string, string>,
                                        loading: Option<Component>, error: Option<Component>)
    ensures AllGet(Wrap(layouts, params, Core(page, params, loading, error)), params)
  {
    WrapParams(layouts, params, Core(page, params, loading, error));
  }

  lemma {:induction false} WrapParams(layouts: seq<Component>, params: map<string, string>, inner: Tree)
    requires AllGet(inner, params)
    ensures AllGet(Wrap(layouts, params, inner), params)
  {
    if |layouts| > 0 {
      WrapParams(layouts[1..], params, inner);
    }
  }

  lemma {:induction false} DepthIsSpineLength(t: Tree)
    ensures Depth(t) == |Spine(t)|
  {
    match t
    case Page(_, _) =>
    case Suspense(_, child) => DepthIsSpineLength(child);
    case ErrorBoundary(_, _, child) => DepthIsSpineLength(child);
    case LayoutNode(_, _, child) => DepthIsSpineLength(child);
  }

  /** The tree has one node per layout, one per given boundary component and
      one for the page; with none of them it is the page alone. */
  lemma RenderDepth(layouts: seq<Component>, page: Component, params: map<string, string>,
                    loading: Option<Component>, error: Option<Component>)
    ensures Depth(Wrap(layouts, params, Core(page, params, loading, error)))
      == |layouts| + (if loading.Some? then 1 else 0) + (if error.Some? then 1 else 0) + 1
    ensures |layouts| == 0 && loading.None? && error.None? ==>
      Wrap(layouts, params, Core(page, params, loading, error)) == Page(page, params)
  {
    var t := Wrap(layouts, params, Core(page, params, loading, error));
    DepthIsSpineLength(t);
    RenderSpine(layouts, page, params, loading, error);
  }
}
