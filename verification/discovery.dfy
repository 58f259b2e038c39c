/** Route discovery, `scanRoutes` and `scanDir` of server/router.ts, over an
    abstract directory tree in place of `readdir`. */
module Discovery {
  import opened Wrappers
  import opened Text
  import opened Pattern
  import opened Sorting
  import opened Routes

  /** A directory as `readdir` would report it: the names of its plain files
      and its subdirectories in listing order, or a directory that cannot be
      read. */
  datatype Node = Unreadable | Dir(files: set<string>, children: seq<Child>)
  datatype Child = Child(name: string, node: Node)

  /** What `scanDir` hands down to a directory: where it is (all directory
      names below the app directory), its URL segments (group names left out),
      and the inherited layouts and boundaries. */
  datatype Ctx = Ctx(
    app: string,
    dirPath: seq<string>,
    url: seq<string>,
    layouts: seq<string>,
    loading: Option<string>,
    error: Option<string>,
    notFound: Option<string>)

  /** The context of the app directory itself. */
  function RootCtx(app: string): Ctx {
    Ctx(app, [], [], [], None, None, None)
  }

  /** `(group)` directories are walked but add no URL segment. */
  predicate IsGroup(name: string) {
    |name| > 0 && name[0] == '(' && name[|name| - 1] == ')'
  }

  /** The group test is `startsWith("(") && endsWith(")")`. */
  lemma IsGroupAffixes(name: string)
    ensures IsGroup(name) <==> StartsWith(name, "(") && EndsWith(name, ")")
  {
    if StartsWith(name, "(") && EndsWith(name, ")") {
      assert name[|name| - 1..][0] == ')';
    }
    if IsGroup(name) {
      assert name[..1] == "(";
      assert name[|name| - 1..] == ")";
    }
  }

  /** The URL segments a list of directory names contributes: every name that
      is not a group, and only those. */
  function UrlNames(names: seq<string>): (r: seq<string>)
    ensures forall i :: 0 <= i < |r| ==> r[i] in names && !IsGroup(r[i])
    ensures forall n :: n in names && !IsGroup(n) ==> n in r
    ensures (forall i :: 0 <= i < |names| ==> !IsGroup(names[i])) ==> r == names
  {
    if |names| == 0 then []
    else
      var rest := UrlNames(names[1..]);
      assert forall n :: n in names ==> n == names[0] || n in names[1..];
      assert forall i :: 0 <= i < |names| - 1 ==> names[1..][i] == names[i + 1];
      (if IsGroup(names[0]) then [] else [names[0]]) + rest
  }

  /** Stripping groups works name by name, so it keeps the order of the names
      it keeps: the result for a concatenation is the concatenation of the
      results. */
  lemma {:induction false} UrlNamesAppend(a: seq<string>, b: seq<string>)
    ensures UrlNames(a + b) == UrlNames(a) + UrlNames(b)
  {
    if |a| > 0 {
      var h: seq<string> := if IsGroup(a[0]) then [] else [a[0]];
      assert (a + b)[0] == a[0] && (a + b)[1..] == a[1..] + b;
      assert UrlNames(a + b) == h + UrlNames(a[1..] + b);
      assert UrlNames(a) == h + UrlNames(a[1..]);
      UrlNamesAppend(a[1..], b);
      assert h + (UrlNames(a[1..]) + UrlNames(b)) == (h + UrlNames(a[1..])) + UrlNames(b);
    } else {
      assert a + b == b;
    }
  }

  /** `toServePath`: a server-root path such as "/app/blog/layout.tsx". */
  function ServePath(app: string, dirPath: seq<string>, file: string): string {
    "/" + app + "/" + Join(dirPath + [file], "/")
  }

  /** The directory's own `file` if it has one, else the inherited value. */
  function Nearest(ctx: Ctx, files: set<string>, file: string, inherited: Option<string>): (r: Option<string>)
    ensures file in files ==> r == Some(ServePath(ctx.app, ctx.dirPath, file))
    ensures file !in files ==> r == inherited
  {
    if file in files then Some(ServePath(ctx.app, ctx.dirPath, file)) else inherited
  }

  /** The serve path of the directory's own `file`, if it has one. */
  function Own(app: string, dirPath: seq<string>, files: set<string>, file: string): seq<string> {
    if file in files then [ServePath(app, dirPath, file)] else []
  }

  /** The context after a directory's files are read: its own layout is
      appended and its own boundaries replace the inherited ones. */
  function Enter(ctx: Ctx, files: set<string>): Ctx {
    ctx.(layouts := ctx.layouts + Own(ctx.app, ctx.dirPath, files, "layout.tsx"),
         loading := Nearest(ctx, files, "loading.tsx", ctx.loading),
         error := Nearest(ctx, files, "error.tsx", ctx.error),
         notFound := Nearest(ctx, files, "not-found.tsx", ctx.notFound))
  }

  /** The context of subdirectory `name`. */
  function Descend(c: Ctx, name: string): Ctx {
    c.(dirPath := c.dirPath + [name], url := if IsGroup(name) then c.url else c.url + [name])
  }

  /** The record of a directory holding `page.tsx`, given its entered context. */
  function RouteOf(c: Ctx): Route {
    var pattern := "/" + Join(c.url, "/");
    var compiled := CompilePattern(pattern);
    Route(pattern, compiled.regex, compiled.paramNames, ServePath(c.app, c.dirPath, "page.tsx"),
          c.layouts, c.loading, c.error, c.notFound)
  }

  /** The record's matcher and names are those its pattern compiles to. */
  lemma RouteOfWellCompiled(c: Ctx)
    ensures WellCompiled(RouteOf(c))
  {
  }

  /** `scanDir`: the directory's own route (if it has `page.tsx`), then the
      routes of its subdirectories in listing order. */
  function ScanDir(node: Node, ctx: Ctx): (r: seq<Route>)
    decreases node
  {
    match node
    case Unreadable => []
    case Dir(files, children) =>
      var c := Enter(ctx, files);
      (if "page.tsx" in files then [RouteOf(c)] else []) + ScanChildren(children, c)
  }

  function ScanChildren(children: seq<Child>, c: Ctx): (r: seq<Route>)
    decreases children
  {
    if |children| == 0 then []
    else ScanChild(children[0], c) + ScanChildren(children[1..], c)
  }

  /** The routes of one subdirectory, scanned in its own context. */
  function ScanChild(child: Child, c: Ctx): seq<Route>
    decreases child
  {
    ScanDir(child.node, Descend(c, child.name))
  }

  /** `scanRoutes`: every discovered route, in specificity order. */
  function ScanRoutes(root: Node, app: string): (r: seq<Route>)
    ensures multiset(r) == multiset(ScanDir(root, RootCtx(app)))
    ensures SortedBy(r, Compare)
    ensures WellCompiledTable(r)
  {
    var s := ScanDir(root, RootCtx(app));
    var r := SortRoutes(s);
    assert WellCompiledTable(r) by {
      ScanDirWellCompiled(root, RootCtx(app));
      forall i | 0 <= i < |r| ensures WellCompiled(r[i]) {
        assert r[i] in multiset(s);
        var j :| 0 <= j < |s| && s[j] == r[i];
        assert WellCompiled(s[j]);
      }
    }
    r
  }

  // ---------------------------------------------------------------------------
  // a reference description of the routes, by position in the tree

  /** A readable directory's files and its entered context. */
  datatype Entered = Entered(files: set<string>, ctx: Ctx)

  /** The directory reached from `node` by taking child `p[0]`, then `p[1]`,
      ..., if every directory on the way is readable. */
  function DirAt(node: Node, ctx: Ctx, p: seq<nat>): Option<Entered>
    decreases p
  {
    match node
    case Unreadable => None
    case Dir(files, children) =>
      var c := Enter(ctx, files);
      if |p| == 0 then Some(Entered(files, c))
      else if p[0] < |children| then DirAt(children[p[0]].node, Descend(c, children[p[0]].name), p[1..])
      else None
  }

  /** The route of the directory at path `p`, if it is readable and holds
      `page.tsx`. */
  function RouteAt(node: Node, ctx: Ctx, p: seq<nat>): Option<Route> {
    match DirAt(node, ctx, p)
    case None => None
    case Some(e) => if "page.tsx" in e.files then Some(RouteOf(e.ctx)) else None
  }

  /** The route at the top is the directory's own. */
  lemma RouteAtHere(node: Node, ctx: Ctx)
    requires node.Dir?
    ensures RouteAt(node, ctx, []) == if "page.tsx" in node.files then Some(RouteOf(Enter(ctx, node.files))) else None
  {
  }

  /** A route further down is one of the child's. */
  lemma RouteAtStep(node: Node, ctx: Ctx, p: seq<nat>)
    requires node.Dir? && |p| > 0 && p[0] < |node.children|
    ensures var child := node.children[p[0]];
      RouteAt(node, ctx, p) == RouteAt(child.node, Descend(Enter(ctx, node.files), child.name), p[1..])
  {
  }

  /** The directory names along a path of child positions. */
  function NamesOnPath(node: Node, p: seq<nat>): seq<string>
    decreases p
  {
    match node
    case Unreadable => []
    case Dir(_, children) =>
      if |p| == 0 || p[0] >= |children| then []
      else [children[p[0]].name] + NamesOnPath(children[p[0]].node, p[1..])
  }

  /** The serve paths of `file` in the readable directories along a path,
      from the top down. */
  function FilesOnPath(node: Node, app: string, dirPath: seq<string>, p: seq<nat>, file: string): seq<string>
    decreases p
  {
    match node
    case Unreadable => []
    case Dir(files, children) =>
      Own(app, dirPath, files, file)
      + (if |p| == 0 || p[0] >= |children| then []
         else FilesOnPath(children[p[0]].node, app, dirPath + [children[p[0]].name], p[1..], file))
  }

  /** The last element, or `d` for an empty list. */
  function LastOr(s: seq<string>, d: Option<string>): (r: Option<string>)
    ensures |s| > 0 ==> r == Some(s[|s| - 1])
    ensures |s| == 0 ==> r == d
  {
    if |s| == 0 then d else Some(s[|s| - 1])
  }

  lemma LastOrAppend(s: seq<string>, t: seq<string>, d: Option<string>)
    ensures LastOr(s + t, d) == LastOr(t, LastOr(s, d))
  {
  }

  /** A discovered route is exactly the route of some directory holding
      `page.tsx`; every such directory contributes its route. */
  lemma ScanDirExact(node: Node, ctx: Ctx, r: Route)
    ensures r in ScanDir(node, ctx) <==> exists p :: RouteAt(node, ctx, p) == Some(r)
  {
    if r in ScanDir(node, ctx) {
      var p := ScanDirSound(node, ctx, r);
    }
    if exists p :: RouteAt(node, ctx, p) == Some(r) {
      var p :| RouteAt(node, ctx, p) == Some(r);
      ScanDirComplete(node, ctx, p);
    }
  }

  lemma {:induction false} ScanDirSound(node: Node, ctx: Ctx, r: Route) returns (p: seq<nat>)
    requires r in ScanDir(node, ctx)
    ensures RouteAt(node, ctx, p) == Some(r)
    decreases node
  {
    match node
    case Dir(files, children) =>
      var c := Enter(ctx, files);
      if "page.tsx" in files && r == RouteOf(c) {
        p := [];
        RouteAtHere(node, ctx);
      } else {
        var k := ScanChildrenSound(children, c, r);
        var q := ScanDirSound(children[k].node, Descend(c, children[k].name), r);
        p := [k] + q;
        assert p[1..] == q;
        RouteAtStep(node, ctx, p);
      }
  }

  /** The routes of each child, in listing order. */
  function ChildScans(children: seq<Child>, c: Ctx): (parts: seq<seq<Route>>)
    ensures |parts| == |children|
    ensures forall i :: 0 <= i < |children| ==> parts[i] == ScanChild(children[i], c)
  {
    seq(|children|, i requires 0 <= i < |children| => ScanChild(children[i], c))
  }

  function Concat(parts: seq<seq<Route>>): seq<Route> {
    if |parts| == 0 then [] else parts[0] + Concat(parts[1..])
  }

  lemma {:induction false} ScanChildrenIsConcat(children: seq<Child>, c: Ctx)
    ensures ScanChildren(children, c) == Concat(ChildScans(children, c))
    decreases children
  {
    if |children| > 0 {
      ScanChildrenIsConcat(children[1..], c);
      assert ChildScans(children, c)[1..] == ChildScans(children[1..], c);
    }
  }

  lemma {:induction false} InSomePart(parts: seq<seq<Route>>, r: Route) returns (k: nat)
    requires r in Concat(parts)
    ensures k < |parts| && r in parts[k]
  {
    if r in parts[0] {
      k := 0;
    } else {
      var k' := InSomePart(parts[1..], r);
      k := k' + 1;
    }
  }

  /** A route found below some child is found below one particular child. */
  lemma ScanChildrenSound(children: seq<Child>, c: Ctx, r: Route) returns (k: nat)
    requires r in ScanChildren(children, c)
    ensures k < |children| && r in ScanChild(children[k], c)
  {
    ScanChildrenIsConcat(children, c);
    k := InSomePart(ChildScans(children, c), r);
  }

  /** Every discovered record's matcher and names are those its pattern
      compiles to. */
  lemma ScanDirWellCompiled(node: Node, ctx: Ctx)
    ensures WellCompiledTable(ScanDir(node, ctx))
  {
    var s := ScanDir(node, ctx);
    forall i | 0 <= i < |s| ensures WellCompiled(s[i]) {
      var p := ScanDirSound(node, ctx, s[i]);
      RouteOfWellCompiled(DirAt(node, ctx, p).value.ctx);
    }
  }

  lemma ScanChildrenCons(children: seq<Child>, c: Ctx)
    requires |children| > 0
    ensures ScanChildren(children, c) == ScanChild(children[0], c) + ScanChildren(children[1..], c)
  {
  }

  lemma {:induction false} ScanDirComplete(node: Node, ctx: Ctx, p: seq<nat>)
    requires RouteAt(node, ctx, p).Some?
    ensures RouteAt(node, ctx, p).value in ScanDir(node, ctx)
    decreases p
  {
    match node
    case Dir(files, children) =>
      var c := Enter(ctx, files);
      if |p| > 0 {
        var k := p[0];
        RouteAtStep(node, ctx, p);
        ScanDirComplete(children[k].node, Descend(c, children[k].name), p[1..]);
        ScanChildrenContains(children, c, k, RouteAt(node, ctx, p).value);
      } else {
        RouteAtHere(node, ctx);
      }
  }

  lemma {:induction false} ScanChildrenContains(children: seq<Child>, c: Ctx, k: nat, r: Route)
    requires k < |children| && r in ScanChild(children[k], c)
    ensures r in ScanChildren(children, c)
    decreases children
  {
    ScanChildrenCons(children, c);
    if k > 0 {
      assert children[1..][k - 1] == children[k];
      ScanChildrenContains(children[1..], c, k - 1, r);
    }
  }

  /** One step down: the directory at `p` is the one at `p[1..]` below child
      `p[0]`. */
  lemma DirAtStep(node: Node, ctx: Ctx, p: seq<nat>)
    requires node.Dir? && |p| > 0 && p[0] < |node.children|
    ensures var child := node.children[p[0]];
      DirAt(node, ctx, p) == DirAt(child.node, Descend(Enter(ctx, node.files), child.name), p[1..])
  {
  }

  /** The directory at path `p` lies at the inherited location followed by
      the directory names along `p`. */
  lemma {:induction false} DirAtLocation(node: Node, ctx: Ctx, p: seq<nat>)
    requires DirAt(node, ctx, p).Some?
    ensures DirAt(node, ctx, p).value.ctx.app == ctx.app
    ensures DirAt(node, ctx, p).value.ctx.dirPath == ctx.dirPath + NamesOnPath(node, p)
    decreases p
  {
    if |p| == 0 {
      assert NamesOnPath(node, p) == [];
      assert ctx.dirPath + [] == ctx.dirPath;
    } else {
      var child := node.children[p[0]];
      var d := Descend(Enter(ctx, node.files), child.name);
      DirAtStep(node, ctx, p);
      DirAtLocation(child.node, d, p[1..]);
      NamesOnPathStep(node, p);
      DirPathStep(Enter(ctx, node.files), child.name, NamesOnPath(child.node, p[1..]));
    }
  }

  lemma NamesOnPathStep(node: Node, p: seq<nat>)
    requires node.Dir? && |p| > 0 && p[0] < |node.children|
    ensures NamesOnPath(node, p) == [node.children[p[0]].name] + NamesOnPath(node.children[p[0]].node, p[1..])
  {
  }

  lemma DirPathStep(c: Ctx, name: string, rest: seq<string>)
    ensures Descend(c, name).dirPath + rest == c.dirPath + ([name] + rest)
  {
  }

  /** The URL segments of the directory at path `p` are the inherited ones
      followed by the non-group directory names along `p`. */
  lemma {:induction false} DirAtUrl(node: Node, ctx: Ctx, p: seq<nat>)
    requires DirAt(node, ctx, p).Some?
    ensures DirAt(node, ctx, p).value.ctx.url == ctx.url + UrlNames(NamesOnPath(node, p))
    decreases p
  {
    if |p| == 0 {
      assert NamesOnPath(node, p) == [] && UrlNames([]) == [];
      assert ctx.url + [] == ctx.url;
    } else {
      var child := node.children[p[0]];
      var d := Descend(Enter(ctx, node.files), child.name);
      DirAtStep(node, ctx, p);
      DirAtUrl(child.node, d, p[1..]);
      var rest := NamesOnPath(child.node, p[1..]);
      assert NamesOnPath(node, p) == [child.name] + rest;
      UrlNamesCons(child.name, rest);
      DescendUrl(Enter(ctx, node.files), child.name, rest);
    }
  }

  /** The layouts of the directory at path `p` are the inherited ones, then
      those of the directories along `p` from the top down. */
  lemma {:induction false} DirAtLayouts(node: Node, ctx: Ctx, p: seq<nat>)
    requires DirAt(node, ctx, p).Some?
    ensures DirAt(node, ctx, p).value.ctx.layouts == ctx.layouts + FilesOnPath(node, ctx.app, ctx.dirPath, p, "layout.tsx")
    decreases p
  {
    if |p| == 0 {
      FilesOnPathHere(node, ctx.app, ctx.dirPath, "layout.tsx");
    } else {
      var child := node.children[p[0]];
      var d := Descend(Enter(ctx, node.files), child.name);
      DirAtStep(node, ctx, p);
      DirAtLayouts(child.node, d, p[1..]);
      FilesOnPathStep(node, ctx.app, ctx.dirPath, p, "layout.tsx");
      LayoutsStep(ctx, node.files, child.name, FilesOnPath(child.node, ctx.app, ctx.dirPath + [child.name], p[1..], "layout.tsx"));
    }
  }

  lemma FilesOnPathHere(node: Node, app: string, dirPath: seq<string>, file: string)
    requires node.Dir?
    ensures FilesOnPath(node, app, dirPath, [], file) == Own(app, dirPath, node.files, file)
  {
    assert Own(app, dirPath, node.files, file) + [] == Own(app, dirPath, node.files, file);
  }

  lemma FilesOnPathStep(node: Node, app: string, dirPath: seq<string>, p: seq<nat>, file: string)
    requires node.Dir? && |p| > 0 && p[0] < |node.children|
    ensures var child := node.children[p[0]];
      FilesOnPath(node, app, dirPath, p, file)
        == Own(app, dirPath, node.files, file) + FilesOnPath(child.node, app, dirPath + [child.name], p[1..], file)
  {
  }

  lemma LayoutsStep(ctx: Ctx, files: set<string>, name: string, rest: seq<string>)
    ensures Descend(Enter(ctx, files), name).layouts + rest == ctx.layouts + (Own(ctx.app, ctx.dirPath, files, "layout.tsx") + rest)
  {
  }

  /** A route found at path `p` has as pattern the inherited URL segments and
      then the non-group directory names along `p`, joined. */
  lemma RouteAtPattern(node: Node, ctx: Ctx, p: seq<nat>)
    requires RouteAt(node, ctx, p).Some?
    ensures RouteAt(node, ctx, p).value.pattern == "/" + Join(ctx.url + UrlNames(NamesOnPath(node, p)), "/")
  {
    DirAtUrl(node, ctx, p);
  }

  lemma UrlNamesCons(name: string, rest: seq<string>)
    ensures UrlNames([name] + rest) == (if IsGroup(name) then [] else [name]) + UrlNames(rest)
  {
    assert ([name] + rest)[1..] == rest;
  }

  lemma DescendUrl(c: Ctx, name: string, rest: seq<string>)
    ensures Descend(c, name).url + UrlNames(rest) == c.url + ((if IsGroup(name) then [] else [name]) + UrlNames(rest))
  {
  }

  /** A route found at path `p` names the `page.tsx` of the directory there. */
  lemma RouteAtPage(node: Node, ctx: Ctx, p: seq<nat>)
    requires RouteAt(node, ctx, p).Some?
    ensures RouteAt(node, ctx, p).value.pagePath == ServePath(ctx.app, ctx.dirPath + NamesOnPath(node, p), "page.tsx")
  {
    DirAtLocation(node, ctx, p);
  }

  /** A route found at path `p` has the inherited layouts, then the layouts
      of the directories along `p` from the top down, its own last. */
  lemma RouteAtLayouts(node: Node, ctx: Ctx, p: seq<nat>)
    requires RouteAt(node, ctx, p).Some?
    ensures RouteAt(node, ctx, p).value.layoutPaths == ctx.layouts + FilesOnPath(node, ctx.app, ctx.dirPath, p, "layout.tsx")
  {
    DirAtLayouts(node, ctx, p);
  }

  /** The boundary a route record carries for a special file. */
  function Boundary(r: Route, file: string): Option<string> {
    if file == "loading.tsx" then r.loadingPath
    else if file == "error.tsx" then r.errorPath
    else r.notFoundPath
  }

  function Inherited(ctx: Ctx, file: string): Option<string> {
    if file == "loading.tsx" then ctx.loading
    else if file == "error.tsx" then ctx.error
    else ctx.notFound
  }

  /** Each boundary of the directory at path `p` is the nearest one along
      `p` (the deepest directory having the file), else the inherited one. */
  lemma {:induction false} DirAtBoundary(node: Node, ctx: Ctx, p: seq<nat>, file: string)
    requires DirAt(node, ctx, p).Some?
    requires file in {"loading.tsx", "error.tsx", "not-found.tsx"}
    ensures Inherited(DirAt(node, ctx, p).value.ctx, file)
      == LastOr(FilesOnPath(node, ctx.app, ctx.dirPath, p, file), Inherited(ctx, file))
    decreases p
  {
    if |p| > 0 {
      var child := node.children[p[0]];
      var d := Descend(Enter(ctx, node.files), child.name);
      DirAtStep(node, ctx, p);
      DirAtBoundary(child.node, d, p[1..], file);
      assert Inherited(d, file) == Nearest(ctx, node.files, file, Inherited(ctx, file));
      BoundaryStep(node, ctx, p, file, Inherited(ctx, file));
    }
  }

  /** Each boundary of a route found at path `p` is the nearest one along
      `p`, else the inherited one. */
  lemma RouteAtBoundary(node: Node, ctx: Ctx, p: seq<nat>, file: string)
    requires RouteAt(node, ctx, p).Some?
    requires file in {"loading.tsx", "error.tsx", "not-found.tsx"}
    ensures Boundary(RouteAt(node, ctx, p).value, file)
      == LastOr(FilesOnPath(node, ctx.app, ctx.dirPath, p, file), Inherited(ctx, file))
  {
    DirAtBoundary(node, ctx, p, file);
  }

  /** One step down the path: the nearest boundary below a directory, falling
      back to the directory's own or inherited one, is the nearest along the
      whole path. */
  lemma BoundaryStep(node: Node, ctx: Ctx, p: seq<nat>, file: string, inherited: Option<string>)
    requires node.Dir? && |p| > 0 && p[0] < |node.children|
    ensures var child := node.children[p[0]];
      LastOr(FilesOnPath(child.node, ctx.app, ctx.dirPath + [child.name], p[1..], file), Nearest(ctx, node.files, file, inherited))
        == LastOr(FilesOnPath(node, ctx.app, ctx.dirPath, p, file), inherited)
  {
    var child := node.children[p[0]];
    LastOrAppend(if file in node.files then [ServePath(ctx.app, ctx.dirPath, file)] else [],
                 FilesOnPath(child.node, ctx.app, ctx.dirPath + [child.name], p[1..], file), inherited);
  }

  // ---------------------------------------------------------------------------
  // failure isolation and pattern form

  lemma {:induction false} ScanChildrenAppend(a: seq<Child>, b: seq<Child>, c: Ctx)
    ensures ScanChildren(a + b, c) == ScanChildren(a, c) + ScanChildren(b, c)
  {
    if |a| > 0 {
      assert (a + b)[0] == a[0] && (a + b)[1..] == a[1..] + b;
      ScanChildrenAppend(a[1..], b, c);
    } else {
      assert a + b == b;
    }
  }

  /** An unreadable subdirectory contributes nothing and its siblings are
      scanned as if it were absent. */
  lemma UnreadableSiblingIsSkipped(children: seq<Child>, k: nat, c: Ctx)
    requires k < |children| && children[k].node == Unreadable
    ensures ScanChildren(children, c) == ScanChildren(children[..k], c) + ScanChildren(children[k + 1..], c)
  {
    var before, after := children[..k], children[k + 1..];
    assert children == before + ([children[k]] + after);
    ScanChildrenAppend(before, [children[k]] + after, c);
    UnreadableChildSkipped(children[k], after, c);
  }

  lemma UnreadableChildSkipped(child: Child, after: seq<Child>, c: Ctx)
    requires child.node == Unreadable
    ensures ScanChildren([child] + after, c) == ScanChildren(after, c)
  {
    ScanChildrenAppend([child], after, c);
    ScanOneChild(child, c);
    assert ScanChildren([child], c) == [];
  }

  lemma ScanOneChild(child: Child, c: Ctx)
    ensures ScanChildren([child], c) == ScanChild(child, c)
  {
    assert [child][1..] == [];
  }

  /** Every directory name is a non-empty, slash-free path segment. */
  predicate WellNamed(node: Node)
    decreases node
  {
    match node
    case Unreadable => true
    case Dir(_, children) => forall i :: 0 <= i < |children| ==>
      IsSegmentName(children[i].name) && WellNamed(children[i].node)
  }

  /** In a well-named tree every discovered pattern is in canonical form, so
      its segments are exactly its non-group directory names. */
  lemma RouteAtCanonical(node: Node, ctx: Ctx, p: seq<nat>)
    requires WellNamed(node) && RouteAt(node, ctx, p).Some?
    requires forall i :: 0 <= i < |ctx.url| ==> IsSegmentName(ctx.url[i])
    ensures Segments(RouteAt(node, ctx, p).value.pattern) == ctx.url + UrlNames(NamesOnPath(node, p))
    ensures Canonical(RouteAt(node, ctx, p).value.pattern)
  {
    RouteAtPattern(node, ctx, p);
    NamesOnPathWellNamed(node, p);
    var url := ctx.url + UrlNames(NamesOnPath(node, p));
    UrlSegmentNames(ctx.url, NamesOnPath(node, p));
    SegmentsOfPath(url);
  }

  /** Inherited segment names followed by the URL names of well-formed
      directory names are all segment names. */
  lemma UrlSegmentNames(url: seq<string>, names: seq<string>)
    requires forall i :: 0 <= i < |url| ==> IsSegmentName(url[i])
    requires forall i :: 0 <= i < |names| ==> IsSegmentName(names[i])
    ensures forall i :: 0 <= i < |url + UrlNames(names)| ==> IsSegmentName((url + UrlNames(names))[i])
  {
    var u := UrlNames(names);
    forall i | 0 <= i < |url + u| ensures IsSegmentName((url + u)[i]) {
      if i >= |url| {
        assert (url + u)[i] == u[i - |url|];
      }
    }
  }

  lemma {:induction false} NamesOnPathWellNamed(node: Node, p: seq<nat>)
    requires WellNamed(node)
    ensures forall i :: 0 <= i < |NamesOnPath(node, p)| ==> IsSegmentName(NamesOnPath(node, p)[i])
    decreases p
  {
    match node
    case Unreadable =>
    case Dir(_, children) =>
      if |p| > 0 && p[0] < |children| {
        NamesOnPathWellNamed(children[p[0]].node, p[1..]);
      }
  }

  // ---------------------------------------------------------------------------
  // from the app directory

  /** `scanRoutes` returns exactly the routes of the directories holding
      `page.tsx`, reached through readable directories. */
  lemma ScanRoutesExact(root: Node, app: string, r: Route)
    ensures r in ScanRoutes(root, app) <==> exists p :: RouteAt(root, RootCtx(app), p) == Some(r)
  {
    ScanDirExact(root, RootCtx(app), r);
    assert r in ScanRoutes(root, app) <==> r in multiset(ScanDir(root, RootCtx(app)));
  }

  /** The record of the directory at path `p` below the app directory. */
  lemma DiscoveredRoute(root: Node, app: string, p: seq<nat>)
    requires RouteAt(root, RootCtx(app), p).Some?
    ensures var r := RouteAt(root, RootCtx(app), p).value;
      var names := NamesOnPath(root, p);
      && r.pattern == "/" + Join(UrlNames(names), "/")
      && r.pagePath == ServePath(app, names, "page.tsx")
      && r.layoutPaths == FilesOnPath(root, app, [], p, "layout.tsx")
      && r.loadingPath == LastOr(FilesOnPath(root, app, [], p, "loading.tsx"), None)
      && r.errorPath == LastOr(FilesOnPath(root, app, [], p, "error.tsx"), None)
      && r.notFoundPath == LastOr(FilesOnPath(root, app, [], p, "not-found.tsx"), None)
  {
    var ctx := RootCtx(app);
    RouteAtPattern(root, ctx, p);
    assert [] + UrlNames(NamesOnPath(root, p)) == UrlNames(NamesOnPath(root, p));
    RouteAtPage(root, ctx, p);
    assert [] + NamesOnPath(root, p) == NamesOnPath(root, p);
    RouteAtLayouts(root, ctx, p);
    RouteAtBoundary(root, ctx, p, "loading.tsx");
    RouteAtBoundary(root, ctx, p, "error.tsx");
    RouteAtBoundary(root, ctx, p, "not-found.tsx");
  }

  // ---------------------------------------------------------------------------
  // the example app: layout, error, not-found and page at the top, a blog
  // section with its own layout, and a dynamic post page below it

  function ExampleApp(): Node {
    Dir({"layout.tsx", "error.tsx", "not-found.tsx", "page.tsx"},
        [Child("blog", Dir({"layout.tsx"}, [Child("[slug]", Dir({"page.tsx"}, []))]))])
  }

  /** The post page is discovered as `/blog/[slug]`, wrapped in the root then
      the blog layout, with the root's error and not-found boundaries. */
  lemma ExamplePostRoute()
    ensures RouteAt(ExampleApp(), RootCtx("app"), [0, 0]).Some?
    ensures var r := RouteAt(ExampleApp(), RootCtx("app"), [0, 0]).value;
      && r.pattern == "/blog/[slug]"
      && r.pagePath == "/app/blog/[slug]/page.tsx"
      && r.layoutPaths == ["/app/layout.tsx", "/app/blog/layout.tsx"]
      && r.loadingPath == None
      && r.errorPath == Some("/app/error.tsx")
      && r.notFoundPath == Some("/app/not-found.tsx")
  {
    ExampleWalk();
    DiscoveredRoute(ExampleApp(), "app", [0, 0]);
    ExampleNames();
    ExampleLayouts();
    ExampleLoading();
    ExampleRootBoundaries();
  }

  lemma ExampleWalk()
    ensures RouteAt(ExampleApp(), RootCtx("app"), [0, 0]).Some?
    ensures NamesOnPath(ExampleApp(), [0, 0]) == ["blog", "[slug]"]
  {
    ExampleReach();
    ExamplePathNames();
  }

  lemma ExampleReach()
    ensures RouteAt(ExampleApp(), RootCtx("app"), [0, 0]).Some?
  {
    var root := ExampleApp();
    var blog := root.children[0].node;
    var post := blog.children[0].node;
    assert [0, 0][1..] == [0] && [0][1..] == [];
    var c1 := Descend(Enter(RootCtx("app"), root.files), "blog");
    DirAtStep(root, RootCtx("app"), [0, 0]);
    DirAtStep(blog, c1, [0]);
  }

  lemma ExamplePathNames()
    ensures NamesOnPath(ExampleApp(), [0, 0]) == ["blog", "[slug]"]
  {
    var root := ExampleApp();
    var blog := root.children[0].node;
    assert [0, 0][1..] == [0] && [0][1..] == [];
    NamesOnPathStep(root, [0, 0]);
    NamesOnPathStep(blog, [0]);
  }

  lemma ExampleNames()
    ensures "/" + Join(UrlNames(["blog", "[slug]"]), "/") == "/blog/[slug]"
    ensures ServePath("app", ["blog", "[slug]"], "page.tsx") == "/app/blog/[slug]/page.tsx"
  {
    ExampleUrl();
    ExamplePage();
  }

  lemma ExampleUrl()
    ensures "/" + Join(UrlNames(["blog", "[slug]"]), "/") == "/blog/[slug]"
  {
    assert !IsGroup("blog") && !IsGroup("[slug]");
    UrlNamesCons("blog", ["[slug]"]);
    UrlNamesCons("[slug]", []);
    assert UrlNames(["blog", "[slug]"]) == ["blog", "[slug]"];
    JoinTwo("blog", "[slug]");
  }

  lemma ExamplePage()
    ensures ServePath("app", ["blog", "[slug]"], "page.tsx") == "/app/blog/[slug]/page.tsx"
  {
    JoinThree("blog", "[slug]", "page.tsx");
    assert ["blog", "[slug]"] + ["page.tsx"] == ["blog", "[slug]", "page.tsx"];
  }

  lemma JoinTwo(a: string, b: string)
    ensures Join([a, b], "/") == a + "/" + b
  {
    assert [a, b][1..] == [b];
  }

  lemma JoinThree(a: string, b: string, c: string)
    ensures Join([a, b, c], "/") == a + "/" + b + "/" + c
  {
    assert [a, b, c][1..] == [b, c];
    JoinTwo(b, c);
  }

  lemma ExampleLoading()
    ensures FilesOnPath(ExampleApp(), "app", [], [0, 0], "loading.tsx") == []
  {
    ExampleBoundary("loading.tsx");
  }

  /** The root's error and not-found files are the post page's boundaries:
      no directory below the root has one. */
  lemma ExampleRootBoundaries()
    ensures FilesOnPath(ExampleApp(), "app", [], [0, 0], "error.tsx") == ["/app/error.tsx"]
    ensures FilesOnPath(ExampleApp(), "app", [], [0, 0], "not-found.tsx") == ["/app/not-found.tsx"]
  {
    ExampleBoundary("error.tsx");
    ExampleBoundary("not-found.tsx");
    FileNamesDistinct();
    TopServePaths();
  }

  lemma FileNamesDistinct()
    ensures "error.tsx" != "loading.tsx" && "not-found.tsx" != "loading.tsx" && "layout.tsx" != "page.tsx"
  {
  }

  lemma TopServePaths()
    ensures ServePath("app", [], "layout.tsx") == "/app/layout.tsx"
    ensures ServePath("app", [], "error.tsx") == "/app/error.tsx"
    ensures ServePath("app", [], "not-found.tsx") == "/app/not-found.tsx"
  {
    ServePathTop("app", "layout.tsx");
    ServePathTop("app", "error.tsx");
    ServePathTop("app", "not-found.tsx");
  }

  lemma BlogLayoutPath()
    ensures ServePath("app", ["blog"], "layout.tsx") == "/app/blog/layout.tsx"
  {
    ServePathOne("app", "blog", "layout.tsx");
  }

  /** The serve path of a file of the app directory itself. */
  lemma ServePathTop(app: string, file: string)
    ensures ServePath(app, [], file) == "/" + app + "/" + file
  {
    assert [] + [file] == [file];
  }

  /** The serve path of a file one directory down. */
  lemma ServePathOne(app: string, dir: string, file: string)
    ensures ServePath(app, [dir], file) == "/" + app + "/" + dir + "/" + file
  {
    assert [dir] + [file] == [dir, file];
    JoinTwo(dir, file);
  }

  /** Below the top, the example has no boundary files. */
  lemma ExampleBoundary(f: string)
    requires f in {"loading.tsx", "error.tsx", "not-found.tsx"}
    ensures FilesOnPath(ExampleApp(), "app", [], [0, 0], f)
      == if f == "loading.tsx" then [] else [ServePath("app", [], f)]
  {
    var root := ExampleApp();
    var blog := root.children[0].node;
    var post := blog.children[0].node;
    assert [0, 0][1..] == [0] && [0][1..] == [];
    FilesOnPathStep(root, "app", [], [0, 0], f);
    FilesOnPathStep(blog, "app", ["blog"], [0], f);
    FilesOnPathHere(post, "app", ["blog", "[slug]"], f);
    assert ["blog"] + ["[slug]"] == ["blog", "[slug]"];
  }

  lemma ExampleLayouts()
    ensures FilesOnPath(ExampleApp(), "app", [], [0, 0], "layout.tsx") == ["/app/layout.tsx", "/app/blog/layout.tsx"]
  {
    ExampleLayoutFiles();
    TopServePaths();
    BlogLayoutPath();
  }

  lemma ExampleLayoutFiles()
    ensures FilesOnPath(ExampleApp(), "app", [], [0, 0], "layout.tsx")
      == [ServePath("app", [], "layout.tsx"), ServePath("app", ["blog"], "layout.tsx")]
  {
    var root := ExampleApp();
    var blog := root.children[0].node;
    var post := blog.children[0].node;
    assert [0, 0][1..] == [0] && [0][1..] == [];
    FilesOnPathStep(root, "app", [], [0, 0], "layout.tsx");
    FilesOnPathStep(blog, "app", ["blog"], [0], "layout.tsx");
    assert ["blog"] + ["[slug]"] == ["blog", "[slug]"];
    FilesOnPathHere(post, "app", ["blog", "[slug]"], "layout.tsx");
    FileNamesDistinct();
  }

}
