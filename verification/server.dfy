/** The request handler of server/index.ts: which rule answers a pathname,
    module resolution for extensionless requests, the MIME table and the
    mapping of transform failures to status codes. Paths are relative to the
    project root; the pathname is the one URL parsing produced. */
module Server {
  import opened Wrappers
  import opened Text
  import opened Routes
  import opened Client
  import opened Transform

  /** What a response carries. The JSON text, the shell's HTML and file bytes
      are not modelled, only what they are made of. */
  datatype Body =
    | RouteTable(routes: seq<ClientRoute>)
    | JavaScript(code: string)
    | FileContent(path: string, content: string)
    | HtmlShell
    | Plain(text: string)

  datatype Response = Response(status: int, contentType: string, noCache: bool, body: Body)

  const NotFound := Response(404, "text/plain", false, Plain("Not found"))

  // ---------------------------------------------------------------------------
  // MIME types

  /** The extensions of the MIME table, in table order. */
  const MimeExtensions: seq<string> := [".html", ".css", ".js", ".json", ".png", ".jpg", ".svg", ".ico"]

  /** The MIME type for an extension, `application/octet-stream` when the
      table has none. */
  function MimeType(ext: string): (r: string)
    ensures r == "application/octet-stream" <==> ext !in MimeExtensions
  {
    match ext
    case ".html" => "text/html"
    case ".css" => "text/css"
    case ".js" => "application/javascript"
    case ".json" => "application/json"
    case ".png" => "image/png"
    case ".jpg" => "image/jpeg"
    case ".svg" => "image/svg+xml"
    case ".ico" => "image/x-icon"
    case _ => "application/octet-stream"
  }

  /** `serveStatic`: the file's content with the type of its extension when
      it can be read, nothing when `access` or `readFile` fails. */
  function ServeStatic(d: Disk, path: string): (r: Option<Response>)
    ensures r.Some? <==> path in d.present && d.read(path).Ok?
    ensures r.Some? ==> r.value.status == 200 && r.value.contentType == MimeType(ExtName(path))
    ensures r.Some? ==> r.value.body == FileContent(path, d.read(path).value)
  {
    if path !in d.present then None
    else
      match d.read(path)
      case Err(_) => None
      case Ok(content) => Some(Response(200, MimeType(ExtName(path)), false, FileContent(path, content)))
  }

  // ---------------------------------------------------------------------------
  // module requests

  /** The extensions of a module request. */
  const ModuleExtensions: set<string> := {".ts", ".tsx", ".js", ".jsx"}

  /** The extensions an extensionless module path is tried with, in order. */
  const ResolveExtensions: seq<string> := [".tsx", ".ts", ".jsx", ".js"]

  /** The directories whose extensionless paths may name modules. */
  const ModulePrefixes: seq<string> := ["/app/", "/client/", "/components/", "/data/", "/lib/", "/utils/"]

  predicate IsModuleRequest(pathname: string) {
    ExtName(pathname) in ModuleExtensions
  }

  predicate MightBeModule(pathname: string) {
    ExtName(pathname) == "" && exists i :: 0 <= i < |ModulePrefixes| && StartsWith(pathname, ModulePrefixes[i])
  }

  /** `pathname.slice(1)`: the path below the root. */
  function Below(pathname: string): (r: string)
    ensures |pathname| > 0 ==> pathname == pathname[..1] + r
    ensures |pathname| == 0 ==> r == ""
  {
    if |pathname| == 0 then "" else pathname[1..]
  }

  /** The files tried for an extensionless module path: each extension, then
      each index file. There is no bare candidate: every candidate extends
      `base` and ends in a module extension. */
  function ModuleCandidates(base: string): (c: seq<string>)
    ensures |c| == 8
    ensures forall i :: 0 <= i < 4 ==> c[i] == base + ResolveExtensions[i]
    ensures forall i :: 4 <= i < 8 ==> c[i] == base + "/index" + ResolveExtensions[i - 4]
  {
    [base + ".tsx", base + ".ts", base + ".jsx", base + ".js",
     base + "/index.tsx", base + "/index.ts", base + "/index.jsx", base + "/index.js"]
  }

  /** No candidate is `base` itself: each extends it and ends in the module
      extension tried. */
  lemma {:induction false} ModuleCandidatesNeverBare(base: string)
    ensures forall i :: 0 <= i < 4 ==>
      var c := ModuleCandidates(base)[i];
      c != base && StartsWith(c, base) && EndsWith(c, ResolveExtensions[i])
    ensures forall i :: 4 <= i < 8 ==>
      var c := ModuleCandidates(base)[i];
      c != base && StartsWith(c, base) && EndsWith(c, ResolveExtensions[i - 4])
  {
    var c := ModuleCandidates(base);
    forall i | 0 <= i < 4
      ensures c[i] != base && StartsWith(c[i], base) && EndsWith(c[i], ResolveExtensions[i])
    {
      ExtensionNonEmpty(i);
      Extends(base, "", ResolveExtensions[i]);
      assert base + "" == base;
    }
    forall i | 4 <= i < 8
      ensures c[i] != base && StartsWith(c[i], base) && EndsWith(c[i], ResolveExtensions[i - 4])
    {
      ExtensionNonEmpty(i - 4);
      Extends(base, "/index", ResolveExtensions[i - 4]);
    }
  }

  lemma ExtensionNonEmpty(i: int)
    requires 0 <= i < 4
    ensures |ResolveExtensions[i]| > 0
  {
  }

  lemma Extends(base: string, mid: string, ext: string)
    requires |ext| > 0
    ensures var c := base + mid + ext;
      c != base && StartsWith(c, base) && EndsWith(c, ext)
  {
    var c := base + mid + ext;
    assert |c| > |base|;
    assert c[..|base|] == base;
    assert c[|c| - |ext|..] == ext;
  }

  /** The local `resolveModulePath`: an existing candidate, and none exactly
      when no candidate exists. */
  function ResolveLocal(d: Disk, base: string): (r: Option<string>)
    ensures r.Some? ==> r.value in d.present && r.value in ModuleCandidates(base) && r.value != base
    ensures r.None? <==> forall c :: c in ModuleCandidates(base) ==> c !in d.present
  {
    ModuleCandidatesNeverBare(base);
    Aliases.FirstExisting(ModuleCandidates(base), d.present)
  }

  /** Unlike the alias resolver, a directory import with no file for an
      extension is served from its index file, even though the directory
      itself exists. */
  lemma LocalDirectoryResolvesToIndex(d: Disk, base: string)
    requires base in d.present && base + "/index.tsx" in d.present
    requires base + ".tsx" !in d.present && base + ".ts" !in d.present
    requires base + ".jsx" !in d.present && base + ".js" !in d.present
    ensures ResolveLocal(d, base) == Some(base + "/index.tsx")
  {
    Aliases.FirstExistingPicksFirst(ModuleCandidates(base), d.present, 4);
  }

  /** What a transform failure becomes: 404 for a missing file, otherwise 500
      with the failure's message. */
  function FailureResponse(f: Failure): (r: Response)
    ensures r.status == 404 <==> f.code == Some("ENOENT")
    ensures r.status != 404 ==> r.status == 500 && r.body == Plain("Transform error: " + f.message)
    ensures r.status == 404 ==> r == NotFound
  {
    if f.code == Some("ENOENT") then NotFound
    else Response(500, "text/plain", false, Plain("Transform error: " + f.message))
  }

  /** A module request: transform the file and send the code, or map the
      failure. The cache comes back updated. */
  function ServeModule(d: Disk, cache: Cache, path: string): (r: (Response, Cache))
    ensures r.0.status in {200, 404, 500}
    ensures r.0.status == 404 <==>
      TransformFile(d, cache, path).result.Err? && TransformFile(d, cache, path).result.error.code == Some("ENOENT")
    ensures r.1 != cache ==> r.0.status == 200
    ensures r.0.status == 200 <==> TransformFile(d, cache, path).result.Ok?
    ensures r.0.status == 200 ==> r.0 == Response(200, "application/javascript", true, JavaScript(TransformFile(d, cache, path).result.value))
    ensures r.0.status != 200 ==> r.0 == FailureResponse(TransformFile(d, cache, path).result.error)
    ensures r.1 == TransformFile(d, cache, path).cache
  {
    var o := TransformFile(d, cache, path);
    match o.result
    case Ok(code) => (Response(200, "application/javascript", true, JavaScript(code)), o.cache)
    case Err(f) => (FailureResponse(f), o.cache)
  }

  // ---------------------------------------------------------------------------
  // the handler

  /** A module request, with or without its extension. */
  function HandleModule(d: Disk, cache: Cache, pathname: string): (Response, Cache) {
    if IsModuleRequest(pathname) then
      ServeModule(d, cache, Below(pathname))
    else
      match ResolveLocal(d, Below(pathname))
      case None => (NotFound, cache)
      case Some(path) => ServeModule(d, cache, path)
  }

  /** Any other request: `/public/` files; `.css` files; the HTML shell for
      extensionless and `.html` paths; any other file below the root. */
  function ServeOther(d: Disk, pathname: string): Response {
    var file := ServeStatic(d, Below(pathname));
    if StartsWith(pathname, "/public/") && file.Some? then file.value
    else if EndsWith(pathname, ".css") then file.GetOr(NotFound)
    else if ExtName(pathname) == "" || ExtName(pathname) == ".html" then
      Response(200, "text/html", true, HtmlShell)
    else file.GetOr(NotFound)
  }

  /** The handler: the route table, then module requests, then the rest.
      `routes` is the table the scan produced (empty when it failed). */
  function Handle(d: Disk, cache: Cache, routes: seq<Route>, pathname: string): (Response, Cache) {
    if pathname == "/__routes" then
      (Response(200, "application/json", true, RouteTable(ToClientTable(routes))), cache)
    else if IsModuleRequest(pathname) || MightBeModule(pathname) then
      HandleModule(d, cache, pathname)
    else
      (ServeOther(d, pathname), cache)
  }

  // ---------------------------------------------------------------------------
  // properties

  /** `/__routes` answers first, with every route record less its regex, and
      touches nothing. */
  lemma RouteTableFirst(d: Disk, cache: Cache, routes: seq<Route>)
    ensures var (r, c) := Handle(d, cache, routes, "/__routes");
      r.status == 200 && r.contentType == "application/json" && c == cache
      && r.body.RouteTable? && |r.body.routes| == |routes|
      && forall i :: 0 <= i < |routes| ==> r.body.routes[i] == ToClient(routes[i])
  {
  }

  /** Only module requests touch the transform cache. */
  lemma OnlyModulesTouchCache(d: Disk, cache: Cache, routes: seq<Route>, pathname: string)
    requires !IsModuleRequest(pathname) && !MightBeModule(pathname)
    ensures Handle(d, cache, routes, pathname).1 == cache
  {
  }

  /** A request with a module extension is transformed, even under
      `/public/`. */
  lemma ModuleRequestIsTransformed(d: Disk, cache: Cache, routes: seq<Route>, pathname: string)
    requires pathname != "/__routes" && IsModuleRequest(pathname)
    ensures Handle(d, cache, routes, pathname) == ServeModule(d, cache, Below(pathname))
  {
  }

  /** An extensionless module path that resolves to no candidate is a 404. */
  lemma UnresolvedModuleIsNotFound(d: Disk, cache: Cache, routes: seq<Route>, pathname: string)
    requires pathname != "/__routes" && MightBeModule(pathname)
    requires forall i :: 0 <= i < 8 ==> ModuleCandidates(Below(pathname))[i] !in d.present
    ensures Handle(d, cache, routes, pathname) == (NotFound, cache)
  {
    assert !IsModuleRequest(pathname);
  }

  /** An extensionless module path is served from the first candidate that
      exists. */
  lemma ResolvedModuleIsTransformed(d: Disk, cache: Cache, routes: seq<Route>, pathname: string, i: nat)
    requires pathname != "/__routes" && MightBeModule(pathname)
    requires Aliases.FirstIn(ModuleCandidates(Below(pathname)), d.present, i)
    ensures Handle(d, cache, routes, pathname) == ServeModule(d, cache, ModuleCandidates(Below(pathname))[i])
  {
    ExtensionlessIsModuleBranch(d, cache, routes, pathname);
    Aliases.FirstExistingPicksFirst(ModuleCandidates(Below(pathname)), d.present, i);
    ResolvedBranch(d, cache, pathname, ModuleCandidates(Below(pathname))[i]);
  }

  /** An extensionless module path takes the module branch, and not as a
      module request with an extension. */
  lemma ExtensionlessIsModuleBranch(d: Disk, cache: Cache, routes: seq<Route>, pathname: string)
    requires pathname != "/__routes" && MightBeModule(pathname)
    ensures !IsModuleRequest(pathname)
    ensures Handle(d, cache, routes, pathname) == HandleModule(d, cache, pathname)
  {
  }

  lemma ResolvedBranch(d: Disk, cache: Cache, pathname: string, path: string)
    requires !IsModuleRequest(pathname) && ResolveLocal(d, Below(pathname)) == Some(path)
    ensures HandleModule(d, cache, pathname) == ServeModule(d, cache, path)
  {
  }

  /** A `.css` path that is no module and cannot be served is a 404. */
  lemma MissingCssIsNotFound(d: Disk, cache: Cache, routes: seq<Route>, pathname: string)
    requires EndsWith(pathname, ".css") && !MightBeModule(pathname)
    requires ServeStatic(d, Below(pathname)).None?
    ensures Handle(d, cache, routes, pathname) == (NotFound, cache)
  {
    CssIsNoModule(pathname);
  }

  /** A path ending in `.css` is no module request and not `/__routes`. It
      may still be an extensionless module path: `/app/.css` has no
      extension. */
  lemma CssIsNoModule(pathname: string)
    requires EndsWith(pathname, ".css")
    ensures pathname != "/__routes" && !IsModuleRequest(pathname)
    ensures ExtName(pathname) == ".css" ==> !MightBeModule(pathname)
  {
    NotRoutesTable(pathname);
    CssExtension(pathname);
    CssNotModuleExtension();
  }

  lemma NotRoutesTable(pathname: string)
    requires EndsWith(pathname, ".css")
    ensures pathname != "/__routes"
  {
    assert pathname[|pathname| - 4] == '.';
    assert "/__routes"[5] != '.';
  }

  lemma CssNotModuleExtension()
    ensures ".css" !in ModuleExtensions && "" !in ModuleExtensions
  {
  }

  /** The extension of a path ending in `.css` is `.css`, or none when the
      last component is `.css` itself. */
  lemma CssExtension(pathname: string)
    requires EndsWith(pathname, ".css")
    ensures ExtName(pathname) == ".css" || ExtName(pathname) == ""
  {
    var n := |pathname|;
    var stem := pathname[..n - 4];
    assert pathname == stem + ".css" by { assert pathname[n - 4..] == ".css"; }
    if n > 4 && stem[|stem| - 1] != '/' {
      assert forall j :: 1 <= j < |".css"| ==> ".css"[j] != '.' && ".css"[j] != '/';
      ExtNameOfSuffix(stem, ".css");
    } else {
      DotFileHasNoExtension(stem);
    }
  }

  /** A last component `.css` has no extension. */
  lemma DotFileHasNoExtension(stem: string)
    requires |stem| == 0 || stem[|stem| - 1] == '/'
    ensures ExtName(stem + ".css") == ""
  {
    DotFileBase(stem);
    DotNameHasNoExtension(stem + ".css");
  }

  lemma DotFileBase(stem: string)
    requires |stem| == 0 || stem[|stem| - 1] == '/'
    ensures BaseName(TrimTrailingSlashes(stem + ".css")) == ".css"
  {
    var p := stem + ".css";
    assert p[|p| - 1] == 's';
    assert TrimTrailingSlashes(p) == p;
    assert '/' !in ".css" by {
      assert forall j :: 0 <= j < 4 ==> ".css"[j] != '/';
    }
    BaseNameAfterSlash(stem, ".css");
  }

  /** The base name of a path whose last component is `tail`. */
  lemma BaseNameAfterSlash(stem: string, tail: string)
    requires |stem| == 0 || stem[|stem| - 1] == '/'
    requires '/' !in tail
    ensures BaseName(stem + tail) == tail
  {
    var p := stem + tail;
    var n := |stem|;
    assert forall j :: n <= j < |p| ==> p[j] == tail[j - n];
    match LastIndexOf(p, '/')
    case None =>
      assert n == 0;
    case Some(i) =>
      assert p[n - 1] == '/';
      assert i == n - 1;
      assert p[i + 1..] == tail;
  }

  lemma DotNameHasNoExtension(p: string)
    requires BaseName(TrimTrailingSlashes(p)) == ".css"
    ensures ExtName(p) == ""
  {
    var b := ".css";
    var d := LastIndexOf(b, '.');
    assert b[1] == 'c' && b[2] == 's' && b[3] == 's';
    assert d.Some? && b[d.value] == '.';
    assert d.value == 0;
    assert b != "..";
  }

  /** Outside the route table, modules, `/public/` files and `.css` paths,
      an extensionless or `.html` path gets the HTML shell. */
  lemma ShellForPages(d: Disk, cache: Cache, routes: seq<Route>, pathname: string)
    requires pathname != "/__routes" && !IsModuleRequest(pathname) && !MightBeModule(pathname)
    requires !(StartsWith(pathname, "/public/") && ServeStatic(d, Below(pathname)).Some?)
    requires !EndsWith(pathname, ".css")
    requires ExtName(pathname) == "" || ExtName(pathname) == ".html"
    ensures Handle(d, cache, routes, pathname) == (Response(200, "text/html", true, HtmlShell), cache)
  {
  }

  /** Any other path is a file below the root, or a 404. */
  lemma RootFallback(d: Disk, cache: Cache, routes: seq<Route>, pathname: string)
    requires pathname != "/__routes" && !IsModuleRequest(pathname) && !MightBeModule(pathname)
    requires !(StartsWith(pathname, "/public/") && ServeStatic(d, Below(pathname)).Some?)
    requires !EndsWith(pathname, ".css") && ExtName(pathname) != "" && ExtName(pathname) != ".html"
    ensures var (r, c) := Handle(d, cache, routes, pathname);
      c == cache && (r == NotFound || (r.status == 200 && r.body == FileContent(Below(pathname), d.read(Below(pathname)).value)))
  {
  }

  /** Every response is one the handler can give: 200, 404 or a 500 from a
      failed transform. */
  lemma StatusIsKnown(d: Disk, cache: Cache, routes: seq<Route>, pathname: string)
    ensures Handle(d, cache, routes, pathname).0.status in {200, 404, 500}
    ensures Handle(d, cache, routes, pathname).0.status == 500 ==> IsModuleRequest(pathname) || MightBeModule(pathname)
  {
    if pathname == "/__routes" {
    } else if IsModuleRequest(pathname) {
      ModuleStatus(d, cache, Below(pathname));
    } else if MightBeModule(pathname) {
      match ResolveLocal(d, Below(pathname))
      case None =>
      case Some(path) => ModuleStatus(d, cache, path);
    } else {
      OtherStatus(d, pathname);
    }
  }

  lemma ModuleStatus(d: Disk, cache: Cache, path: string)
    ensures ServeModule(d, cache, path).0.status in {200, 404, 500}
  {
  }

  lemma OtherStatus(d: Disk, pathname: string)
    ensures ServeOther(d, pathname).status in {200, 404}
  {
  }
}
