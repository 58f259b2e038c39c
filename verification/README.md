# no-build-next, modelled in Dafny

no-build-next is a development server for React applications laid out in the
style of the Next.js app router. It needs no build step. Its core has five parts:

- **Route engine** (server/router.ts). It walks the `app/` directory and
  records one route per directory that holds `page.tsx`. Each route carries
  its URL pattern (route-group directories `(name)` add no segment), its
  inherited layouts, and its nearest loading, error and not-found components.
  It compiles each pattern to a regular expression, with literal, `[name]`
  and `[...name]` segments. It orders the table by specificity and answers
  the first route that matches a path.
- **Client router** (client/router.tsx). It fetches the table from
  `/__routes`, recompiles each pattern and matches paths the same way. It
  loads the page, layout and boundary modules of the match and keeps the
  navigator state: the table, the loaded route, the not-found flag and
  component, and the error. It decides what to render from that state.
- **Layout renderer** (client/layout-renderer.tsx). It wraps the page in a
  Suspense node, an error boundary and the layouts.
- **Transform cache** (server/transform.ts). It compiles a file once per
  modification time and rewrites `@/` import specifiers to resolved paths.
- **Request handler** (server/index.ts). It decides which rule answers a
  pathname: the route table, a module (with or without extension), a
  `/public/` file, a `.css` file, the HTML shell or a file below the root. It
  maps transform failures to 404 or 500.

The model has one Dafny module per concern:

- `Wrappers`: `Option` and `Result`.
- `Text`: the JavaScript and Node string built-ins the server and client rely on.
- `Pattern`: `compilePattern`, `escapeRegex` and `segmentTypes`.
- `Matching`: what a compiled pattern matches.
- `Sorting`: a stable insertion sort.
- `Routes`: `RouteEntry`, `sortRoutes` and `matchRoute`.
- `Discovery`: `scanDir` and `scanRoutes` over an abstract directory tree.
- `Client`: the client's `compilePattern`, `matchRoute` and
  `findNotFoundPath`.
- `Navigator`: `loadRouteModules`, `resolve`, the mount and navigation
  effects, and the render branch.
- `Layout`: `LayoutRenderer`.
- `Aliases`: module resolution and `rewritePathAliases`.
- `Transform`: `transformFile` and `invalidateCache`.
- `Server`: the request handler.

I/O becomes data:

- A directory tree, with unreadable directories, stands for `readdir`.
- A set of existing paths stands for `access`.
- Functions from path to outcome stand for `stat`, `readFile` and the
  compiler.
- A function from module path to import outcome stands for dynamic
  `import()`.
- The transform cache is passed in and handed back instead of living in a
  module-level map.
- The navigator is a state value changed by pure transitions.

Regular expressions are not executed. A compiled pattern is a list of
segments: `Static`, `Dyn` or `CatchAll`. A path matches when it is `/`
followed by the `/`-join of one value per segment:

- a literal's value is its text;
- a `[name]` value is non-empty and has no `/`;
- a `[...name]` value is non-empty and has no line terminator (JavaScript's
  `.`).

When a catch-all is followed by more segments, the regex engine's
backtracking keeps the longest catch-all value that lets the rest match. The
matcher reproduces that choice.

## Model

| member | source | states |
|---|---|---|
| `Pattern.CatchAllName` | server/router.ts:115 | A segment is recognised as a catch-all only when it is exactly `[...` + a non-empty word-character name + `]`, and the name is returned |
| `Pattern.CatchAllNameComplete` | server/router.ts:115 | Conversely, every `[...name]` with a word-character name is recognised, with that name |
| `Pattern.DynamicName` | server/router.ts:123 | A segment is recognised as dynamic only when it is exactly `[` + a non-empty word-character name + `]` |
| `Pattern.DynamicNameComplete` | server/router.ts:123 | Conversely, every `[name]` with a word-character name is recognised as dynamic |
| `Pattern.ClassifySeg` | server/router.ts:113-132 | A segment compiles to a catch-all exactly when it has catch-all syntax, to a dynamic segment exactly when it has dynamic syntax and not catch-all syntax, and otherwise to a literal keeping its text |
| `Pattern.ClassifyUnbracketed` | server/router.ts:130-131 | A segment not starting with `[` is always a literal |
| `Pattern.ClassifySegRoundTrip` | server/router.ts:113-132 | Writing a classified segment back as pattern text gives the original segment, so classification loses nothing |
| `Pattern.EscapeRegexIsLiteral` | server/router.ts:138-140 | The escaped text is a regex made only of literal characters, and it spells exactly the input, so every metacharacter of a literal segment matches itself |
| `Pattern.CompilePattern` | server/router.ts:103-136 | `/` compiles to no segments and no names. Any other pattern gives one classified segment per non-empty piece between slashes. The parameter names are the names of the non-literal segments, left to right |
| `Pattern.CompileKeepsSegments` | server/router.ts:110-132 | The compiled segment list, written back, is the pattern's own segment list in order |
| `Pattern.SegmentTypes` | server/router.ts:169-187 | `total` is the number of segments. `staticCount` is the number of segments ranked static, that is not starting with `[` (their multiplicity among the ranks), so `staticCount <= total`. `hasDynamic` holds iff some segment is ranked dynamic by its prefix, and `hasCatchAll` iff some is ranked catch-all |
| `Pattern.CountRankIsMultiplicity` | server/router.ts:175-179 | The running count of a rank over the segments equals the number of segments of that rank |
| `Pattern.CountPositive` | server/router.ts:184-185 | A rank's count is positive exactly when some segment has that rank |
| `Pattern.RankByPrefix` | server/router.ts:175-179 | Ranking looks only at prefixes: `[...` is catch-all, a `[` not followed by `.` is dynamic, a segment not starting with `[` is static |
| `Pattern.CaptureIsRankedAsCapture` | server/router.ts:175-179 | Every segment compiled to a capture is ranked as that kind of capture, and a segment ranked static is compiled as a literal |
| `Pattern.RankDivergesFromCompile` | server/router.ts:175-179 | `[foo-bar]` is compiled as a literal but ranked dynamic, and `[...a-b]` is compiled as a literal but ranked catch-all |
| `Matching.MatchSegsSound` | server/router.ts:134 | Whatever the matcher returns is one fitting value per segment, and the values joined with `/` give back the text |
| `Matching.MatchSegsComplete` | server/router.ts:134 | Whenever some fitting decomposition of the text exists, the matcher succeeds |
| `Matching.MatchRegexExact` | server/router.ts:134 | A path is accepted exactly when it is `/` followed by the join of a fitting value per segment: the anchored regex's language |
| `Matching.MatchSegsUnique` | server/router.ts:113-128 | When catch-alls occur only last, the fitting decomposition is unique and is what is captured |
| `Matching.TrailingCatchAllIsSuffix` | server/router.ts:114-119 | A trailing catch-all captures the whole rest of the path after the values of the segments before it |
| `Matching.GreedyCatchAll` | server/router.ts:118 | A catch-all followed by more segments captures at least as much as in any fitting decomposition, which is the regex engine's greedy choice |
| `Matching.NonTrailingCatchAllIsGreedy` | server/router.ts:118 | For `/[...a]/[...b]` on `x/y/z`, the split `x`, `y/z` fits, yet the captures are `x/y` and `z` |
| `Matching.StaticSegsMatchOnlyTheirText` | server/router.ts:130-134 | A list of literal segments accepts exactly one path: `/` + the literals joined with `/` |
| `Sorting.SortBySorted` | server/router.ts:147-148 | For any total preorder the sort returns a permutation of its input that is ordered by the comparator |
| `Sorting.SortByStable` | server/router.ts:148 | Elements the comparator ties keep their input order, as with the stable `Array.prototype.sort` |
| `Sorting.SortByIgnoresInputOrder` | server/router.ts:148 | When ties are only between equal elements, the result does not depend on the input order |
| `Routes.ComparePatternsIsKeyOrder` | server/router.ts:148-166 | A pattern sorts first exactly when its key (no catch-all, no dynamic segment, more segments, more segments not starting with `[`) is smaller, or the keys tie and it is lexicographically smaller. It compares equal only to itself |
| `Routes.ComparePatternsAntisymmetric` | server/router.ts:148-166 | The comparator is antisymmetric |
| `Routes.ComparePatternsTransitive` | server/router.ts:148-166 | The comparator is transitive |
| `Routes.CompareIsTotalPreorder` | server/router.ts:148-166 | On route records the comparator is a total preorder, and two records tie exactly when their patterns are equal |
| `Routes.SortRoutes` | server/router.ts:147-167 | `sortRoutes` returns a permutation of the table ordered by specificity |
| `Routes.SortRoutesStable` | server/router.ts:147-167 | Records with the same pattern keep their relative order |
| `Routes.SortIgnoresInputOrder` | server/router.ts:147-167 | With distinct patterns, the sorted table is the same whatever the order of discovery |
| `Routes.SpecificityExample` | server/router.ts:147-187 | `/a/b`, `/a/[id]` and `/a/[...rest]` come out in that order from any input order |
| `Routes.ExampleStats` | server/router.ts:169-187 | The statistics of `/a/b`, `/a/[id]` and `/a/[...rest]` are (2, 2, no, no), (2, 1, dynamic) and (2, 1, catch-all) |
| `Routes.BuildParamsLookup` | server/router.ts:200-203 | The params object has exactly the parameter names other than `__proto__` as keys: assigning `__proto__` on a plain object runs the inherited setter and adds no key. A name not repeated later maps to its own capture; otherwise the later assignment wins |
| `Routes.ParamsOfCapture` | server/router.ts:199-203 | For every declared name other than `__proto__`, `params[paramNames[i]]` is the value the path gives the segment declaring that name, and `__proto__` is never a key. Each such value fits its segment: a `[name]` value is one non-empty, slash-free piece |
| `Routes.ProtoParamIsDropped` | server/router.ts:123-127 | `[__proto__]` is a dynamic segment named `__proto__`, yet its capture never appears in the params object |
| `Routes.FirstMatch` | server/router.ts:197-206 | The index returned is of a matching route with no matching route before it, and there is none exactly when no route matches |
| `Routes.MatchRoute` | server/router.ts:193-208 | The answer is null exactly when no route matches. Otherwise it is the first matching route in table order, with the params of that match |
| `Routes.RankedStaticCompilesToLiterals` | server/router.ts:130-131 | A pattern with no segment starting with `[` compiles to literal segments only |
| `Routes.StaticPatternMatchesOnlyItself` | server/router.ts:130-140 | A canonical all-static pattern matches exactly the one path equal to the pattern |
| `Routes.RootAndTrailingSlash` | server/router.ts:106-108 | `/` matches only `/`, and `/blog` matches `/blog` but not `/blog/`: there is no trailing-slash normalisation |
| `Routes.StaticRouteWins` | server/router.ts:153-156 | In a sorted table, when an all-static route matches a path, the answer is an all-static route, never a dynamic or catch-all one |
| `Routes.HyphenatedParamIsLiteralButRankedDynamic` | server/router.ts:123-131 | `/a/[foo-bar]` compiles to two literals with no parameter names, yet is ranked as having a dynamic segment |
| `Discovery.IsGroupAffixes` | server/router.ts:92 | A directory is a route group exactly when its name starts with `(` and ends with `)` |
| `Discovery.ScanDir` | server/router.ts:34-98 | `scanDir` itself has no contract of its own. Its records are characterised by `Discovery.ScanDirExact` (which directories yield a record), `Discovery.DiscoveredRoute` (each record's fields) and `Discovery.ScanDirWellCompiled` (each matcher is its pattern's compilation) |
| `Discovery.UrlNames` | server/router.ts:91-96 | Every URL segment comes from a directory name on the way and none is a group name; every non-group name on the way is kept, and a path without groups is kept whole |
| `Discovery.UrlNamesAppend` | server/router.ts:91-96 | Dropping groups distributes over concatenation, so with the single-name cases above the URL segments are exactly the non-group names, in their order |
| `Discovery.ScanRoutes` | server/router.ts:26-32 | `scanRoutes` returns the scanned records, each exactly once, ordered by specificity, and every record's matcher is its pattern's compilation |
| `Discovery.ScanDirExact` | server/router.ts:34-98 | A record is discovered exactly when some readable directory reached through readable directories holds `page.tsx` and that record is its route |
| `Discovery.ScanRoutesExact` | server/router.ts:26-32 | The table holds exactly the routes of the directories holding `page.tsx` |
| `Discovery.ScanDirWellCompiled` | server/router.ts:69-83 | Every discovered record carries the matcher and names its pattern compiles to |
| `Discovery.RouteAtPattern` | server/router.ts:71-95 | A route's pattern is `/` + the `/`-join of the inherited segments and the non-group directory names on the way down |
| `Discovery.RouteAtPage` | server/router.ts:53-70 | A route's page path is the serve path `/app/.../page.tsx` of its directory |
| `Discovery.RouteAtLayouts` | server/router.ts:59-62 | A route's layouts are the inherited ones, then the `layout.tsx` of each directory on the way down, root to leaf |
| `Discovery.RouteAtBoundary` | server/router.ts:64-66 | A route's loading, error and not-found path is the deepest such file on the way down, else the inherited one |
| `Discovery.DiscoveredRoute` | server/router.ts:59-83 | From the app directory, a route's pattern, page, layouts and three boundaries are determined by the directory names and files along its path |
| `Discovery.UnreadableSiblingIsSkipped` | server/router.ts:45-50 | An unreadable subdirectory contributes no routes, and the routes of its siblings are unchanged |
| `Discovery.RouteAtCanonical` | server/router.ts:71-72 | In a tree with well-formed names, a discovered pattern splits back into exactly its URL segments and is in canonical form |
| `Discovery.ExamplePostRoute` | server/router.ts:34-98 | In the example app, the post page is `/blog/[slug]`, with the root and blog layouts, no loading component, and the root's error and not-found boundaries |
| `Client.ToClientRoundTrip` | server/index.ts:60 | Dropping the matcher for `/__routes` loses nothing: for a route whose matcher is its pattern's compilation, recompiling on the client gives the original route back |
| `Client.FromClient` | client/router.tsx:79 | The client's rebuilt route carries the matcher its pattern compiles to. It is well-compiled exactly when the parameter names it received are the ones that pattern compiles to |
| `Client.ToClientTable` | server/index.ts:60 | The table the client receives has the records, in order, each without its matcher |
| `Client.ReadSegment` | client/router.tsx:49-67 | One iteration of the client loop yields the server's classification of the segment, its regex part and its parameter name, if any |
| `Client.ClientCompilePattern` | client/router.tsx:39-72 | The client's loop computes exactly what the server's `compilePattern` computes: the same segments, regex source and parameter names |
| `Client.ClientFirstMatchIsFirst` | client/router.tsx:78-88 | The client returns the first matching route, and none exactly when no route matches |
| `Client.ClientMatchRoute` | client/router.tsx:77-90 | The client answer is null exactly when no route matches. Otherwise it is the first matching route, with params built from the recompiled pattern |
| `Client.ClientAgreesWithServer` | client/router.tsx:77-90 | For every path, the client matching the serialised table gives the same route and params as the server matching the original table |
| `Client.FindNotFoundPath` | client/router.tsx:125-130 | The answer is the non-empty not-found path of the first route that has one, and null exactly when none has |
| `Navigator.FirstFailure` | client/router.tsx:99-102 | A batch of imports fails exactly when some import fails, with the message of a failing one |
| `Navigator.LoadRouteModules` | client/router.tsx:95-117 | Loading succeeds exactly when the page, every layout and every given boundary import. It then holds the page, the layouts in order, the match's params, and a loading or error component exactly when a non-empty path was given |
| `Navigator.LoadErrorMessage` | client/router.tsx:169 | The error shown is never empty, and it is the failure's message when that is non-empty |
| `Navigator.Resolve` | client/router.tsx:140-173 | `resolve` carries no contract of its own. `Navigator.ResolveOutcome` states what it leaves behind, `Navigator.ResolveIdempotent` that a repeat changes nothing, and `Navigator.ResolveConsistent` that it establishes the navigator invariant |
| `Navigator.ResolveOutcome` | client/router.tsx:140-173 | `resolve` keeps the table and sets not-found exactly when nothing matches, clearing the loaded route and the error. When a not-found path exists, the custom not-found component is set exactly when that module imports; otherwise the previous one is kept. On a match the error is cleared exactly when loading succeeds, and the loaded route is then installed. Otherwise the old route stays and the error is the non-empty load message |
| `Navigator.ResolveIdempotent` | client/router.tsx:140-173 | Resolving the same path a second time changes nothing |
| `Navigator.FetchDone` | client/router.tsx:176-194 | The mount effect's completion. Its contract is stated by `Navigator.FetchOutcome` and `Navigator.FetchDoneConsistent` |
| `Navigator.FetchOutcome` | client/router.tsx:176-194 | A cancelled effect changes nothing. A failed fetch shows the error view "Failed to fetch route table". A fetched table is stored and the current location resolved against it |
| `Navigator.NavigateBeforeRoutes` | client/router.tsx:30-34 | Before the route table has loaded, `navigate` does nothing |
| `Navigator.Navigate` | client/router.tsx:197-203 | `navigate` carries no contract of its own. `Navigator.NavigateBeforeRoutes`, `Navigator.NavigateOutcome` and `Navigator.NavigateConsistent` state it |
| `Navigator.NavigateOutcome` | client/router.tsx:197-203 | With the table loaded, `navigate` appends exactly the href to the history and keeps the table. It shows the 404 exactly when no route matches the href as given. On a match it installs the loaded modules and clears the error when every import succeeds, and otherwise keeps the previous route and sets an error |
| `Navigator.PopStateOutcome` | client/router.tsx:205-207 | Before the table loads a popstate changes nothing. Afterwards it keeps the table and shows the 404 exactly when no route matches the pathname |
| `Navigator.PopState` | client/router.tsx:205-207 | The popstate listener. `Navigator.PopStateOutcome` and `Navigator.PopStateConsistent` state its contract |
| `Navigator.InitialConsistent` | client/router.tsx:133-137 | The initial state satisfies the navigator invariant: a 404 state holds no loaded route, and an error, when present, has a non-empty message |
| `Navigator.ResolveConsistent` | client/router.tsx:140-173 | `resolve` establishes that invariant from any state |
| `Navigator.FetchDoneConsistent` | client/router.tsx:176-194 | The mount effect's completion keeps that invariant |
| `Navigator.NavigateConsistent` | client/router.tsx:197-203 | `navigate` keeps that invariant |
| `Navigator.PopStateConsistent` | client/router.tsx:205-207 | The popstate listener keeps that invariant |
| `Navigator.Render` | client/router.tsx:217-245 | The render branch. `Navigator.RenderPrecedence` states which view it picks for every state |
| `Navigator.RenderPrecedence` | client/router.tsx:217-245 | Each view is shown exactly when its condition holds and no earlier one does. The order is error, no table (loading), 404 (custom or built-in), nothing loaded (loading), then the page |
| `Navigator.NavigateThenRender` | client/router.tsx:197-245 | After navigating, an unmatched href shows a 404. It is the custom one exactly when the table's not-found module imports, or when the table has none and a custom one was already installed. A matched href whose modules import shows its layout tree, and one whose load fails shows the error view |
| `Navigator.PathnameOf` | client/router.tsx:206 | The pathname is the longest prefix of the href before its first `?` or `#` |
| `Navigator.NavigateAgreesWithPopState` | client/router.tsx:200-207 | With the pathname resolved, arriving at an entry by `navigate` and returning to it by popstate give the same state, and a popstate right after changes nothing |
| `Navigator.NavigateToPlainPath` | client/router.tsx:200-203 | On hrefs without `?` or `#`, resolving the pathname and resolving the href coincide |
| `Navigator.NavigateAndPop` | client/router.tsx:200-207 | Navigating to an unmatched href shows a 404, and popping to a matched pathname then clears it |
| `Navigator.NavigateWithQueryIsNotFound` | client/router.tsx:200-203 | With only `/blog` in the table, `navigate("/blog?tab=2")` pushes the href and sets not-found. A popstate to the same entry, or navigating by its pathname, does not |
| `Layout.LayoutRenderer` | client/layout-renderer.tsx:12-30 | The loop wrapping from the last layout to the first builds the layouts around the error boundary, around the Suspense, around the page |
| `Layout.RenderSpine` | client/layout-renderer.tsx:13-27 | From the root down: the layouts in array order (`layouts[0]` outermost), an error boundary iff an error component is given, a Suspense iff a loading component is given directly around the page, then the page as innermost leaf |
| `Layout.RenderParams` | client/layout-renderer.tsx:13-26 | The page, every layout and the error boundary receive the same params |
| `Layout.RenderDepth` | client/layout-renderer.tsx:12-29 | The depth is the number of layouts, plus one per given boundary, plus one. With none of them the tree is the page alone |
| `Transform.LoaderFor` | server/transform.ts:78-79 | The loader is tsx exactly for `.tsx` files and ts exactly for `.ts` files; every other file is js |
| `Transform.LoaderOfExtension` | server/transform.ts:78-79 | `.tsx` compiles as tsx, `.ts` as ts, and `.jsx` and `.js` as js |
| `Transform.TransformFile` | server/transform.ts:68-93 | A failure leaves the cache unchanged. The compiler runs only after a successful stat, a cache miss and a successful read |
| `Transform.CacheHit` | server/transform.ts:69-75 | An entry with the file's current mtime is returned as is: nothing is read or compiled and the cache is unchanged |
| `Transform.HitIgnoresContents` | server/transform.ts:72-75 | A hit does not depend on what reading or compiling the file would give |
| `Transform.MissStores` | server/transform.ts:77-92 | After a successful miss the answer is the compiler output with its `@/` specifiers rewritten by the program's own resolver order, and the cache holds that same code under the file's current mtime |
| `Transform.SecondCallIsHit` | server/transform.ts:72-92 | A second call on an unchanged file answers the same from the cache without compiling |
| `Transform.CompiledAtMostOnce` | server/transform.ts:68-93 | After a first successful call, every later call on the unchanged file gives the same result without compiling |
| `Transform.OnlyOwnEntryChanges` | server/transform.ts:68-93 | A call changes at most the entry of its own file, and only when it succeeds |
| `Transform.Invalidate` | server/transform.ts:95-97 | `invalidateCache(p)` removes key `p` and keeps every other entry |
| `Transform.InvalidateThenRecompute` | server/transform.ts:95-97 | After invalidation the next call on a readable file compiles again |
| `Transform.InvalidateOtherKeepsHit` | server/transform.ts:95-97 | Invalidating another file does not disturb a hit |
| `Aliases.FirstExisting` | server/transform.ts:18-33 | The answer is the first candidate, in order, that exists, and none exactly when no candidate exists |
| `Aliases.FirstExistingPicksFirst` | server/transform.ts:18-24 | A candidate preceded only by missing ones is the answer |
| `Aliases.ResolveAsWritten` | server/transform.ts:14-35 | The resolver as written answers only existing paths among its candidates (`x` + each extension, `x` itself, then `x/index` + each extension), and answers none exactly when none of them exists |
| `Aliases.DirectoryResolvesToItself` | server/transform.ts:16-23 | As written, an existing `x` with no file for an extension resolves to `x` itself, even when it is a directory with an index file |
| `Aliases.IndexNeverChosen` | server/transform.ts:14-35 | As written, on a filesystem where parents of existing paths exist, an index file is never the answer |
| `Aliases.DirectoryImportCounterexample` | server/transform.ts:14-35 | As written, `@/components` with `components/index.tsx` present resolves to the directory `components` |
| `Aliases.ResolveAlias` | server/transform.ts:14-35 | The corrected resolver answers only existing paths among its candidates (`x` + each extension, then `x/index` + each extension, then `x` itself), and none exactly when none of them exists |
| `Aliases.ResolversFindSame` | server/transform.ts:14-35 | Both orders find an answer on exactly the same inputs; they differ only in which candidate they pick |
| `Aliases.DirectoryResolvesToIndex` | server/transform.ts:26-32 | A directory import without a file for an extension resolves to its first existing index file |
| `Aliases.ResolveAgreesWithoutIndex` | server/transform.ts:14-35 | Where no index file exists, the resolver agrees with the order as written |
| `Aliases.Replacement` | server/transform.ts:55-57 | A specifier `@/x` becomes `/` + the path the resolver as written answers, or `/x` when nothing resolves. The result is always `/` followed by an existing path or by `x` itself |
| `Aliases.DirectoryImportRewrite` | server/transform.ts:55-57 | As written, `@/components` with `components/index.tsx` present is rewritten to `/components`, the directory |
| `Aliases.DirectoryImportCorrected` | server/transform.ts:26-32 | With the corrected order the same import resolves to `components/index.tsx` |
| `Aliases.MatchAtStart` | server/transform.ts:38-39 | A match of either import regex consists of text with no `@` or `$`, the specifier (`@/` then non-quote characters), a closing quote, and text with no `$`. Its converse is `Aliases.FromRecognised` and `Aliases.ImportRecognised` |
| `Aliases.FromRecognised` | server/transform.ts:38 | Every text of the form `from`, one or more white-space characters, a quote, `@/`, one or more non-quote characters and a quote is matched at its start, with the specifier and the match end where `importRegex` puts them |
| `Aliases.ImportRecognised` | server/transform.ts:39 | Every text of the form `import`, white space, `(`, white space, a quote, `@/`, one or more non-quote characters, a quote, white space and `)` is matched at its start, with the specifier and the match end where `dynamicImportRegex` puts them |
| `Aliases.Scan` | server/transform.ts:44-49 | The global scan from a position finds nothing exactly when the regex matches nowhere from there. Otherwise its first hit is the first match at or after that position. Every hit has the scanned kind and lies where the regex matches |
| `Aliases.Hits` | server/transform.ts:41-49 | Every collected match of either regex has the shape of a match at the place where it lies in the code, and every `importRegex` match comes before every `dynamicImportRegex` match, as the two loops push them |
| `Aliases.HitsExample` | server/transform.ts:38-49 | `from '@/a'` yields exactly one match: the static import at 0, with the specifier at 6..9 and the match ending at 10 |
| `Aliases.AliasRunIsSpecifier` | server/transform.ts:62 | Inside a match, the inner replacement changes exactly the specifier; `from '`, `import(`, the quotes and `)` stay as they are |
| `Aliases.NoAliasUnchanged` | server/transform.ts:37-51 | Code with no `@/` anywhere is returned unchanged |
| `Aliases.FirstOccurrenceIsHit` | server/transform.ts:61-63 | The matched text of the first match of its kind first occurs where the match is, so the string `replace` edits that place |
| `Aliases.SingleAliasRewrite` | server/transform.ts:37-66 | With a single alias match, the result is the code with just that specifier replaced by its resolution |
| `Aliases.RewriteExample` | server/transform.ts:37-66 | With `a.tsx` present, `from '@/a'` is rewritten to `from '/a.tsx'`, an instance of the single-match case |
| `Aliases.RewritePathAliases` | server/transform.ts:37-66 | `rewritePathAliases` carries no contract of its own. `Aliases.NoAliasUnchanged` and `Aliases.SingleAliasRewrite` state it, with `Aliases.Hits`, `Aliases.FirstOccurrenceIsHit` and `Aliases.AliasRunIsSpecifier` for each step |
| `Server.MimeType` | server/index.ts:26-41 | The type is `application/octet-stream` exactly for extensions missing from the table |
| `Server.ServeStatic` | server/index.ts:37-49 | A file is served exactly when it exists and can be read, with status 200, the MIME type of its extension and its content |
| `Server.ModuleCandidatesNeverBare` | server/index.ts:71-89 | No candidate for an extensionless module is `base` itself: each extends `base` and ends in the module extension tried, first as `base` + extension, then as `base/index` + extension |
| `Server.ResolveLocal` | server/index.ts:71-89 | `resolveModulePath` answers an existing candidate, never `base` itself, and answers nothing exactly when no candidate exists |
| `Server.LocalDirectoryResolvesToIndex` | server/index.ts:80-87 | Unlike the alias resolver, the request handler serves a directory `base` from its index file when no `base` + extension exists |
| `Server.FailureResponse` | server/index.ts:126-134 | A failure is 404 "Not found" exactly when its code is ENOENT, otherwise 500 with body `Transform error: ` + its message |
| `Server.ServeModule` | server/index.ts:119-135 | The status is 200, 404 or 500. It is 404 exactly when the transform fails with ENOENT, and the cache changes only on a 200 |
| `Server.RouteTableFirst` | server/index.ts:58-67 | `/__routes` answers 200 JSON with every record, in order, less its matcher, and leaves the cache alone |
| `Server.OnlyModulesTouchCache` | server/index.ts:92-137 | A request that is not a module request leaves the transform cache unchanged |
| `Server.ModuleRequestIsTransformed` | server/index.ts:103-107 | A path with a module extension is transformed, ahead of the `/public/` and `.css` rules |
| `Server.UnresolvedModuleIsNotFound` | server/index.ts:109-115 | An extensionless module path with no existing candidate is a 404 and touches no cache |
| `Server.ResolvedModuleIsTransformed` | server/index.ts:108-120 | An extensionless module path is served from its first existing candidate |
| `Server.MissingCssIsNotFound` | server/index.ts:147-154 | A `.css` path that is no module and cannot be served is a 404 |
| `Server.CssIsNoModule` | server/index.ts:92-101 | A `.css` path is never the route table or a module request, and is not a possible module when its extension is `.css` |
| `Server.ShellForPages` | server/index.ts:156-165 | Outside the earlier rules, a path with no extension or with `.html` gets the HTML shell with status 200 |
| `Server.RootFallback` | server/index.ts:167-173 | Any remaining path is a file below the root or a 404 |
| `Server.Handle` | server/index.ts:51-174 | The request handler carries no contract of its own. `Server.StatusIsKnown`, `Server.OnlyModulesTouchCache` and the per-rule lemmas above state it |
| `Server.StatusIsKnown` | server/index.ts:51-174 | Every response is 200, 404 or 500, and a 500 only comes from a module request |
| `Text.SplitJoin` | server/router.ts:110 | Joining pieces without the separator and splitting again gives the pieces back |
| `Text.JoinSplit` | server/router.ts:110 | Splitting and joining again gives the string back |
| `Text.SegmentsOfPath` | server/router.ts:110 | Splitting `/` + a join of segment names on `/` and dropping empty pieces gives the names back |
| `Text.StrCmpAntisymmetric` | server/router.ts:165 | The tie-break string order is antisymmetric |
| `Text.StrCmpTransitive` | server/router.ts:165 | The tie-break string order is transitive |
| `Text.ExtNameOfSuffix` | server/transform.ts:78 | `extname` of a stem ending in a name character, followed by an extension, is that extension |
| `Text.IndexOf` | server/transform.ts:62 | The position found is the first occurrence of the pattern, and there is none exactly when it occurs nowhere |
| `Text.SubstituteLiteral` | server/transform.ts:62 | A replacement without `$` is inserted literally |

## Left out

- File-system and HTTP I/O (`readdir`, `stat`, `access`, `readFile`, `writeHead`) are parameters: a directory tree, a set of existing paths, and functions giving each path's outcome. `path.resolve` and `path.join` normalisation (`..`, `.`, repeated slashes) is not modelled; paths are looked up literally. Windows separators and symbolic links are left out too.
- The esbuild compiler is an uninterpreted function that may fail. Its output is not modelled.
- `mtimeMs` is a floating-point number. It is modelled as an opaque stamp compared only for equality.
- `localeCompare` depends on the locale. It is modelled as `Text.StrCmp`, lexicographic order on characters.
- React rendering, hooks, Suspense semantics and the `ErrorBoundary` component are out of scope; the model gives the view chosen and the tree built. Dynamic `import()` and `fetch` are outcome parameters, and the History API is a list of pushed entries.
- `Promise.all` rejects with whichever import fails first in time. The model takes the first failing import in array order.
- The order of asynchronous completions is out of scope. So are the race between a mount effect and later navigation, and waiting for the initial scan (`routesReady`). The request handler takes the table the scan produced.
- JSON text of `/__routes`, the HTML shell, the import map and the head-asset strings are constants with no logic. Responses carry what they are made of, not their bytes.
- CLI start-up, DOM mounting, logging, live reload and the server's listen call are left out.
- `Aliases.RewritePathAliases`: the rewrite is characterised (by `Aliases.SingleAliasRewrite`) when the code holds a single alias match. With several matches each `replace` edits the first occurrence of its match text; that is modelled but not given its own property.
- `Aliases.SingleAliasRewrite`: requires a replacement without `$`, since `String.prototype.replace` would expand `$` patterns in it. The expansion itself is modelled.
- `Server.MissingCssIsNotFound`: requires the path not to be a possible module. The reason is `/app/.css`: its extension is empty, so it is treated as an extensionless module request.
- `Server.CssIsNoModule`: the same `/app/.css` case keeps the "not a possible module" conclusion conditional on the extension being `.css`.
- `Matching.MatchRegexExact`: a `[name]` value may contain line terminators (`[^/]`), while a `[...name]` value may not (`.`), following JavaScript's regex semantics.
- Characters: a Dafny `string` is a sequence of Unicode scalar values, while a JavaScript string is a sequence of UTF-16 code units. Three differences follow:
  - a character outside the Basic Multilingual Plane is one element here and two code units in JavaScript, so lengths, indices and `[^/]` / `.` matches count it once;
  - a lone surrogate, which a JavaScript string may hold, cannot occur here;
  - `Text.StrCmp` orders U+E000–U+FFFF before every astral character, while code-unit order puts them after, because an astral character begins with a surrogate (U+D800–U+DBFF). The tie-break of `Routes.ComparePatterns` can therefore differ on patterns that first differ at such a pair.

## Findings

| source | as written | input that shows it | evidently intended | confidence | as-written member | corrected member |
|---|---|---|---|---|---|---|
| client/router.tsx:200-203 | `navigate` resolves the whole href, query string and fragment included. The mount effect and the popstate listener resolve `location.pathname` | A table whose only route is `/blog` and `navigate("/blog?tab=2")`: the 404 is shown, while a popstate back to that same entry loads the page | Resolve the pathname of the href, as the other two entry points do | not executed | `Navigator.NavigateWithQueryIsNotFound` | `Navigator.NavigateAgreesWithPopState` |
| server/transform.ts:16-32 | The bare specifier is tried before the index files. An existing directory therefore resolves to itself, and the index loop is unreachable on a real file system | `@/components` with `components/index.tsx` present is rewritten to `/components`, a directory | A directory import resolves to its index file | not executed | `Aliases.DirectoryImportRewrite` | `Aliases.DirectoryResolvesToIndex` |

`Navigator.Navigate` models `navigate` as written. `Navigator.NavigateToPathname` is the corrected form. `Aliases.ResolveAsWritten` models the resolver as written. The alias rewriter (`Aliases.Replacement`, and through it `Transform.TransformFile`) keeps the program's order, so `Aliases.DirectoryImportRewrite` shows the directory import rewritten to `/components`. `Aliases.ResolveAlias` is the corrected order: `Aliases.DirectoryImportCorrected` resolves the same import to its index file. `Aliases.IndexNeverChosen` shows that no index file is ever chosen as written, and `Aliases.ResolveAgreesWithoutIndex` shows that both orders agree wherever no index file exists.
