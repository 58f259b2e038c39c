/** `transformFile` and `invalidateCache` of server/transform.ts: an
    mtime-keyed cache in front of the compiler and the alias rewriter. The
    cache is passed in and handed back instead of living in a module-level
    `Map`. */
module Transform {
  import opened Wrappers
  import opened Text
  import opened Aliases

  /** A file's modification time (`mtimeMs`), only ever compared for equality. */
  datatype Mtime = Mtime(stamp: int)

  /** `CacheEntry`: the compiled, rewritten code and the mtime it was made from. */
  datatype CacheEntry = CacheEntry(mtime: Mtime, code: string)

  type Cache = map<string, CacheEntry>

  /** A rejected promise: Node's `err.code` (absent for compiler errors) and
      `err.message`. */
  datatype Failure = Failure(code: Option<string>, message: string)

  /** The compiler's loader option. */
  datatype Loader = Tsx | Ts | Js

  /** What `transformFile` sees of the world: the paths `access` succeeds on,
      `stat`, `readFile`, and the compiler, which takes the source, the loader
      and the file name and may fail. */
  datatype Disk = Disk(
    present: set<string>,
    stat: string -> Result<Mtime, Failure>,
    read: string -> Result<string, Failure>,
    compile: (string, Loader, string) -> Result<string, Failure>)

  /** The loader chosen from the file's extension. */
  function LoaderFor(path: string): (l: Loader)
    ensures l == Tsx <==> ExtName(path) == ".tsx"
    ensures l == Ts <==> ExtName(path) == ".ts"
  {
    var ext := ExtName(path);
    if ext == ".tsx" then Tsx else if ext == ".ts" then Ts else Js
  }

  /** `.tsx` files are compiled as tsx and `.ts` files as ts; `.jsx` and `.js`
      files, like every other extension, as js. */
  lemma LoaderOfExtension(stem: string, ext: string)
    requires |stem| > 0 && stem[|stem| - 1] != '/'
    requires ext in [".tsx", ".ts", ".jsx", ".js"]
    ensures LoaderFor(stem + ext) == if ext == ".tsx" then Tsx else if ext == ".ts" then Ts else Js
  {
    assert forall j :: 1 <= j < |ext| ==> ext[j] != '.' && ext[j] != '/';
    ExtNameOfSuffix(stem, ext);
  }

  /** The outcome of one `transformFile` call: the code or the failure it
      rejects with, the cache afterwards, and whether the compiler ran. */
  datatype Outcome = Outcome(result: Result<string, Failure>, cache: Cache, compiled: bool)

  /** `cache[path]` is a hit for a file whose current mtime is `mt`. */
  predicate Fresh(cache: Cache, path: string, mt: Mtime) {
    path in cache && cache[path].mtime == mt
  }

  /** `transformFile`: stat the file; serve a cached entry with the same
      mtime; otherwise read, compile, rewrite the aliases and cache the result
      under the mtime. A failing step rejects with its failure. */
  function TransformFile(d: Disk, cache: Cache, path: string): (o: Outcome)
    ensures o.result.Err? ==> o.cache == cache
    ensures o.compiled ==> d.stat(path).Ok? && !Fresh(cache, path, d.stat(path).value) && d.read(path).Ok?
  {
    match d.stat(path)
    case Err(f) => Outcome(Err(f), cache, false)
    case Ok(mt) =>
      if Fresh(cache, path, mt) then Outcome(Ok(cache[path].code), cache, false)
      else
        match d.read(path)
        case Err(f) => Outcome(Err(f), cache, false)
        case Ok(source) =>
          match d.compile(source, LoaderFor(path), path)
          case Err(f) => Outcome(Err(f), cache, true)
          case Ok(js) =>
            var code := RewritePathAliases(d.present, js);
            Outcome(Ok(code), cache[path := CacheEntry(mt, code)], true)
  }

  /** A cache entry with the file's current mtime is served as it is: the
      file is not read, nothing is compiled and the cache stays as it was. */
  lemma CacheHit(d: Disk, cache: Cache, path: string)
    requires d.stat(path).Ok? && Fresh(cache, path, d.stat(path).value)
    ensures TransformFile(d, cache, path) == Outcome(Ok(cache[path].code), cache, false)
  {
  }

  /** A hit does not depend on what reading or compiling the file would give. */
  lemma HitIgnoresContents(d: Disk, e: Disk, cache: Cache, path: string)
    requires d.stat(path) == e.stat(path)
    requires d.stat(path).Ok? && Fresh(cache, path, d.stat(path).value)
    ensures TransformFile(d, cache, path) == TransformFile(e, cache, path)
  {
  }

  /** After a successful miss, the cache holds the rewritten compiler output
      under the file's current mtime. */
  lemma MissStores(d: Disk, cache: Cache, path: string)
    requires d.stat(path).Ok? && !Fresh(cache, path, d.stat(path).value)
    requires d.read(path).Ok?
    requires d.compile(d.read(path).value, LoaderFor(path), path).Ok?
    ensures var code := RewritePathAliases(d.present, d.compile(d.read(path).value, LoaderFor(path), path).value);
      TransformFile(d, cache, path) == Outcome(Ok(code), cache[path := CacheEntry(d.stat(path).value, code)], true)
  {
  }

  /** A second call on an unchanged file is a hit: it answers the same and
      compiles nothing. */
  lemma SecondCallIsHit(d: Disk, cache: Cache, path: string)
    requires TransformFile(d, cache, path).result.Ok?
    ensures var o := TransformFile(d, cache, path);
      TransformFile(d, o.cache, path) == Outcome(o.result, o.cache, false)
  {
    var o := TransformFile(d, cache, path);
    assert Fresh(o.cache, path, d.stat(path).value);
  }

  /** `n` calls in a row on the same file of an unchanged disk. */
  function Calls(d: Disk, cache: Cache, path: string, n: nat): (os: seq<Outcome>)
    ensures |os| == n
    ensures n > 0 ==> os[0] == TransformFile(d, cache, path)
    decreases n
  {
    if n == 0 then []
    else
      var o := TransformFile(d, cache, path);
      [o] + Calls(d, o.cache, path, n - 1)
  }

  /** While the entry is fresh, every call is the same hit. */
  lemma {:induction false} AllHits(d: Disk, cache: Cache, path: string, n: nat)
    requires d.stat(path).Ok? && Fresh(cache, path, d.stat(path).value)
    ensures forall i :: 0 <= i < n ==> Calls(d, cache, path, n)[i] == Outcome(Ok(cache[path].code), cache, false)
    decreases n
  {
    if n > 0 {
      AllHits(d, cache, path, n - 1);
      var os := Calls(d, cache, path, n);
      assert os[1..] == Calls(d, cache, path, n - 1);
      forall i | 1 <= i < n ensures os[i] == Outcome(Ok(cache[path].code), cache, false) {
        assert os[i] == os[1..][i - 1];
      }
    }
  }

  /** A successful call leaves a fresh entry holding the code it answered. */
  lemma SuccessIsCached(d: Disk, cache: Cache, path: string)
    requires TransformFile(d, cache, path).result.Ok?
    ensures var o := TransformFile(d, cache, path);
      d.stat(path).Ok? && Fresh(o.cache, path, d.stat(path).value) && o.cache[path].code == o.result.value
  {
  }

  /** After the first call, the rest of the run starts from its cache. */
  lemma CallsTail(d: Disk, cache: Cache, path: string, n: nat)
    requires n > 0
    ensures Calls(d, cache, path, n)[1..] == Calls(d, TransformFile(d, cache, path).cache, path, n - 1)
  {
  }

  /** Once a call succeeds, every later call on the unchanged file answers
      the same from the cache: the compiler runs at most once. */
  lemma CompiledAtMostOnce(d: Disk, cache: Cache, path: string, n: nat)
    requires TransformFile(d, cache, path).result.Ok?
    ensures var os := Calls(d, cache, path, n);
      forall i :: 1 <= i < n ==> !os[i].compiled && os[i].result == TransformFile(d, cache, path).result
  {
    if n > 1 {
      var o := TransformFile(d, cache, path);
      SuccessIsCached(d, cache, path);
      AllHits(d, o.cache, path, n - 1);
      CallsTail(d, cache, path, n);
      TailAllHits(Calls(d, cache, path, n), Calls(d, o.cache, path, n - 1), o.result, o.cache);
    }
  }

  /** A run whose tail is all the same hit answers that hit after its first call. */
  lemma TailAllHits(os: seq<Outcome>, tail: seq<Outcome>, r: Result<string, Failure>, c: Cache)
    requires |os| > 0 && os[1..] == tail
    requires forall i :: 0 <= i < |tail| ==> tail[i] == Outcome(r, c, false)
    ensures forall i :: 1 <= i < |os| ==> !os[i].compiled && os[i].result == r
  {
    forall i | 1 <= i < |os| ensures !os[i].compiled && os[i].result == r {
      assert os[i] == tail[i - 1];
    }
  }

  /** Only the cache entry of the file itself changes, and only on success. */
  lemma OnlyOwnEntryChanges(d: Disk, cache: Cache, path: string)
    ensures var o := TransformFile(d, cache, path);
      o.cache == cache || (o.result.Ok? && o.cache == cache[path := CacheEntry(d.stat(path).value, o.result.value)])
  {
  }

  /** `invalidateCache`: forget the entry of `path`. */
  function Invalidate(cache: Cache, path: string): (r: Cache)
    ensures path !in r
    ensures forall q :: q != path ==> (q in r <==> q in cache)
    ensures forall q :: q != path && q in cache ==> r[q] == cache[q]
  {
    cache - {path}
  }

  /** After `invalidateCache(p)`, the next `transformFile(p)` reads and
      compiles the file again whenever it can be stat'ed and read. */
  lemma InvalidateThenRecompute(d: Disk, cache: Cache, path: string)
    requires d.stat(path).Ok? && d.read(path).Ok?
    ensures TransformFile(d, Invalidate(cache, path), path).compiled
  {
  }

  /** Invalidating another file does not disturb a hit. */
  lemma InvalidateOtherKeepsHit(d: Disk, cache: Cache, path: string, other: string)
    requires other != path
    requires d.stat(path).Ok? && Fresh(cache, path, d.stat(path).value)
    ensures TransformFile(d, Invalidate(cache, other), path) == Outcome(Ok(cache[path].code), Invalidate(cache, other), false)
  {
  }
}
