/** What a compiled route pattern matches, and which values it captures.

    server/router.ts hands the compiled text `^/part/part...$` to the JavaScript regex
    engine. Its language is stated here directly on the segment list: a path
    matches when it is "/" followed by the `/`-join of one value per segment,
    where a literal's value is its text, a `[name]` value is non-empty and
    slash-free (`[^/]+`), and a `[...name]` value is non-empty and free of line
    terminators (`.+`, since `.` does not match them). When a catch-all is
    followed by further segments several splits can fit; the engine's
    backtracking then takes the longest catch-all value that lets the rest
    match, and `MatchSegs` reproduces that choice. */
module Matching {
  import opened Wrappers
  import opened Text
  import opened Pattern

  /** The characters JavaScript's `.` does not match. */
  predicate IsLineTerminator(c: char) {
    c == '\n' || c == '\r' || c == '\U{2028}' || c == '\U{2029}'
  }

  /** The values one compiled segment accepts. */
  predicate Fits(s: Seg, v: string) {
    match s
    case Static(text) => v == text
    case Dyn(_) => v != "" && '/' !in v
    case CatchAll(_) => v != "" && forall i :: 0 <= i < |v| ==> !IsLineTerminator(v[i])
  }

  /** One fitting value per segment. */
  predicate AllFit(segs: seq<Seg>, vs: seq<string>) {
    |vs| == |segs| && forall i :: 0 <= i < |segs| ==> Fits(segs[i], vs[i])
  }

  /** The language of a compiled pattern, stated declaratively. */
  ghost predicate Denotes(segs: seq<Seg>, path: string) {
    exists vs :: AllFit(segs, vs) && path == "/" + Join(vs, "/")
  }

  /** Catch-alls occur at most in the last position. */
  predicate CatchAllOnlyLast(segs: seq<Seg>) {
    forall i :: 0 <= i < |segs| - 1 ==> !segs[i].CatchAll?
  }

  function Prepend(v: string, rest: Option<seq<string>>): (r: Option<seq<string>>)
    ensures r.Some? <==> rest.Some?
    ensures r.Some? ==> r.value == [v] + rest.value
  {
    match rest
    case None => None
    case Some(vs) => Some([v] + vs)
  }

  /** The values the regex engine assigns to each segment when matching the
      path text after its leading "/", or None when the regex fails. */
  function MatchSegs(segs: seq<Seg>, s: string): (r: Option<seq<string>>)
    ensures r.Some? ==> |r.value| == |segs|
    decreases |segs|, 1, 0
  {
    if |segs| == 0 then (if s == "" then Some([]) else None)
    else if |segs| == 1 then (if Fits(segs[0], s) then Some([s]) else None)
    else
      match segs[0]
      case Static(text) =>
        if StartsWith(s, text + "/") then Prepend(text, MatchSegs(segs[1..], s[|text| + 1..])) else None
      case Dyn(_) =>
        (match FirstIndexOf(s, '/')
         case None => None
         case Some(k) => if k == 0 then None else Prepend(s[..k], MatchSegs(segs[1..], s[k + 1..])))
      case CatchAll(_) => SplitCatchAll(segs, s, |s| - 1)
  }

  /** Backtracking for a leading catch-all: try the split before the `/` at
      index `k`, then ever shorter ones. */
  function SplitCatchAll(segs: seq<Seg>, s: string, k: int): (r: Option<seq<string>>)
    requires |segs| >= 2 && k < |s|
    ensures r.Some? ==> |r.value| == |segs|
    decreases |segs|, 0, k + 1
  {
    if k < 1 then None
    else if s[k] == '/' && Fits(segs[0], s[..k]) && MatchSegs(segs[1..], s[k + 1..]).Some? then
      Some([s[..k]] + MatchSegs(segs[1..], s[k + 1..]).value)
    else SplitCatchAll(segs, s, k - 1)
  }

  /** Matching the whole path with the compiled regex `^/…$`. */
  function MatchRegex(re: Regex, path: string): Option<seq<string>> {
    if |path| >= 1 && path[0] == '/' then MatchSegs(re.segs, path[1..]) else None
  }

  // ---------------------------------------------------------------------------
  // soundness and completeness

  lemma JoinCons(v: string, rest: seq<string>)
    requires |rest| >= 1
    ensures Join([v] + rest, "/") == v + "/" + Join(rest, "/")
  {
    assert ([v] + rest)[1..] == rest;
  }

  /** Whatever the matcher returns is a fitting decomposition of the text. */
  lemma {:induction false} MatchSegsSound(segs: seq<Seg>, s: string)
    requires MatchSegs(segs, s).Some?
    ensures AllFit(segs, MatchSegs(segs, s).value)
    ensures Join(MatchSegs(segs, s).value, "/") == s
    decreases |segs|, 1, 0
  {
    if |segs| >= 2 {
      match segs[0]
      case Static(text) =>
        MatchSegsSound(segs[1..], s[|text| + 1..]);
        StaticSound(segs, s, text);
      case Dyn(_) =>
        var k := FirstIndexOf(s, '/').value;
        MatchSegsSound(segs[1..], s[k + 1..]);
        DynSound(segs, s, k);
      case CatchAll(_) =>
        SplitCatchAllSound(segs, s, |s| - 1);
    }
  }

  /** The soundness step past a literal first segment. */
  lemma StaticSound(segs: seq<Seg>, s: string, text: string)
    requires |segs| >= 2 && segs[0] == Static(text) && MatchSegs(segs, s).Some?
    requires |text| + 1 <= |s|
    requires var t := s[|text| + 1..];
      MatchSegs(segs[1..], t).Some? && AllFit(segs[1..], MatchSegs(segs[1..], t).value) && Join(MatchSegs(segs[1..], t).value, "/") == t
    ensures AllFit(segs, MatchSegs(segs, s).value)
    ensures Join(MatchSegs(segs, s).value, "/") == s
  {
    var t := s[|text| + 1..];
    assert s == text + "/" + t;
    ConsSound(segs, text, MatchSegs(segs[1..], t).value, t, s);
  }

  /** The soundness step past a `[name]` first segment ending before the
      first `/` at `k`. */
  lemma DynSound(segs: seq<Seg>, s: string, k: nat)
    requires |segs| >= 2 && segs[0].Dyn? && MatchSegs(segs, s).Some?
    requires FirstIndexOf(s, '/') == Some(k)
    requires var t := s[k + 1..];
      MatchSegs(segs[1..], t).Some? && AllFit(segs[1..], MatchSegs(segs[1..], t).value) && Join(MatchSegs(segs[1..], t).value, "/") == t
    ensures AllFit(segs, MatchSegs(segs, s).value)
    ensures Join(MatchSegs(segs, s).value, "/") == s
  {
    var t := s[k + 1..];
    assert s == s[..k] + "/" + t;
    ConsSound(segs, s[..k], MatchSegs(segs[1..], t).value, t, s);
  }

  /** A fitting first value in front of a fitting decomposition of the rest
      is a fitting decomposition of the whole. */
  lemma ConsSound(segs: seq<Seg>, v: string, rest: seq<string>, t: string, s: string)
    requires |segs| >= 2 && Fits(segs[0], v)
    requires AllFit(segs[1..], rest) && Join(rest, "/") == t
    requires s == v + "/" + t
    ensures AllFit(segs, [v] + rest) && Join([v] + rest, "/") == s
  {
    JoinCons(v, rest);
    var vs := [v] + rest;
    forall i | 0 <= i < |segs| ensures Fits(segs[i], vs[i]) {
      if i > 0 {
        assert segs[i] == segs[1..][i - 1] && vs[i] == rest[i - 1];
      }
    }
  }

  lemma {:induction false} SplitCatchAllSound(segs: seq<Seg>, s: string, k: int)
    requires |segs| >= 2 && k < |s|
    requires SplitCatchAll(segs, s, k).Some?
    ensures AllFit(segs, SplitCatchAll(segs, s, k).value)
    ensures Join(SplitCatchAll(segs, s, k).value, "/") == s
    decreases |segs|, 0, k + 1
  {
    if s[k] == '/' && Fits(segs[0], s[..k]) && MatchSegs(segs[1..], s[k + 1..]).Some? {
      MatchSegsSound(segs[1..], s[k + 1..]);
      CatchAllSound(segs, s, k);
    } else {
      SplitCatchAllSound(segs, s, k - 1);
    }
  }

  /** The soundness step for a catch-all value ending before the `/` at `k`. */
  lemma CatchAllSound(segs: seq<Seg>, s: string, k: int)
    requires |segs| >= 2 && 1 <= k < |s| && s[k] == '/' && Fits(segs[0], s[..k])
    requires var t := s[k + 1..];
      MatchSegs(segs[1..], t).Some? && AllFit(segs[1..], MatchSegs(segs[1..], t).value) && Join(MatchSegs(segs[1..], t).value, "/") == t
    ensures SplitCatchAll(segs, s, k) == Some([s[..k]] + MatchSegs(segs[1..], s[k + 1..]).value)
    ensures AllFit(segs, SplitCatchAll(segs, s, k).value)
    ensures Join(SplitCatchAll(segs, s, k).value, "/") == s
  {
    var t := s[k + 1..];
    assert s == s[..k] + "/" + t;
    ConsSound(segs, s[..k], MatchSegs(segs[1..], t).value, t, s);
  }

  /** A fitting decomposition of two or more values, taken apart at its first
      value. */
  lemma Uncons(segs: seq<Seg>, s: string, vs: seq<string>)
    requires |segs| >= 2
    requires AllFit(segs, vs) && Join(vs, "/") == s
    ensures |vs[0]| < |s| && s[|vs[0]|] == '/'
    ensures s[..|vs[0]|] == vs[0]
    ensures s[|vs[0]| + 1..] == Join(vs[1..], "/")
    ensures AllFit(segs[1..], vs[1..])
  {
    var v := vs[0];
    JoinCons(v, vs[1..]);
    assert vs == [v] + vs[1..];
    var t := Join(vs[1..], "/");
    assert s == v + "/" + t;
    assert forall i | 0 <= i < |segs[1..]| :: segs[1..][i] == segs[i + 1] && vs[1..][i] == vs[i + 1];
  }

  /** Whenever some fitting decomposition exists, the matcher succeeds. */
  lemma {:induction false} MatchSegsComplete(segs: seq<Seg>, s: string, vs: seq<string>)
    requires AllFit(segs, vs) && Join(vs, "/") == s
    ensures MatchSegs(segs, s).Some?
    decreases |segs|
  {
    if |segs| >= 2 {
      Uncons(segs, s, vs);
      var v := vs[0];
      var t := Join(vs[1..], "/");
      MatchSegsComplete(segs[1..], t, vs[1..]);
      match segs[0]
      case Static(text) =>
        assert s[..|text| + 1] == text + "/";
      case Dyn(_) =>
        assert s == v + "/" + t;
        FirstSlashAfterSegment(v, t);
      case CatchAll(_) =>
        SplitCatchAllFinds(segs, s, |s| - 1, |v|);
    }
  }

  /** The first `/` of `v + "/" + t` is the one after `v` when `v` is slash-free. */
  lemma FirstSlashAfterSegment(v: string, t: string)
    requires '/' !in v
    ensures FirstIndexOf(v + "/" + t, '/') == Some(|v|)
  {
    var s := v + "/" + t;
    assert s[|v|] == '/';
    assert s[..|v|] == v;
  }

  /** The backtracking search finds a split if one exists at or below `k`. */
  lemma {:induction false} SplitCatchAllFinds(segs: seq<Seg>, s: string, k: int, k0: int)
    requires |segs| >= 2 && k < |s|
    requires 1 <= k0 <= k
    requires s[k0] == '/' && Fits(segs[0], s[..k0]) && MatchSegs(segs[1..], s[k0 + 1..]).Some?
    ensures SplitCatchAll(segs, s, k).Some?
    decreases k
  {
    if k > k0 && !(s[k] == '/' && Fits(segs[0], s[..k]) && MatchSegs(segs[1..], s[k + 1..]).Some?) {
      SplitCatchAllFinds(segs, s, k - 1, k0);
    }
  }

  /** The regex accepts a path exactly when the path is in the declarative
      language of its segment list. */
  lemma MatchRegexExact(re: Regex, path: string)
    ensures MatchRegex(re, path).Some? <==> Denotes(re.segs, path)
  {
    if MatchRegex(re, path).Some? {
      MatchRegexSound(re, path);
    }
    if Denotes(re.segs, path) {
      var vs :| AllFit(re.segs, vs) && path == "/" + Join(vs, "/");
      MatchRegexComplete(re, path, vs);
    }
  }

  lemma MatchRegexSound(re: Regex, path: string)
    requires MatchRegex(re, path).Some?
    ensures AllFit(re.segs, MatchRegex(re, path).value)
    ensures path == "/" + Join(MatchRegex(re, path).value, "/")
  {
    MatchSegsSound(re.segs, path[1..]);
    assert path == "/" + path[1..];
  }

  lemma MatchRegexComplete(re: Regex, path: string, vs: seq<string>)
    requires AllFit(re.segs, vs) && path == "/" + Join(vs, "/")
    ensures MatchRegex(re, path).Some?
  {
    assert path[1..] == Join(vs, "/");
    MatchSegsComplete(re.segs, path[1..], vs);
  }

  // ---------------------------------------------------------------------------
  // which values are captured

  /** Without a catch-all before the last segment the fitting decomposition is
      unique, so the captured values are exactly it. */
  lemma {:induction false} MatchSegsUnique(segs: seq<Seg>, s: string, vs: seq<string>)
    requires CatchAllOnlyLast(segs)
    requires AllFit(segs, vs) && Join(vs, "/") == s
    ensures MatchSegs(segs, s) == Some(vs)
    decreases |segs|
  {
    if |segs| == 1 {
      assert s == vs[0];
      assert vs == [vs[0]];
    } else if |segs| >= 2 {
      Uncons(segs, s, vs);
      var v := vs[0];
      var t := Join(vs[1..], "/");
      assert vs == [v] + vs[1..];
      assert CatchAllOnlyLast(segs[1..]) by {
        forall i | 0 <= i < |segs[1..]| - 1 ensures !segs[1..][i].CatchAll? {
          assert segs[1..][i] == segs[i + 1];
        }
      }
      MatchSegsUnique(segs[1..], t, vs[1..]);
      match segs[0]
      case Static(text) =>
        assert s[..|text| + 1] == text + "/";
      case Dyn(_) =>
        assert s == v + "/" + t;
        FirstSlashAfterSegment(v, t);
      case CatchAll(_) =>
        assert false;
    }
  }

  lemma {:induction false} JoinSnoc(vs: seq<string>, v: string)
    requires |vs| >= 1
    ensures Join(vs + [v], "/") == Join(vs, "/") + "/" + v
    decreases |vs|
  {
    if |vs| == 1 {
      assert (vs + [v])[1..] == [v];
    } else {
      assert (vs + [v])[1..] == vs[1..] + [v];
      JoinSnoc(vs[1..], v);
    }
  }

  /** A trailing catch-all captures the rest of the path after the values of
      the segments before it. */
  lemma TrailingCatchAllIsSuffix(segs: seq<Seg>, s: string)
    requires |segs| >= 2 && segs[|segs| - 1].CatchAll? && MatchSegs(segs, s).Some?
    ensures var vs := MatchSegs(segs, s).value;
      var n := |vs| - 1;
      var prefix := Join(vs[..n], "/");
      && |prefix| < |s| && s[..|prefix| + 1] == prefix + "/"
      && vs[n] == s[|prefix| + 1..]
  {
    MatchSegsSound(segs, s);
    LastOfJoin(MatchSegs(segs, s).value, s);
  }

  lemma LastOfJoin(vs: seq<string>, s: string)
    requires |vs| >= 2 && Join(vs, "/") == s
    ensures var prefix := Join(vs[..|vs| - 1], "/");
      && |prefix| < |s| && s[..|prefix| + 1] == prefix + "/"
      && vs[|vs| - 1] == s[|prefix| + 1..]
  {
    var n := |vs| - 1;
    assert vs == vs[..n] + [vs[n]];
    JoinSnoc(vs[..n], vs[n]);
    SplitAtSlash(s, Join(vs[..n], "/"), vs[n]);
  }

  lemma SplitAtSlash(s: string, a: string, b: string)
    requires s == a + "/" + b
    ensures |a| < |s| && s[..|a| + 1] == a + "/" && b == s[|a| + 1..]
  {
  }

  /** A catch-all followed by more segments takes the longest value that still
      lets the rest match: no fitting decomposition gives it a longer one. */
  lemma GreedyCatchAll(segs: seq<Seg>, s: string, ws: seq<string>)
    requires |segs| >= 2 && segs[0].CatchAll?
    requires AllFit(segs, ws) && Join(ws, "/") == s
    ensures MatchSegs(segs, s).Some?
    ensures |ws[0]| <= |MatchSegs(segs, s).value[0]|
  {
    Uncons(segs, s, ws);
    var k0 := |ws[0]|;
    assert Fits(segs[0], ws[0]);
    MatchSegsComplete(segs[1..], s[k0 + 1..], ws[1..]);
    GreedyFromSplit(segs, s, k0);
  }

  /** If the catch-all can stop before the `/` at `k0`, the matcher finds a
      split at least that long. */
  lemma GreedyFromSplit(segs: seq<Seg>, s: string, k0: int)
    requires |segs| >= 2 && segs[0].CatchAll?
    requires 1 <= k0 < |s| && s[k0] == '/'
    requires Fits(segs[0], s[..k0]) && MatchSegs(segs[1..], s[k0 + 1..]).Some?
    ensures MatchSegs(segs, s).Some?
    ensures k0 <= |MatchSegs(segs, s).value[0]|
  {
    SplitCatchAllLongest(segs, s, |s| - 1, k0);
  }

  lemma {:induction false} SplitCatchAllLongest(segs: seq<Seg>, s: string, k: int, k0: int)
    requires |segs| >= 2 && k < |s|
    requires 1 <= k0 <= k
    requires s[k0] == '/' && Fits(segs[0], s[..k0]) && MatchSegs(segs[1..], s[k0 + 1..]).Some?
    ensures SplitCatchAll(segs, s, k).Some?
    ensures k0 <= |SplitCatchAll(segs, s, k).value[0]|
    decreases k
  {
    if k > k0 && !(s[k] == '/' && Fits(segs[0], s[..k]) && MatchSegs(segs[1..], s[k + 1..]).Some?) {
      SplitCatchAllLongest(segs, s, k - 1, k0);
    }
  }

  /** With two catch-alls the split is ambiguous, and the engine's choice gives
      the first one everything up to the last `/`. */
  lemma NonTrailingCatchAllIsGreedy()
    ensures AllFit([CatchAll("a"), CatchAll("b")], ["x", "y/z"])
    ensures Join(["x", "y/z"], "/") == "x/y/z"
    ensures MatchSegs([CatchAll("a"), CatchAll("b")], "x/y/z") == Some(["x/y", "z"])
  {
    var segs := [CatchAll("a"), CatchAll("b")];
    var s := "x/y/z";
    assert s[..3] == "x/y" && s[4..] == "z" && s[3] == '/' && s[4] != '/';
    assert segs[1..] == [CatchAll("b")];
    assert Fits(CatchAll("a"), "x/y");
    assert MatchSegs(segs[1..], s[4..]) == Some(["z"]);
    assert Fits(segs[0], s[..3]);
    assert MatchSegs(segs[1..], s[3 + 1..]).Some?;
    assert SplitCatchAll(segs, s, 3) == Some([s[..3]] + MatchSegs(segs[1..], s[3 + 1..]).value);
    assert [s[..3]] + ["z"] == ["x/y", "z"];
    assert SplitCatchAll(segs, s, 3) == Some(["x/y", "z"]);
    assert SplitCatchAll(segs, s, 4) == SplitCatchAll(segs, s, 3);
  }

  // ---------------------------------------------------------------------------
  // patterns of literals only

  function Texts(segs: seq<Seg>): (r: seq<string>)
    requires forall i :: 0 <= i < |segs| ==> segs[i].Static?
    ensures |r| == |segs|
    ensures forall i :: 0 <= i < |segs| ==> r[i] == segs[i].text
  {
    if |segs| == 0 then [] else [segs[0].text] + Texts(segs[1..])
  }

  /** A pattern of literals matches exactly one path: "/" + its texts joined. */
  lemma StaticSegsMatchOnlyTheirText(segs: seq<Seg>, path: string)
    requires forall i :: 0 <= i < |segs| ==> segs[i].Static?
    ensures MatchRegex(Regex("", segs), path).Some? <==> path == "/" + Join(Texts(segs), "/")
  {
    var re := Regex("", segs);
    MatchRegexExact(re, path);
    if Denotes(segs, path) {
      var vs :| AllFit(segs, vs) && path == "/" + Join(vs, "/");
      assert forall i :: 0 <= i < |vs| ==> vs[i] == Texts(segs)[i];
      assert vs == Texts(segs);
    }
    if path == "/" + Join(Texts(segs), "/") {
      assert AllFit(segs, Texts(segs));
    }
  }
}
