/** The route-pattern compiler of server/router.ts (`compilePattern`,
    `escapeRegex`) and the specificity classifier used for ordering
    (`segmentTypes`).

    A compiled pattern is kept twice: as the regular-expression source text
    `compilePattern` builds, and as the list of segment matchers that text denotes. The
    meaning of the segment list is given in the Matching module. */
module Pattern {
  import opened Wrappers
  import opened Text

  /** One compiled segment: a literal, `[name]` (one non-empty, slash-free
      segment) or `[...name]` (one or more characters, slashes allowed). */
  datatype Seg = Static(text: string) | Dyn(name: string) | CatchAll(name: string)

  /** The compiled matcher: its source text and the segment list it denotes. */
  datatype Regex = Regex(source: string, segs: seq<Seg>)

  /** What `compilePattern` returns. */
  datatype Compiled = Compiled(regex: Regex, paramNames: seq<string>)

  // ---------------------------------------------------------------------------
  // segment syntax

  /** `\w` without the `u` flag. */
  predicate IsWordChar(c: char) {
    'a' <= c <= 'z' || 'A' <= c <= 'Z' || '0' <= c <= '9' || c == '_'
  }

  /** `\w+`. */
  predicate IsWordName(s: string) {
    |s| > 0 && forall i :: 0 <= i < |s| ==> IsWordChar(s[i])
  }

  /** The capture of `/^\[\.\.\.(\w+)\]$/`, if the segment matches it. */
  function CatchAllName(seg: string): (r: Option<string>)
    ensures r.Some? ==> IsWordName(r.value) && seg == "[..." + r.value + "]"
  {
    if |seg| >= 6 && seg[..4] == "[..." && seg[|seg| - 1] == ']' && IsWordName(seg[4..|seg| - 1])
    then
      assert seg == "[..." + seg[4..|seg| - 1] + "]";
      Some(seg[4..|seg| - 1])
    else None
  }

  /** Every `[...name]` with a `\w+` name is recognised, with that name. */
  lemma CatchAllNameComplete(name: string)
    requires IsWordName(name)
    ensures CatchAllName("[..." + name + "]") == Some(name)
  {
    var seg := "[..." + name + "]";
    assert seg[4..|seg| - 1] == name;
  }

  /** The capture of `/^\[(\w+)\]$/`, if the segment matches it. */
  function DynamicName(seg: string): (r: Option<string>)
    ensures r.Some? ==> IsWordName(r.value) && seg == "[" + r.value + "]"
  {
    if |seg| >= 3 && seg[0] == '[' && seg[|seg| - 1] == ']' && IsWordName(seg[1..|seg| - 1])
    then
      assert seg == "[" + seg[1..|seg| - 1] + "]";
      Some(seg[1..|seg| - 1])
    else None
  }

  /** Every `[name]` with a `\w+` name is recognised, with that name. */
  lemma DynamicNameComplete(name: string)
    requires IsWordName(name)
    ensures DynamicName("[" + name + "]") == Some(name)
  {
    var seg := "[" + name + "]";
    assert seg[1..|seg| - 1] == name;
  }

  /** How `compilePattern` reads one segment: the catch-all form is tried first,
      then the dynamic form; anything else is a literal. */
  function ClassifySeg(seg: string): (s: Seg)
    ensures s.CatchAll? <==> CatchAllName(seg).Some?
    ensures s.Dyn? <==> CatchAllName(seg).None? && DynamicName(seg).Some?
    ensures s.Static? ==> s.text == seg
    ensures !s.Static? ==> IsWordName(s.name)
  {
    match CatchAllName(seg)
    case Some(name) => CatchAll(name)
    case None =>
      match DynamicName(seg)
      case Some(name) => Dyn(name)
      case None => Static(seg)
  }

  /** A segment not opening with `[` is always a literal. */
  lemma ClassifyUnbracketed(seg: string)
    requires |seg| > 0 && seg[0] != '['
    ensures ClassifySeg(seg) == Static(seg)
  {
  }

  /** The pattern text `seg` turns back into once compiled. */
  function SegSyntax(s: Seg): string {
    match s
    case Static(text) => text
    case Dyn(name) => "[" + name + "]"
    case CatchAll(name) => "[..." + name + "]"
  }

  /** Classifying a segment and writing it back gives the segment unchanged:
      the classifier loses nothing. */
  lemma ClassifySegRoundTrip(seg: string)
    ensures SegSyntax(ClassifySeg(seg)) == seg
  {
  }

  // ---------------------------------------------------------------------------
  // escapeRegex

  /** The characters `escapeRegex` prefixes with a backslash. */
  predicate IsRegexMeta(c: char) {
    c == '.' || c == '*' || c == '+' || c == '?' || c == '^' || c == '$' || c == '{' || c == '}'
    || c == '(' || c == ')' || c == '|' || c == '[' || c == ']' || c == '\\'
  }

  /** `str.replace(/[.*+?^${}()|[\]\\]/g, "\\$&")`. */
  function EscapeRegex(s: string): (r: string)
    ensures |r| >= |s|
  {
    if |s| == 0 then ""
    else if IsRegexMeta(s[0]) then ['\\', s[0]] + EscapeRegex(s[1..])
    else [s[0]] + EscapeRegex(s[1..])
  }

  /** A regular expression made only of ordinary characters and escaped
      metacharacters: it matches exactly one string, its `LiteralText`. */
  predicate IsLiteralRegex(r: string) {
    if |r| == 0 then true
    else if r[0] == '\\' then |r| >= 2 && IsRegexMeta(r[1]) && IsLiteralRegex(r[2..])
    else !IsRegexMeta(r[0]) && IsLiteralRegex(r[1..])
  }

  /** The one string a literal regular expression matches. */
  function LiteralText(r: string): string
    requires IsLiteralRegex(r)
  {
    if |r| == 0 then ""
    else if r[0] == '\\' then [r[1]] + LiteralText(r[2..])
    else [r[0]] + LiteralText(r[1..])
  }

  /** Escaping yields a literal regular expression that matches exactly the
      escaped text and nothing else. */
  lemma {:induction false} EscapeRegexIsLiteral(s: string)
    ensures IsLiteralRegex(EscapeRegex(s))
    ensures LiteralText(EscapeRegex(s)) == s
  {
    if |s| > 0 {
      EscapeRegexIsLiteral(s[1..]);
      var r := EscapeRegex(s);
      if IsRegexMeta(s[0]) {
        assert r[2..] == EscapeRegex(s[1..]);
      } else {
        assert r[1..] == EscapeRegex(s[1..]);
      }
      assert s == [s[0]] + s[1..];
    }
  }

  // ---------------------------------------------------------------------------
  // compilePattern

  /** The regular-expression text one segment compiles to. */
  function RegexPart(s: Seg): string {
    match s
    case Static(text) => EscapeRegex(text)
    case Dyn(_) => "([^/]+)"
    case CatchAll(_) => "(.+)"
  }

  function RegexParts(segs: seq<Seg>): (r: seq<string>)
    ensures |r| == |segs|
    ensures forall i :: 0 <= i < |segs| ==> r[i] == RegexPart(segs[i])
  {
    if |segs| == 0 then [] else [RegexPart(segs[0])] + RegexParts(segs[1..])
  }

  function ClassifyAll(pieces: seq<string>): (r: seq<Seg>)
    ensures |r| == |pieces|
    ensures forall i :: 0 <= i < |pieces| ==> r[i] == ClassifySeg(pieces[i])
  {
    if |pieces| == 0 then [] else [ClassifySeg(pieces[0])] + ClassifyAll(pieces[1..])
  }

  /** The capture names of a segment list, left to right. */
  function ParamNames(segs: seq<Seg>): seq<string> {
    if |segs| == 0 then []
    else if segs[0].Static? then ParamNames(segs[1..])
    else [segs[0].name] + ParamNames(segs[1..])
  }

  /** The regular-expression text for a non-root segment list. */
  function SourceOf(segs: seq<Seg>): string {
    "^/" + Join(RegexParts(segs), "/") + "$"
  }

  /** The text of the regular expression `/^\/$/` used for the root pattern. */
  const RootSource: string := "^\\/$"

  /** `compilePattern` (server/router.ts): "/" is special-cased; every other
      pattern is split on `/` with empty pieces dropped, each piece classified. */
  function CompilePattern(pattern: string): (c: Compiled)
    ensures pattern == "/" ==> c.regex.segs == [] && c.paramNames == []
    ensures pattern != "/" ==> c.regex.segs == ClassifyAll(Segments(pattern))
    ensures c.paramNames == ParamNames(c.regex.segs)
    ensures |c.regex.segs| == |Segments(pattern)|
  {
    if pattern == "/" then
      SegmentsOfPath([]);
      Compiled(Regex(RootSource, []), [])
    else
      var segs := ClassifyAll(Segments(pattern));
      Compiled(Regex(SourceOf(segs), segs), ParamNames(segs))
  }

  /** The pattern's segments re-read from the compiled segment list: compilation
      keeps every segment, in order. */
  lemma {:induction false} CompileKeepsSegments(pattern: string)
    ensures pattern != "/" ==>
      forall i :: 0 <= i < |Segments(pattern)| ==> SegSyntax(CompilePattern(pattern).regex.segs[i]) == Segments(pattern)[i]
  {
    if pattern != "/" {
      var segs := CompilePattern(pattern).regex.segs;
      forall i | 0 <= i < |Segments(pattern)|
        ensures SegSyntax(segs[i]) == Segments(pattern)[i]
      {
        ClassifySegRoundTrip(Segments(pattern)[i]);
      }
    }
  }

  // ---------------------------------------------------------------------------
  // segmentTypes

  /** How `segmentTypes` ranks one segment: by its prefix only. */
  datatype Rank = RankStatic | RankDynamic | RankCatchAll

  function RankSeg(seg: string): Rank {
    if StartsWith(seg, "[...") then RankCatchAll
    else if StartsWith(seg, "[") then RankDynamic
    else RankStatic
  }

  /** The rank of a segment is decided by its first characters. */
  lemma RankByPrefix(seg: string)
    ensures |seg| > 0 && seg[0] != '[' ==> RankSeg(seg) == RankStatic
    ensures |seg| >= 2 && seg[0] == '[' && seg[1] != '.' ==> RankSeg(seg) == RankDynamic
    ensures |seg| >= 4 && seg[..4] == "[..." ==> RankSeg(seg) == RankCatchAll
  {
    if |seg| > 0 && "[" <= seg {
      assert seg[0] == "["[0];
    }
    if |seg| >= 2 && "[..." <= seg {
      assert seg[1] == "[..."[1];
    }
  }

  /** The result of `segmentTypes`. */
  datatype SegStats = SegStats(total: nat, staticCount: nat, hasDynamic: bool, hasCatchAll: bool)

  /** The rank of each segment, in order. */
  function Ranks(segs: seq<string>): (rs: seq<Rank>)
    ensures |rs| == |segs| && forall i :: 0 <= i < |segs| ==> rs[i] == RankSeg(segs[i])
  {
    seq(|segs|, i requires 0 <= i < |segs| => RankSeg(segs[i]))
  }

  function CountRank(segs: seq<string>, k: Rank): (n: nat)
    ensures n <= |segs|
  {
    if |segs| == 0 then 0
    else (if RankSeg(segs[0]) == k then 1 else 0) + CountRank(segs[1..], k)
  }

  /** The count of a rank is the number of segments that have it. */
  lemma {:induction false} CountRankIsMultiplicity(segs: seq<string>, k: Rank)
    ensures CountRank(segs, k) == multiset(Ranks(segs))[k]
  {
    if |segs| > 0 {
      CountRankIsMultiplicity(segs[1..], k);
      assert Ranks(segs) == [RankSeg(segs[0])] + Ranks(segs[1..]);
    }
  }

  /** The counts `segmentTypes` reports for a list of segments. */
  function StatsOf(segs: seq<string>): (st: SegStats)
    ensures st.total == |segs| && st.staticCount <= st.total
    ensures st.staticCount == multiset(Ranks(segs))[RankStatic]
    ensures st.hasDynamic <==> exists i :: 0 <= i < |segs| && RankSeg(segs[i]) == RankDynamic
    ensures st.hasCatchAll <==> exists i :: 0 <= i < |segs| && RankSeg(segs[i]) == RankCatchAll
  {
    CountRankIsMultiplicity(segs, RankStatic);
    CountPositive(segs, RankDynamic);
    CountPositive(segs, RankCatchAll);
    SegStats(|segs|, CountRank(segs, RankStatic), CountRank(segs, RankDynamic) > 0, CountRank(segs, RankCatchAll) > 0)
  }

  /** `segmentTypes`: the shape of a pattern's non-empty segments. */
  function SegmentTypes(pattern: string): (st: SegStats)
    ensures st.total == |Segments(pattern)|
    ensures st.staticCount <= st.total
    ensures st.staticCount == multiset(Ranks(Segments(pattern)))[RankStatic]
    ensures st.hasDynamic <==> exists i :: 0 <= i < st.total && RankSeg(Segments(pattern)[i]) == RankDynamic
    ensures st.hasCatchAll <==> exists i :: 0 <= i < st.total && RankSeg(Segments(pattern)[i]) == RankCatchAll
  {
    StatsOf(Segments(pattern))
  }


  lemma {:induction false} CountPositive(segs: seq<string>, k: Rank)
    ensures CountRank(segs, k) > 0 <==> exists i :: 0 <= i < |segs| && RankSeg(segs[i]) == k
  {
    if |segs| > 0 {
      CountPositive(segs[1..], k);
      if RankSeg(segs[0]) != k && exists i :: 0 <= i < |segs| && RankSeg(segs[i]) == k {
        var i :| 0 <= i < |segs| && RankSeg(segs[i]) == k;
        assert segs[1..][i - 1] == segs[i];
      }
      if CountRank(segs[1..], k) > 0 {
        var i :| 0 <= i < |segs[1..]| && RankSeg(segs[1..][i]) == k;
        assert RankSeg(segs[i + 1]) == k;
      }
    }
  }

  /** Compilation and ranking agree in one direction: a segment compiled as a
      capture is ranked as that capture, and a segment ranked static is compiled
      as a literal. */
  lemma CaptureIsRankedAsCapture(seg: string)
    ensures ClassifySeg(seg).CatchAll? ==> RankSeg(seg) == RankCatchAll
    ensures ClassifySeg(seg).Dyn? ==> RankSeg(seg) == RankDynamic
    ensures RankSeg(seg) == RankStatic ==> ClassifySeg(seg) == Static(seg)
  {
    if ClassifySeg(seg).Dyn? {
      var name := DynamicName(seg).value;
      assert seg == "[" + name + "]";
      assert !IsWordChar('.');
      assert seg[1] == name[0];
    }
  }

  /** ... but not in the other: `[foo-bar]` and `[...a-b]` have names outside
      `\w+`, so they compile to literals while being ranked as captures. */
  lemma RankDivergesFromCompile()
    ensures ClassifySeg("[foo-bar]") == Static("[foo-bar]") && RankSeg("[foo-bar]") == RankDynamic
    ensures ClassifySeg("[...a-b]") == Static("[...a-b]") && RankSeg("[...a-b]") == RankCatchAll
  {
    assert !IsWordChar('-');
    assert "[foo-bar]"[1..8] == "foo-bar";
    assert "[foo-bar]"[1..8][3] == '-';
    assert "[...a-b]"[4..7] == "a-b";
    assert "[...a-b]"[4..7][1] == '-';
    assert "[...a-b]"[1..7][0] == '.';
    assert !IsWordChar('.');
  }
}
