/**
 The prefix optimizer: splitting a route's regular expression into path
 segments, classifying them, and deciding which part of a listing prefix may
 be pushed down to the backend.
 */
module Prefixes {
  import opened Text
  import opened TemplateSyntax
  import opened TemplateAnalysis

  datatype SegmentKind = LiteralSegment | SingleLevel | MultiLevel | ComplexSegment

  datatype PathSegment = PathSegment(kind: SegmentKind, value: string, literal: string, optional: bool)

  datatype PatternStructure = PatternStructure(segments: seq<PathSegment>, endsWithAnchor: bool,
                                               staticPrefixLen: nat)

  datatype PrefixAnalysis = PrefixAnalysis(
    staticPrefix: string, canOptimize: bool, requiresFullScan: bool, requiresNonEmptyRemainder: bool,
    hasTrivialRewrite: bool, rewriteResultPrefix: string)

  /** A rewrite as far as the optimizer looks at it: whether it has a pattern, and its result template. */
  datatype RewriteText = RewriteText(hasPattern: bool, result: Node)

  predicate IsMeta(c: char) { c in ".*+?[](){}|^$\\" }

  predicate HasMeta(s: string) { exists i :: 0 <= i < |s| && IsMeta(s[i]) }

  /** The text before the first metacharacter. */
  function LiteralPrefix(s: string): (r: string)
    ensures r <= s
  {
    if s == "" || IsMeta(s[0]) then "" else [s[0]] + LiteralPrefix(s[1..])
  }

  function StripAnchors(pattern: string): string { TrimSuffix(TrimPrefix(pattern, "^"), "$") }

  /** extractStaticPrefixFromRegex */
  function ExtractStaticPrefix(pattern: string): string { LiteralPrefix(StripAnchors(pattern)) }

  // ----- splitting -----

  function NonEmpty(segment: string): seq<string> { if segment == "" then [] else [segment] }

  /** The segments of p, given the group depth and the text of the segment under way. */
  function Split(p: string, depth: int, current: string): seq<string>
    decreases |p|
  {
    if p == "" then NonEmpty(current)
    else if p[0] == '(' then Split(p[1..], depth + 1, current + [p[0]])
    else if p[0] == ')' then Split(p[1..], depth - 1, current + [p[0]])
    else if p[0] == '/' && depth == 0 then NonEmpty(current) + Split(p[1..], depth, "")
    else Split(p[1..], depth, current + [p[0]])
  }

  /** tokenizePattern */
  method TokenizePattern(pattern: string) returns (segments: seq<string>)
    ensures segments == Split(StripAnchors(pattern), 0, "")
  {
    var p := StripAnchors(pattern);
    segments := [];
    var current := "";
    var inGroup := 0;
    assert p[0..] == p;
    for i := 0 to |p|
      invariant segments + Split(p[i..], inGroup, current) == Split(p, 0, "")
    {
      var ch := p[i];
      assert p[i..][1..] == p[i + 1..];
      if ch == '(' {
        inGroup := inGroup + 1;
        current := current + [ch];
      } else if ch == ')' {
        inGroup := inGroup - 1;
        current := current + [ch];
      } else if ch == '/' && inGroup == 0 {
        Assoc(segments, NonEmpty(current), Split(p[i + 1..], inGroup, ""));
        if current != "" {
          segments := segments + [current];
        }
        current := "";
      } else {
        current := current + [ch];
      }
    }
    if current != "" {
      segments := segments + [current];
    }
  }

  // ----- classifying -----

  function Multi(segment: string, optional: bool): PathSegment { PathSegment(MultiLevel, segment, "", optional) }

  function Single(segment: string, optional: bool): PathSegment { PathSegment(SingleLevel, segment, "", optional) }

  /** classifySegment */
  function ClassifySegment(segment: string): PathSegment {
    if segment == ".*" then Multi(segment, true)
    else if segment == ".+" then Multi(segment, false)
    else if segment == "(.*)" || segment == "(?P<rest>.*)" then Multi(segment, true)
    else if HasSuffix(segment, ".*)") then Multi(segment, true)
    else if segment == "(.+)" || HasSuffix(segment, ".+)") then Multi(segment, false)
    else if segment == "[^/]*" then Single(segment, true)
    else if segment == "[^/]+" then Single(segment, false)
    else if segment == "([^/]*)" then Single(segment, true)
    else if segment == "([^/]+)" then Single(segment, false)
    else if HasPrefix(segment, "(?P<") && HasSuffix(segment, "[^/]*)") then Single(segment, true)
    else if HasPrefix(segment, "(?P<") && HasSuffix(segment, "[^/]+)") then Single(segment, false)
    else if !HasMeta(segment) then PathSegment(LiteralSegment, segment, segment, false)
    else PathSegment(ComplexSegment, segment, LiteralPrefix(segment), false)
  }

  function Classify(segments: seq<string>): (r: seq<PathSegment>)
    ensures |r| == |segments|
  {
    if segments == [] then [] else [ClassifySegment(segments[0])] + Classify(segments[1..])
  }

  function LeadingLiterals(segments: seq<PathSegment>): (n: nat)
    ensures n <= |segments|
  {
    if segments != [] && segments[0].kind.LiteralSegment? then 1 + LeadingLiterals(segments[1..]) else 0
  }

  /** analyzePatternStructure */
  function StructureOf(pattern: string): PatternStructure {
    var segments := Classify(Split(StripAnchors(pattern), 0, ""));
    PatternStructure(segments, HasSuffix(pattern, "$"), LeadingLiterals(segments))
  }

  function JoinLiterals(segments: seq<PathSegment>): string {
    if segments == [] then "" else segments[0].literal + "/" + JoinLiterals(segments[1..])
  }

  /** GetStaticPrefixFromStructure */
  function StaticPrefixOf(s: PatternStructure): string
    requires s.staticPrefixLen <= |s.segments|
  {
    if s.segments == [] then ""
    else if s.staticPrefixLen > 0 then JoinLiterals(s.segments[..s.staticPrefixLen])
    else if s.segments[0].kind.ComplexSegment? then s.segments[0].literal
    else ""
  }

  // ----- what is safe to push down -----

  /** Whether needle occurs in s (strings.Contains). */
  predicate Contains(s: string, needle: string) {
    HasPrefix(s, needle) || (s != "" && Contains(s[1..], needle))
  }

  predicate IsSimpleWildcard(s: string) {
    HasSuffix(s, ".*") || HasSuffix(s, ".+") || HasSuffix(s, "(.*)") || HasSuffix(s, "(.+)")
  }

  /** structureRequiresNonEmpty, on the segments after the static prefix. */
  predicate RequiresNonEmpty(segments: seq<PathSegment>) {
    exists i :: 0 <= i < |segments| && SegmentNeedsText(segments[i])
  }

  predicate SegmentNeedsText(s: PathSegment) {
    match s.kind
    case MultiLevel => !s.optional
    case SingleLevel => !s.optional
    case ComplexSegment => Contains(s.value, ".+") || Contains(s.value, "[^/]+")
    case LiteralSegment => false
  }

  /** areSegmentsSafeForOptimization: can optimize, requires a non-empty remainder. */
  function SafeSegments(segments: seq<PathSegment>): (bool, bool) {
    if segments == [] then (true, false)
    else
      var last := segments[|segments| - 1];
      match last.kind
      case MultiLevel => (true, !last.optional)
      case SingleLevel => (true, !last.optional)
      case ComplexSegment =>
        if IsSimpleWildcard(last.value) then (true, Contains(last.value, ".+")) else (false, false)
      case LiteralSegment => (false, false)
  }

  /** canSafelyOptimizeWithPrefix */
  function CanSafelyOptimize(s: PatternStructure): (bool, bool)
    requires s.staticPrefixLen <= |s.segments|
  {
    var n := s.staticPrefixLen;
    if |s.segments| == n && s.endsWithAnchor && n > 0 then (false, false)
    else if n == 0 && s.segments != [] && s.segments[0].kind.ComplexSegment? && s.segments[0].literal != "" then
      var first := s.segments[0];
      if s.endsWithAnchor then (true, Contains(first.value, ".+"))
      else
        var remainder := TrimPrefix(first.value, first.literal);
        if IsSimpleWildcard(remainder) then (true, HasPrefix(remainder, ".+")) else SafeSegments(s.segments)
    else if s.endsWithAnchor && n > 0 then (true, RequiresNonEmpty(s.segments[n..]))
    else if n == 0 then (false, false)
    else SafeSegments(s.segments[n..])
  }

  predicate StartsWithWildcard(pattern: string) { pattern == "" || pattern[0] in ".*+?[(|" }

  /** analyzeRewrites: whether the physical prefix can be computed, and the literal the rewrite puts first. */
  function AnalyzeRewrites(rewrites: seq<RewriteText>): (bool, string) {
    if rewrites == [] then (true, "")
    else if |rewrites| != 1 || rewrites[0].hasPattern then (false, "")
    else
      var a := Analyze(rewrites[0].result);
      if a.containsConditionals then (false, "")
      else if a.prefix == "" && |a.rest| == 1 && a.rest[0].tail == "" then (true, "")
      else if a.prefix != "" then (true, a.prefix)
      else (false, "")
  }

  /** analyzePattern */
  function AnalyzePattern(pattern: string, rewrites: seq<RewriteText>): PrefixAnalysis {
    var (trivial, resultPrefix) := AnalyzeRewrites(rewrites);
    var structure := StructureOf(pattern);
    if !HasPrefix(pattern, "^") then PrefixAnalysis("", false, true, false, trivial, resultPrefix)
    else
      var staticPrefix := StaticPrefixOf(structure);
      var (safe, nonEmpty) := CanSafelyOptimize(structure);
      if staticPrefix != "" && safe then
        PrefixAnalysis(staticPrefix, true, false, nonEmpty, trivial, resultPrefix)
      else
        PrefixAnalysis("", false, StartsWithWildcard(StripAnchors(pattern)), false, trivial, resultPrefix)
  }

  /** ComputePhysicalPrefix; None where the source reports that it could not. */
  function ComputePhysicalPrefix(virtualPrefix: string, a: PrefixAnalysis): Option<string> {
    if virtualPrefix == "" then
      Some(if a.hasTrivialRewrite && a.rewriteResultPrefix != "" then a.rewriteResultPrefix else "")
    else if a.staticPrefix != "" && !HasPrefix(virtualPrefix, a.staticPrefix)
            && !HasPrefix(a.staticPrefix, virtualPrefix) then None
    else if a.hasTrivialRewrite then
      if a.staticPrefix == "" then Some(a.rewriteResultPrefix + virtualPrefix)
      else if HasPrefix(virtualPrefix, a.staticPrefix) then
        Some(a.rewriteResultPrefix + TrimPrefix(virtualPrefix, a.staticPrefix))
      else Some("")
    else Some("")
  }

  predicate CanSkipRoute(virtualPrefix: string, a: PrefixAnalysis) {
    && !a.requiresFullScan && a.canOptimize && a.staticPrefix != ""
    && virtualPrefix != "" && !HasPrefix(virtualPrefix, a.staticPrefix)
    && !HasPrefix(a.staticPrefix, virtualPrefix)
  }
}

/**
 Route patterns made of literal segments and recognised wildcard groups: their
 text, what they match, and the proof that the optimizer reads the text right.
 */
module RoutePatterns {
  import opened Text
  import opened TemplateSyntax
  import opened Prefixes

  datatype Capture = Bare | Unnamed | Named(name: string)

  /** One wildcard: within a path level or across levels, with * or +. */
  datatype Wild = Wild(capture: Capture, single: bool, optional: bool)
  {
    /** A bare [^/]* is not recognised, because its slash splits the segment. */
    predicate Valid() {
      && (capture.Bare? ==> !single)
      && (capture.Named? ==> capture.name != "" && forall i :: 0 <= i < |capture.name| ==>
          IsIdentifierPart(capture.name[i]))
    }

    function Body(): string { (if single then "[^/]" else ".") + (if optional then "*" else "+") }

    function Source(): string {
      match capture
      case Bare => Body()
      case Unnamed => "(" + Body() + ")"
      case Named(name) => "(?P<" + name + ">" + Body() + ")"
    }

    /** '.' does not match a newline. */
    predicate Accepts(s: string) {
      (!optional ==> s != "") && (if single then '/' !in s else '\n' !in s)
    }
  }

  predicate PlainSegment(s: string) { s != "" && !HasMeta(s) && '/' !in s }

  /** ^lit/lit/.../wild/wild, with an optional $. */
  datatype RoutePattern = RoutePattern(literals: seq<string>, wilds: seq<Wild>, endAnchor: bool)
  {
    predicate Valid() {
      && wilds != []
      && (forall i :: 0 <= i < |literals| ==> PlainSegment(literals[i]))
      && (forall i :: 0 <= i < |wilds| ==> wilds[i].Valid())
    }

    /** The text every match starts with. */
    function Prefix(): string { LiteralText(literals) }

    function Source(): string { "^" + Prefix() + WildText(wilds) + (if endAnchor then "$" else "") }

    ghost predicate Matches(key: string) {
      wilds != [] && Prefix() <= key && MatchWilds(wilds, endAnchor, key[|Prefix()|..])
    }
  }

  function LiteralText(literals: seq<string>): string {
    if literals == [] then "" else literals[0] + "/" + LiteralText(literals[1..])
  }

  function WildText(wilds: seq<Wild>): string {
    if wilds == [] then ""
    else if |wilds| == 1 then wilds[0].Source()
    else wilds[0].Source() + "/" + WildText(wilds[1..])
  }

  ghost predicate MatchWilds(wilds: seq<Wild>, endAnchor: bool, s: string)
    requires wilds != []
  {
    if |wilds| == 1 then
      exists n: nat :: n <= |s| && wilds[0].Accepts(s[..n]) && (endAnchor ==> n == |s|)
    else
      exists n: nat :: n < |s| && s[n] == '/' && wilds[0].Accepts(s[..n])
                       && MatchWilds(wilds[1..], endAnchor, s[n + 1..])
  }

  // ----- the splitter finds the segments -----

  /** Group depth after reading s. */
  function DepthAfter(s: string, depth: int): int {
    if s == "" then depth
    else DepthAfter(s[1..], if s[0] == '(' then depth + 1 else if s[0] == ')' then depth - 1 else depth)
  }

  /** No separator of s lies outside groups. */
  predicate NoSplit(s: string, depth: int) {
    s != "" ==>
      && !(s[0] == '/' && depth == 0)
      && NoSplit(s[1..], if s[0] == '(' then depth + 1 else if s[0] == ')' then depth - 1 else depth)
  }

  lemma {:induction false} SplitBlock(s: string, t: string, depth: int, current: string)
    requires NoSplit(s, depth)
    ensures Split(s + t, depth, current) == Split(t, DepthAfter(s, depth), current + s)
    decreases |s|
  {
    if s == "" {
      assert s + t == t && current + s == current;
    } else {
      assert (s + t)[1..] == s[1..] + t;
      assert (current + [s[0]]) + s[1..] == current + s;
      SplitBlock(s[1..], t, if s[0] == '(' then depth + 1 else if s[0] == ')' then depth - 1 else depth,
                 current + [s[0]]);
    }
  }

  lemma {:induction false} BlockAppend(a: string, b: string, depth: int)
    requires NoSplit(a, depth) && NoSplit(b, DepthAfter(a, depth))
    ensures NoSplit(a + b, depth) && DepthAfter(a + b, depth) == DepthAfter(b, DepthAfter(a, depth))
    decreases |a|
  {
    if a == "" {
      assert a + b == b;
    } else {
      assert (a + b)[1..] == a[1..] + b;
      BlockAppend(a[1..], b, if a[0] == '(' then depth + 1 else if a[0] == ')' then depth - 1 else depth);
    }
  }

  predicate NoParens(s: string) { forall i :: 0 <= i < |s| ==> s[i] != '(' && s[i] != ')' }

  lemma {:induction false} PlainBlock(s: string, depth: int)
    requires NoParens(s) && (depth == 0 ==> '/' !in s)
    ensures NoSplit(s, depth) && DepthAfter(s, depth) == depth
  {
    if s != "" {
      PlainBlock(s[1..], depth);
    }
  }

  lemma {:induction false} WildBlock(w: Wild)
    requires w.Valid()
    ensures NoSplit(w.Source(), 0) && DepthAfter(w.Source(), 0) == 0 && w.Source() != ""
  {
    hide NoSplit, DepthAfter;
    match w.capture
    case Bare => PlainBlock(w.Body(), 0);
    case Unnamed =>
      PlainBlock(w.Body(), 1);
      GroupBlock(w.Body());
    case Named(name) =>
      assert forall i :: 0 <= i < |name| ==> IsIdentifierPart(name[i]);
      var inner := "?P<" + name + ">" + w.Body();
      PlainBlock(inner, 1);
      GroupBlock(inner);
      assert w.Source() == "(" + inner + ")";
  }

  lemma {:induction false} GroupBlock(s: string)
    requires NoSplit(s, 1) && DepthAfter(s, 1) == 1
    ensures NoSplit("(" + s + ")", 0) && DepthAfter("(" + s + ")", 0) == 0
  {
    assert NoSplit("(", 0) && DepthAfter("(", 0) == 1;
    assert NoSplit(")", 1) && DepthAfter(")", 1) == 0;
    BlockAppend("(", s, 0);
    BlockAppend("(" + s, ")", 0);
  }

  function WildSources(wilds: seq<Wild>): seq<string> {
    if wilds == [] then [] else [wilds[0].Source()] + WildSources(wilds[1..])
  }

  /** A block followed by a separator is one segment. */
  lemma {:induction false} SplitSegment(s: string, t: string)
    requires NoSplit(s, 0) && DepthAfter(s, 0) == 0 && s != ""
    ensures Split(s + "/" + t, 0, "") == [s] + Split(t, 0, "")
    ensures Split(s, 0, "") == [s]
  {
    assert s + "/" + t == s + ("/" + t);
    assert "" + s == s && s + "" == s;
    SplitBlock(s, "/" + t, 0, "");
    SplitBlock(s, "", 0, "");
    assert ("/" + t)[1..] == t;
  }

  lemma {:induction false} SplitWilds(wilds: seq<Wild>)
    requires wilds != [] && forall i :: 0 <= i < |wilds| ==> wilds[i].Valid()
    ensures Split(WildText(wilds), 0, "") == WildSources(wilds)
  {
    hide Split, NoSplit, DepthAfter, Wild.Source, Wild.Valid;
    WildBlock(wilds[0]);
    if |wilds| == 1 {
      SplitSegment(wilds[0].Source(), "");
      assert WildSources(wilds[1..]) == [];
    } else {
      SplitSegment(wilds[0].Source(), WildText(wilds[1..]));
      SplitWilds(wilds[1..]);
    }
  }

  lemma {:induction false} SplitLiterals(literals: seq<string>, t: string)
    requires forall i :: 0 <= i < |literals| ==> PlainSegment(literals[i])
    ensures Split(LiteralText(literals) + t, 0, "") == literals + Split(t, 0, "")
  {
    hide Split, NoSplit, DepthAfter;
    if literals == [] {
      assert LiteralText(literals) + t == t;
    } else {
      var rest := LiteralText(literals[1..]) + t;
      Assoc(literals[0] + "/", LiteralText(literals[1..]), t);
      PlainBlock(literals[0], 0);
      SplitSegment(literals[0], rest);
      SplitLiterals(literals[1..], t);
    }
  }

  // ----- the classifier recognises them -----

  lemma {:induction false} ClassifyWild(w: Wild)
    requires w.Valid()
    ensures ClassifySegment(w.Source())
            == PathSegment(if w.single then SingleLevel else MultiLevel, w.Source(), "", w.optional)
  {
    if w.capture.Bare? {
      assert w.Body() == if w.optional then ".*" else ".+";
    } else {
      var open := if w.capture.Unnamed? then "(" else "(?P<" + w.capture.name + ">";
      assert w.Source() == open + (w.Body() + ")");
      if !w.single {
        assert w.Body() + ")" == if w.optional then ".*)" else ".+)";
        ClassifyMulti(open, w.optional);
      } else {
        assert w.Body() + ")" == if w.optional then "[^/]*)" else "[^/]+)";
        if w.capture.Named? {
          assert open == "(?P<" + (w.capture.name + ">");
          ClassifyNamedSingle(w.capture.name + ">", w.optional);
        } else {
          ClassifySingle(w.optional);
        }
      }
    }
  }

  lemma {:induction false} ClassifyMulti(open: string, optional: bool)
    requires open != "" && open[0] == '('
    ensures var s := open + if optional then ".*)" else ".+)";
            ClassifySegment(s) == Multi(s, optional)
  {
    var tail := if optional then ".*)" else ".+)";
    var s := open + tail;
    assert s[|s| - 3..] == tail && s[0] == '(';
    assert HasSuffix(s, ".*)") <==> optional;
  }

  lemma {:induction false} ClassifySingle(optional: bool)
    ensures var s := "(" + if optional then "[^/]*)" else "[^/]+)";
            ClassifySegment(s) == Single(s, optional)
  {
    hide HasMeta, LiteralPrefix;
    var s := "(" + if optional then "[^/]*)" else "[^/]+)";
    assert s[4] == ']' && s[5] == if optional then '*' else '+';
    assert !HasSuffix(s, ".*)") && !HasSuffix(s, ".+)");
    assert s == if optional then "([^/]*)" else "([^/]+)";
  }

  lemma {:induction false} ClassifyNamedSingle(name: string, optional: bool)
    ensures var s := "(?P<" + name + if optional then "[^/]*)" else "[^/]+)";
            ClassifySegment(s) == Single(s, optional)
  {
    hide HasMeta, LiteralPrefix;
    var tail := if optional then "[^/]*)" else "[^/]+)";
    var s := "(?P<" + name + tail;
    assert s[|s| - 6..] == tail && s[|s| - 3] == ']' && s[|s| - 2] == tail[4];
    assert s[0] == '(' && s[1] == '?';
    assert HasPrefix(s, "(?P<") && |s| >= 10;
    assert HasSuffix(s, "[^/]*)") <==> optional;
    assert !HasSuffix(s, ".*)") && !HasSuffix(s, ".+)");
    assert "(?P<rest>.*)"[9] == '.' && s != "(?P<rest>.*)";
  }

  lemma {:induction false} ClassifyPlain(s: string)
    requires PlainSegment(s)
    ensures ClassifySegment(s) == PathSegment(LiteralSegment, s, s, false)
  {
    assert !IsMeta(s[0]) && !IsMeta(s[|s| - 1]);
  }

  lemma {:induction false} ClassifyAppend(a: seq<string>, b: seq<string>)
    ensures Classify(a + b) == Classify(a) + Classify(b)
  {
    if a == [] {
      assert a + b == b;
    } else {
      assert (a + b)[1..] == a[1..] + b;
      ClassifyAppend(a[1..], b);
    }
  }

  predicate WildSegment(s: PathSegment, w: Wild) {
    s == PathSegment(if w.single then SingleLevel else MultiLevel, w.Source(), "", w.optional)
  }

  lemma {:induction false} ClassifyWilds(wilds: seq<Wild>)
    requires forall i :: 0 <= i < |wilds| ==> wilds[i].Valid()
    ensures var c := Classify(WildSources(wilds));
            |c| == |wilds| && forall i :: 0 <= i < |c| ==> WildSegment(c[i], wilds[i])
  {
    hide ClassifySegment, Wild.Source;
    if wilds != [] {
      ClassifyWild(wilds[0]);
      ClassifyWilds(wilds[1..]);
      var c := Classify(WildSources(wilds));
      assert c == [ClassifySegment(wilds[0].Source())] + Classify(WildSources(wilds[1..]));
    }
  }

  lemma {:induction false} ClassifyLiterals(literals: seq<string>)
    requires forall i :: 0 <= i < |literals| ==> PlainSegment(literals[i])
    ensures forall i :: 0 <= i < |literals| ==> Classify(literals)[i].kind.LiteralSegment?
    ensures JoinLiterals(Classify(literals)) == LiteralText(literals)
  {
    hide ClassifySegment;
    if literals != [] {
      ClassifyPlain(literals[0]);
      ClassifyLiterals(literals[1..]);
      assert Classify(literals)[1..] == Classify(literals[1..]);
    }
  }

  lemma {:induction false} LeadingOf(lits: seq<PathSegment>, more: seq<PathSegment>)
    requires forall i :: 0 <= i < |lits| ==> lits[i].kind.LiteralSegment?
    requires more != [] && !more[0].kind.LiteralSegment?
    ensures LeadingLiterals(lits + more) == |lits|
  {
    if lits != [] {
      LeadingOf(lits[1..], more);
      assert (lits + more)[1..] == lits[1..] + more;
    }
  }

  lemma {:induction false} WildTextEnds(wilds: seq<Wild>)
    requires wilds != [] && forall i :: 0 <= i < |wilds| ==> wilds[i].Valid()
    ensures WildText(wilds) != "" && WildText(wilds)[|WildText(wilds)| - 1] in "*+)"
    ensures WildText(wilds)[0] in ".("
  {
    var w := wilds[0];
    assert w.Source()[0] in ".(" && w.Source()[|w.Source()| - 1] in "*+)";
    if |wilds| > 1 {
      WildTextEnds(wilds[1..]);
    }
  }

  /** Both anchors come off, and nothing else. */
  lemma {:induction false} AnchorsOff(p: RoutePattern)
    requires p.Valid()
    ensures StripAnchors(p.Source()) == p.Prefix() + WildText(p.wilds)
    ensures HasPrefix(p.Source(), "^") && (HasSuffix(p.Source(), "$") <==> p.endAnchor)
  {
    hide Wild.Source, Wild.Valid;
    WildTextEnds(p.wilds);
    var inner := p.Prefix() + WildText(p.wilds);
    var s := p.Source();
    assert inner[|inner| - 1] == WildText(p.wilds)[|WildText(p.wilds)| - 1];
    if p.endAnchor {
      assert s == "^" + (inner + "$");
      assert s[1..] == inner + "$";
    } else {
      assert s == "^" + inner;
      assert s[1..] == inner;
    }
  }

  /** The structure found in the text is the structure it was written from. */
  lemma {:induction false} StructureFound(p: RoutePattern)
    requires p.Valid()
    ensures var s := StructureOf(p.Source());
            && s.endsWithAnchor == p.endAnchor && s.staticPrefixLen == |p.literals|
            && |s.segments| == |p.literals| + |p.wilds|
            && JoinLiterals(s.segments[..|p.literals|]) == p.Prefix()
            && forall i :: 0 <= i < |p.wilds| ==> WildSegment(s.segments[|p.literals|..][i], p.wilds[i])
  {
    hide Split, ClassifySegment, Wild.Source, Wild.Valid, LeadingLiterals, RoutePattern.Source, StripAnchors;
    AnchorsOff(p);
    SplitLiterals(p.literals, WildText(p.wilds));
    SplitWilds(p.wilds);
    ClassifyAppend(p.literals, WildSources(p.wilds));
    ClassifyWilds(p.wilds);
    var lits, wilds := Classify(p.literals), Classify(WildSources(p.wilds));
    assert WildSegment(wilds[0], p.wilds[0]);
    ClassifyLiterals(p.literals);
    LeadingOf(lits, wilds);
    assert (lits + wilds)[..|lits|] == lits && (lits + wilds)[|lits|..] == wilds;
  }

  lemma {:induction false} LiteralPrefixOf(literals: seq<string>, t: string)
    requires forall i :: 0 <= i < |literals| ==> PlainSegment(literals[i])
    requires t != "" && IsMeta(t[0])
    ensures LiteralPrefix(LiteralText(literals) + t) == LiteralText(literals)
  {
    if literals == [] {
      assert LiteralText(literals) + t == t;
    } else {
      hide LiteralPrefix, IsMeta;
      var rest := LiteralText(literals[1..]);
      LiteralPrefixOf(literals[1..], t);
      PlainAndSlash(literals[0]);
      Assoc(literals[0] + "/", rest, t);
      LiteralPrefixSkips(literals[0] + "/", rest + t);
    }
  }

  lemma PlainAndSlash(s: string)
    requires PlainSegment(s)
    ensures forall i :: 0 <= i < |s + "/"| ==> !IsMeta((s + "/")[i])
  {}

  lemma {:induction false} LiteralPrefixSkips(s: string, t: string)
    requires forall i :: 0 <= i < |s| ==> !IsMeta(s[i])
    ensures LiteralPrefix(s + t) == s + LiteralPrefix(t)
  {
    if s == "" {
      assert s + t == t;
    } else {
      assert (s + t)[1..] == s[1..] + t;
      LiteralPrefixSkips(s[1..], t);
    }
  }

  lemma PrefixEmptyIff(p: RoutePattern)
    ensures p.Prefix() == "" <==> p.literals == []
  {}

  lemma {:induction false} ExtractedPrefix(p: RoutePattern)
    requires p.Valid()
    ensures ExtractStaticPrefix(p.Source()) == p.Prefix()
  {
    hide RoutePattern.Source, StripAnchors, Wild.Source, Wild.Valid;
    AnchorsOff(p);
    WildTextEnds(p.wilds);
    LiteralPrefixOf(p.literals, WildText(p.wilds));
  }

  /** The two extractors agree: both find exactly the literal text of the pattern. */
  lemma {:induction false} StaticPrefixFound(p: RoutePattern, rewrites: seq<RewriteText>)
    requires p.Valid()
    ensures ExtractStaticPrefix(p.Source()) == p.Prefix()
    ensures var a := AnalyzePattern(p.Source(), rewrites);
            && a.staticPrefix == p.Prefix()
            && (a.canOptimize <==> p.Prefix() != "") && (a.requiresFullScan <==> p.Prefix() == "")
            && (a.hasTrivialRewrite, a.rewriteResultPrefix) == AnalyzeRewrites(rewrites)
            && (a.requiresNonEmptyRemainder ==> exists i :: 0 <= i < |p.wilds| && !p.wilds[i].optional)
  {
    hide StructureOf, AnalyzeRewrites, RoutePattern.Source, StripAnchors, ExtractStaticPrefix, Wild.Source, Wild.Valid;
    AnchorsOff(p);
    WildTextEnds(p.wilds);
    ExtractedPrefix(p);
    StructureFound(p);
    PrefixEmptyIff(p);
    var s := StructureOf(p.Source());
    var tail := s.segments[s.staticPrefixLen..];
    assert forall i :: 0 <= i < |p.wilds| ==> WildSegment(tail[i], p.wilds[i]);
    assert |tail| == |p.wilds| && WildSegment(tail[|tail| - 1], p.wilds[|tail| - 1]);
    if p.literals == [] {
      assert s.segments[0] == tail[0];
      assert p.Prefix() + WildText(p.wilds) == WildText(p.wilds);
    }
  }

  /** A wildcard that needs text makes every match longer than the static prefix. */
  lemma {:induction false} NeedsText(wilds: seq<Wild>, endAnchor: bool, s: string, i: nat)
    requires wilds != [] && MatchWilds(wilds, endAnchor, s) && i < |wilds| && !wilds[i].optional
    ensures s != ""
  {
    if |wilds| == 1 {
      var n: nat :| n <= |s| && wilds[0].Accepts(s[..n]) && (endAnchor ==> n == |s|);
    } else {
      var n: nat :| n < |s| && s[n] == '/' && wilds[0].Accepts(s[..n])
                    && MatchWilds(wilds[1..], endAnchor, s[n + 1..]);
    }
  }

  /**
   What the optimizer concludes holds of every key the pattern matches: it
   starts with the static prefix, is longer where that was concluded, and a
   skipped route matches no key under the listing prefix.
   */
  lemma {:induction false} OptimizerSound(p: RoutePattern, rewrites: seq<RewriteText>, virtualPrefix: string,
                                          key: string)
    requires p.Valid() && p.Matches(key)
    ensures var a := AnalyzePattern(p.Source(), rewrites);
            && a.staticPrefix <= key
            && (a.requiresNonEmptyRemainder ==> |a.staticPrefix| < |key|)
            && (CanSkipRoute(virtualPrefix, a) ==> !HasPrefix(key, virtualPrefix))
  {
    hide AnalyzePattern, RoutePattern.Source;
    StaticPrefixFound(p, rewrites);
    var a := AnalyzePattern(p.Source(), rewrites);
    if a.requiresNonEmptyRemainder {
      var i :| 0 <= i < |p.wilds| && !p.wilds[i].optional;
      NeedsText(p.wilds, p.endAnchor, key[|p.Prefix()|..], i);
    }
    TwoPrefixes(a.staticPrefix, virtualPrefix, key);
  }

  /** A pattern that may match anywhere in a key is never skipped. */
  lemma {:induction false} UnanchoredNeverSkipped(pattern: string, rewrites: seq<RewriteText>, virtualPrefix: string)
    requires !HasPrefix(pattern, "^")
    ensures !CanSkipRoute(virtualPrefix, AnalyzePattern(pattern, rewrites))
    ensures AnalyzePattern(pattern, rewrites).staticPrefix == ""
  {
    hide StructureOf, StaticPrefixOf, CanSafelyOptimize, AnalyzeRewrites;
  }

  /** Two prefixes of one string are prefixes of each other. */
  lemma {:induction false} TwoPrefixes(a: string, b: string, s: string)
    requires a <= s
    ensures b <= s ==> a <= b || b <= a
  {
    if b <= s {
      assert a == s[..|a|] && b == s[..|b|];
    }
  }
}
