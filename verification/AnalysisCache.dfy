/**
 The optimizer's cache of route analyses, keyed by the text of the pattern and
 of the rewrites.
 */
module AnalysisCache {
  import opened Text
  import opened TemplateSyntax
  import opened Prefixes

  /** A rewrite as configured; an empty pattern is configured as none. */
  datatype RewriteSource = RewriteSource(pattern: Option<string>, result: string)

  datatype RouteSource = RouteSource(pattern: string, rewrites: seq<RewriteSource>)

  predicate NulFree(s: string) { '\0' !in s }

  predicate ProperRewrite(r: RewriteSource) {
    NulFree(r.result) && (r.pattern.Some? ==> r.pattern.value != "" && NulFree(r.pattern.value))
  }

  predicate Proper(route: RouteSource) {
    NulFree(route.pattern) && forall i :: 0 <= i < |route.rewrites| ==> ProperRewrite(route.rewrites[i])
  }

  function PatternText(r: RewriteSource): string { if r.pattern.Some? then r.pattern.value else "" }

  function RewriteKeys(rewrites: seq<RewriteSource>): string {
    if rewrites == [] then ""
    else "\0" + PatternText(rewrites[0]) + "\0" + rewrites[0].result + RewriteKeys(rewrites[1..])
  }

  function CacheKey(route: RouteSource): string { route.pattern + RewriteKeys(route.rewrites) }

  /** buildCacheKey */
  method BuildCacheKey(route: RouteSource) returns (key: string)
    ensures key == CacheKey(route)
  {
    if |route.rewrites| == 0 {
      assert route.pattern + "" == route.pattern;
      return route.pattern;
    }
    key := route.pattern;
    for i := 0 to |route.rewrites|
      invariant key + RewriteKeys(route.rewrites[i..]) == CacheKey(route)
    {
      var r := route.rewrites[i];
      ghost var rest := RewriteKeys(route.rewrites[i + 1..]);
      assert route.rewrites[i..][1..] == route.rewrites[i + 1..];
      ghost var added := "\0" + PatternText(r) + "\0" + r.result;
      Assoc(key, added, rest);
      ghost var before := key;
      key := key + "\0";
      if r.pattern.Some? {
        key := key + r.pattern.value;
      }
      key := key + "\0";
      key := key + r.result;
      assert key == before + added;
    }
    assert key + "" == key;
  }

  function Fields(rewrites: seq<RewriteSource>): seq<string> {
    if rewrites == [] then []
    else [PatternText(rewrites[0]), rewrites[0].result] + Fields(rewrites[1..])
  }

  lemma {:induction false} KeyIsJoin(head: string, rewrites: seq<RewriteSource>)
    ensures head + RewriteKeys(rewrites) == Join([head] + Fields(rewrites), '\0')
    decreases |rewrites|
  {
    hide Join;
    if rewrites == [] {
      assert [head] + Fields(rewrites) == [head];
      JoinOne(head);
    } else {
      var p, r, more := PatternText(rewrites[0]), rewrites[0].result, Fields(rewrites[1..]);
      KeyIsJoin(r, rewrites[1..]);
      JoinTwo(head, p, r, more);
      assert [head] + Fields(rewrites) == [head, p] + ([r] + more);
      Assoc("\0" + p + "\0", r, RewriteKeys(rewrites[1..]));
      Assoc(head, "\0" + p + "\0", r + RewriteKeys(rewrites[1..]));
      Assoc(head, "\0" + p, "\0");
      Assoc(head, "\0", p);
    }
  }

  lemma JoinOne(head: string)
    ensures Join([head], '\0') == head
  {}

  lemma {:induction false} JoinTwo(head: string, p: string, r: string, more: seq<string>)
    ensures Join([head, p] + ([r] + more), '\0') == head + "\0" + p + "\0" + Join([r] + more, '\0')
  {
    var all, tail := [head, p] + ([r] + more), [r] + more;
    assert all[1..] == [p] + tail && all[1..][1..] == tail;
    assert Join(all[1..], '\0') == p + "\0" + Join(tail, '\0');
    Assoc(head + "\0", p + "\0", Join(tail, '\0'));
    Assoc(head + "\0", p, "\0");
  }

  lemma {:induction false} FieldsNulFree(rewrites: seq<RewriteSource>)
    requires forall i :: 0 <= i < |rewrites| ==> ProperRewrite(rewrites[i])
    ensures forall f :: f in Fields(rewrites) ==> NulFree(f)
  {
    if rewrites != [] {
      FieldsNulFree(rewrites[1..]);
    }
  }

  lemma {:induction false} FieldsInjective(a: seq<RewriteSource>, b: seq<RewriteSource>)
    requires forall i :: 0 <= i < |a| ==> ProperRewrite(a[i])
    requires forall i :: 0 <= i < |b| ==> ProperRewrite(b[i])
    requires Fields(a) == Fields(b)
    ensures a == b
  {
    if a != [] && b != [] {
      assert Fields(a)[0] == Fields(b)[0] && Fields(a)[1] == Fields(b)[1];
      assert Fields(a)[2..] == Fields(a[1..]) && Fields(b)[2..] == Fields(b[1..]);
      FieldsInjective(a[1..], b[1..]);
      assert ProperRewrite(a[0]) && ProperRewrite(b[0]);
      assert a[0] == b[0];
      assert a == [a[0]] + a[1..] && b == [b[0]] + b[1..];
    }
  }

  /** Routes with different texts have different keys. */
  lemma {:induction false} CacheKeyInjective(a: RouteSource, b: RouteSource)
    requires Proper(a) && Proper(b) && CacheKey(a) == CacheKey(b)
    ensures a == b
  {
    KeyIsJoin(a.pattern, a.rewrites);
    KeyIsJoin(b.pattern, b.rewrites);
    FieldsNulFree(a.rewrites);
    FieldsNulFree(b.rewrites);
    var x, y := [a.pattern] + Fields(a.rewrites), [b.pattern] + Fields(b.rewrites);
    JoinInjective(x, y, '\0');
    assert x[0] == y[0] && x[1..] == Fields(a.rewrites) && y[1..] == Fields(b.rewrites);
    FieldsInjective(a.rewrites, b.rewrites);
  }

  function Texts(rewrites: seq<RewriteSource>): seq<RewriteText> {
    if rewrites == [] then []
    else
      var tree := match ParseTemplate(rewrites[0].result) case Some(node) => node case None => Literal("");
      [RewriteText(rewrites[0].pattern.Some?, tree)] + Texts(rewrites[1..])
  }

  function AnalysisOf(route: RouteSource): PrefixAnalysis { AnalyzePattern(route.pattern, Texts(route.rewrites)) }

  type Cache = map<string, PrefixAnalysis>

  type Analyzer = RouteSource -> PrefixAnalysis

  /** What a call answers, and the cache after it. */
  function AnalyzeStep(analyze: Analyzer, cache: Cache, route: RouteSource): (PrefixAnalysis, Cache) {
    var key := CacheKey(route);
    if key in cache then (cache[key], cache)
    else (analyze(route), cache[key := analyze(route)])
  }

  class PrefixOptimizer {
    var cache: Cache

    constructor ()
      ensures cache == map[]
    {
      cache := map[];
    }

    method AnalyzeRoute(route: RouteSource) returns (analysis: PrefixAnalysis)
      modifies this`cache
      ensures (analysis, cache) == AnalyzeStep(AnalysisOf, old(cache), route)
    {
      hide AnalysisOf;
      var cacheKey := BuildCacheKey(route);
      if cacheKey in cache {
        return cache[cacheKey];
      }
      analysis := ComputeAnalysis(route);
      cache := cache[cacheKey := analysis];
    }

    method ComputeAnalysis(route: RouteSource) returns (analysis: PrefixAnalysis)
      ensures analysis == AnalysisOf(route)
    {
      analysis := AnalyzePattern(route.pattern, Texts(route.rewrites));
    }
  }

  // ----- any sequence of calls, whatever the analysis is -----

  function Answers(analyze: Analyzer, cache: Cache, calls: seq<RouteSource>): seq<PrefixAnalysis>
    decreases |calls|
  {
    if calls == [] then []
    else
      var (analysis, next) := AnalyzeStep(analyze, cache, calls[0]);
      [analysis] + Answers(analyze, next, calls[1..])
  }

  function Analyses(analyze: Analyzer, calls: seq<RouteSource>): seq<PrefixAnalysis> {
    seq(|calls|, i requires 0 <= i < |calls| => analyze(calls[i]))
  }

  /** Routes that share a key have the same analysis. */
  predicate KeysDecide(analyze: Analyzer, routes: set<RouteSource>) {
    forall r, s :: r in routes && s in routes && CacheKey(r) == CacheKey(s) ==> analyze(r) == analyze(s)
  }

  /** Whatever route finds an entry under its key, the entry is its analysis. */
  predicate Correct(analyze: Analyzer, cache: Cache, routes: set<RouteSource>) {
    forall r :: r in routes && CacheKey(r) in cache ==> cache[CacheKey(r)] == analyze(r)
  }

  lemma {:induction false} AnswersCorrect(analyze: Analyzer, cache: Cache, calls: seq<RouteSource>,
                                          routes: set<RouteSource>)
    requires KeysDecide(analyze, routes) && Correct(analyze, cache, routes) && forall r :: r in calls ==> r in routes
    ensures Answers(analyze, cache, calls) == Analyses(analyze, calls)
    decreases |calls|
  {
    hide CacheKey;
    if calls != [] {
      var (analysis, next) := AnalyzeStep(analyze, cache, calls[0]);
      assert calls[0] in routes;
      AnswersCorrect(analyze, next, calls[1..], routes);
      assert Analyses(analyze, calls) == [analyze(calls[0])] + Analyses(analyze, calls[1..]);
    }
  }

  lemma {:induction false} CollisionAnswers(analyze: Analyzer, r: RouteSource, s: RouteSource)
    requires CacheKey(r) == CacheKey(s) && analyze(r) != analyze(s)
    ensures Answers(analyze, map[], [r, s]) != Analyses(analyze, [r, s])
  {
    hide CacheKey;
    var empty: Cache := map[];
    assert [r, s][1..] == [s] && [s][1..] == [];
    var next := AnalyzeStep(analyze, empty, r).1;
    assert Answers(analyze, next, [s]) == [analyze(r)] + Answers(analyze, next, []);
    assert Answers(analyze, empty, [r, s]) == [analyze(r)] + Answers(analyze, next, [s]);
    assert Answers(analyze, empty, [r, s])[1] == analyze(r) && Analyses(analyze, [r, s])[1] == analyze(s);
  }

  /** The cache is invisible over every sequence of calls exactly when routes that share a key have one analysis. */
  lemma {:induction false} AnalysisTransparentIff(analyze: Analyzer, routes: set<RouteSource>)
    ensures KeysDecide(analyze, routes) <==>
            forall calls :: (forall r :: r in calls ==> r in routes) ==>
              Answers(analyze, map[], calls) == Analyses(analyze, calls)
  {
    hide CacheKey, Answers, Analyses;
    if KeysDecide(analyze, routes) {
      forall calls | forall r :: r in calls ==> r in routes
        ensures Answers(analyze, map[], calls) == Analyses(analyze, calls)
      {
        AnswersCorrect(analyze, map[], calls, routes);
      }
    } else {
      var r, s :| r in routes && s in routes && CacheKey(r) == CacheKey(s) && analyze(r) != analyze(s);
      CollisionAnswers(analyze, r, s);
      assert forall x :: x in [r, s] ==> x in routes;
    }
  }

  /** NUL-free texts are enough for that. */
  lemma {:induction false} NulFreeIsTransparent(analyze: Analyzer, routes: set<RouteSource>, calls: seq<RouteSource>)
    requires (forall r :: r in routes ==> Proper(r)) && forall r :: r in calls ==> r in routes
    ensures Answers(analyze, map[], calls) == Analyses(analyze, calls)
  {
    hide CacheKey, Answers, Analyses, Proper;
    forall r, s | r in routes && s in routes && CacheKey(r) == CacheKey(s)
      ensures r == s
    {
      CacheKeyInjective(r, s);
    }
    AnswersCorrect(analyze, map[], calls, routes);
  }

  /** With a NUL byte in a pattern, a pattern can pass for a pattern with a rewrite. */
  lemma {:induction false} NulIsAmbiguous()
    ensures CacheKey(RouteSource("a\0\0b", [])) == CacheKey(RouteSource("a", [RewriteSource(None, "b")]))
  {
    var rewrites := [RewriteSource(None, "b")];
    assert rewrites[1..] == [];
    assert RewriteKeys(rewrites) == "\0" + "" + "\0" + "b" + "";
  }
}
