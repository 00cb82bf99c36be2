/**
 Routing an object key: the first route whose path pattern matches, the chain
 of rewrites, and the decision cache in front of them.
 */
module Routing {
  import opened Text
  import opened TemplateSyntax
  import opened TemplateAnalysis

  /** Where a group matched, if it took part in the match. */
  datatype Span = Absent | At(start: nat, end: nat)

  /** A compiled pattern: its group names, "" for the whole match and unnamed groups, and its match function. */
  datatype Pattern = Pattern(names: seq<string>, find: string -> Option<seq<Span>>)
  {
    ghost predicate Valid() {
      forall s :: find(s).Some? ==> SpansOf(find(s).value, s)
    }

    ghost predicate SpansOf(spans: seq<Span>, s: string) {
      |spans| == |names| > 0 && spans[0].At? && InRange(spans, s)
    }
  }

  datatype RewriteRule = RewriteRule(pattern: Option<Pattern>, result: Node)

  datatype Route = Route(path: Pattern, backend: string, rewrites: seq<RewriteRule>)
  {
    ghost predicate Valid() {
      path.Valid() && forall r :: r in rewrites ==> r.pattern.Some? ==> r.pattern.value.Valid()
    }
  }

  datatype Decision = Decision(backend: string, rewrittenKey: string, originalKey: string, routeIndex: nat)

  /** The outcome of routing; a substitution panics on a match in which some group took no part. */
  datatype MatchResult = Found(decision: Decision) | NoBucket | NoRoute | Panicked

  predicate InRange(spans: seq<Span>, key: string) {
    forall i :: 0 <= i < |spans| && spans[i].At? ==> spans[i].start <= spans[i].end <= |key|
  }

  predicate AllPresent(spans: seq<Span>) { forall i :: 0 <= i < |spans| ==> spans[i].At? }

  function Slice(key: string, span: Span): string
    requires span.At? && span.start <= span.end <= |key|
  {
    key[span.start..span.end]
  }

  // ----- rewriting -----

  /** The captures of the first n groups added to those already there; the whole match has no name. */
  function NamedCaptures(captures: map<string, string>, names: seq<string>, spans: seq<Span>, key: string, n: nat)
    : map<string, string>
    requires n <= |names| && n <= |spans| && InRange(spans, key)
  {
    if n <= 1 then captures
    else
      var before := NamedCaptures(captures, names, spans, key, n - 1);
      if names[n - 1] != "" && spans[n - 1].At? then before[names[n - 1] := Slice(key, spans[n - 1])] else before
  }

  /** Numbered captures, the whole match first, and one empty value after the last group. */
  function IndexedCaptures(spans: seq<Span>, key: string): seq<string>
    requires InRange(spans, key) && AllPresent(spans)
  {
    if spans == [] then []
    else seq(|spans|, i requires 0 <= i < |spans| => Slice(key, spans[i])) + [""]
  }

  /** The evaluated template; None where it panics because a group took no part in the match. */
  function Substitute(result: Node, captures: map<string, string>, spans: seq<Span>, key: string): Option<string>
    requires InRange(spans, key)
  {
    if AllPresent(spans) then Some(Execute(Placeholders(captures, IndexedCaptures(spans, key)), result)) else None
  }

  /** What the rewrites so far leave behind. */
  datatype Rewriting = Panic | Running(key: string, captures: map<string, string>)

  function Continue(key: Option<string>, captures: map<string, string>): Rewriting {
    if key.Some? then Running(key.value, captures) else Panic
  }

  /** The first n rewrites. */
  ghost function RewriteSteps(route: Route, objectKey: string, spans: seq<Span>, n: nat): (r: Rewriting)
    requires route.Valid() && n <= |route.rewrites|
    requires route.path.SpansOf(spans, objectKey)
  {
    if n == 0 then Running(objectKey, NamedCaptures(map[], route.path.names, spans, objectKey, |spans|))
    else
      match RewriteSteps(route, objectKey, spans, n - 1)
      case Panic => Panic
      case Running(key, captures) =>
        var rule := route.rewrites[n - 1];
        match rule.pattern
        case None => Continue(Substitute(rule.result, captures, spans, objectKey), captures)
        case Some(pattern) =>
          match pattern.find(key)
          case None => Running(key, captures)
          case Some(sub) =>
            var all := NamedCaptures(captures, pattern.names, sub, key, |sub|);
            Continue(Substitute(rule.result, all, sub, key), all)
  }

  ghost function Rewritten(route: Route, objectKey: string, spans: seq<Span>): Option<string>
    requires route.Valid() && route.path.SpansOf(spans, objectKey)
  {
    var r := RewriteSteps(route, objectKey, spans, |route.rewrites|);
    if r.Panic? then None else Some(r.key)
  }

  lemma {:induction false} PanicStays(route: Route, objectKey: string, spans: seq<Span>, i: nat, n: nat)
    requires route.Valid() && i <= n <= |route.rewrites| && route.path.SpansOf(spans, objectKey)
    requires RewriteSteps(route, objectKey, spans, i).Panic?
    ensures RewriteSteps(route, objectKey, spans, n).Panic?
  {
    if i < n {
      PanicStays(route, objectKey, spans, i, n - 1);
    }
  }

  /** The loop that fills the capture map. */
  method CollectCaptures(captures: map<string, string>, names: seq<string>, spans: seq<Span>, key: string)
    returns (r: map<string, string>)
    requires |names| == |spans| && InRange(spans, key)
    ensures r == NamedCaptures(captures, names, spans, key, |spans|)
  {
    r := captures;
    for i := 0 to |names|
      invariant r == NamedCaptures(captures, names, spans, key, i)
    {
      if i > 0 && names[i] != "" && spans[i].At? {
        r := r[names[i] := Slice(key, spans[i])];
      }
    }
  }

  method SubstituteCaptures(result: Node, captures: map<string, string>, spans: seq<Span>, key: string)
    returns (r: Option<string>)
    requires InRange(spans, key)
    ensures r == Substitute(result, captures, spans, key)
  {
    var indexed: seq<string> := [];
    if |spans| > 0 {
      for j := 0 to |spans|
        invariant forall i :: 0 <= i < j ==> spans[i].At?
        invariant indexed == seq(j, i requires 0 <= i < j => Slice(key, spans[i]))
      {
        if spans[j].Absent? {
          return None;
        }
        indexed := indexed + [Slice(key, spans[j])];
      }
      indexed := indexed + [""];
    }
    assert indexed == IndexedCaptures(spans, key);
    r := Some(Execute(Placeholders(captures, indexed), result));
  }

  /** rewrite; None where it panics. */
  method Rewrite(route: Route, objectKey: string, spans: seq<Span>) returns (r: Option<string>)
    requires route.Valid() && route.path.SpansOf(spans, objectKey)
    ensures r == Rewritten(route, objectKey, spans)
  {
    hide NamedCaptures, Substitute;
    var key := objectKey;
    var captures := CollectCaptures(map[], route.path.names, spans, objectKey);
    for i := 0 to |route.rewrites|
      invariant Running(key, captures) == RewriteSteps(route, objectKey, spans, i)
    {
      var rule := route.rewrites[i];
      var result := Some(key);
      match rule.pattern {
        case None =>
          result := SubstituteCaptures(rule.result, captures, spans, objectKey);
        case Some(pattern) =>
          match pattern.find(key) {
            case None =>
            case Some(sub) =>
              captures := CollectCaptures(captures, pattern.names, sub, key);
              result := SubstituteCaptures(rule.result, captures, sub, key);
          }
      }
      assert Continue(result, captures) == RewriteSteps(route, objectKey, spans, i + 1);
      match result {
        case None =>
          PanicStays(route, objectKey, spans, i + 1, |route.rewrites|);
          return None;
        case Some(next) =>
          key := next;
      }
    }
    r := Some(key);
  }

  // ----- the first matching route -----

  type Buckets = map<string, seq<Route>>

  ghost predicate ValidBuckets(buckets: Buckets) {
    forall b :: b in buckets ==> forall r :: r in buckets[b] ==> r.Valid()
  }

  /** The decision of the first route at or after i whose pattern matches. */
  ghost function FirstRoute(routes: seq<Route>, key: string, i: nat): MatchResult
    requires i <= |routes| && forall r :: r in routes ==> r.Valid()
    decreases |routes| - i
  {
    if i == |routes| then NoRoute
    else
      var route := routes[i];
      match route.path.find(key)
      case None => FirstRoute(routes, key, i + 1)
      case Some(spans) =>
        match Rewritten(route, key, spans)
        case None => Panicked
        case Some(rewritten) => Found(Decision(route.backend, rewritten, key, i))
  }

  /** Routing without a cache. */
  ghost function Uncached(buckets: Buckets, bucket: string, key: string): MatchResult
    requires ValidBuckets(buckets)
  {
    if bucket !in buckets then NoBucket else FirstRoute(buckets[bucket], key, 0)
  }

  // ----- the cache -----

  function CacheKey(bucket: string, key: string, httpMethod: string): string {
    bucket + ":" + key + ":" + httpMethod
  }

  /** One call on the matcher. The LRU may drop any entries when one is added: evicted says which. */
  datatype Call =
    | Match(bucket: string, key: string, httpMethod: string, evicted: set<string>)
    | Invalidate

  type Cache = map<string, Decision>

  /** What a Match call answers and leaves in the cache. */
  ghost function MatchStep(buckets: Buckets, cache: Cache, bucket: string, key: string, httpMethod: string,
                           evicted: set<string>): (MatchResult, Cache)
    requires ValidBuckets(buckets)
  {
    var k := CacheKey(bucket, key, httpMethod);
    if bucket !in buckets then (NoBucket, cache)
    else if k in cache then (Found(cache[k]), cache)
    else
      var r := Uncached(buckets, bucket, key);
      (r, if r.Found? then cache[k := r.decision] - evicted else cache)
  }

  class Matcher {
    const buckets: Buckets
    const hasCache: bool
    var cache: Cache

    constructor (buckets: Buckets, cacheSize: int)
      ensures this.buckets == buckets && hasCache == (cacheSize > 0) && cache == map[]
    {
      this.buckets := buckets;
      this.hasCache := cacheSize > 0;
      this.cache := map[];
    }

    method Match(bucket: string, objectKey: string, httpMethod: string, evicted: set<string>)
      returns (result: MatchResult)
      requires ValidBuckets(buckets)
      modifies this`cache
      ensures hasCache ==>
                (result, cache) == MatchStep(buckets, old(cache), bucket, objectKey, httpMethod, evicted)
      ensures !hasCache ==> result == Uncached(buckets, bucket, objectKey) && cache == old(cache)
    {
      if bucket !in buckets {
        return NoBucket;
      }
      var cacheKey := CacheKey(bucket, objectKey, httpMethod);
      if hasCache && cacheKey in cache {
        return Found(cache[cacheKey]);
      }
      var routes := buckets[bucket];
      for i := 0 to |routes|
        invariant FirstRoute(routes, objectKey, i) == Uncached(buckets, bucket, objectKey)
        invariant cache == old(cache)
      {
        var route := routes[i];
        var matches := route.path.find(objectKey);
        if matches.Some? {
          var rewrittenKey := Rewrite(route, objectKey, matches.value);
          if rewrittenKey.None? {
            return Panicked;
          }
          var decision := Decision(route.backend, rewrittenKey.value, objectKey, i);
          if hasCache {
            cache := cache[cacheKey := decision] - evicted;
          }
          return Found(decision);
        }
      }
      result := NoRoute;
    }

    method InvalidateCache()
      modifies this`cache
      ensures hasCache ==> cache == map[]
      ensures !hasCache ==> cache == old(cache)
    {
      if hasCache {
        cache := map[];
      }
    }
  }

  /** The answers of a cached matcher to a history of calls; an invalidation answers nothing. */
  ghost function Run(buckets: Buckets, cache: Cache, calls: seq<Call>): seq<MatchResult>
    requires ValidBuckets(buckets)
    decreases |calls|
  {
    if calls == [] then []
    else
      match calls[0]
      case Invalidate => Run(buckets, map[], calls[1..])
      case Match(b, k, m, evicted) =>
        var (r, c) := MatchStep(buckets, cache, b, k, m, evicted);
        [r] + Run(buckets, c, calls[1..])
  }

  ghost function RunUncached(buckets: Buckets, calls: seq<Call>): seq<MatchResult>
    requires ValidBuckets(buckets)
  {
    if calls == [] then []
    else
      match calls[0]
      case Invalidate => RunUncached(buckets, calls[1..])
      case Match(b, k, _, _) => [Uncached(buckets, b, k)] + RunUncached(buckets, calls[1..])
  }

  predicate ColonFree(s: string) { ':' !in s }

  /** HTTP methods are tokens, which hold no colon. */
  predicate ProperCalls(calls: seq<Call>) {
    forall c :: c in calls ==> c.Match? ==> ColonFree(c.httpMethod)
  }

  /** Two requests that share a cache entry get the same decision. */
  ghost predicate CollisionsAgree(buckets: Buckets)
    requires ValidBuckets(buckets)
  {
    forall b, k, b', k' ::
      (b in buckets && b' in buckets && BucketAndKey(b, k) == BucketAndKey(b', k')
       && Uncached(buckets, b, k).Found?)
      ==> Uncached(buckets, b', k') == Uncached(buckets, b, k)
  }

  function BucketAndKey(bucket: string, key: string): string { bucket + ":" + key }

  lemma {:induction false} LastColon(a: string, m: string, b: string, n: string)
    requires ColonFree(m) && ColonFree(n) && a + ":" + m == b + ":" + n
    ensures a == b && m == n
  {
    var s := a + ":" + m;
    assert s[|a|] == ':' && s[|b|] == ':';
    assert forall i :: |a| < i < |s| ==> s[i] == m[i - |a| - 1];
    assert forall i :: |b| < i < |s| ==> s[i] == n[i - |b| - 1];
    assert |a| == |b|;
    assert a == s[..|a|] == b && m == s[|a| + 1..] == n;
  }

  /** Every cached decision is right for every request that reads it. */
  ghost predicate Correct(buckets: Buckets, cache: Cache)
    requires ValidBuckets(buckets)
  {
    forall b, k, m ::
      b in buckets && ColonFree(m) && CacheKey(b, k, m) in cache
      ==> Uncached(buckets, b, k) == Found(cache[CacheKey(b, k, m)])
  }

  lemma {:induction false} StepCorrect(buckets: Buckets, cache: Cache, b: string, k: string, m: string,
                                       evicted: set<string>)
    requires ValidBuckets(buckets) && CollisionsAgree(buckets) && Correct(buckets, cache) && ColonFree(m)
    ensures var (r, c) := MatchStep(buckets, cache, b, k, m, evicted);
            r == Uncached(buckets, b, k) && Correct(buckets, c)
  {
    hide Uncached;
    var (r, c) := MatchStep(buckets, cache, b, k, m, evicted);
    if b !in buckets {
      UnknownBucket(buckets, b, k);
    } else if CacheKey(b, k, m) !in cache && r.Found? {
      forall b', k', m' | b' in buckets && ColonFree(m') && CacheKey(b', k', m') in c
        ensures Uncached(buckets, b', k') == Found(c[CacheKey(b', k', m')])
      {
        if CacheKey(b', k', m') == CacheKey(b, k, m) {
          LastColon(BucketAndKey(b', k'), m', BucketAndKey(b, k), m);
        }
      }
    }
  }

  lemma UnknownBucket(buckets: Buckets, b: string, k: string)
    requires ValidBuckets(buckets) && b !in buckets
    ensures Uncached(buckets, b, k) == NoBucket
  {}

  lemma {:induction false} RunCorrect(buckets: Buckets, cache: Cache, calls: seq<Call>)
    requires ValidBuckets(buckets) && CollisionsAgree(buckets) && Correct(buckets, cache) && ProperCalls(calls)
    ensures Run(buckets, cache, calls) == RunUncached(buckets, calls)
    decreases |calls|
  {
    hide Uncached, MatchStep, CollisionsAgree;
    if calls != [] {
      match calls[0]
      case Invalidate => RunCorrect(buckets, map[], calls[1..]);
      case Match(b, k, m, evicted) =>
        StepCorrect(buckets, cache, b, k, m, evicted);
        RunCorrect(buckets, MatchStep(buckets, cache, b, k, m, evicted).1, calls[1..]);
    }
  }

  lemma {:induction false} CollisionShows(buckets: Buckets, b: string, k: string, b': string, k': string)
    requires ValidBuckets(buckets) && b in buckets && b' in buckets
    requires BucketAndKey(b, k) == BucketAndKey(b', k') && Uncached(buckets, b, k).Found?
    requires Uncached(buckets, b', k') != Uncached(buckets, b, k)
    ensures var calls := [Match(b, k, "GET", {}), Match(b', k', "GET", {})];
            ProperCalls(calls) && Run(buckets, map[], calls) != RunUncached(buckets, calls)
  {
    var first, second := Match(b, k, "GET", {}), Match(b', k', "GET", {});
    var calls := [first, second];
    var r := Uncached(buckets, b, k);
    var key := CacheKey(b, k, "GET");
    assert key == BucketAndKey(b, k) + ":" + "GET" == BucketAndKey(b', k') + ":" + "GET" == CacheKey(b', k', "GET");
    var c: Cache := map[key := r.decision];
    var none: set<string>, empty: Cache := {}, map[];
    assert empty[key := r.decision] - none == c;
    assert MatchStep(buckets, map[], b, k, "GET", {}) == (r, c);
    assert MatchStep(buckets, c, b', k', "GET", {}) == (r, c);
    assert calls[1..] == [second] && [second][1..] == [];
    assert Run(buckets, c, [second]) == [r] + [];
    assert Run(buckets, map[], calls)[1] == r;
    assert RunUncached(buckets, [second]) == [Uncached(buckets, b', k')] + [];
    assert RunUncached(buckets, calls)[1] == Uncached(buckets, b', k');
  }

  /**
   The cache is invisible over every history of calls and every eviction
   choice, exactly when requests that share an entry agree on its decision.
   */
  lemma {:induction false} CacheTransparentIff(buckets: Buckets)
    requires ValidBuckets(buckets)
    ensures CollisionsAgree(buckets) <==>
            forall calls :: ProperCalls(calls) ==> Run(buckets, map[], calls) == RunUncached(buckets, calls)
  {
    hide Uncached, Run, RunUncached;
    if CollisionsAgree(buckets) {
      forall calls | ProperCalls(calls)
        ensures Run(buckets, map[], calls) == RunUncached(buckets, calls)
      {
        RunCorrect(buckets, map[], calls);
      }
    } else {
      var b, k, b', k' :| b in buckets && b' in buckets && BucketAndKey(b, k) == BucketAndKey(b', k')
                          && Uncached(buckets, b, k).Found?
                          && Uncached(buckets, b', k') != Uncached(buckets, b, k);
      CollisionShows(buckets, b, k, b', k');
    }
  }

  /** No bucket name, followed by a colon, starts another bucket name. */
  predicate NamesSeparate(names: set<string>) {
    forall b, b' :: b in names && b' in names ==> !(b + ":" <= b')
  }

  /** The key encoding is injective exactly on bucket names that do not extend each other past a colon. */
  lemma {:induction false} CacheKeyInjectiveIff(names: set<string>)
    ensures NamesSeparate(names) <==>
            forall b, k, m, b', k', m' ::
              b in names && b' in names && ColonFree(m) && ColonFree(m') && CacheKey(b, k, m) == CacheKey(b', k', m')
              ==> b == b' && k == k' && m == m'
  {
    if NamesSeparate(names) {
      forall b, k, m, b', k', m' | b in names && b' in names && ColonFree(m) && ColonFree(m')
                                   && CacheKey(b, k, m) == CacheKey(b', k', m')
        ensures b == b' && k == k' && m == m'
      {
        LastColon(BucketAndKey(b, k), m, BucketAndKey(b', k'), m');
        SeparateNames(b, k, b', k');
      }
    } else {
      var b, b' :| b in names && b' in names && b + ":" <= b';
      var k := b'[|b| + 1..] + ":";
      assert b' == b + ":" + b'[|b| + 1..];
      assert CacheKey(b, k, "") == CacheKey(b', "", "");
    }
  }

  lemma {:induction false} SeparateNames(b: string, k: string, b': string, k': string)
    requires BucketAndKey(b, k) == BucketAndKey(b', k') && !(b + ":" <= b') && !(b' + ":" <= b)
    ensures b == b' && k == k'
  {
    ShorterName(b, k, b', k');
    ShorterName(b', k', b, k);
  }

  lemma {:induction false} ShorterName(b: string, k: string, b': string, k': string)
    requires BucketAndKey(b, k) == BucketAndKey(b', k')
    ensures |b| < |b'| ==> b + ":" <= b'
    ensures |b| == |b'| ==> b == b' && k == k'
  {
    var s := BucketAndKey(b, k);
    assert s[..|b| + 1] == b + ":" && s[..|b'|] == b' && s[..|b|] == b;
    assert s[|b| + 1..] == k && s[|b'| + 1..] == k';
  }

  lemma {:induction false} ColonInside(b: string, b': string)
    requires b + ":" <= b'
    ensures !ColonFree(b')
  {
    assert b'[|b|] == ':';
  }

  /** Colon-free bucket names make the cache invisible. */
  lemma {:induction false} ColonFreeNamesAreTransparent(buckets: Buckets, calls: seq<Call>)
    requires ValidBuckets(buckets) && ProperCalls(calls)
    requires NamesSeparate(buckets.Keys) || forall b :: b in buckets ==> ColonFree(b)
    ensures Run(buckets, map[], calls) == RunUncached(buckets, calls)
  {
    hide Uncached, Run, RunUncached;
    forall b, b' | b in buckets && b' in buckets
      ensures !(b + ":" <= b')
    {
      if b + ":" <= b' {
        ColonInside(b, b');
      }
    }
    forall b, k, b', k' | b in buckets && b' in buckets && BucketAndKey(b, k) == BucketAndKey(b', k')
      ensures b == b' && k == k'
    {
      SeparateNames(b, k, b', k');
    }
    RunCorrect(buckets, map[], calls);
  }

  /** A route that matches every key and keeps it. */
  function CatchAll(backend: string): Route { Route(Pattern([""], s => Some([At(0, |s|)])), backend, []) }

  lemma CatchAllRoutes(backend: string, key: string)
    ensures CatchAll(backend).Valid()
    ensures FirstRoute([CatchAll(backend)], key, 0) == Found(Decision(backend, key, key, 0))
  {}

  lemma {:induction false} AmbiguousNames(names: set<string>, a: string, b: string)
    returns (buckets: Buckets, calls: seq<Call>)
    requires a in names && b in names && a + ":" <= b
    ensures buckets.Keys == names && ValidBuckets(buckets) && ProperCalls(calls)
    ensures Run(buckets, map[], calls) != RunUncached(buckets, calls)
  {
    hide FirstRoute, Run, RunUncached;
    buckets := map n | n in names :: [CatchAll(n)];
    forall n | n in names
      ensures CatchAll(n).Valid()
    {
      CatchAllRoutes(n, "");
    }
    var k := b[|a| + 1..] + ":";
    assert b == a + ":" + b[|a| + 1..];
    assert BucketAndKey(a, k) == BucketAndKey(b, "");
    CatchAllRoutes(a, k);
    CatchAllRoutes(b, "");
    CollisionShows(buckets, a, k, b, "");
    calls := [Match(a, k, "GET", {}), Match(b, "", "GET", {})];
  }

  /**
   The cache is invisible to every set of routes, every history of calls and
   every eviction choice, exactly when no bucket name followed by a colon
   starts another.
   */
  lemma {:induction false} NamesDecideTransparency(names: set<string>)
    ensures NamesSeparate(names) <==>
            forall buckets: Buckets :: buckets.Keys == names && ValidBuckets(buckets) ==>
              forall calls :: ProperCalls(calls) ==> Run(buckets, map[], calls) == RunUncached(buckets, calls)
  {
    hide Run, RunUncached;
    if NamesSeparate(names) {
      forall buckets: Buckets, calls | buckets.Keys == names && ValidBuckets(buckets) && ProperCalls(calls)
        ensures Run(buckets, map[], calls) == RunUncached(buckets, calls)
      {
        ColonFreeNamesAreTransparent(buckets, calls);
      }
    } else {
      var a, b :| a in names && b in names && a + ":" <= b;
      var buckets, calls := AmbiguousNames(names, a, b);
    }
  }
}
