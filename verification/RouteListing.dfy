/**
 Listing one route of a virtual bucket: the prefix sent to the backend, the
 reverse rewrite of the keys it returns, and when the result is exactly the
 set of keys whose rewritten keys the backend holds.
 */
module RouteListing {
  import opened Text
  import opened TemplateSyntax
  import opened TemplateAnalysis
  import opened Routing
  import opened Prefixes
  import opened RoutePatterns

  datatype VirtualObject = VirtualObject(virtualKey: string, physicalKey: string, backendID: string)

  /** A route together with the text its path pattern was compiled from. */
  datatype RouteConfig = RouteConfig(route: Route, source: string)
  {
    function Rewrites(): seq<RewriteText> { RewriteTexts(route.rewrites) }

    function AnalysisOf(): PrefixAnalysis { AnalyzePattern(source, Rewrites()) }
  }

  function RewriteTexts(rules: seq<RewriteRule>): seq<RewriteText> {
    if rules == [] then []
    else [RewriteText(rules[0].pattern.Some?, rules[0].result)] + RewriteTexts(rules[1..])
  }

  // ----- reverse rewriting -----

  /** reverseRewriteRule */
  function ReverseRule(key: string, result: Node, staticPrefix: string): string {
    var a := Analyze(result);
    if a.containsConditionals then staticPrefix + key
    else if a.prefix == "" && a.rest != [] && a.rest[|a.rest| - 1].tail == "" then staticPrefix + key
    else if a.prefix != "" && HasPrefix(key, a.prefix) then staticPrefix + TrimPrefix(key, a.prefix)
    else if a.rest != [] && a.rest[|a.rest| - 1].tail != "" && HasSuffix(key, a.rest[|a.rest| - 1].tail) then
      staticPrefix + TrimSuffix(key, a.rest[|a.rest| - 1].tail)
    else staticPrefix + key
  }

  /** The rules undone from the last to the first. */
  function ReverseRules(key: string, rules: seq<RewriteRule>, staticPrefix: string): string
    decreases |rules|
  {
    if rules == [] then key
    else
      var n := |rules| - 1;
      ReverseRules(ReverseRule(key, rules[n].result, staticPrefix), rules[..n], staticPrefix)
  }

  function ReverseRewrite(key: string, config: RouteConfig): string {
    ReverseRules(key, config.route.rewrites, ExtractStaticPrefix(config.source))
  }

  method ApplyReverseRewrites(physicalKey: string, config: RouteConfig) returns (key: string)
    ensures key == ReverseRewrite(physicalKey, config)
  {
    var rules := config.route.rewrites;
    if |rules| == 0 {
      return physicalKey;
    }
    var staticPrefix := ExtractStaticPrefix(config.source);
    key := physicalKey;
    var i := |rules| - 1;
    assert rules[..i + 1] == rules;
    while i >= 0
      invariant -1 <= i < |rules|
      invariant ReverseRules(key, rules[..i + 1], staticPrefix) == ReverseRewrite(physicalKey, config)
    {
      assert rules[..i + 1][..i] == rules[..i];
      key := ReverseRule(key, rules[i].result, staticPrefix);
      i := i - 1;
    }
  }

  // ----- one backend query -----

  /** createOptimizedParams: the prefix below the backend's own prefix. */
  function OptimizedPrefix(virtualPrefix: string, a: PrefixAnalysis): string {
    match ComputePhysicalPrefix(virtualPrefix, a)
    case Some(physical) => if a.hasTrivialRewrite then physical else ""
    case None => ""
  }

  /** The objects of a backend page that belong to the route, under their virtual keys. */
  function MapPage(page: seq<string>, backendPrefix: string, config: RouteConfig): seq<VirtualObject> {
    if page == [] then []
    else
      var rest := MapPage(page[1..], backendPrefix, config);
      if !HasPrefix(page[0], backendPrefix) then rest
      else
        var virtualKey := ReverseRewrite(TrimPrefix(page[0], backendPrefix), config);
        if config.route.path.find(virtualKey).None? then rest
        else [VirtualObject(virtualKey, page[0], config.route.backend)] + rest
  }

  /** The mapping loop of listObjectsFromRoute. */
  method MapObjects(page: seq<string>, backendPrefix: string, config: RouteConfig)
    returns (virtualObjects: seq<VirtualObject>)
    ensures virtualObjects == MapPage(page, backendPrefix, config)
  {
    hide ReverseRewrite;
    virtualObjects := [];
    assert page[0..] == page;
    for i := 0 to |page|
      invariant virtualObjects + MapPage(page[i..], backendPrefix, config) == MapPage(page, backendPrefix, config)
    {
      var physicalKey := page[i];
      assert page[i..][1..] == page[i + 1..];
      ghost var rest := MapPage(page[i + 1..], backendPrefix, config);
      if backendPrefix != "" {
        if !HasPrefix(physicalKey, backendPrefix) {
          continue;
        }
        physicalKey := TrimPrefix(physicalKey, backendPrefix);
      }
      var virtualKey := ApplyReverseRewrites(physicalKey, config);
      if config.route.path.find(virtualKey).None? {
        continue;
      }
      var obj := VirtualObject(virtualKey, page[i], config.route.backend);
      Assoc(virtualObjects, [obj], rest);
      virtualObjects := virtualObjects + [obj];
    }
  }

  /** A backend answers a query for a key prefix with a page of keys. */
  type Backend = string -> seq<string>

  /** A page holds keys of the store under the prefix, and all of them unless it was cut short. */
  ghost predicate AnswersFrom(backend: Backend, store: iset<string>) {
    forall prefix, k :: k in backend(prefix) ==> k in store && prefix <= k
  }

  ghost predicate AnswersWhole(backend: Backend, store: iset<string>) {
    forall prefix, k :: k in backend(prefix) <==> k in store && prefix <= k
  }

  /** processRouteWorker: skip the route, or query the backend once and map the page. */
  function ListRoute(config: RouteConfig, backendPrefix: string, virtualPrefix: string, backend: Backend)
    : seq<VirtualObject>
  {
    var a := config.AnalysisOf();
    if CanSkipRoute(virtualPrefix, a) then []
    else MapPage(backend(backendPrefix + OptimizedPrefix(virtualPrefix, a)), backendPrefix, config)
  }

  /** v is shown by a listing with the given prefix, after the final filter by that prefix. */
  predicate Listed(config: RouteConfig, backendPrefix: string, virtualPrefix: string, backend: Backend, v: string) {
    virtualPrefix <= v && Shows(ListRoute(config, backendPrefix, virtualPrefix, backend), v)
  }

  // ----- the routes for which listing and routing are compared -----

  predicate NoNewline(s: string) { '\n' !in s }

  /** A compiled ^M(.*) or ^M(?P<name>.*): on keys without newlines, what follows M is the capture. */
  ghost predicate MatchesAfter(path: Pattern, text: string, name: string) {
    && path.Valid() && path.names == ["", name]
    && forall key {:trigger path.find(key)} :: NoNewline(key) ==>
       path.find(key) == if text <= key then Some([At(0, |key|), At(|text|, |key|)]) else None
  }

  ghost predicate CompiledFrom(path: Pattern, p: RoutePattern, name: string) { MatchesAfter(path, p.Prefix(), name) }

  function CaptureName(w: Wild): string { if w.capture.Named? then w.capture.name else "" }

  /** ^L(.*) or ^L(?P<n>.*), with one rewrite: the literal q followed by the capture. */
  ghost predicate InClass(config: RouteConfig, p: RoutePattern, q: string) {
    && p.Valid() && |p.wilds| == 1 && !p.wilds[0].capture.Bare? && !p.wilds[0].single && p.wilds[0].optional
    && config.source == p.Source()
    && config.route.Valid()
    && (var name := CaptureName(p.wilds[0]);
        && CompiledFrom(config.route.path, p, name)
        && |config.route.rewrites| == 1 && config.route.rewrites[0].pattern.None?
        && exists shown ::
           && (shown == "1" || (shown == name && name != ""))
           && Analyze(config.route.rewrites[0].result)
              == Analysis(q, [PlaceholderTail(Placeholder(shown, None, false), "")], false))
  }

  /** On keys without newlines, the compiled pattern matches what the pattern class says it matches. */
  lemma {:induction false} CompiledMatches(path: Pattern, p: RoutePattern, name: string, key: string)
    requires CompiledFrom(path, p, name) && NoNewline(key)
    requires |p.wilds| == 1 && !p.wilds[0].single && p.wilds[0].optional
    ensures path.find(key).Some? <==> p.Matches(key)
  {
    if p.Prefix() <= key {
      var rest := key[|p.Prefix()|..];
      assert rest[..|rest|] == rest;
      assert p.wilds[0].Accepts(rest[..|rest|]);
    }
  }

  /** The class is inhabited for every such pattern and every literal q. */
  lemma {:induction false} ClassHasRoutes(p: RoutePattern, q: string, backend: string) returns (config: RouteConfig)
    requires p.Valid() && |p.wilds| == 1 && !p.wilds[0].capture.Bare? && !p.wilds[0].single && p.wilds[0].optional
    ensures InClass(config, p, q)
  {
    hide Analyze, RoutePattern.Valid, RoutePattern.Source;
    var l, name := p.Prefix(), CaptureName(p.wilds[0]);
    var path := Pattern(["", name], key => if l <= key then Some([At(0, |key|), At(|l|, |key|)]) else None);
    var capture := Placeholder("1", None, false);
    var result := if q == "" then capture else Sequence([Literal(q), capture]);
    LiteralThenPlaceholder(q, capture);
    config := RouteConfig(Route(path, backend, [RewriteRule(None, result)]), p.Source());
    assert path.Valid() && CompiledFrom(path, p, name);
  }

  lemma {:induction false} LiteralThenPlaceholder(q: string, capture: Node)
    requires capture.Placeholder? && capture.inner.None?
    ensures Analyze(Sequence([Literal(q), capture])) == Analysis(q, [PlaceholderTail(capture, "")], false)
    ensures Analyze(capture) == Analysis("", [PlaceholderTail(capture, "")], false)
  {
    var lit, nodes := Literal(q), [Literal(q), capture];
    assert nodes[1..] == [capture] && [capture][1..] == [];
    assert AllLeaves([capture]) == Leaves(capture) + AllLeaves([capture][1..]) == [capture];
    assert AllLeaves(nodes) == Leaves(lit) + AllLeaves(nodes[1..]) == [lit] + [capture];
    VisitAppend(START, [lit], [capture]);
    VisitOne(START, lit);
    VisitOne(Visit(START, lit), capture);
    VisitOne(START, capture);
    assert "" + q == q;
  }

  lemma {:induction false} VisitOne(c: Context, leaf: Node)
    ensures VisitAll(c, [leaf]) == Visit(c, leaf)
  {
    assert [leaf][1..] == [];
  }

  /** Where forward routing looks for v, below the backend's prefix. */
  lemma {:induction false} ForwardKey(config: RouteConfig, p: RoutePattern, q: string, v: string)
    requires InClass(config, p, q) && NoNewline(v) && p.Prefix() <= v
    ensures config.route.path.find(v).Some?
    ensures Rewritten(config.route, v, config.route.path.find(v).value) == Some(q + v[|p.Prefix()|..])
  {
    hide Analyze, Execute, Lookup, CompiledFrom, NamedCaptures;
    var route, l := config.route, p.Prefix();
    var name := CaptureName(p.wilds[0]);
    var spans: seq<Span> := [At(0, |v|), At(|l|, |v|)];
    MatchSpans(config, p, q, v);
    var shown :| (shown == "1" || (shown == name && name != ""))
                 && Analyze(route.rewrites[0].result)
                    == Analysis(q, [PlaceholderTail(Placeholder(shown, None, false), "")], false);
    var ph := Placeholders(NamedCaptures(map[], ["", name], spans, v, 2), IndexedCaptures(spans, v));
    CaptureValue(v, l, name, shown);
    LiteralThenCapture(ph, route.rewrites[0].result, q, shown);
    assert AllPresent(spans);
    assert RewriteSteps(route, v, spans, 1) == Running(Execute(ph, route.rewrites[0].result), ph.named);
  }

  lemma {:induction false} MatchSpans(config: RouteConfig, p: RoutePattern, q: string, v: string)
    requires InClass(config, p, q) && NoNewline(v) && p.Prefix() <= v
    ensures config.route.path.find(v) == Some([At(0, |v|), At(|p.Prefix()|, |v|)])
    ensures config.route.path.names == ["", CaptureName(p.wilds[0])]
  {
    hide Analyze, RoutePattern.Source, RoutePattern.Valid;
  }

  /** A result template of this form evaluates to the literal and the captured text. */
  lemma {:induction false} LiteralThenCapture(ph: Placeholders, result: Node, q: string, shown: string)
    requires Analyze(result) == Analysis(q, [PlaceholderTail(Placeholder(shown, None, false), "")], false)
    requires Lookup(ph, shown).Some?
    ensures Execute(ph, result) == q + Lookup(ph, shown).value
  {
    hide Analyze, Execute, Lookup;
    AnalysisRefinesTree(ph, result);
    OnePlaceholder(ph, shown);
  }

  lemma {:induction false} CaptureValue(v: string, l: string, name: string, shown: string)
    requires l <= v && (shown == "1" || (shown == name && name != ""))
    ensures var spans := [At(0, |v|), At(|l|, |v|)];
            Lookup(Placeholders(NamedCaptures(map[], ["", name], spans, v, 2), IndexedCaptures(spans, v)), shown)
            == Some(v[|l|..])
  {
    hide Atoi, NamedCaptures, IndexedCaptures;
    TwoCaptures(v, l, name);
    AtoiOne();
  }

  lemma {:induction false} TwoCaptures(v: string, l: string, name: string)
    requires l <= v
    ensures var spans: seq<Span> := [At(0, |v|), At(|l|, |v|)];
            var none: map<string, string> := map[];
            && NamedCaptures(map[], ["", name], spans, v, 2) == (if name != "" then none[name := v[|l|..]] else none)
            && |IndexedCaptures(spans, v)| == 3 && IndexedCaptures(spans, v)[1] == v[|l|..]
  {
    NamedCapture(v, l, name);
    var spans: seq<Span> := [At(0, |v|), At(|l|, |v|)];
    assert Slice(v, spans[1]) == v[|l|..];
  }

  lemma {:induction false} NamedCapture(v: string, l: string, name: string)
    requires l <= v
    ensures var spans: seq<Span> := [At(0, |v|), At(|l|, |v|)];
            var none: map<string, string> := map[];
            NamedCaptures(map[], ["", name], spans, v, 2) == if name != "" then none[name := v[|l|..]] else none
  {
    var names, spans: seq<Span> := ["", name], [At(0, |v|), At(|l|, |v|)];
    var none: map<string, string> := map[];
    assert Slice(v, spans[1]) == v[|l|..];
    assert NamedCaptures(none, names, spans, v, 1) == none;
  }

  lemma AtoiOne()
    ensures Atoi("1") == Some(1)
  {}

  lemma {:induction false} OnePlaceholder(ph: Placeholders, shown: string)
    requires Lookup(ph, shown).Some?
    ensures ExecuteRest(ph, [PlaceholderTail(Placeholder(shown, None, false), "")]) == Lookup(ph, shown).value
  {
    var rest := [PlaceholderTail(Placeholder(shown, None, false), "")];
    assert rest[1..] == [];
  }

  /** What a key of the backend is shown as: right if it starts with q, and as if unmapped if it does not. */
  lemma {:induction false} ReverseKey(config: RouteConfig, p: RoutePattern, q: string, x: string)
    requires InClass(config, p, q)
    ensures ReverseRewrite(x, config) == p.Prefix() + if q <= x then x[|q|..] else x
  {
    hide Analyze, ExtractStaticPrefix, InClass, RoutePattern.Source;
    RewriteShape(config, p, q);
    ExtractedPrefix(p);
    var rules := config.route.rewrites;
    var once := ReverseRule(x, rules[0].result, p.Prefix());
    assert rules[..|rules| - 1] == [];
    assert ReverseRules(once, [], p.Prefix()) == once;
    assert ReverseRewrite(x, config) == once;
  }

  lemma {:induction false} RewriteShape(config: RouteConfig, p: RoutePattern, q: string)
    requires InClass(config, p, q)
    ensures p.Valid() && config.source == p.Source() && |config.route.rewrites| == 1
    ensures var a := Analyze(config.route.rewrites[0].result);
            a.prefix == q && |a.rest| == 1 && a.rest[0].tail == "" && !a.containsConditionals
    ensures AnalyzeRewrites(config.Rewrites()) == (true, q)
  {
    hide Analyze, RoutePattern.Source;
    assert RewriteTexts(config.route.rewrites[1..]) == [];
    assert config.Rewrites() == [RewriteText(false, config.route.rewrites[0].result)];
  }

  lemma {:induction false} AnalysisFound(config: RouteConfig, p: RoutePattern, q: string)
    requires InClass(config, p, q)
    ensures var a := config.AnalysisOf();
            && a.staticPrefix == p.Prefix() && a.hasTrivialRewrite && a.rewriteResultPrefix == q
            && (a.canOptimize <==> p.Prefix() != "") && (a.requiresFullScan <==> p.Prefix() == "")
  {
    hide AnalyzePattern, Analyze, AnalyzeRewrites, InClass, RoutePattern.Source, RouteConfig.Rewrites;
    RewriteShape(config, p, q);
    StaticPrefixFound(p, config.Rewrites());
  }

  /** The prefix that reaches the backend, case by case. */
  lemma {:induction false} PushedPrefix(config: RouteConfig, p: RoutePattern, q: string, virtualPrefix: string)
    requires InClass(config, p, q)
    ensures var a := config.AnalysisOf();
            var l := p.Prefix();
            && (CanSkipRoute(virtualPrefix, a) <==> !(l <= virtualPrefix) && !(virtualPrefix <= l))
            && OptimizedPrefix(virtualPrefix, a)
               == if virtualPrefix == "" then q else if l <= virtualPrefix then q + virtualPrefix[|l|..] else ""
  {
    hide AnalyzePattern, InClass, RouteConfig.AnalysisOf;
    AnalysisFound(config, p, q);
    assert virtualPrefix[0..] == virtualPrefix;
  }

  /** The key k of a page becomes the object v. */
  predicate Becomes(k: string, backendPrefix: string, config: RouteConfig, v: string) {
    backendPrefix <= k && config.route.path.find(v).Some? && ReverseRewrite(k[|backendPrefix|..], config) == v
  }

  predicate Shows(objects: seq<VirtualObject>, v: string) {
    exists i :: 0 <= i < |objects| && objects[i].virtualKey == v
  }

  lemma {:induction false} MapPageShows(page: seq<string>, backendPrefix: string, config: RouteConfig, v: string)
    ensures Shows(MapPage(page, backendPrefix, config), v) <==>
            exists k :: k in page && Becomes(k, backendPrefix, config, v)
  {
    hide ReverseRewrite;
    if page != [] {
      MapPageShows(page[1..], backendPrefix, config, v);
      var head := page[0];
      assert forall k :: k in page <==> k == head || k in page[1..];
      assert HasPrefix(head, backendPrefix) ==> TrimPrefix(head, backendPrefix) == head[|backendPrefix|..];
      var objects, rest := MapPage(page, backendPrefix, config), MapPage(page[1..], backendPrefix, config);
      if HasPrefix(head, backendPrefix) {
        var virtualKey := ReverseRewrite(head[|backendPrefix|..], config);
        if config.route.path.find(virtualKey).Some? {
          var shown := VirtualObject(virtualKey, head, config.route.backend);
          assert objects == [shown] + rest;
          ShowsCons(shown, rest, v);
          assert Becomes(head, backendPrefix, config, v) <==> virtualKey == v;
          assert head in page;
        }
      }
    }
  }

  lemma {:induction false} ShowsCons(head: VirtualObject, rest: seq<VirtualObject>, v: string)
    ensures Shows([head] + rest, v) <==> head.virtualKey == v || Shows(rest, v)
  {
    var all := [head] + rest;
    assert all[0] == head;
    assert forall i :: 0 <= i < |rest| ==> all[i + 1] == rest[i];
  }

  lemma {:induction false} ListedIff(config: RouteConfig, b: string, virtualPrefix: string, backend: Backend, v: string)
    ensures Listed(config, b, virtualPrefix, backend, v) <==>
            virtualPrefix <= v && !CanSkipRoute(virtualPrefix, config.AnalysisOf())
            && exists k :: k in backend(b + OptimizedPrefix(virtualPrefix, config.AnalysisOf()))
                           && Becomes(k, b, config, v)
  {
    hide AnalyzePattern, MapPage, Becomes, CanSkipRoute, OptimizedPrefix;
    MapPageShows(backend(b + OptimizedPrefix(virtualPrefix, config.AnalysisOf())), b, config, v);
  }

  /** The key that v, as it stands, is rewritten to is in the store. */
  ghost predicate Stored(p: RoutePattern, q: string, b: string, store: iset<string>, v: string) {
    p.Prefix() <= v && b + q + v[|p.Prefix()|..] in store
  }

  /** Nothing is missing: with a whole page, every key under the prefix whose rewritten key is stored is listed. */
  lemma {:induction false} ListingComplete(config: RouteConfig, p: RoutePattern, q: string, b: string,
                                           virtualPrefix: string, backend: Backend, store: iset<string>, v: string)
    requires InClass(config, p, q) && AnswersWhole(backend, store)
    requires NoNewline(v) && virtualPrefix <= v && Stored(p, q, b, store, v)
    ensures Listed(config, b, virtualPrefix, backend, v)
  {
    hide InClass, ReverseRewrite, AnalyzePattern, RouteConfig.AnalysisOf, CanSkipRoute, OptimizedPrefix;
    var l := p.Prefix();
    var k := b + q + v[|l|..];
    var pushed := OptimizedPrefix(virtualPrefix, config.AnalysisOf());
    ForwardKey(config, p, q, v);
    PushedPrefix(config, p, q, virtualPrefix);
    TwoPrefixes(l, virtualPrefix, v);
    PushedCovers(b, q, l, virtualPrefix, v);
    assert k in backend(b + pushed);
    ReverseKey(config, p, q, k[|b|..]);
    assert Becomes(k, b, config, v);
    ListedIff(config, b, virtualPrefix, backend, v);
  }

  /** The physical key of v lies under the pushed prefix, and undoing the rewrite gives v back. */
  lemma {:induction false} PushedCovers(b: string, q: string, l: string, virtualPrefix: string, v: string)
    requires l <= v && virtualPrefix <= v
    ensures var k := b + q + v[|l|..];
            && b <= k && k[|b|..] == q + v[|l|..] && q <= k[|b|..] && l + k[|b|..][|q|..] == v
            && b + q <= k && b + "" <= k
            && (l <= virtualPrefix ==> b + (q + virtualPrefix[|l|..]) <= k)
  {
    var k := b + q + v[|l|..];
    assert k[|b|..] == q + v[|l|..];
    assert (q + v[|l|..])[|q|..] == v[|l|..];
    if l <= virtualPrefix {
      assert v == virtualPrefix + v[|virtualPrefix|..];
      assert k == (b + (q + virtualPrefix[|l|..])) + v[|virtualPrefix|..];
    }
  }

  /** The prefixes for which the backend is only asked for keys that start with q. */
  predicate Aligned(l: string, q: string, virtualPrefix: string) {
    virtualPrefix == "" || q == "" || !(virtualPrefix < l)
  }

  /** Nothing is made up: the rewritten key of a listed key is stored, page cut short or not. */
  lemma {:induction false} ListingSound(config: RouteConfig, p: RoutePattern, q: string, b: string,
                                        virtualPrefix: string, backend: Backend, store: iset<string>, v: string)
    requires InClass(config, p, q) && AnswersFrom(backend, store)
    requires Aligned(p.Prefix(), q, virtualPrefix) && Listed(config, b, virtualPrefix, backend, v)
    ensures Stored(p, q, b, store, v)
  {
    hide InClass, ReverseRewrite, AnalyzePattern, RouteConfig.AnalysisOf, CanSkipRoute, OptimizedPrefix;
    var l := p.Prefix();
    ListedIff(config, b, virtualPrefix, backend, v);
    PushedPrefix(config, p, q, virtualPrefix);
    var pushed := OptimizedPrefix(virtualPrefix, config.AnalysisOf());
    var k :| k in backend(b + pushed) && Becomes(k, b, config, v);
    ReverseKey(config, p, q, k[|b|..]);
    AnswerUnder(backend, store, b + pushed, k);
    AlignedPushes(l, q, virtualPrefix, pushed);
    PrefixTail(b, pushed, q, k);
  }

  /** With an aligned prefix the pushed prefix starts with q. */
  lemma AlignedPushes(l: string, q: string, virtualPrefix: string, pushed: string)
    requires Aligned(l, q, virtualPrefix) && (l <= virtualPrefix || virtualPrefix <= l)
    requires pushed == if virtualPrefix == "" then q else if l <= virtualPrefix then q + virtualPrefix[|l|..] else ""
    ensures q <= pushed
  {}

  lemma AnswerUnder(backend: Backend, store: iset<string>, prefix: string, k: string)
    requires AnswersFrom(backend, store) && k in backend(prefix)
    ensures k in store && prefix <= k
  {}

  lemma {:induction false} PrefixTail(b: string, pushed: string, q: string, k: string)
    requires b + pushed <= k && q <= pushed
    ensures q <= k[|b|..] && k == b + q + k[|b|..][|q|..]
  {
    assert k[..|b + pushed|] == b + pushed;
    assert k[|b|..][..|pushed|] == pushed;
    assert pushed[..|q|] == q == k[|b|..][..|q|];
    assert k[..|b|] == b;
  }

  /** A backend that holds one key and answers every query from it. */
  function Holding(key: string): Backend { prefix => if prefix <= key then [key] else [] }

  lemma HoldingAnswers(key: string)
    ensures AnswersWhole(Holding(key), iset{key})
  {}

  /** With any other prefix, some backend makes the listing show a key whose rewritten key is not there. */
  lemma {:induction false} ListingUnsound(config: RouteConfig, p: RoutePattern, q: string, b: string,
                                          virtualPrefix: string)
    returns (k: string, v: string)
    requires InClass(config, p, q) && !Aligned(p.Prefix(), q, virtualPrefix)
    requires NoNewline(p.Prefix())
    ensures AnswersWhole(Holding(k), iset{k}) && (v == p.Prefix() + "a" || v == p.Prefix() + "b")
    ensures Listed(config, b, virtualPrefix, Holding(k), v) && k != b + q + v[|p.Prefix()|..]
  {
    hide InClass, ReverseRewrite, AnalyzePattern, RouteConfig.AnalysisOf, CanSkipRoute, OptimizedPrefix;
    var l := p.Prefix();
    var x := if q[0] == 'a' then "b" else "a";
    k, v := b + x, l + x;
    HoldingAnswers(k);
    PushedPrefix(config, p, q, virtualPrefix);
    assert virtualPrefix == l[..|virtualPrefix|];
    ReverseKey(config, p, q, x);
    ForwardKey(config, p, q, v);
    assert k[|b|..] == x && b + "" == b;
    assert k in Holding(k)(b + "");
    ListedIff(config, b, virtualPrefix, Holding(k), v);
    assert v[|l|..] == x;
    assert |b + q + x| > |k|;
  }

  /**
   The listing shows exactly the keys whose rewritten keys are stored, whatever
   the backend holds, if and only if the listing prefix is empty, is no proper
   prefix of the route's literal text, or the rewrite adds no literal.
   */
  lemma {:induction false} ListingExactIff(config: RouteConfig, p: RoutePattern, q: string, b: string,
                                           virtualPrefix: string)
    requires InClass(config, p, q) && NoNewline(p.Prefix())
    ensures Aligned(p.Prefix(), q, virtualPrefix) <==>
            forall store, backend: Backend, v ::
              AnswersWhole(backend, store) && NoNewline(v) && virtualPrefix <= v ==>
              (Listed(config, b, virtualPrefix, backend, v) <==> Stored(p, q, b, store, v))
  {
    hide InClass, Listed, Stored;
    if Aligned(p.Prefix(), q, virtualPrefix) {
      forall store, backend: Backend, v | AnswersWhole(backend, store) && NoNewline(v) && virtualPrefix <= v
        ensures Listed(config, b, virtualPrefix, backend, v) <==> Stored(p, q, b, store, v)
      {
        if Stored(p, q, b, store, v) {
          ListingComplete(config, p, q, b, virtualPrefix, backend, store, v);
        }
        if Listed(config, b, virtualPrefix, backend, v) {
          ListingSound(config, p, q, b, virtualPrefix, backend, store, v);
        }
      }
    } else {
      var k, v := ListingUnsound(config, p, q, b, virtualPrefix);
      ListedHasPrefix(config, b, virtualPrefix, Holding(k), v);
      StoredElsewhere(p, q, b, k, v);
    }
  }

  lemma ListedHasPrefix(config: RouteConfig, b: string, virtualPrefix: string, backend: Backend, v: string)
    requires Listed(config, b, virtualPrefix, backend, v)
    ensures virtualPrefix <= v
  {}

  lemma StoredElsewhere(p: RoutePattern, q: string, b: string, k: string, v: string)
    requires p.Prefix() <= v && k != b + q + v[|p.Prefix()|..]
    ensures !Stored(p, q, b, iset{k}, v)
  {}
}
