/**
 Chains of rewrite rules: what a key becomes that goes through rules with
 patterns of their own, and how captures travel from rule to rule.
 */
module RewriteChains {
  import opened Text
  import opened TemplateSyntax
  import opened TemplateAnalysis
  import opened Routing
  import opened RouteListing
  import Prefixes

  /**
   A rule whose pattern, if it has one, is ^M(.*) or ^M(?P<name>.*), and whose
   result is a literal, one capture, and a tail.
   */
  datatype ChainRule = ChainRule(start: Option<string>, name: string, literal: string, shown: string, tail: string)

  ghost predicate IsRule(rule: RewriteRule, c: ChainRule) {
    && Analyze(rule.result) == Analysis(c.literal, [PlaceholderTail(Placeholder(c.shown, None, false), c.tail)], false)
    && NoNewline(c.literal) && NoNewline(c.tail)
    && match c.start
       case None => rule.pattern.None?
       case Some(m) => rule.pattern.Some? && MatchesAfter(rule.pattern.value, m, c.name)
  }

  type Captures = map<string, string>

  /** A key on its way, and the named captures so far. */
  datatype State = State(key: string, captures: Captures)

  function Capture(captures: Captures, name: string, value: string): Captures {
    if name != "" then captures[name := value] else captures
  }

  /** A named capture first; else 0 is the matched key, 1 what its pattern captured, and nothing else is set. */
  function Pick(captures: Captures, shown: string, whole: string, rest: string): string {
    if shown in captures then captures[shown]
    else match Atoi(shown) case None => "" case Some(i) => if i == 0 then whole else if i == 1 then rest else ""
  }

  /** One rule: without a pattern it looks at the key of the request, with one at the key as it has become. */
  function Pass(c: ChainRule, objectKey: string, l: string, s: State): State
    requires l <= objectKey
  {
    match c.start
    case None => State(c.literal + Pick(s.captures, c.shown, objectKey, objectKey[|l|..]) + c.tail, s.captures)
    case Some(m) =>
      if !(m <= s.key) then s
      else
        var rest := s.key[|m|..];
        var captures := Capture(s.captures, c.name, rest);
        State(c.literal + Pick(captures, c.shown, s.key, rest) + c.tail, captures)
  }

  /** The first n rules, from the first to the last. */
  function PassAll(rules: seq<ChainRule>, objectKey: string, l: string, s: State, n: nat): State
    requires l <= objectKey && n <= |rules|
  {
    if n == 0 then s else Pass(rules[n - 1], objectKey, l, PassAll(rules, objectKey, l, s, n - 1))
  }

  ghost predicate IsChain(route: Route, l: string, name: string, rules: seq<ChainRule>) {
    && MatchesAfter(route.path, l, name)
    && |route.rewrites| == |rules| && forall i :: 0 <= i < |rules| ==> IsRule(route.rewrites[i], rules[i])
  }

  lemma {:induction false} ChainIsValid(route: Route, l: string, name: string, rules: seq<ChainRule>)
    requires IsChain(route, l, name, rules)
    ensures route.Valid()
  {
    hide Analyze;
    forall r | r in route.rewrites && r.pattern.Some?
      ensures r.pattern.value.Valid()
    {
      var i :| 0 <= i < |rules| && route.rewrites[i] == r;
      assert IsRule(route.rewrites[i], rules[i]);
    }
  }

  function Start(objectKey: string, l: string, name: string): State
    requires l <= objectKey
  {
    State(objectKey, Capture(map[], name, objectKey[|l|..]))
  }

  function TwoSpans(key: string, m: string): seq<Span> { [At(0, |key|), At(|m|, |key|)] }

  lemma {:induction false} CapturesOfTwo(captures: Captures, name: string, key: string, m: string)
    requires m <= key
    ensures NamedCaptures(captures, ["", name], TwoSpans(key, m), key, 2) == Capture(captures, name, key[|m|..])
    ensures AllPresent(TwoSpans(key, m)) && IndexedCaptures(TwoSpans(key, m), key) == [key, key[|m|..], ""]
  {
    var spans := TwoSpans(key, m);
    assert Slice(key, spans[1]) == key[|m|..] && Slice(key, spans[0]) == key;
    assert NamedCaptures(captures, ["", name], spans, key, 1) == captures;
  }

  /** A result template of this form gives literal, capture and tail. */
  lemma {:induction false} ResultOf(c: ChainRule, result: Node, captures: Captures, key: string, m: string)
    requires m <= key
    requires Analyze(result) == Analysis(c.literal, [PlaceholderTail(Placeholder(c.shown, None, false), c.tail)], false)
    ensures Substitute(result, captures, TwoSpans(key, m), key)
            == Some(c.literal + Pick(captures, c.shown, key, key[|m|..]) + c.tail)
  {
    hide Analyze, Execute, IndexedCaptures, NamedCaptures, Pick;
    CapturesOfTwo(captures, "", key, m);
    var ph := Placeholders(captures, [key, key[|m|..], ""]);
    AnalysisRefinesTree(ph, result);
    OneWithTail(ph, c.shown, c.tail);
    PickedValue(captures, c.shown, key, key[|m|..]);
    Assoc(c.literal, Pick(captures, c.shown, key, key[|m|..]), c.tail);
  }

  lemma {:induction false} OneWithTail(ph: Placeholders, shown: string, tail: string)
    ensures ExecuteRest(ph, [PlaceholderTail(Placeholder(shown, None, false), tail)])
            == Execute(ph, Placeholder(shown, None, false)) + tail
  {
    hide Execute;
    var rest := [PlaceholderTail(Placeholder(shown, None, false), tail)];
    assert rest[1..] == [];
  }

  lemma {:induction false} PickedValue(captures: Captures, shown: string, whole: string, rest: string)
    ensures Execute(Placeholders(captures, [whole, rest, ""]), Placeholder(shown, None, false))
            == Pick(captures, shown, whole, rest)
  {
    hide Atoi;
  }

  /** Keys and captures stay free of newlines. */
  predicate Clean(s: State) { NoNewline(s.key) && forall n :: n in s.captures ==> NoNewline(s.captures[n]) }

  lemma {:induction false} PassKeepsClean(c: ChainRule, objectKey: string, l: string, s: State)
    requires l <= objectKey && NoNewline(objectKey) && NoNewline(c.literal) && NoNewline(c.tail) && Clean(s)
    ensures Clean(Pass(c, objectKey, l, s))
  {
    hide Atoi;
  }

  lemma StartIsClean(objectKey: string, l: string, name: string)
    requires l <= objectKey && NoNewline(objectKey)
    ensures Clean(Start(objectKey, l, name))
  {}

  function Running(s: State): Rewriting { Rewriting.Running(s.key, s.captures) }

  lemma {:induction false} OneRule(route: Route, l: string, name: string, rules: seq<ChainRule>, objectKey: string,
                                   s: State, n: nat)
    requires IsChain(route, l, name, rules) && l <= objectKey && NoNewline(objectKey) && n < |rules| && Clean(s)
    requires route.Valid() && route.path.SpansOf(TwoSpans(objectKey, l), objectKey)
    requires RewriteSteps(route, objectKey, TwoSpans(objectKey, l), n) == Running(s)
    ensures RewriteSteps(route, objectKey, TwoSpans(objectKey, l), n + 1) == Running(Pass(rules[n], objectKey, l, s))
  {
    hide Analyze, Pick, Substitute, NamedCaptures, IsRule;
    var c, rule := rules[n], route.rewrites[n];
    RuleIs(rule, c);
    match c.start
    case None =>
      ResultOf(c, rule.result, s.captures, objectKey, l);
    case Some(m) =>
      RuleMatches(rule, c, s.key);
      if m <= s.key {
        CapturesOfTwo(s.captures, c.name, s.key, m);
        ResultOf(c, rule.result, Capture(s.captures, c.name, s.key[|m|..]), s.key, m);
      }
  }

  lemma {:induction false} RuleIs(rule: RewriteRule, c: ChainRule)
    requires IsRule(rule, c)
    ensures Analyze(rule.result) == Analysis(c.literal, [PlaceholderTail(Placeholder(c.shown, None, false), c.tail)], false)
    ensures rule.pattern.Some? <==> c.start.Some?
    ensures NoNewline(c.literal) && NoNewline(c.tail)
  {
    hide Analyze;
  }

  lemma {:induction false} RuleMatches(rule: RewriteRule, c: ChainRule, key: string)
    requires IsRule(rule, c) && c.start.Some? && NoNewline(key)
    ensures rule.pattern.value.names == ["", c.name]
    ensures rule.pattern.value.find(key) == if c.start.value <= key then Some(TwoSpans(key, c.start.value)) else None
  {
    hide Analyze;
  }

  lemma {:induction false} ChainSteps(route: Route, l: string, name: string, rules: seq<ChainRule>, objectKey: string,
                                      n: nat)
    requires IsChain(route, l, name, rules) && l <= objectKey && NoNewline(objectKey) && n <= |rules|
    requires route.Valid() && route.path.SpansOf(TwoSpans(objectKey, l), objectKey)
    ensures var s := PassAll(rules, objectKey, l, Start(objectKey, l, name), n);
            Clean(s) && RewriteSteps(route, objectKey, TwoSpans(objectKey, l), n) == Running(s)
  {
    hide IsRule, Pass, NamedCaptures, Clean, Substitute;
    if n == 0 {
      CapturesOfTwo(map[], name, objectKey, l);
      StartIsClean(objectKey, l, name);
    } else {
      hide RewriteSteps, Start;
      ChainSteps(route, l, name, rules, objectKey, n - 1);
      var s := PassAll(rules, objectKey, l, Start(objectKey, l, name), n - 1);
      assert IsRule(route.rewrites[n - 1], rules[n - 1]);
      RuleIs(route.rewrites[n - 1], rules[n - 1]);
      OneRule(route, l, name, rules, objectKey, s, n - 1);
      PassKeepsClean(rules[n - 1], objectKey, l, s);
    }
  }

  /** A key that matches the route goes through the rules, from the first to the last. */
  lemma {:induction false} RewrittenByChain(route: Route, l: string, name: string, rules: seq<ChainRule>,
                                            objectKey: string)
    requires IsChain(route, l, name, rules) && l <= objectKey && NoNewline(objectKey)
    ensures route.Valid() && route.path.find(objectKey) == Some(TwoSpans(objectKey, l))
    ensures Rewritten(route, objectKey, TwoSpans(objectKey, l))
            == Some(PassAll(rules, objectKey, l, Start(objectKey, l, name), |rules|).key)
  {
    hide IsRule, Pass, Clean, RewriteSteps, Start;
    ChainIsValid(route, l, name, rules);
    ChainSteps(route, l, name, rules, objectKey, |rules|);
  }

  // ----- numbered captures -----

  /** Rules ^M(.*) whose result is a literal and $1. */
  predicate Numbered(rules: seq<ChainRule>) {
    forall i :: 0 <= i < |rules| ==>
      rules[i].start.Some? && rules[i].name == "" && rules[i].shown == "1" && rules[i].tail == ""
  }

  /** Every rule whose text the key starts with puts its literal in the place of that text. */
  function Replace(rules: seq<ChainRule>, key: string, n: nat): string
    requires Numbered(rules) && n <= |rules|
  {
    if n == 0 then key
    else
      var k, m := Replace(rules, key, n - 1), rules[n - 1].start.value;
      if m <= k then rules[n - 1].literal + k[|m|..] else k
  }

  lemma {:induction false} NumberedSteps(rules: seq<ChainRule>, objectKey: string, l: string, n: nat)
    requires Numbered(rules) && l <= objectKey && n <= |rules|
    ensures PassAll(rules, objectKey, l, State(objectKey, map[]), n) == State(Replace(rules, objectKey, n), map[])
  {
    if n > 0 {
      hide Atoi;
      NumberedSteps(rules, objectKey, l, n - 1);
      AtoiOne();
      var k := Replace(rules, objectKey, n - 1);
      assert forall t: string :: t + "" == t;
    }
  }

  /** Numbered captures are those of the rule's own pattern, on the key that the rules before it left. */
  lemma {:induction false} NumberedChain(route: Route, l: string, rules: seq<ChainRule>, objectKey: string)
    requires IsChain(route, l, "", rules) && Numbered(rules) && l <= objectKey && NoNewline(objectKey)
    ensures route.Valid() && route.path.find(objectKey) == Some(TwoSpans(objectKey, l))
    ensures Rewritten(route, objectKey, TwoSpans(objectKey, l)) == Some(Replace(rules, objectKey, |rules|))
  {
    hide IsRule;
    RewrittenByChain(route, l, "", rules, objectKey);
    NumberedSteps(rules, objectKey, l, |rules|);
  }

  // ----- named captures -----

  lemma {:induction false} CaptureKept(rules: seq<ChainRule>, objectKey: string, l: string, s: State, i: nat, n: nat,
                                       name: string)
    requires l <= objectKey && i <= n <= |rules| && name in PassAll(rules, objectKey, l, s, i).captures
    requires forall k :: i <= k < n ==> rules[k].name != name
    ensures name in PassAll(rules, objectKey, l, s, n).captures
    ensures PassAll(rules, objectKey, l, s, n).captures[name] == PassAll(rules, objectKey, l, s, i).captures[name]
  {
    if i < n {
      hide Pick;
      CaptureKept(rules, objectKey, l, s, i, n - 1, name);
    }
  }

  /**
   What a rule captures under a name is what a later rule shows under that name,
   whatever the rules in between do to the key, if none of them captures under it.
   */
  lemma {:induction false} CarriedCapture(rules: seq<ChainRule>, objectKey: string, l: string, s: State, i: nat, j: nat)
    requires l <= objectKey && i < j < |rules|
    requires rules[i].name != "" && rules[j].shown == rules[i].name
    requires forall k :: i < k <= j ==> rules[k].name != rules[i].name
    requires rules[i].start.Some? && rules[i].start.value <= PassAll(rules, objectKey, l, s, i).key
    requires rules[j].start.Some? ==> rules[j].start.value <= PassAll(rules, objectKey, l, s, j).key
    ensures PassAll(rules, objectKey, l, s, j + 1).key
            == rules[j].literal + PassAll(rules, objectKey, l, s, i).key[|rules[i].start.value|..] + rules[j].tail
  {
    hide Atoi;
    CaptureKept(rules, objectKey, l, s, i + 1, j, rules[i].name);
  }

  /** So the last rule of a route can show what an earlier one captured from the key as it was then. */
  lemma {:induction false} LastRuleShowsCapture(route: Route, l: string, name: string, rules: seq<ChainRule>,
                                                objectKey: string, i: nat)
    requires IsChain(route, l, name, rules) && l <= objectKey && NoNewline(objectKey) && i < |rules| - 1
    requires var s, j := Start(objectKey, l, name), |rules| - 1;
             && rules[i].name != "" && rules[j].shown == rules[i].name
             && (forall k :: i < k <= j ==> rules[k].name != rules[i].name)
             && rules[i].start.Some? && rules[i].start.value <= PassAll(rules, objectKey, l, s, i).key
             && (rules[j].start.Some? ==> rules[j].start.value <= PassAll(rules, objectKey, l, s, j).key)
    ensures route.Valid() && route.path.find(objectKey) == Some(TwoSpans(objectKey, l))
    ensures var captured := PassAll(rules, objectKey, l, Start(objectKey, l, name), i).key[|rules[i].start.value|..];
            Rewritten(route, objectKey, TwoSpans(objectKey, l))
            == Some(rules[|rules| - 1].literal + captured + rules[|rules| - 1].tail)
  {
    hide IsRule, Pass, Start;
    RewrittenByChain(route, l, name, rules, objectKey);
    CarriedCapture(rules, objectKey, l, Start(objectKey, l, name), i, |rules| - 1);
  }

  // ----- groups that take no part -----

  /** A rule without a pattern panics exactly if some group of the route's match took no part; no rule, no panic. */
  lemma {:induction false} PanicsIff(route: Route, objectKey: string, spans: seq<Span>)
    requires route.Valid() && route.path.SpansOf(spans, objectKey)
    requires |route.rewrites| <= 1 && forall r :: r in route.rewrites ==> r.pattern.None?
    ensures Rewritten(route, objectKey, spans).None? <==>
            route.rewrites != [] && exists i :: 0 <= i < |spans| && spans[i].Absent?
    ensures route.rewrites == [] ==> Rewritten(route, objectKey, spans) == Some(objectKey)
  {
    hide NamedCaptures, Execute, IndexedCaptures;
    if route.rewrites != [] {
      assert route.rewrites[0] in route.rewrites;
      var captures := NamedCaptures(map[], route.path.names, spans, objectKey, |spans|);
      assert RewriteSteps(route, objectKey, spans, 0) == Rewriting.Running(objectKey, captures);
      assert RewriteSteps(route, objectKey, spans, 1)
          == Continue(Substitute(route.rewrites[0].result, captures, spans, objectKey), captures);
    }
  }

  // ----- undoing a rewrite -----

  /**
   A rewrite to a literal, the capture and a tail is undone by a listing exactly
   if the literal or the tail is empty: with both, only the literal is taken off.
   */
  lemma {:induction false} ReverseUndoesIff(config: RouteConfig, l: string, name: string, c: ChainRule, v: string)
    requires IsChain(config.route, l, name, [c]) && l == Prefixes.ExtractStaticPrefix(config.source)
    requires c.start.None? && name != "1" && (c.shown == "1" || (c.shown == name && name != ""))
    requires l <= v && NoNewline(v)
    ensures config.route.Valid() && config.route.path.find(v) == Some(TwoSpans(v, l))
    ensures var k := Rewritten(config.route, v, TwoSpans(v, l));
            && k == Some(c.literal + v[|l|..] + c.tail)
            && (ReverseRewrite(k.value, config) == v <==> c.literal == "" || c.tail == "")
  {
    hide Analyze, Atoi, IsRule, Prefixes.ExtractStaticPrefix;
    RewrittenByChain(config.route, l, name, [c], v);
    AtoiOne();
    var start := Start(v, l, name);
    assert PassAll([c], v, l, start, 1) == Pass(c, v, l, start);
    assert IsRule(config.route.rewrites[0], [c][0]);
    RuleIs(config.route.rewrites[0], c);
    OneReverse(config.route.rewrites[0].result, c, l, v[|l|..]);
    var rules, k := config.route.rewrites, c.literal + v[|l|..] + c.tail;
    var once := ReverseRule(k, rules[0].result, l);
    assert rules[..|rules| - 1] == [] && ReverseRules(once, [], l) == once;
    assert ReverseRewrite(k, config) == once;
    assert v == l + v[|l|..];
  }

  lemma {:induction false} OneReverse(result: Node, c: ChainRule, l: string, x: string)
    requires Analyze(result) == Analysis(c.literal, [PlaceholderTail(Placeholder(c.shown, None, false), c.tail)], false)
    ensures ReverseRule(c.literal + x + c.tail, result, l) == l + x <==> c.literal == "" || c.tail == ""
  {
    hide Analyze;
    var k := c.literal + x + c.tail;
    assert k[|c.literal|..] == x + c.tail && k[|k| - |c.tail|..] == c.tail && k[..|k| - |c.tail|] == c.literal + x;
    assert c.literal <= k;
    assert |l + (x + c.tail)| == |l| + |x| + |c.tail|;
  }

  /** A listing shows the keys of a rewrite with conditionals under the route's text, every one of them. */
  lemma {:induction false} ConditionalShown(config: RouteConfig, l: string, name: string, b: string, x: string)
    requires MatchesAfter(config.route.path, l, name) && l == Prefixes.ExtractStaticPrefix(config.source)
    requires |config.route.rewrites| == 1 && Analyze(config.route.rewrites[0].result).containsConditionals
    requires NoNewline(l) && NoNewline(x)
    ensures Becomes(b + x, b, config, l + x)
  {
    hide Analyze, Prefixes.ExtractStaticPrefix;
    var rules := config.route.rewrites;
    var once := ReverseRule(x, rules[0].result, l);
    assert rules[..|rules| - 1] == [] && ReverseRules(once, [], l) == once;
    assert ReverseRewrite(x, config) == l + x;
    assert (b + x)[|b|..] == x;
  }

  /** The rewrites from which no prefix of the backend's keys can be told. */
  predicate Opaque(rules: seq<RewriteRule>) {
    |rules| > 1
    || (|rules| == 1 &&
        (rules[0].pattern.Some? ||
         var a := Analyze(rules[0].result);
         a.containsConditionals || (a.prefix == "" && !(|a.rest| == 1 && a.rest[0].tail == ""))))
  }

  /** Of these the backend is asked for all its keys, so no prefix loses any; others start with their literal. */
  lemma {:induction false} PushedLiteralIff(config: RouteConfig, virtualPrefix: string)
    ensures Opaque(config.route.rewrites) ==> OptimizedPrefix(virtualPrefix, config.AnalysisOf()) == ""
    ensures !Opaque(config.route.rewrites) ==>
              OptimizedPrefix("", config.AnalysisOf())
              == if config.route.rewrites == [] then "" else Analyze(config.route.rewrites[0].result).prefix
  {
    hide Analyze, Prefixes.StructureOf, Prefixes.CanSafelyOptimize, Prefixes.StaticPrefixOf;
    TextsOfRules(config.route.rewrites);
  }

  lemma {:induction false} TextsOfRules(rules: seq<RewriteRule>)
    ensures |RewriteTexts(rules)| == |rules|
    ensures rules != [] ==> RewriteTexts(rules)[0].hasPattern == rules[0].pattern.Some?
                            && RewriteTexts(rules)[0].result == rules[0].result
  {
    if rules != [] {
      TextsOfRules(rules[1..]);
    }
  }
}
