/**
 Listing a route without rewrite against reading through it: physical and
 virtual keys are the same, and still the static prefix is cut off the prefix
 that the backend is asked for.
 */
module PlainListing {
  import opened Text
  import opened PercentCoding
  import opened PathCoding
  import opened Prefixes
  import opened Routing
  import opened RoutePatterns
  import opened RouteListing
  import opened ListAndRead

  /** ^L(.*) or ^L(?P<n>.*) with no rewrite. */
  ghost predicate Unrewritten(config: RouteConfig, p: RoutePattern) {
    && p.Valid() && config.source == p.Source() && config.route.rewrites == []
    && exists name :: CompiledFrom(config.route.path, p, name)
  }

  /** The prefix that reaches the backend, case by case. */
  lemma {:induction false} PlainPushed(config: RouteConfig, p: RoutePattern, virtualPrefix: string)
    requires Unrewritten(config, p)
    ensures CanSkipRoute(virtualPrefix, config.AnalysisOf()) <==> !Compatible(p.Prefix(), virtualPrefix)
    ensures Compatible(p.Prefix(), virtualPrefix) ==>
              OptimizedPrefix(virtualPrefix, config.AnalysisOf()) == Beyond(p.Prefix(), virtualPrefix)
  {
    hide AnalyzePattern, CompiledFrom, RoutePattern.Valid, RoutePattern.Source;
    StaticPrefixFound(p, []);
    assert config.Rewrites() == [];
    assert virtualPrefix[0..] == virtualPrefix && "" + virtualPrefix == virtualPrefix;
    if p.Prefix() <= virtualPrefix {
      assert "" + virtualPrefix[|p.Prefix()|..] == virtualPrefix[|p.Prefix()|..];
    }
  }

  lemma {:induction false} PlainBecomes(config: RouteConfig, p: RoutePattern, b: string, v: string)
    requires Unrewritten(config, p) && NoNewline(v)
    ensures forall k :: Becomes(k, b, config, v) <==> p.Prefix() <= v && k == b + v
  {
    hide RoutePattern.Valid, RoutePattern.Source, ExtractStaticPrefix;
    forall k
      ensures Becomes(k, b, config, v) <==> p.Prefix() <= v && k == b + v
    {
      assert (b + v)[|b|..] == v;
      assert b <= k ==> k == b + k[|b|..];
    }
  }

  lemma {:induction false} CommonHead(b: string, s: string, t: string)
    ensures b + s <= b + t <==> s <= t
  {
    if |s| <= |t| {
      assert (b + t)[..|b + s|] == b + t[..|s|];
      assert (b + s)[|b|..] == s && (b + t[..|s|])[|b|..] == t[..|s|];
    }
  }

  /** What is left of the listing prefix is itself a prefix of the keys asked for. */
  predicate Listable(l: string, virtualPrefix: string) {
    Compatible(l, virtualPrefix) && Beyond(l, virtualPrefix) <= Longer(l, virtualPrefix)
  }

  /** Which keys are shown: the stored keys of the route, unless the prefix sent to the backend excludes them all. */
  lemma {:induction false} PlainListed(config: RouteConfig, p: RoutePattern, b: string, virtualPrefix: string,
                                       backend: Backend, store: iset<string>, v: string)
    requires Unrewritten(config, p) && AnswersWhole(backend, store) && NoNewline(v) && virtualPrefix <= v
    ensures Listed(config, b, virtualPrefix, backend, v)
            <==> p.Prefix() <= v && b + v in store && Listable(p.Prefix(), virtualPrefix)
  {
    hide Unrewritten, AnalyzePattern, RouteConfig.AnalysisOf, OptimizedPrefix, CanSkipRoute, Listed, Becomes;
    var l := p.Prefix();
    PlainPushed(config, p, virtualPrefix);
    ListedIff(config, b, virtualPrefix, backend, v);
    PlainBecomes(config, p, b, v);
    CommonHead(b, Beyond(l, virtualPrefix), v);
    if l <= v {
      var key := SplitKey(l, virtualPrefix, v);
      SameStart(Beyond(l, virtualPrefix), Longer(l, virtualPrefix), v);
      var pushed := b + Beyond(l, virtualPrefix);
      assert b + v in backend(pushed) <==> b + v in store && pushed <= b + v;
      assert Becomes(b + v, b, config, v);
    }
  }

  lemma {:induction false} SameStart(s: string, m: string, v: string)
    requires m <= v && |s| <= |m|
    ensures s <= m <==> s <= v
  {
    assert m == v[..|m|];
    assert m[..|s|] == v[..|s|];
  }

  /**
   A listing of such a route misses no object under the prefix, whatever the
   backend holds, exactly when what the prefix says beyond the literal text is
   itself a prefix of it.
   */
  lemma {:induction false} PlainCompleteIff(config: RouteConfig, p: RoutePattern, b: string, virtualPrefix: string)
    requires Unrewritten(config, p) && NoNewline(virtualPrefix)
    ensures Beyond(p.Prefix(), virtualPrefix) <= virtualPrefix <==>
            forall store, backend: Backend, v ::
              AnswersWhole(backend, store) && NoNewline(v) && virtualPrefix <= v && p.Prefix() <= v && b + v in store ==>
              Listed(config, b, virtualPrefix, backend, v)
  {
    hide Unrewritten, Listed;
    if Beyond(p.Prefix(), virtualPrefix) <= virtualPrefix {
      forall store, backend: Backend, v
        | AnswersWhole(backend, store) && NoNewline(v) && virtualPrefix <= v && p.Prefix() <= v && b + v in store
        ensures Listed(config, b, virtualPrefix, backend, v)
      {
        TwoPrefixes(p.Prefix(), virtualPrefix, v);
        PlainListed(config, p, b, virtualPrefix, backend, store, v);
      }
    } else {
      var store, backend := iset{b + virtualPrefix}, Holding(b + virtualPrefix);
      HoldingAnswers(b + virtualPrefix);
      PlainListed(config, p, b, virtualPrefix, backend, store, virtualPrefix);
    }
  }

  // ----- reading -----

  lemma PlainIsValid(config: RouteConfig, p: RoutePattern)
    requires Unrewritten(config, p)
    ensures config.route.Valid()
  {}

  lemma {:induction false} PlainReadKey(config: RouteConfig, p: RoutePattern, b: string, code: PathCode, v: string)
    requires Unrewritten(config, p) && ValidCode(code) && IsBytes(v)
    ensures config.route.Valid()
    ensures var w := RoutedText(code, p.Prefix());
            ReadKey(config.route, b, EncodePath(code, v))
            == if w.Some? && w.value <= v then Some(Unescape(b + EncodePath(code, v))) else None
  {
    hide RoutedText, Unescape, EncodePath, RoutePattern.Source, RoutePattern.Valid;
    LiteralEndsLevel(p.literals);
    DecodePath(code, v);
    RoutedIff(code, p.Prefix(), v);
  }

  /** When listing and reading agree for such a route. */
  predicate PlainAgrees(code: PathCode, l: string, b: string, virtualPrefix: string) {
    if Listable(l, virtualPrefix) then
      EncodePath(code, l) == l && DecodesInPlace(code, b, Longer(l, virtualPrefix))
    else
      var w := RoutedText(code, l);
      w.None? || !Compatible(w.value, virtualPrefix) || !NoNewline(w.value)
  }

  lemma {:induction false} AgreeingPlain(config: RouteConfig, p: RoutePattern, b: string, code: PathCode,
                                         virtualPrefix: string, backend: Backend, store: iset<string>, v: string)
    requires Unrewritten(config, p) && ObjectText(p.Prefix()) && ValidCode(code)
    requires PlainAgrees(code, p.Prefix(), b, virtualPrefix)
    requires AnswersWhole(backend, store) && ObjectKey(v) && virtualPrefix <= v
    ensures config.route.Valid()
    ensures Listed(config, b, virtualPrefix, backend, v) <==> Reads(config.route, b, store, EncodePath(code, v))
  {
    hide Unrewritten, Listed, EncodePath, Unescape, DecodesInPlace, RoutedText;
    var l := p.Prefix();
    PlainListed(config, p, b, virtualPrefix, backend, store, v);
    PlainReadKey(config, p, b, code, v);
    if Listable(l, virtualPrefix) {
      LiteralEndsLevel(p.literals);
      OwnSpelling(code, l, "");
      if l <= v {
        var key := SplitKey(l, virtualPrefix, v);
        KeyInPlace(code, b, Longer(l, virtualPrefix), key);
      }
    } else {
      var w := RoutedText(code, l);
      if w.Some? && w.value <= v {
        TwoPrefixes(w.value, virtualPrefix, v);
      }
    }
  }

  /** A store and a key on which listing and reading differ. */
  lemma {:induction false} DisagreeingPlain(config: RouteConfig, p: RoutePattern, b: string, code: PathCode,
                                            virtualPrefix: string)
    returns (k: string, v: string)
    requires Unrewritten(config, p) && ObjectText(p.Prefix()) && ObjectText(virtualPrefix) && ValidCode(code)
    requires !PlainAgrees(code, p.Prefix(), b, virtualPrefix)
    ensures ObjectKey(v) && virtualPrefix <= v && AnswersWhole(Holding(k), iset{k}) && config.route.Valid()
    ensures Listed(config, b, virtualPrefix, Holding(k), v)
            <==> !Reads(config.route, b, iset{k}, EncodePath(code, v))
  {
    hide Unrewritten, Listed, EncodePath, Unescape, DecodesInPlace, RoutedText;
    var l := p.Prefix();
    var m := Longer(l, virtualPrefix);
    LiteralEndsLevel(p.literals);
    if !Listable(l, virtualPrefix) {
      var w := RoutedText(code, l).value;
      v := Longer(w, virtualPrefix);
      RoutedIsObjectText(code, l);
      k := Unescape(b + EncodePath(code, v));
    } else if EncodePath(code, l) != l {
      v, k := m, b + m;
      NotRouted(code, l, v);
    } else {
      var key := Misread(code, b, m);
      v, k := m + key, b + (m + key);
      KeyBeyond(l, virtualPrefix, key);
      OwnSpelling(code, l, "");
    }
    HoldingAnswers(k);
    PlainListed(config, p, b, virtualPrefix, Holding(k), iset{k}, v);
    PlainReadKey(config, p, b, code, v);
  }

  lemma {:induction false} RoutedIsObjectText(code: PathCode, l: string)
    requires IsBytes(l) && RoutedText(code, l).Some?
    ensures IsBytes(RoutedText(code, l).value)
  {
    UnescapeBytes(l);
  }

  /** Literal text that paths do not spell as it is routes no key that starts with it. */
  lemma {:induction false} NotRouted(code: PathCode, l: string, v: string)
    requires ValidCode(code) && LevelEnd(l) && IsBytes(v) && l <= v && EncodePath(code, l) != l
    ensures l != ""
    ensures RoutedText(code, l).Some? ==> !(RoutedText(code, l).value <= v)
  {
    hide RoutedText;
    RoutedIff(code, l, v);
    if l <= EncodePath(code, v) {
      RoutedOverlap(code, l, v);
    }
  }

  /** Listing and reading agree on every key under the prefix exactly under the condition above. */
  lemma {:induction false} PlainAgreesIff(config: RouteConfig, p: RoutePattern, b: string, code: PathCode,
                                          virtualPrefix: string)
    requires Unrewritten(config, p) && ObjectText(p.Prefix()) && ObjectText(virtualPrefix) && ValidCode(code)
    ensures config.route.Valid()
    ensures PlainAgrees(code, p.Prefix(), b, virtualPrefix) <==>
            forall store, backend: Backend, v ::
              AnswersWhole(backend, store) && ObjectKey(v) && virtualPrefix <= v ==>
              (Listed(config, b, virtualPrefix, backend, v)
               <==> Reads(config.route, b, store, EncodePath(code, v)))
  {
    hide Unrewritten, Listed, Reads, PlainAgrees, EncodePath;
    PlainIsValid(config, p);
    if PlainAgrees(code, p.Prefix(), b, virtualPrefix) {
      forall store, backend: Backend, v | AnswersWhole(backend, store) && ObjectKey(v) && virtualPrefix <= v
        ensures Listed(config, b, virtualPrefix, backend, v)
                <==> Reads(config.route, b, store, EncodePath(code, v))
      {
        AgreeingPlain(config, p, b, code, virtualPrefix, backend, store, v);
      }
    } else {
      var k, v := DisagreeingPlain(config, p, b, code, virtualPrefix);
    }
  }
}
