/**
 Listing a route against reading through it. A read routes the key as the
 request path spells it and decodes the rewritten key; a listing undoes the
 rewrite on the keys themselves.
 */
module ListAndRead {
  import opened Text
  import opened PercentCoding
  import opened PathCoding
  import opened Prefixes
  import opened Routing
  import opened RoutePatterns
  import opened RouteListing

  /** The keys compared: S3 keys are not empty, and '.' matches no newline. */
  predicate ObjectKey(v: string) { v != "" && ObjectText(v) }

  predicate ObjectText(s: string) { IsBytes(s) && NoNewline(s) }

  /** What an object request for this path looks up: Match, then executeGetObject. */
  ghost function ReadKey(route: Route, b: string, path: string): Option<string>
    requires route.Valid()
  {
    match route.path.find(path)
    case None => None
    case Some(spans) =>
      match Rewritten(route, path, spans)
      case None => None
      case Some(rewritten) => Some(Unescape(b + rewritten))
  }

  ghost predicate Reads(route: Route, b: string, store: iset<string>, path: string)
    requires route.Valid()
  {
    var k := ReadKey(route, b, path);
    k.Some? && k.value in store
  }

  lemma {:induction false} LiteralEndsLevel(literals: seq<string>)
    ensures LevelEnd(LiteralText(literals))
  {
    if literals != [] {
      LiteralEndsLevel(literals[1..]);
    }
  }

  lemma ClassIsValid(config: RouteConfig, p: RoutePattern, q: string)
    requires InClass(config, p, q)
    ensures config.route.Valid()
  {}

  lemma {:induction false} ReadKeyIs(config: RouteConfig, p: RoutePattern, q: string, b: string, path: string)
    requires InClass(config, p, q) && NoNewline(path)
    ensures ReadKey(config.route, b, path)
            == if p.Prefix() <= path then Some(Unescape(b + (q + path[|p.Prefix()|..]))) else None
  {
    hide Rewritten, RoutePattern.Source, RoutePattern.Valid, Unescape;
    if p.Prefix() <= path {
      ForwardKey(config, p, q, path);
    }
  }

  /** A request path is routed by the text it spells, so a key is read exactly if it starts with the routed text. */
  lemma {:induction false} ReadKeyOfPath(config: RouteConfig, p: RoutePattern, q: string, b: string, code: PathCode,
                                         v: string)
    requires InClass(config, p, q) && ValidCode(code) && IsBytes(v)
    ensures ReadKey(config.route, b, EncodePath(code, v))
            == match RoutedText(code, p.Prefix())
               case None => None
               case Some(w) =>
                 if w <= v then Some(Unescape(b + q + EncodePath(code, v[|w|..]))) else None
  {
    hide InClass, RoutedText, Unescape, EncodePath;
    var l, path := p.Prefix(), EncodePath(code, v);
    LiteralEndsLevel(p.literals);
    DecodePath(code, v);
    ReadKeyIs(config, p, q, b, path);
    RoutedIff(code, l, v);
    if l <= path {
      Assoc(b, q, path[|l|..]);
    }
  }

  /**
   How a client spells a path does not matter as long as it spells the literal
   text as it is: the read depends only on the key that the path decodes to.
   */
  lemma {:induction false} SpellingIrrelevant(config: RouteConfig, p: RoutePattern, q: string, b: string,
                                              code: PathCode, path: string)
    requires InClass(config, p, q) && ObjectText(p.Prefix()) && ValidCode(code)
    requires ObjectText(path) && p.Prefix() <= path
    requires EncodePath(code, p.Prefix()) == p.Prefix() && !Dangling(b + q)
    ensures ReadKey(config.route, b, path) == ReadKey(config.route, b, EncodePath(code, Unescape(path)))
  {
    hide InClass, Unescape, EncodePath, Dangling, RoutedText;
    var l, rest := p.Prefix(), path[|p.Prefix()|..];
    var key, v := Unescape(rest), Unescape(path);
    assert path == l + rest;
    LiteralEndsLevel(p.literals);
    OwnSpelling(code, l, rest);
    UnescapeBytes(path);
    UnescapeBytes(rest);
    assert v == l + key && v[|l|..] == key;
    ReadKeyIs(config, p, q, b, path);
    Assoc(b, q, rest);
    UnescapeConcat(b + q, rest);
    ReadKeyOfPath(config, p, q, b, code, v);
    DecodeBehind(code, b + q, key);
  }

  /** One of the two texts continues the other. */
  predicate Compatible(s: string, t: string) { s <= t || t <= s }

  function Longer(s: string, t: string): string { if |s| <= |t| then t else s }

  /** What the listing prefix says beyond the literal text. */
  function Beyond(l: string, virtualPrefix: string): string {
    if l <= virtualPrefix then virtualPrefix[|l|..] else ""
  }

  /**
   When listing and reading one route agree. If the listing prefix may lead to
   keys of the route, its literal text must be spelled in paths as it is, the
   prefix must be aligned, and nothing that stands before the rest of a key may
   be taken for an escape. If it may not, no path may lead to the route either.
   */
  predicate Agrees(code: PathCode, l: string, q: string, b: string, virtualPrefix: string) {
    if Compatible(l, virtualPrefix) then
      && EncodePath(code, l) == l
      && Aligned(l, q, virtualPrefix)
      && DecodesInPlace(code, b + q, Beyond(l, virtualPrefix))
    else
      var w := RoutedText(code, l);
      w.None? || !Compatible(w.value, virtualPrefix) || !NoNewline(w.value)
  }

  /** A key that both the prefix and the literal text start. */
  lemma {:induction false} SplitKey(l: string, virtualPrefix: string, v: string) returns (key: string)
    requires l <= v && virtualPrefix <= v
    ensures Compatible(l, virtualPrefix)
    ensures IsBytes(v) ==> IsBytes(key)
    ensures v == Longer(l, virtualPrefix) + key && v[|l|..] == Beyond(l, virtualPrefix) + key
  {
    TwoPrefixes(l, virtualPrefix, v);
    var m := Longer(l, virtualPrefix);
    key := v[|m|..];
    assert v == m + key;
    assert m == l + Beyond(l, virtualPrefix);
  }

  lemma {:induction false} KeyBeyond(l: string, virtualPrefix: string, key: string)
    requires Compatible(l, virtualPrefix)
    ensures var v := Longer(l, virtualPrefix) + key;
            l <= v && virtualPrefix <= v && v[|l|..] == Beyond(l, virtualPrefix) + key
  {
    var m := Longer(l, virtualPrefix);
    assert m == l + Beyond(l, virtualPrefix);
    Assoc(l, Beyond(l, virtualPrefix), key);
  }

  lemma {:induction false} SkippedLists(config: RouteConfig, p: RoutePattern, q: string, b: string,
                                        virtualPrefix: string, backend: Backend, v: string)
    requires InClass(config, p, q) && !Compatible(p.Prefix(), virtualPrefix)
    ensures !Listed(config, b, virtualPrefix, backend, v)
  {
    hide InClass, AnalyzePattern, RouteConfig.AnalysisOf, CanSkipRoute, OptimizedPrefix, Listed;
    PushedPrefix(config, p, q, virtualPrefix);
    ListedIff(config, b, virtualPrefix, backend, v);
  }

  lemma {:induction false} AgreeingRoute(config: RouteConfig, p: RoutePattern, q: string, b: string, code: PathCode,
                                         virtualPrefix: string, backend: Backend, store: iset<string>, v: string)
    requires InClass(config, p, q) && ObjectText(p.Prefix()) && ValidCode(code)
    requires Agrees(code, p.Prefix(), q, b, virtualPrefix)
    requires AnswersWhole(backend, store) && ObjectKey(v) && virtualPrefix <= v
    ensures Listed(config, b, virtualPrefix, backend, v) <==> Reads(config.route, b, store, EncodePath(code, v))
  {
    hide InClass, Listed, EncodePath, Unescape, DecodesInPlace;
    var l := p.Prefix();
    ReadKeyOfPath(config, p, q, b, code, v);
    if Compatible(l, virtualPrefix) {
      ListedMeansStored(config, p, q, b, virtualPrefix, backend, store, v);
      LiteralEndsLevel(p.literals);
      OwnSpelling(code, l, "");
      if l <= v {
        var key := SplitKey(l, virtualPrefix, v);
        KeyInPlace(code, b + q, Beyond(l, virtualPrefix), key);
      }
    } else {
      SkippedLists(config, p, q, b, virtualPrefix, backend, v);
      var w := RoutedText(code, l);
      if w.Some? && w.value <= v {
        TwoPrefixes(w.value, virtualPrefix, v);
      }
    }
  }

  lemma {:induction false} ListedMeansStored(config: RouteConfig, p: RoutePattern, q: string, b: string,
                                             virtualPrefix: string, backend: Backend, store: iset<string>, v: string)
    requires InClass(config, p, q) && AnswersWhole(backend, store) && NoNewline(v) && virtualPrefix <= v
    requires Aligned(p.Prefix(), q, virtualPrefix)
    ensures Listed(config, b, virtualPrefix, backend, v) <==> Stored(p, q, b, store, v)
  {
    hide InClass, Listed, Stored;
    if Stored(p, q, b, store, v) {
      ListingComplete(config, p, q, b, virtualPrefix, backend, store, v);
    }
    if Listed(config, b, virtualPrefix, backend, v) {
      ListingSound(config, p, q, b, virtualPrefix, backend, store, v);
    }
  }

  // ----- where they differ -----

  /** A backend that holds nothing but the stored key of v shows v. */
  lemma {:induction false} OneStored(config: RouteConfig, p: RoutePattern, q: string, b: string, virtualPrefix: string,
                                     v: string)
    requires InClass(config, p, q) && NoNewline(v) && virtualPrefix <= v && p.Prefix() <= v
    ensures var k := b + q + v[|p.Prefix()|..];
            AnswersWhole(Holding(k), iset{k}) && Listed(config, b, virtualPrefix, Holding(k), v)
  {
    hide InClass, Listed;
    var k := b + q + v[|p.Prefix()|..];
    HoldingAnswers(k);
    ListingComplete(config, p, q, b, virtualPrefix, Holding(k), iset{k}, v);
  }

  /** A store and a key on which listing and reading differ. */
  lemma {:induction false} DisagreeingRoute(config: RouteConfig, p: RoutePattern, q: string, b: string, code: PathCode,
                                            virtualPrefix: string)
    returns (k: string, v: string)
    requires InClass(config, p, q) && ObjectText(p.Prefix()) && ObjectText(virtualPrefix) && ValidCode(code)
    requires !Agrees(code, p.Prefix(), q, b, virtualPrefix)
    ensures ObjectKey(v) && virtualPrefix <= v && AnswersWhole(Holding(k), iset{k})
    ensures Listed(config, b, virtualPrefix, Holding(k), v)
            <==> !Reads(config.route, b, iset{k}, EncodePath(code, v))
  {
    hide InClass, Listed, EncodePath, Unescape, DecodesInPlace;
    var l := p.Prefix();
    if !Compatible(l, virtualPrefix) {
      k, v := ReadOnly(config, p, q, b, code, virtualPrefix);
    } else if !Aligned(l, q, virtualPrefix) {
      k, v := ShownTwice(config, p, q, b, code, virtualPrefix);
    } else if EncodePath(code, l) != l {
      k, v := Unroutable(config, p, q, b, code, virtualPrefix);
    } else {
      k, v := ReadElsewhere(config, p, q, b, code, virtualPrefix);
    }
  }

  /** Paths that spell the literal text differently lead to the route, although the listing skips it. */
  lemma {:induction false} ReadOnly(config: RouteConfig, p: RoutePattern, q: string, b: string, code: PathCode,
                                    virtualPrefix: string)
    returns (k: string, v: string)
    requires InClass(config, p, q) && ObjectText(p.Prefix()) && ObjectText(virtualPrefix) && ValidCode(code)
    requires !Compatible(p.Prefix(), virtualPrefix) && !Agrees(code, p.Prefix(), q, b, virtualPrefix)
    ensures ObjectKey(v) && virtualPrefix <= v && AnswersWhole(Holding(k), iset{k})
    ensures !Listed(config, b, virtualPrefix, Holding(k), v)
    ensures Reads(config.route, b, iset{k}, EncodePath(code, v))
  {
    hide InClass, Listed, EncodePath, Unescape;
    var w := RoutedText(code, p.Prefix()).value;
    v := Longer(w, virtualPrefix);
    assert virtualPrefix != "";
    UnescapeBytes(p.Prefix());
    k := Unescape(b + q + EncodePath(code, v[|w|..]));
    HoldingAnswers(k);
    ReadKeyOfPath(config, p, q, b, code, v);
    SkippedLists(config, p, q, b, virtualPrefix, Holding(k), v);
  }

  /** With a prefix that is not aligned, one key is shown for two backend keys, and a read looks for one of them. */
  lemma {:induction false} ShownTwice(config: RouteConfig, p: RoutePattern, q: string, b: string, code: PathCode,
                                      virtualPrefix: string)
    returns (k: string, v: string)
    requires InClass(config, p, q) && ObjectText(p.Prefix()) && ValidCode(code)
    requires !Aligned(p.Prefix(), q, virtualPrefix)
    ensures ObjectKey(v) && virtualPrefix <= v && AnswersWhole(Holding(k), iset{k})
    ensures Listed(config, b, virtualPrefix, Holding(k), v)
    ensures !Reads(config.route, b, iset{k}, EncodePath(code, v))
  {
    hide InClass, Listed, EncodePath;
    k, v := ListingUnsound(config, p, q, b, virtualPrefix);
    ListedHasPrefix(config, b, virtualPrefix, Holding(k), v);
    ClassIsValid(config, p, q);
    if ReadKey(config.route, b, EncodePath(code, v)) == Some(k) {
      OneStored(config, p, q, b, virtualPrefix, v);
      k := b + q + v[|p.Prefix()|..];
    }
  }

  /** Literal text that paths do not spell as it is: its keys are shown, and no path leads to them. */
  lemma {:induction false} Unroutable(config: RouteConfig, p: RoutePattern, q: string, b: string, code: PathCode,
                                      virtualPrefix: string)
    returns (k: string, v: string)
    requires InClass(config, p, q) && ObjectText(p.Prefix()) && ObjectText(virtualPrefix) && ValidCode(code)
    requires Compatible(p.Prefix(), virtualPrefix) && EncodePath(code, p.Prefix()) != p.Prefix()
    ensures ObjectKey(v) && virtualPrefix <= v && AnswersWhole(Holding(k), iset{k})
    ensures Listed(config, b, virtualPrefix, Holding(k), v)
    ensures !Reads(config.route, b, iset{k}, EncodePath(code, v))
  {
    hide InClass, Listed, RoutedText;
    var l := p.Prefix();
    v := Longer(l, virtualPrefix);
    k := b + q + v[|l|..];
    OneStored(config, p, q, b, virtualPrefix, v);
    LiteralEndsLevel(p.literals);
    ReadKeyOfPath(config, p, q, b, code, v);
    RoutedIff(code, l, v);
    if l <= EncodePath(code, v) {
      RoutedOverlap(code, l, v);
    }
  }

  /** Text before the rest of the key that is taken for an escape: the read looks for another key. */
  lemma {:induction false} ReadElsewhere(config: RouteConfig, p: RoutePattern, q: string, b: string, code: PathCode,
                                         virtualPrefix: string)
    returns (k: string, v: string)
    requires InClass(config, p, q) && ObjectText(p.Prefix()) && ObjectText(virtualPrefix) && ValidCode(code)
    requires Compatible(p.Prefix(), virtualPrefix) && EncodePath(code, p.Prefix()) == p.Prefix()
    requires !DecodesInPlace(code, b + q, Beyond(p.Prefix(), virtualPrefix))
    ensures ObjectKey(v) && virtualPrefix <= v && AnswersWhole(Holding(k), iset{k})
    ensures Listed(config, b, virtualPrefix, Holding(k), v)
    ensures !Reads(config.route, b, iset{k}, EncodePath(code, v))
  {
    hide InClass, Listed, RoutedText, EncodePath, Unescape, DecodesInPlace;
    var l := p.Prefix();
    var key := Misread(code, b + q, Beyond(l, virtualPrefix));
    v := Longer(l, virtualPrefix) + key;
    KeyBeyond(l, virtualPrefix, key);
    k := b + q + v[|l|..];
    OneStored(config, p, q, b, virtualPrefix, v);
    LiteralEndsLevel(p.literals);
    OwnSpelling(code, l, "");
    ReadKeyOfPath(config, p, q, b, code, v);
  }

  /**
   Listing and reading agree on every key under the listing prefix, whatever the
   backend holds and however paths are spelled, exactly under the condition above.
   */
  lemma {:induction false} ListingAgreesIff(config: RouteConfig, p: RoutePattern, q: string, b: string, code: PathCode,
                                            virtualPrefix: string)
    requires InClass(config, p, q) && ObjectText(p.Prefix()) && ObjectText(virtualPrefix) && ValidCode(code)
    ensures Agrees(code, p.Prefix(), q, b, virtualPrefix) <==>
            forall store, backend: Backend, v ::
              AnswersWhole(backend, store) && ObjectKey(v) && virtualPrefix <= v ==>
              (Listed(config, b, virtualPrefix, backend, v)
               <==> Reads(config.route, b, store, EncodePath(code, v)))
  {
    hide InClass, Listed, Reads, Agrees, EncodePath;
    ClassIsValid(config, p, q);
    if Agrees(code, p.Prefix(), q, b, virtualPrefix) {
      forall store, backend: Backend, v | AnswersWhole(backend, store) && ObjectKey(v) && virtualPrefix <= v
        ensures Listed(config, b, virtualPrefix, backend, v)
                <==> Reads(config.route, b, store, EncodePath(code, v))
      {
        AgreeingRoute(config, p, q, b, code, virtualPrefix, backend, store, v);
      }
    } else {
      var k, v := DisagreeingRoute(config, p, q, b, code, virtualPrefix);
    }
  }
}
