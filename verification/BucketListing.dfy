/**
 Listing a bucket with several routes: the routes are queried one by one, but
 a read goes to the first route that matches its path. When the two agree.
 */
module BucketListing {
  import opened Text
  import opened PercentCoding
  import opened PathCoding
  import opened Prefixes
  import opened Routing
  import opened RoutePatterns
  import opened RouteListing
  import opened ListAndRead

  /** A route of the class compared, with the key prefix of its backend. */
  datatype BucketRoute = BucketRoute(config: RouteConfig, p: RoutePattern, q: string, b: string)
  {
    ghost predicate Valid() { InClass(config, p, q) && ObjectText(p.Prefix()) }

    function Backend(): string { config.route.backend }

    function Literal(): string { p.Prefix() }

    /** The rewritten form of a text that starts with the literal text, behind the backend's prefix. */
    function PhysicalKey(v: string): string
      requires Literal() <= v
    {
      b + q + v[|Literal()|..]
    }
  }

  type Stores = string -> iset<string>

  ghost predicate AnswersAll(fetch: string -> RouteListing.Backend, stores: Stores) {
    forall id :: AnswersWhole(fetch(id), stores(id))
  }

  predicate ListedBy(r: BucketRoute, fetch: string -> RouteListing.Backend, virtualPrefix: string, v: string) {
    Listed(r.config, r.b, virtualPrefix, fetch(r.Backend()), v)
  }

  /** v is in the collected listing. */
  predicate Shown(routes: seq<BucketRoute>, fetch: string -> RouteListing.Backend, virtualPrefix: string, v: string) {
    exists i :: 0 <= i < |routes| && ListedBy(routes[i], fetch, virtualPrefix, v)
  }

  function Routes(routes: seq<BucketRoute>): seq<Route> {
    seq(|routes|, i requires 0 <= i < |routes| => routes[i].config.route)
  }

  ghost predicate ValidRoutes(routes: seq<BucketRoute>) {
    forall i :: 0 <= i < |routes| ==> routes[i].Valid()
  }

  /** The literal texts are those of object keys. */
  ghost predicate LiteralTexts(routes: seq<BucketRoute>) {
    forall i :: 0 <= i < |routes| ==> ObjectText(routes[i].Literal())
  }

  lemma {:induction false} RoutesAreValid(routes: seq<BucketRoute>)
    requires ValidRoutes(routes)
    ensures forall r :: r in Routes(routes) ==> r.Valid()
  {
    hide InClass;
    forall i | 0 <= i < |routes|
      ensures routes[i].config.route.Valid()
    {
      ClassIsValid(routes[i].config, routes[i].p, routes[i].q);
    }
  }

  /** A read of a path finds an object: the first matching route decides where to look. */
  ghost predicate FindsObject(routes: seq<BucketRoute>, stores: Stores, path: string)
    requires forall r :: r in Routes(routes) ==> r.Valid()
  {
    match FirstRoute(Routes(routes), path, 0)
    case Found(d) =>
      d.routeIndex < |routes| && Unescape(routes[d.routeIndex].b + d.rewrittenKey) in stores(d.backend)
    case NoBucket => false
    case NoRoute => false
    case Panicked => false
  }

  /** The first route at or after i whose literal text the path starts with. */
  function FirstIndex(routes: seq<BucketRoute>, path: string, i: nat): (f: nat)
    requires i <= |routes|
    ensures i <= f <= |routes|
    ensures f < |routes| ==> routes[f].Literal() <= path
    ensures forall j :: i <= j < f ==> !(routes[j].Literal() <= path)
    decreases |routes| - i
  {
    if i == |routes| || routes[i].Literal() <= path then i else FirstIndex(routes, path, i + 1)
  }

  /** The decision that the matcher takes. */
  lemma {:induction false} FirstRouteIs(routes: seq<BucketRoute>, path: string, i: nat)
    requires ValidRoutes(routes) && NoNewline(path) && i <= |routes|
    requires forall r :: r in Routes(routes) ==> r.Valid()
    ensures var f := FirstIndex(routes, path, i);
            FirstRoute(Routes(routes), path, i)
            == if f == |routes| then NoRoute
               else Routing.Found(Decision(routes[f].Backend(), routes[f].q + path[|routes[f].Literal()|..], path, f))
    decreases |routes| - i
  {
    hide InClass, Rewritten;
    if i < |routes| {
      var r := routes[i];
      if r.Literal() <= path {
        ForwardKey(r.config, r.p, r.q, path);
      } else {
        NoMatch(r, path);
        FirstRouteIs(routes, path, i + 1);
      }
    }
  }

  lemma NoMatch(r: BucketRoute, path: string)
    requires r.Valid() && NoNewline(path) && !(r.Literal() <= path)
    ensures r.config.route.path.find(path).None?
  {}

  /** So a read looks for the decoded physical key of its path in the backend of that route. */
  lemma {:induction false} FoundIff(routes: seq<BucketRoute>, stores: Stores, path: string)
    requires ValidRoutes(routes) && NoNewline(path)
    ensures forall r :: r in Routes(routes) ==> r.Valid()
    ensures var f := FirstIndex(routes, path, 0);
            FindsObject(routes, stores, path)
            <==> f < |routes| && Unescape(routes[f].PhysicalKey(path)) in stores(routes[f].Backend())
  {
    hide Unescape, FirstRoute, BucketRoute.Valid;
    RoutesAreValid(routes);
    FirstRouteIs(routes, path, 0);
    var f := FirstIndex(routes, path, 0);
    if f < |routes| {
      Assoc(routes[f].b, routes[f].q, path[|routes[f].Literal()|..]);
    }
  }

  // ----- the condition -----

  /** The texts where the routes that list a key, or the route that reads it, can change. */
  function Texts(routes: seq<BucketRoute>, code: PathCode): seq<string> {
    if routes == [] then []
    else
      var n := |routes| - 1;
      var w := RoutedText(code, routes[n].Literal());
      Texts(routes[..n], code) + [routes[n].Literal()] + if w.Some? then [w.value] else []
  }

  /**
   At the text m: some route lists the keys that start there exactly if some
   route reads them, and every route that lists them takes them from where the
   read looks, with nothing before the rest of the key taken for an escape.
   */
  predicate AgreesAt(routes: seq<BucketRoute>, code: PathCode, m: string) {
    var path := EncodePath(code, m);
    var f := FirstIndex(routes, path, 0);
    if f == |routes| then !Lists(routes, m)
    else Lists(routes, m) && forall i :: 0 <= i < |routes| ==> SamePlaceAt(routes[i], routes[f], m, path)
  }

  predicate Lists(routes: seq<BucketRoute>, m: string) {
    exists i :: 0 <= i < |routes| && routes[i].Literal() <= m
  }

  predicate SamePlaceAt(r: BucketRoute, reader: BucketRoute, m: string, path: string)
    requires reader.Literal() <= path
  {
    var text := reader.PhysicalKey(path);
    r.Literal() <= m ==>
      r.Backend() == reader.Backend() && r.PhysicalKey(m) == Unescape(text) && !Dangling(text)
  }

  predicate AllAligned(routes: seq<BucketRoute>, virtualPrefix: string) {
    forall i :: 0 <= i < |routes| && Compatible(routes[i].Literal(), virtualPrefix) ==>
                Aligned(routes[i].Literal(), routes[i].q, virtualPrefix)
  }

  /** The texts that can start keys under the listing prefix. */
  predicate Relevant(t: string, virtualPrefix: string) { Compatible(t, virtualPrefix) && NoNewline(t) }

  /** All prefixes are aligned, and listing and reading agree at each of finitely many texts. */
  predicate BucketAgrees(routes: seq<BucketRoute>, code: PathCode, virtualPrefix: string) {
    && AllAligned(routes, virtualPrefix)
    && forall t :: t in Texts(routes, code) && Relevant(t, virtualPrefix) ==>
                   AgreesAt(routes, code, Longer(t, virtualPrefix))
  }

  // ----- keys between the texts -----

  lemma {:induction false} TextsHold(routes: seq<BucketRoute>, code: PathCode, i: nat)
    requires i < |routes|
    ensures routes[i].Literal() in Texts(routes, code)
    ensures var w := RoutedText(code, routes[i].Literal());
            w.Some? ==> w.value in Texts(routes, code)
  {
    hide RoutedText;
    if i < |routes| - 1 {
      TextsHold(routes[..|routes| - 1], code, i);
    }
  }

  /** The longest text of a list that starts the key, if any does. */
  lemma {:induction false} LongestText(texts: seq<string>, v: string) returns (t: Option<string>)
    ensures t.Some? ==> t.value in texts && t.value <= v
    ensures forall s :: s in texts && s <= v ==> t.Some? && |s| <= |t.value|
  {
    if texts == [] {
      t := None;
    } else {
      var n := |texts| - 1;
      t := LongestText(texts[..n], v);
      assert texts == texts[..n] + [texts[n]];
      if texts[n] <= v && (t.None? || |t.value| < |texts[n]|) {
        t := Some(texts[n]);
      }
    }
  }

  /** Routes that start the same of two paths are found alike. */
  lemma {:induction false} SameFirstIndex(routes: seq<BucketRoute>, a: string, b: string, i: nat)
    requires i <= |routes|
    requires forall j :: i <= j < |routes| ==> (routes[j].Literal() <= a <==> routes[j].Literal() <= b)
    ensures FirstIndex(routes, a, i) == FirstIndex(routes, b, i)
    decreases |routes| - i
  {
    if i < |routes| && !(routes[i].Literal() <= a) {
      SameFirstIndex(routes, a, b, i + 1);
    }
  }

  lemma {:induction false} PhysicalKeySplits(r: BucketRoute, m: string, t: string)
    requires r.Literal() <= m
    ensures r.Literal() <= m + t && r.PhysicalKey(m + t) == r.PhysicalKey(m) + t
  {
    var n := |r.Literal()|;
    assert (m + t)[n..] == m[n..] + t;
    Assoc(r.b + r.q, m[n..], t);
  }

  /** No text of a route lies between m and the key m + key. */
  ghost predicate NothingBetween(routes: seq<BucketRoute>, code: PathCode, m: string, key: string) {
    forall i :: 0 <= i < |routes| ==>
      && (routes[i].Literal() <= m + key <==> routes[i].Literal() <= m)
      && (routes[i].Literal() <= EncodePath(code, m + key) <==> routes[i].Literal() <= EncodePath(code, m))
  }

  /** Then the same routes list and read it, at places that differ by the key. */
  lemma {:induction false} PlacesBetween(routes: seq<BucketRoute>, code: PathCode, m: string, key: string)
    requires NothingBetween(routes, code, m, key)
    ensures var f := FirstIndex(routes, EncodePath(code, m), 0);
            && FirstIndex(routes, EncodePath(code, m + key), 0) == f
            && (f < |routes| ==>
                routes[f].PhysicalKey(EncodePath(code, m + key))
                == routes[f].PhysicalKey(EncodePath(code, m)) + EncodePath(code, key))
    ensures forall i :: 0 <= i < |routes| && routes[i].Literal() <= m ==>
              routes[i].Literal() <= m + key && routes[i].PhysicalKey(m + key) == routes[i].PhysicalKey(m) + key
  {
    hide EncodePath, BucketRoute.PhysicalKey, BucketRoute.Literal;
    var path := EncodePath(code, m);
    EncodePathConcat(code, m, key);
    SameFirstIndex(routes, path, EncodePath(code, m + key), 0);
    var f := FirstIndex(routes, path, 0);
    if f < |routes| {
      PhysicalKeySplits(routes[f], path, EncodePath(code, key));
    }
    forall i | 0 <= i < |routes| && routes[i].Literal() <= m
      ensures routes[i].Literal() <= m + key && routes[i].PhysicalKey(m + key) == routes[i].PhysicalKey(m) + key
    {
      PhysicalKeySplits(routes[i], m, key);
    }
  }

  // ----- agreement at the texts is agreement on all keys -----

  lemma {:induction false} ListedByIff(r: BucketRoute, fetch: string -> RouteListing.Backend, stores: Stores,
                                       virtualPrefix: string, v: string)
    requires r.Valid() && AnswersAll(fetch, stores) && ObjectKey(v) && virtualPrefix <= v
    requires Compatible(r.Literal(), virtualPrefix) ==> Aligned(r.Literal(), r.q, virtualPrefix)
    ensures ListedBy(r, fetch, virtualPrefix, v) <==> r.Literal() <= v && r.PhysicalKey(v) in stores(r.Backend())
  {
    hide InClass, Listed;
    assert AnswersWhole(fetch(r.Backend()), stores(r.Backend()));
    if Compatible(r.Literal(), virtualPrefix) {
      ListedMeansStored(r.config, r.p, r.q, r.b, virtualPrefix, fetch(r.Backend()), stores(r.Backend()), v);
    } else {
      SkippedLists(r.config, r.p, r.q, r.b, virtualPrefix, fetch(r.Backend()), v);
      if r.Literal() <= v {
        TwoPrefixes(r.Literal(), virtualPrefix, v);
      }
    }
  }

  /** A key behind a text where listing and reading agree. */
  lemma {:induction false} AgreeBehind(routes: seq<BucketRoute>, code: PathCode, fetch: string -> RouteListing.Backend,
                                       stores: Stores, virtualPrefix: string, m: string, key: string)
    requires ValidRoutes(routes) && ValidCode(code) && AllAligned(routes, virtualPrefix) && AnswersAll(fetch, stores)
    requires ObjectKey(m + key) && virtualPrefix <= m + key && IsBytes(key)
    requires NothingBetween(routes, code, m, key) && AgreesAt(routes, code, m)
    ensures forall r :: r in Routes(routes) ==> r.Valid()
    ensures Shown(routes, fetch, virtualPrefix, m + key) <==> FindsObject(routes, stores, EncodePath(code, m + key))
  {
    hide EncodePath, BucketRoute.PhysicalKey, BucketRoute.Valid, BucketRoute.Literal, ListedBy, FindsObject, Unescape, Dangling,
      FirstIndex, AnswersAll;
    var v, path := m + key, EncodePath(code, m + key);
    DecodePath(code, v);
    FoundIff(routes, stores, path);
    PlacesBetween(routes, code, m, key);
    forall i | 0 <= i < |routes|
      ensures ListedBy(routes[i], fetch, virtualPrefix, v)
              <==> routes[i].Literal() <= v && routes[i].PhysicalKey(v) in stores(routes[i].Backend())
    {
      ListedByIff(routes[i], fetch, stores, virtualPrefix, v);
    }
    var f := FirstIndex(routes, EncodePath(code, m), 0);
    if f < |routes| {
      var i :| 0 <= i < |routes| && routes[i].Literal() <= m;
      assert SamePlaceAt(routes[i], routes[f], m, EncodePath(code, m));
      DecodeBehind(code, routes[f].PhysicalKey(EncodePath(code, m)), key);
      assert forall j :: 0 <= j < |routes| ==> SamePlaceAt(routes[j], routes[f], m, EncodePath(code, m));
    }
  }

  lemma {:induction false} AgreeingRoutes(routes: seq<BucketRoute>, code: PathCode,
                                          fetch: string -> RouteListing.Backend, stores: Stores, virtualPrefix: string,
                                          v: string)
    requires ValidRoutes(routes) && ValidCode(code) && BucketAgrees(routes, code, virtualPrefix)
    requires AnswersAll(fetch, stores) && ObjectKey(v) && virtualPrefix <= v
    ensures forall r :: r in Routes(routes) ==> r.Valid()
    ensures Shown(routes, fetch, virtualPrefix, v) <==> FindsObject(routes, stores, EncodePath(code, v))
  {
    hide AnswersAll, AgreesAt, EncodePath, Shown, FindsObject, NothingBetween, BucketRoute.Valid;
    var t := LongestText(Texts(routes, code), v);
    if t.Some? {
      var key := SplitKey(t.value, virtualPrefix, v);
      NothingBeyondLongest(routes, code, Longer(t.value, virtualPrefix), key);
      AgreeBehind(routes, code, fetch, stores, virtualPrefix, Longer(t.value, virtualPrefix), key);
    } else {
      NoTextStarts(routes, code, fetch, stores, virtualPrefix, v);
    }
  }

  lemma {:induction false} NothingBeyondLongest(routes: seq<BucketRoute>, code: PathCode, m: string, key: string)
    requires ValidCode(code) && IsBytes(m + key)
    requires forall s :: s in Texts(routes, code) && s <= m + key ==> |s| <= |m|
    ensures NothingBetween(routes, code, m, key)
  {
    hide EncodePath, RoutedText, Texts, InClass;
    assert IsBytes(m) by {
      assert forall i :: 0 <= i < |m| ==> (m + key)[i] == m[i];
    }
    forall i | 0 <= i < |routes|
      ensures routes[i].Literal() <= m + key <==> routes[i].Literal() <= m
      ensures routes[i].Literal() <= EncodePath(code, m + key) <==> routes[i].Literal() <= EncodePath(code, m)
    {
      var l := routes[i].Literal();
      TextsHold(routes, code, i);
      LiteralEndsLevel(routes[i].p.literals);
      RoutedIff(code, l, m + key);
      RoutedIff(code, l, m);
      ShortPrefix(l, m, key);
      if RoutedText(code, l).Some? {
        ShortPrefix(RoutedText(code, l).value, m, key);
      }
    }
  }

  lemma {:induction false} ShortPrefix(s: string, m: string, key: string)
    requires s <= m + key ==> |s| <= |m|
    ensures s <= m + key <==> s <= m
  {
    if s <= m + key {
      assert s == (m + key)[..|s|] == m[..|s|];
    }
    if s <= m {
      assert m + key == s + (m[|s|..] + key);
    }
  }

  lemma {:induction false} NoTextStarts(routes: seq<BucketRoute>, code: PathCode, fetch: string -> RouteListing.Backend,
                                        stores: Stores, virtualPrefix: string, v: string)
    requires ValidRoutes(routes) && ValidCode(code) && AllAligned(routes, virtualPrefix)
    requires AnswersAll(fetch, stores) && ObjectKey(v) && virtualPrefix <= v
    requires forall s :: s in Texts(routes, code) ==> !(s <= v)
    ensures forall r :: r in Routes(routes) ==> r.Valid()
    ensures !Shown(routes, fetch, virtualPrefix, v) && !FindsObject(routes, stores, EncodePath(code, v))
  {
    hide EncodePath, RoutedText, Texts, InClass, ListedBy, FindsObject, AnswersAll;
    DecodePath(code, v);
    FoundIff(routes, stores, EncodePath(code, v));
    forall i | 0 <= i < |routes|
      ensures !(routes[i].Literal() <= EncodePath(code, v)) && !ListedBy(routes[i], fetch, virtualPrefix, v)
    {
      TextsHold(routes, code, i);
      LiteralEndsLevel(routes[i].p.literals);
      RoutedIff(code, routes[i].Literal(), v);
      ListedByIff(routes[i], fetch, stores, virtualPrefix, v);
    }
  }
  /** The backends that hold nothing but one key of one route. */
  function OnlyKey(id: string, key: string): Stores { other => if other == id then iset{key} else iset{} }

  function FetchOnly(id: string, key: string): string -> RouteListing.Backend {
    other => if other == id then Holding(key) else prefix => []
  }

  lemma {:induction false} OnlyKeyAnswers(id: string, key: string)
    ensures AnswersAll(FetchOnly(id, key), OnlyKey(id, key))
  {
    HoldingAnswers(key);
  }


  // ----- where they differ -----

  /** Where a read of this path looks: the backend and the key. */
  predicate LooksFor(routes: seq<BucketRoute>, path: string, id: string, k: string) {
    var f := FirstIndex(routes, path, 0);
    f < |routes| && routes[f].Backend() == id && Unescape(routes[f].PhysicalKey(path)) == k
  }

  /** With nothing stored but one key, a read finds an object exactly if it looks for that key. */
  lemma {:induction false} OnlyKeyFound(routes: seq<BucketRoute>, id: string, k: string, path: string)
    requires ValidRoutes(routes) && NoNewline(path)
    ensures forall r :: r in Routes(routes) ==> r.Valid()
    ensures FindsObject(routes, OnlyKey(id, k), path) <==> LooksFor(routes, path, id, k)
  {
    hide Unescape, BucketRoute.Valid;
    FoundIff(routes, OnlyKey(id, k), path);
  }

  /** A key that route i shows for k, while reads of it look elsewhere. */
  lemma {:induction false} ShownNotFound(routes: seq<BucketRoute>, code: PathCode, virtualPrefix: string, i: nat,
                                         k: string, v: string)
    requires ValidRoutes(routes) && ValidCode(code) && i < |routes| && IsBytes(v)
    requires Listed(routes[i].config, routes[i].b, virtualPrefix, Holding(k), v)
    requires !LooksFor(routes, EncodePath(code, v), routes[i].Backend(), k)
    ensures forall r :: r in Routes(routes) ==> r.Valid()
    ensures var id := routes[i].Backend();
            AnswersAll(FetchOnly(id, k), OnlyKey(id, k)) && Shown(routes, FetchOnly(id, k), virtualPrefix, v)
            && !FindsObject(routes, OnlyKey(id, k), EncodePath(code, v))
  {
    hide Listed, LooksFor, BucketRoute.Valid, FindsObject, EncodePath;
    var id := routes[i].Backend();
    DecodePath(code, v);
    OnlyKeyAnswers(id, k);
    OnlyKeyFound(routes, id, k, EncodePath(code, v));
    assert ListedBy(routes[i], FetchOnly(id, k), virtualPrefix, v);
  }

  /** With a prefix that is not aligned, a route shows a key for two backend keys, and a read looks for one place. */
  lemma {:induction false} UnalignedRoute(routes: seq<BucketRoute>, code: PathCode, virtualPrefix: string, i: nat)
    returns (k: string, v: string)
    requires ValidRoutes(routes) && ValidCode(code) && i < |routes|
    requires !Aligned(routes[i].Literal(), routes[i].q, virtualPrefix)
    ensures ObjectKey(v) && virtualPrefix <= v
    ensures Listed(routes[i].config, routes[i].b, virtualPrefix, Holding(k), v)
    ensures !LooksFor(routes, EncodePath(code, v), routes[i].Backend(), k)
  {
    hide Listed, InClass, EncodePath, Unescape;
    var r := routes[i];
    assert r.Valid();
    k, v := ListingUnsound(r.config, r.p, r.q, r.b, virtualPrefix);
    ListedHasPrefix(r.config, r.b, virtualPrefix, Holding(k), v);
    if LooksFor(routes, EncodePath(code, v), r.Backend(), k) {
      OneStored(r.config, r.p, r.q, r.b, virtualPrefix, v);
      k := r.PhysicalKey(v);
    }
  }

  lemma {:induction false} ShortPath(code: PathCode, key: string)
    requires ValidCode(code) && IsBytes(key) && '/' !in key
    ensures '/' !in EncodePath(code, key)
  {
    if key != "" {
      assert Codes(code(key[0]), key[0]);
      ShortPath(code, key[1..]);
    }
  }

  lemma {:induction false} LevelsOnly(l: string, m: string, t: string)
    requires LevelEnd(l) && '/' !in t
    ensures l <= m + t <==> l <= m
  {
    assert l <= m + t && l != "" ==> (m + t)[|l| - 1] == '/';
    assert forall k :: |m| <= k < |m + t| ==> (m + t)[k] in t;
    ShortPrefix(l, m, t);
  }

  lemma {:induction false} NothingWithinLevel(routes: seq<BucketRoute>, code: PathCode, m: string, key: string)
    requires ValidCode(code) && ShortKey(key)
    ensures NothingBetween(routes, code, m, key)
  {
    hide EncodePath;
    ShortPath(code, key);
    EncodePathConcat(code, m, key);
    forall i | 0 <= i < |routes|
      ensures routes[i].Literal() <= m + key <==> routes[i].Literal() <= m
      ensures routes[i].Literal() <= EncodePath(code, m + key) <==> routes[i].Literal() <= EncodePath(code, m)
    {
      LiteralEndsLevel(routes[i].p.literals);
      LevelsOnly(routes[i].Literal(), m, key);
      LevelsOnly(routes[i].Literal(), EncodePath(code, m), EncodePath(code, key));
    }
  }

  /** A text that some route lists from where no read looks. */
  lemma {:induction false} MisplacedAt(routes: seq<BucketRoute>, code: PathCode, m: string, i: nat)
    returns (key: string)
    requires ValidCode(code) && i < |routes| && routes[i].Literal() <= m
    requires var path := EncodePath(code, m);
             var f := FirstIndex(routes, path, 0);
             f == |routes| || !SamePlaceAt(routes[i], routes[f], m, path)
    ensures ShortKey(key) && routes[i].Literal() <= m + key
    ensures !LooksFor(routes, EncodePath(code, m + key), routes[i].Backend(), routes[i].PhysicalKey(m + key))
  {
    hide EncodePath, Unescape, Dangling, BucketRoute.PhysicalKey, BucketRoute.Literal, NothingBetween;
    var f := FirstIndex(routes, EncodePath(code, m), 0);
    key := "a";
    if f < |routes| {
      var text, plain := routes[f].PhysicalKey(EncodePath(code, m)), routes[i].PhysicalKey(m);
      if Unescape(text) != plain || Dangling(text) {
        key := MisreadBehind(code, text, plain);
      }
    }
    NothingWithinLevel(routes, code, m, key);
    PlacesBetween(routes, code, m, key);
  }

  lemma {:induction false} MisplacedRoute(routes: seq<BucketRoute>, code: PathCode, m: string) returns (i: nat)
    requires Lists(routes, m) && !AgreesAt(routes, code, m)
    ensures i < |routes| && routes[i].Literal() <= m
    ensures var f := FirstIndex(routes, EncodePath(code, m), 0);
            f == |routes| || !SamePlaceAt(routes[i], routes[f], m, EncodePath(code, m))
  {
    hide EncodePath, Unescape, Dangling, BucketRoute.PhysicalKey, BucketRoute.Literal;
    var f := FirstIndex(routes, EncodePath(code, m), 0);
    if f == |routes| {
      i :| i < |routes| && routes[i].Literal() <= m;
    } else {
      i :| i < |routes| && !SamePlaceAt(routes[i], routes[f], m, EncodePath(code, m));
    }
  }

  lemma {:induction false} OwnKeyListed(r: BucketRoute, virtualPrefix: string, v: string)
    requires r.Valid() && NoNewline(v) && virtualPrefix <= v && r.Literal() <= v
    ensures Listed(r.config, r.b, virtualPrefix, Holding(r.PhysicalKey(v)), v)
  {
    hide InClass, Listed;
    OneStored(r.config, r.p, r.q, r.b, virtualPrefix, v);
  }

  lemma {:induction false} DisagreeAt(routes: seq<BucketRoute>, code: PathCode, virtualPrefix: string, m: string)
    returns (stores: Stores, fetch: string -> RouteListing.Backend, v: string)
    requires ValidRoutes(routes) && ValidCode(code) && ObjectText(m) && virtualPrefix <= m
    requires !AgreesAt(routes, code, m)
    ensures AnswersAll(fetch, stores) && ObjectKey(v) && virtualPrefix <= v
    ensures forall r :: r in Routes(routes) ==> r.Valid()
    ensures Shown(routes, fetch, virtualPrefix, v) <==> !FindsObject(routes, stores, EncodePath(code, v))
  {
    hide EncodePath, LooksFor, BucketRoute.PhysicalKey, FindsObject, Listed, AnswersAll, SamePlaceAt, InClass, Shown;
    if Lists(routes, m) {
      var i := MisplacedRoute(routes, code, m);
      var key := MisplacedAt(routes, code, m, i);
      var r := routes[i];
      v := m + key;
      assert r.Valid();
      OwnKeyListed(r, virtualPrefix, v);
      ShownNotFound(routes, code, virtualPrefix, i, r.PhysicalKey(v), v);
      stores, fetch := OnlyKey(r.Backend(), r.PhysicalKey(v)), FetchOnly(r.Backend(), r.PhysicalKey(v));
    } else {
      v := m + "a";
      stores, fetch := FoundNotShown(routes, code, virtualPrefix, m, "a");
    }
  }

  lemma {:induction false} FoundNotShown(routes: seq<BucketRoute>, code: PathCode, virtualPrefix: string, m: string,
                                         key: string)
    returns (stores: Stores, fetch: string -> RouteListing.Backend)
    requires ValidRoutes(routes) && ValidCode(code) && ObjectText(m) && ShortKey(key)
    requires FirstIndex(routes, EncodePath(code, m), 0) < |routes| && !Lists(routes, m)
    ensures AnswersAll(fetch, stores)
    ensures forall r :: r in Routes(routes) ==> r.Valid()
    ensures !Shown(routes, fetch, virtualPrefix, m + key) && FindsObject(routes, stores, EncodePath(code, m + key))
  {
    hide EncodePath, BucketRoute.PhysicalKey, FindsObject, Listed, AnswersAll, InClass, Unescape;
    var v, path := m + key, EncodePath(code, m + key);
    NothingWithinLevel(routes, code, m, key);
    PlacesBetween(routes, code, m, key);
    var f := FirstIndex(routes, path, 0);
    var id, k := routes[f].Backend(), Unescape(routes[f].PhysicalKey(path));
    stores, fetch := OnlyKey(id, k), FetchOnly(id, k);
    OnlyKeyAnswers(id, k);
    DecodePath(code, v);
    OnlyKeyFound(routes, id, k, path);
    forall i | 0 <= i < |routes|
      ensures !ListedBy(routes[i], fetch, virtualPrefix, v)
    {
      assert routes[i].Valid();
      if ListedBy(routes[i], fetch, virtualPrefix, v) {
        ListedStarts(routes[i], fetch(routes[i].Backend()), virtualPrefix, v);
      }
    }
  }

  /** A listed key matches its route. */
  lemma {:induction false} ListedStarts(r: BucketRoute, backend: RouteListing.Backend, virtualPrefix: string, v: string)
    requires r.Valid() && NoNewline(v) && Listed(r.config, r.b, virtualPrefix, backend, v)
    ensures r.Literal() <= v
  {
    hide InClass, AnalyzePattern, RouteConfig.AnalysisOf, CanSkipRoute, OptimizedPrefix, ReverseRewrite;
    ListedIff(r.config, r.b, virtualPrefix, backend, v);
    if !(r.Literal() <= v) {
      NoMatch(r, v);
    }
  }

  lemma {:induction false} DisagreeingRoutes(routes: seq<BucketRoute>, code: PathCode, virtualPrefix: string)
    returns (stores: Stores, fetch: string -> RouteListing.Backend, v: string)
    requires ValidRoutes(routes) && ValidCode(code) && ObjectText(virtualPrefix)
    requires !BucketAgrees(routes, code, virtualPrefix)
    ensures AnswersAll(fetch, stores) && ObjectKey(v) && virtualPrefix <= v
    ensures forall r :: r in Routes(routes) ==> r.Valid()
    ensures Shown(routes, fetch, virtualPrefix, v) <==> !FindsObject(routes, stores, EncodePath(code, v))
  {
    hide EncodePath, LooksFor, FindsObject, Listed, AnswersAll, AgreesAt, InClass, Shown;
    if !AllAligned(routes, virtualPrefix) {
      var i :| 0 <= i < |routes| && !Aligned(routes[i].Literal(), routes[i].q, virtualPrefix);
      var k;
      k, v := UnalignedRoute(routes, code, virtualPrefix, i);
      ShownNotFound(routes, code, virtualPrefix, i, k, v);
      stores, fetch := OnlyKey(routes[i].Backend(), k), FetchOnly(routes[i].Backend(), k);
    } else {
      var t :| t in Texts(routes, code) && Relevant(t, virtualPrefix)
               && !AgreesAt(routes, code, Longer(t, virtualPrefix));
      TextsAreBytes(routes, code, t);
      stores, fetch, v := DisagreeAt(routes, code, virtualPrefix, Longer(t, virtualPrefix));
    }
  }

  lemma {:induction false} TextsAreBytes(routes: seq<BucketRoute>, code: PathCode, t: string)
    requires LiteralTexts(routes) && t in Texts(routes, code)
    ensures IsBytes(t)
  {
    hide InClass, Unescape;
    var n := |routes| - 1;
    var l := routes[n].Literal();
    UnescapeBytes(l);
    if t != l && t != Unescape(l) {
      TextsAreBytes(routes[..n], code, t);
    }
  }

  /**
   A listing of a bucket shows exactly the keys that reads find, whatever the
   backends hold, if and only if the prefix is aligned for every route it may
   concern and the two agree at finitely many texts: the literal texts of the
   routes and the texts they route.
   */
  lemma {:induction false} BucketListingAgreesIff(routes: seq<BucketRoute>, code: PathCode, virtualPrefix: string)
    requires ValidRoutes(routes) && ValidCode(code) && ObjectText(virtualPrefix)
    ensures forall r :: r in Routes(routes) ==> r.Valid()
    ensures BucketAgrees(routes, code, virtualPrefix) <==>
            forall stores: Stores, fetch: string -> RouteListing.Backend, v ::
              AnswersAll(fetch, stores) && ObjectKey(v) && virtualPrefix <= v ==>
              (Shown(routes, fetch, virtualPrefix, v) <==> FindsObject(routes, stores, EncodePath(code, v)))
  {
    hide Shown, FindsObject, AnswersAll, BucketAgrees, EncodePath, BucketRoute.Valid;
    RoutesAreValid(routes);
    if BucketAgrees(routes, code, virtualPrefix) {
      forall stores: Stores, fetch: string -> RouteListing.Backend, v
        | AnswersAll(fetch, stores) && ObjectKey(v) && virtualPrefix <= v
        ensures Shown(routes, fetch, virtualPrefix, v) <==> FindsObject(routes, stores, EncodePath(code, v))
      {
        AgreeingRoutes(routes, code, fetch, stores, virtualPrefix, v);
      }
    } else {
      var stores, fetch, v := DisagreeingRoutes(routes, code, virtualPrefix);
    }
  }

  // ----- ordinary configurations -----

  /** Paths spell the literal text as it is, and nothing in front of the capture is taken for an escape. */
  predicate WellSpelled(r: BucketRoute, code: PathCode) {
    EncodePath(code, r.Literal()) == r.Literal() && DecodesInPlace(code, r.b + r.q, "")
  }

  /** On the keys that both routes match, they lead to the same place. */
  predicate SamePlace(r: BucketRoute, s: BucketRoute)
    requires Compatible(r.Literal(), s.Literal())
  {
    var m := Longer(r.Literal(), s.Literal());
    r.Backend() == s.Backend() && r.PhysicalKey(m) == s.PhysicalKey(m)
  }

  /** No route is shadowed by one that leads elsewhere. */
  predicate RoutesAgree(routes: seq<BucketRoute>) {
    forall i, j :: 0 <= i < j < |routes| && Compatible(routes[i].Literal(), routes[j].Literal()) ==>
                   SamePlace(routes[i], routes[j])
  }

  /** Two routes lead to the same place for one common key exactly when they do for all. */
  lemma {:induction false} SamePlaceIff(r: BucketRoute, s: BucketRoute, v: string)
    requires r.Literal() <= v && s.Literal() <= v
    ensures Compatible(r.Literal(), s.Literal())
    ensures SamePlace(r, s) <==> r.Backend() == s.Backend() && r.PhysicalKey(v) == s.PhysicalKey(v)
  {
    hide BucketRoute.PhysicalKey;
    TwoPrefixes(r.Literal(), s.Literal(), v);
    var m := Longer(r.Literal(), s.Literal());
    var t := v[|m|..];
    assert v == m + t;
    PhysicalKeySplits(r, m, t);
    PhysicalKeySplits(s, m, t);
    if r.PhysicalKey(v) == s.PhysicalKey(v) {
      CommonEnd(r.PhysicalKey(m), s.PhysicalKey(m), t);
    }
  }

  lemma {:induction false} TextsAreLiterals(routes: seq<BucketRoute>, code: PathCode, t: string)
    requires LiteralTexts(routes) && ValidCode(code) && t in Texts(routes, code)
    requires forall i :: 0 <= i < |routes| ==> WellSpelled(routes[i], code)
    ensures exists i :: 0 <= i < |routes| && t == routes[i].Literal()
  {
    hide InClass, EncodePath, RoutedText, DecodesInPlace;
    var n := |routes| - 1;
    assert WellSpelled(routes[n], code);
    LiteralEndsLevel(routes[n].p.literals);
    OwnSpelling(code, routes[n].Literal(), "");
    if t != routes[n].Literal() {
      TextsAreLiterals(routes[..n], code, t);
    }
  }

  /** A well-spelled route decodes in place whatever part of the key is written out. */
  lemma {:induction false} WellSpelledReads(r: BucketRoute, code: PathCode, t: string)
    requires ValidCode(code) && WellSpelled(r, code) && r.Literal() <= t && IsBytes(t)
    requires EncodePath(code, t) == t
    ensures Unescape(r.PhysicalKey(t)) == r.PhysicalKey(t) && !Dangling(r.PhysicalKey(t))
  {
    hide EncodePath, Unescape, Dangling;
    var l, rest, base := r.Literal(), t[|r.Literal()|..], r.b + r.q;
    assert t == l + rest;
    EncodePathConcat(code, l, rest);
    assert EncodePath(code, rest) == rest by {
      assert t[|l|..] == rest && (l + EncodePath(code, rest))[|l|..] == EncodePath(code, rest);
    }
    assert DecodesInPlace(code, base, rest) by {
      hide DecodesInPlace;
      forall key | IsBytes(key)
        ensures Unescape(base + EncodePath(code, rest + key)) == base + (rest + key)
      {
        KeyInPlace(code, base, "", rest + key);
        assert "" + (rest + key) == rest + key;
      }
      DecodesInPlaceIff(code, base, rest);
    }
  }

  /** For well-spelled routes the unprefixed listing agrees with reading exactly if no route is shadowed. */
  lemma {:induction false} WellSpelledAgreesIff(routes: seq<BucketRoute>, code: PathCode)
    requires LiteralTexts(routes) && ValidCode(code)
    requires forall i :: 0 <= i < |routes| ==> WellSpelled(routes[i], code)
    ensures BucketAgrees(routes, code, "") <==> RoutesAgree(routes)
  {
    hide AgreesAt, RoutedText, SamePlace, WellSpelled;
    if BucketAgrees(routes, code, "") {
      forall i, j | 0 <= i < j < |routes| && Compatible(routes[i].Literal(), routes[j].Literal())
        ensures SamePlace(routes[i], routes[j])
      {
        TextsHold(routes, code, i);
        TextsHold(routes, code, j);
        var m := Longer(routes[i].Literal(), routes[j].Literal());
        assert Relevant(m, "") && Longer(m, "") == m;
        AgreeSamePlace(routes, code, m, i, j);
      }
    }
    if RoutesAgree(routes) {
      forall t | t in Texts(routes, code) && Relevant(t, "")
        ensures AgreesAt(routes, code, Longer(t, ""))
      {
        assert Longer(t, "") == t;
        TextsAreLiterals(routes, code, t);
        var i :| 0 <= i < |routes| && t == routes[i].Literal();
        WellSpelledAgreesAt(routes, code, i);
      }
    }
  }

  lemma {:induction false} AgreeSamePlace(routes: seq<BucketRoute>, code: PathCode, m: string, i: nat, j: nat)
    requires AgreesAt(routes, code, m) && i < |routes| && j < |routes|
    requires routes[i].Literal() <= m && routes[j].Literal() <= m
    ensures Compatible(routes[i].Literal(), routes[j].Literal()) && SamePlace(routes[i], routes[j])
  {
    hide EncodePath, Unescape, Dangling, BucketRoute.PhysicalKey;
    SamePlaceIff(routes[i], routes[j], m);
    var f := FirstIndex(routes, EncodePath(code, m), 0);
    assert f < |routes|;
    assert SamePlaceAt(routes[i], routes[f], m, EncodePath(code, m));
    assert SamePlaceAt(routes[j], routes[f], m, EncodePath(code, m));
  }

  lemma {:induction false} WellSpelledAgreesAt(routes: seq<BucketRoute>, code: PathCode, i: nat)
    requires LiteralTexts(routes) && ValidCode(code) && RoutesAgree(routes) && i < |routes|
    requires forall k :: 0 <= k < |routes| ==> WellSpelled(routes[k], code)
    ensures AgreesAt(routes, code, routes[i].Literal())
  {
    hide EncodePath, Unescape, Dangling, BucketRoute.PhysicalKey, InClass, DecodesInPlace, SamePlace;
    var t := routes[i].Literal();
    assert WellSpelled(routes[i], code);
    var f := FirstIndex(routes, t, 0);
    WellSpelledReads(routes[f], code, t);
    forall j | 0 <= j < |routes|
      ensures SamePlaceAt(routes[j], routes[f], t, t)
    {
      if routes[j].Literal() <= t && j != f {
        SamePlaceIff(routes[f], routes[j], t);
      }
    }
  }
}
