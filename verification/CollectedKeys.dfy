/**
 The keys that the routes of a bucket contribute to one listing: when no key is
 collected twice, and what a client sees that follows all pages.
 */
module CollectedKeys {
  import opened Text
  import opened Ordering
  import opened PathCoding
  import opened Prefixes
  import opened Routing
  import opened RoutePatterns
  import opened RouteListing
  import opened ListAndRead
  import opened BucketListing
  import opened Rollup
  import opened Pagination

  type Fetch = string -> RouteListing.Backend

  function RouteObjects(r: BucketRoute, fetch: Fetch, virtualPrefix: string): seq<VirtualObject> {
    ListRoute(r.config, r.b, virtualPrefix, fetch(r.Backend()))
  }

  /** The objects of all routes, as they are collected when all queries succeed. */
  function Collect(routes: seq<BucketRoute>, fetch: Fetch, virtualPrefix: string): seq<VirtualObject> {
    if routes == [] then []
    else
      var n := |routes| - 1;
      Collect(routes[..n], fetch, virtualPrefix) + RouteObjects(routes[n], fetch, virtualPrefix)
  }

  // ----- counting keys -----

  function KeyCount(objects: seq<VirtualObject>, v: string): nat {
    if objects == [] then 0
    else (if objects[0].virtualKey == v then 1 else 0) + KeyCount(objects[1..], v)
  }

  lemma {:induction false} KeyCountAppend(a: seq<VirtualObject>, b: seq<VirtualObject>, v: string)
    ensures KeyCount(a + b, v) == KeyCount(a, v) + KeyCount(b, v)
  {
    if a == [] {
      assert a + b == b;
    } else {
      assert (a + b)[1..] == a[1..] + b;
      KeyCountAppend(a[1..], b, v);
    }
  }

  lemma {:induction false} CountedIff(objects: seq<VirtualObject>, v: string)
    ensures KeyCount(objects, v) > 0 <==> Shows(objects, v)
  {
    if objects != [] {
      CountedIff(objects[1..], v);
      assert objects == [objects[0]] + objects[1..];
      ShowsCons(objects[0], objects[1..], v);
    }
  }

  lemma {:induction false} DistinctIffCounts(objects: seq<VirtualObject>)
    ensures DistinctKeys(objects) <==> forall v :: KeyCount(objects, v) <= 1
  {
    if objects != [] {
      var head, rest := objects[0], objects[1..];
      DistinctIffCounts(rest);
      CountedIff(rest, head.virtualKey);
      assert forall i :: 0 <= i < |rest| ==> rest[i] == objects[i + 1];
      if DistinctKeys(objects) {
        assert DistinctKeys(rest) && !Shows(rest, head.virtualKey);
        forall v
          ensures KeyCount(objects, v) <= 1
        {
          assert KeyCount(rest, v) <= 1;
        }
      } else if DistinctKeys(rest) {
        var i, j :| 0 <= i < j < |objects| && objects[i].virtualKey == objects[j].virtualKey;
        assert i == 0 && rest[j - 1].virtualKey == head.virtualKey;
        assert KeyCount(objects, head.virtualKey) > 1;
      } else {
        var v :| KeyCount(rest, v) > 1;
        assert KeyCount(objects, v) > 1;
      }
    }
  }

  lemma {:induction false} CollectedIff(routes: seq<BucketRoute>, fetch: Fetch, virtualPrefix: string, v: string)
    ensures KeyCount(Collect(routes, fetch, virtualPrefix), v) > 0
            <==> exists i :: 0 <= i < |routes| && Shows(RouteObjects(routes[i], fetch, virtualPrefix), v)
  {
    hide RouteObjects, Shows;
    if routes != [] {
      var n := |routes| - 1;
      CollectedIff(routes[..n], fetch, virtualPrefix, v);
      KeyCountAppend(Collect(routes[..n], fetch, virtualPrefix), RouteObjects(routes[n], fetch, virtualPrefix), v);
      CountedIff(RouteObjects(routes[n], fetch, virtualPrefix), v);
      assert forall i :: 0 <= i < n ==> routes[..n][i] == routes[i];
    }
  }

  /** A key that no route contributes twice, nor two routes each, is collected once. */
  lemma {:induction false} CollectedOnce(routes: seq<BucketRoute>, fetch: Fetch, virtualPrefix: string, v: string)
    requires forall i :: 0 <= i < |routes| ==> KeyCount(RouteObjects(routes[i], fetch, virtualPrefix), v) <= 1
    requires forall i, j :: 0 <= i < j < |routes| ==> !Shows(RouteObjects(routes[i], fetch, virtualPrefix), v)
                                                      || !Shows(RouteObjects(routes[j], fetch, virtualPrefix), v)
    ensures KeyCount(Collect(routes, fetch, virtualPrefix), v) <= 1
  {
    hide RouteObjects, Shows;
    if routes != [] {
      var n := |routes| - 1;
      CollectedOnce(routes[..n], fetch, virtualPrefix, v);
      CollectedIff(routes[..n], fetch, virtualPrefix, v);
      KeyCountAppend(Collect(routes[..n], fetch, virtualPrefix), RouteObjects(routes[n], fetch, virtualPrefix), v);
      CountedIff(RouteObjects(routes[n], fetch, virtualPrefix), v);
    }
  }

  /** The contributions of two routes add up. */
  lemma {:induction false} CollectedTwice(routes: seq<BucketRoute>, fetch: Fetch, virtualPrefix: string, v: string,
                                          i: nat, j: nat)
    requires i <= j < |routes|
    ensures KeyCount(Collect(routes, fetch, virtualPrefix), v)
            >= KeyCount(RouteObjects(routes[i], fetch, virtualPrefix), v)
               + if i < j then KeyCount(RouteObjects(routes[j], fetch, virtualPrefix), v) else 0
  {
    hide RouteObjects;
    var n := |routes| - 1;
    KeyCountAppend(Collect(routes[..n], fetch, virtualPrefix), RouteObjects(routes[n], fetch, virtualPrefix), v);
    if j < n {
      CollectedTwice(routes[..n], fetch, virtualPrefix, v, i, j);
    } else if i < j {
      CollectedTwice(routes[..n], fetch, virtualPrefix, v, i, i);
    }
  }

  // ----- what one route contributes -----

  lemma {:induction false} MapPageStep(k: string, rest: seq<string>, b: string, config: RouteConfig, v: string)
    ensures KeyCount(MapPage([k] + rest, b, config), v)
            == (if Becomes(k, b, config, v) then 1 else 0) + KeyCount(MapPage(rest, b, config), v)
  {
    hide ReverseRewrite;
    var page := [k] + rest;
    assert page[0] == k && page[1..] == rest;
    var more := MapPage(rest, b, config);
    if HasPrefix(k, b) {
      var virtualKey := ReverseRewrite(TrimPrefix(k, b), config);
      var o := VirtualObject(virtualKey, k, config.route.backend);
      assert ([o] + more)[0] == o && ([o] + more)[1..] == more;
    }
  }

  /** A page without repetition in which one key at most becomes v. */
  lemma {:induction false} MapPageOnce(page: seq<string>, b: string, config: RouteConfig, v: string, k: string)
    requires Distinct(page) && forall x :: x in page && Becomes(x, b, config, v) ==> x == k
    ensures KeyCount(MapPage(page, b, config), v) <= 1
    ensures k !in page ==> KeyCount(MapPage(page, b, config), v) == 0
  {
    hide MapPage, Becomes;
    if page == [] {
      EmptyPage(b, config);
    } else {
      assert page == [page[0]] + page[1..];
      MapPageStep(page[0], page[1..], b, config, v);
      MapPageOnce(page[1..], b, config, v, k);
    }
  }

  lemma EmptyPage(b: string, config: RouteConfig)
    ensures MapPage([], b, config) == []
  {}

  /** Pages hold no key twice. */
  ghost predicate SinglePages(fetch: Fetch) { forall id, prefix :: Distinct(fetch(id)(prefix)) }

  /** Pages hold keys under the prefix asked for. */
  ghost predicate AnswersUnder(fetch: Fetch) { forall id, prefix, k :: k in fetch(id)(prefix) ==> prefix <= k }

  lemma {:induction false} AnswersAreUnder(fetch: Fetch, stores: Stores)
    requires AnswersAll(fetch, stores)
    ensures AnswersUnder(fetch)
  {
    forall id, prefix, k | k in fetch(id)(prefix)
      ensures prefix <= k
    {
      assert AnswersWhole(fetch(id), stores(id));
      AnswerUnder(fetch(id), stores(id), prefix, k);
    }
  }

  /** An aligned route shows a key for one backend key at most. */
  lemma {:induction false} RouteOnce(r: BucketRoute, fetch: Fetch, virtualPrefix: string, v: string)
    requires r.Valid() && SinglePages(fetch)
    requires AnswersUnder(fetch)
    requires Compatible(r.Literal(), virtualPrefix) ==> Aligned(r.Literal(), r.q, virtualPrefix)
    ensures KeyCount(RouteObjects(r, fetch, virtualPrefix), v) <= 1
    ensures Shows(RouteObjects(r, fetch, virtualPrefix), v) ==>
              Compatible(r.Literal(), virtualPrefix) && r.Literal() <= v && virtualPrefix <= v
  {
    hide InClass, AnalyzePattern, RouteConfig.AnalysisOf, CanSkipRoute, OptimizedPrefix, ReverseRewrite, MapPage, Becomes;
    var l, pushed := r.Literal(), OptimizedPrefix(virtualPrefix, r.config.AnalysisOf());
    PushedPrefix(r.config, r.p, r.q, virtualPrefix);
    if Compatible(l, virtualPrefix) {
      var page := fetch(r.Backend())(r.b + pushed);
      AlignedPushes(l, r.q, virtualPrefix, pushed);
      forall k | k in page && Becomes(k, r.b, r.config, v)
        ensures l <= v && virtualPrefix <= v && k == r.b + r.q + v[|l|..]
      {
        KeyFrom(r, virtualPrefix, pushed, k, v);
      }
      MapPageOnce(page, r.b, r.config, v, r.b + r.q + v[Min(|l|, |v|)..]);
      MapPageShows(page, r.b, r.config, v);
    }
  }

  lemma {:induction false} KeyFrom(r: BucketRoute, virtualPrefix: string, pushed: string, k: string, v: string)
    requires r.Valid() && r.b + pushed <= k && r.q <= pushed && Becomes(k, r.b, r.config, v)
    requires Compatible(r.Literal(), virtualPrefix)
    requires r.Literal() <= virtualPrefix && virtualPrefix != "" ==> pushed == r.q + virtualPrefix[|r.Literal()|..]
    ensures r.Literal() <= v && virtualPrefix <= v && k == r.b + r.q + v[|r.Literal()|..]
  {
    hide InClass, ReverseRewrite;
    var l, x := r.Literal(), k[|r.b|..];
    ReverseKey(r.config, r.p, r.q, x);
    PrefixTail(r.b, pushed, r.q, k);
    assert v == l + x[|r.q|..] && v[|l|..] == x[|r.q|..];
    if l <= virtualPrefix && virtualPrefix != "" {
      PrefixTail(r.b, pushed, pushed, k);
      assert x == pushed + x[|pushed|..];
      assert v == virtualPrefix + x[|pushed|..];
    }
  }

  // ----- when no key is collected twice -----

  /** No two routes can list the same keys under the prefix. */
  predicate Disjoint(routes: seq<BucketRoute>, virtualPrefix: string) {
    forall i, j :: 0 <= i < j < |routes| ==> !Overlap(routes[i].Literal(), routes[j].Literal(), virtualPrefix)
  }

  predicate Overlap(l: string, l': string, virtualPrefix: string) {
    Compatible(l, virtualPrefix) && Compatible(l', virtualPrefix) && Compatible(l, l')
  }

  lemma {:induction false} DisjointCollects(routes: seq<BucketRoute>, fetch: Fetch, stores: Stores,
                                            virtualPrefix: string)
    requires ValidRoutes(routes) && AnswersAll(fetch, stores) && SinglePages(fetch)
    requires AllAligned(routes, virtualPrefix) && Disjoint(routes, virtualPrefix)
    ensures DistinctKeys(Collect(routes, fetch, virtualPrefix))
  {
    hide BucketRoute.Valid, RouteObjects, Shows, AllAligned, SinglePages, AnswersUnder;
    AnswersAreUnder(fetch, stores);
    forall v
      ensures KeyCount(Collect(routes, fetch, virtualPrefix), v) <= 1
    {
      forall i | 0 <= i < |routes|
        ensures KeyCount(RouteObjects(routes[i], fetch, virtualPrefix), v) <= 1
        ensures Shows(RouteObjects(routes[i], fetch, virtualPrefix), v) ==>
                  Compatible(routes[i].Literal(), virtualPrefix) && routes[i].Literal() <= v && virtualPrefix <= v
      {
        AlignedAt(routes, virtualPrefix, i);
        RouteOnce(routes[i], fetch, virtualPrefix, v);
      }
      forall i, j | 0 <= i < j < |routes| && Shows(RouteObjects(routes[i], fetch, virtualPrefix), v)
        ensures !Shows(RouteObjects(routes[j], fetch, virtualPrefix), v)
      {
        if Shows(RouteObjects(routes[j], fetch, virtualPrefix), v) {
          TwoPrefixes(routes[i].Literal(), routes[j].Literal(), v);
        }
      }
      CollectedOnce(routes, fetch, virtualPrefix, v);
    }
    DistinctIffCounts(Collect(routes, fetch, virtualPrefix));
  }

  lemma AlignedAt(routes: seq<BucketRoute>, virtualPrefix: string, i: nat)
    requires AllAligned(routes, virtualPrefix) && i < |routes|
    ensures Compatible(routes[i].Literal(), virtualPrefix) ==>
              Aligned(routes[i].Literal(), routes[i].q, virtualPrefix)
  {}

  /** A backend that holds two keys. */
  function HoldingBoth(k: string, k': string): RouteListing.Backend {
    prefix => (if prefix <= k then [k] else []) + (if prefix <= k' && k' != k then [k'] else [])
  }

  function FetchBoth(k: string, k': string): Fetch { id => HoldingBoth(k, k') }

  lemma HoldingBothAnswers(k: string, k': string)
    ensures AnswersWhole(HoldingBoth(k, k'), iset{k, k'})
    ensures AnswersAll(FetchBoth(k, k'), id => iset{k, k'}) && SinglePages(FetchBoth(k, k'))
  {}

  /** A key of a route is collected from wherever its physical key is stored. */
  lemma {:induction false} StoredIsCollected(r: BucketRoute, k: string, k': string, virtualPrefix: string, v: string)
    requires r.Valid() && NoNewline(v) && virtualPrefix <= v && r.Literal() <= v
    requires k == r.PhysicalKey(v) || k' == r.PhysicalKey(v)
    ensures KeyCount(RouteObjects(r, FetchBoth(k, k'), virtualPrefix), v) > 0
  {
    hide InClass, ListRoute;
    var backend := HoldingBoth(k, k');
    HoldingBothAnswers(k, k');
    ListingComplete(r.config, r.p, r.q, r.b, virtualPrefix, backend, iset{k, k'}, v);
    CountedIff(RouteObjects(r, FetchBoth(k, k'), virtualPrefix), v);
  }

  /** A key that is shown for either of two backend keys is collected twice if both are stored. */
  lemma {:induction false} BothShown(r: BucketRoute, k: string, k': string, virtualPrefix: string, v: string)
    requires k != k'
    requires Listed(r.config, r.b, virtualPrefix, Holding(k), v) && Listed(r.config, r.b, virtualPrefix, Holding(k'), v)
    ensures KeyCount(RouteObjects(r, FetchBoth(k, k'), virtualPrefix), v) == 2
  {
    hide MapPage, Becomes, AnalyzePattern, CanSkipRoute, OptimizedPrefix, Listed, RouteConfig.AnalysisOf;
    ListedIff(r.config, r.b, virtualPrefix, Holding(k), v);
    ListedIff(r.config, r.b, virtualPrefix, Holding(k'), v);
    MapPageStep(k, [k'], r.b, r.config, v);
    MapPageStep(k', [], r.b, r.config, v);
    EmptyPage(r.b, r.config);
    assert [k'] + [] == [k'];
  }

  /** Two backend keys that make some listing hold a key twice. */
  lemma {:induction false} CollectsTwice(routes: seq<BucketRoute>, virtualPrefix: string)
    returns (k: string, k': string)
    requires ValidRoutes(routes) && ObjectText(virtualPrefix)
    requires !AllAligned(routes, virtualPrefix) || !Disjoint(routes, virtualPrefix)
    ensures !DistinctKeys(Collect(routes, FetchBoth(k, k'), virtualPrefix))
  {
    hide InClass, RouteObjects, Listed, Collect, KeyCount;
    var v: string;
    if !AllAligned(routes, virtualPrefix) {
      var i :| 0 <= i < |routes| && !Aligned(routes[i].Literal(), routes[i].q, virtualPrefix);
      var r := routes[i];
      assert r.Valid();
      k, v := ListingUnsound(r.config, r.p, r.q, r.b, virtualPrefix);
      ListedHasPrefix(r.config, r.b, virtualPrefix, Holding(k), v);
      OneStored(r.config, r.p, r.q, r.b, virtualPrefix, v);
      k' := r.PhysicalKey(v);
      BothShown(r, k, k', virtualPrefix, v);
      CollectedTwice(routes, FetchBoth(k, k'), virtualPrefix, v, i, i);
    } else {
      var i, j :| 0 <= i < j < |routes| && Overlap(routes[i].Literal(), routes[j].Literal(), virtualPrefix);
      assert routes[i].Valid() && routes[j].Valid();
      v := Longer(Longer(routes[i].Literal(), routes[j].Literal()), virtualPrefix);
      LongestOfThree(routes[i].Literal(), routes[j].Literal(), virtualPrefix);
      k, k' := routes[i].PhysicalKey(v), routes[j].PhysicalKey(v);
      StoredIsCollected(routes[i], k, k', virtualPrefix, v);
      StoredIsCollected(routes[j], k, k', virtualPrefix, v);
      CollectedTwice(routes, FetchBoth(k, k'), virtualPrefix, v, i, j);
    }
    DistinctIffCounts(Collect(routes, FetchBoth(k, k'), virtualPrefix));
  }

  lemma LongestOfThree(l: string, l': string, virtualPrefix: string)
    requires Overlap(l, l', virtualPrefix)
    ensures var v := Longer(Longer(l, l'), virtualPrefix);
            l <= v && l' <= v && virtualPrefix <= v
            && (NoNewline(l) && NoNewline(l') && NoNewline(virtualPrefix) ==> NoNewline(v))
  {}

  /**
   With whole pages that hold no key twice, no key is collected twice, whatever
   the backends hold, exactly if every prefix is aligned and no two routes can
   list the same keys.
   */
  lemma {:induction false} CollectedDistinctIff(routes: seq<BucketRoute>, virtualPrefix: string)
    requires ValidRoutes(routes) && ObjectText(virtualPrefix)
    ensures AllAligned(routes, virtualPrefix) && Disjoint(routes, virtualPrefix) <==>
            forall stores: Stores, fetch: Fetch :: AnswersAll(fetch, stores) && SinglePages(fetch) ==>
              DistinctKeys(Collect(routes, fetch, virtualPrefix))
  {
    hide AllAligned, Disjoint, Collect, BucketRoute.Valid, AnswersAll, SinglePages;
    if AllAligned(routes, virtualPrefix) && Disjoint(routes, virtualPrefix) {
      forall stores: Stores, fetch: Fetch | AnswersAll(fetch, stores) && SinglePages(fetch)
        ensures DistinctKeys(Collect(routes, fetch, virtualPrefix))
      {
        DisjointCollects(routes, fetch, stores, virtualPrefix);
      }
    } else {
      var k, k' := CollectsTwice(routes, virtualPrefix);
      HoldingBothAnswers(k, k');
    }
  }

  // ----- what a client sees -----

  /** The collected objects under the prefix show what the bucket's listing shows. */
  lemma {:induction false} CollectedIsShown(routes: seq<BucketRoute>, fetch: Fetch, virtualPrefix: string, v: string)
    ensures Shown(routes, fetch, virtualPrefix, v)
            <==> virtualPrefix <= v && exists o :: o in Collect(routes, fetch, virtualPrefix) && o.virtualKey == v
  {
    hide ListRoute, Collect;
    var objects := Collect(routes, fetch, virtualPrefix);
    CollectedIff(routes, fetch, virtualPrefix, v);
    CountedIff(objects, v);
    if o :| o in objects && o.virtualKey == v {
      var i :| 0 <= i < |objects| && objects[i] == o;
    }
    if virtualPrefix <= v {
      if i :| 0 <= i < |routes| && Shows(RouteObjects(routes[i], fetch, virtualPrefix), v) {
        assert ListedBy(routes[i], fetch, virtualPrefix, v);
      }
    }
  }

  /**
   End to end: where listing and reading agree, a client that asks for an
   undelimited listing and follows the tokens is answered with a key under the
   prefix and beyond the start key exactly if reading it finds an object, in
   whatever order the objects were collected.
   */
  lemma {:induction false} RunShowsReads(routes: seq<BucketRoute>, code: PathCode, fetch: Fetch, stores: Stores,
                                         params: ListParams, objects: seq<VirtualObject>, items: seq<ResponseItem>,
                                         v: string)
    requires ValidRoutes(routes) && ValidCode(code) && BucketAgrees(routes, code, params.prefix)
    requires AnswersAll(fetch, stores) && ObjectKey(v)
    requires params.maxKeys > 0 && params.delimiter == "" && params.continuationToken == ""
    requires (forall o :: o in objects <==> o in Collect(routes, fetch, params.prefix))
    requires IsMerged(items, FilterByPrefix(objects, params.prefix), "", params.prefix)
    requires forall o :: o in objects ==> o.virtualKey != ""
    ensures ProperKeys(items) && forall r :: r in Routes(routes) ==> r.Valid()
    ensures v in ObjectKeys(AllContents(Responses(params, items)))
            <==> params.prefix <= v && (params.startAfter == "" || Less(params.startAfter, v))
                 && FindsObject(routes, stores, EncodePath(code, v))
  {
    hide Collect, Shown, FindsObject, IsMerged, BucketAgrees, AnswersAll, BucketRoute.Valid, Responses, ProperKeys,
      EncodePath;
    RoutesAreValid(routes);
    MergedKeysProper(items, objects, "", params.prefix);
    FilterElements(objects, params.prefix);
    CollectedIsShown(routes, fetch, params.prefix, v);
    if params.prefix <= v {
      AgreeingRoutes(routes, code, fetch, stores, params.prefix, v);
    }
    KeyShownIff(items, objects, params, v);
  }

  /** Without a delimiter a run shows a key exactly if some collected object has it. */
  lemma {:induction false} KeyShownIff(items: seq<ResponseItem>, objects: seq<VirtualObject>, params: ListParams,
                                       v: string)
    requires IsMerged(items, FilterByPrefix(objects, params.prefix), "", params.prefix)
    requires params.maxKeys > 0 && params.delimiter == "" && params.continuationToken == ""
    requires forall o :: o in objects ==> o.virtualKey != ""
    ensures ProperKeys(items)
    ensures v in ObjectKeys(AllContents(Responses(params, items)))
            <==> params.prefix <= v && (params.startAfter == "" || Less(params.startAfter, v))
                 && exists o :: o in objects && o.virtualKey == v
  {
    hide IsMerged, Responses, ProperKeys, Keys, Less, AllContents, RolledUp;
    RequestsShowExactly(params, items, objects);
    FilterElements(objects, params.prefix);
    InKeys(AllContents(Responses(params, items)), v);
  }

  lemma {:induction false} InKeys(objects: seq<VirtualObject>, v: string)
    ensures v in ObjectKeys(objects) <==> exists o :: o in objects && o.virtualKey == v
  {
    if o :| o in objects && o.virtualKey == v {
      var i :| 0 <= i < |objects| && objects[i] == o;
      assert ObjectKeys(objects)[i] == v;
    }
    if v in ObjectKeys(objects) {
      var i :| 0 <= i < |objects| && ObjectKeys(objects)[i] == v;
      assert objects[i] in objects;
    }
  }
}
