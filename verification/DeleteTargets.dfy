/**
 Where a batch delete strikes: the keys of its request are those that a listing
 shows, and the objects it deletes are those that the listing shows them for.
 */
module DeleteTargets {
  import opened Text
  import opened Routing
  import opened RouteListing
  import opened ListAndRead
  import opened BucketListing
  import BatchDelete

  type Executor = BatchDelete.Executor

  /** The executor routes keys as the matcher does for this bucket. */
  ghost predicate RoutesBy(e: Executor, buckets: Buckets, bucket: string)
    requires ValidBuckets(buckets)
  {
    forall key {:trigger e.route(key)} ::
      e.route(key) == match Uncached(buckets, bucket, key)
                      case Found(d) => Some(BatchDelete.Target(d.backend, d.rewrittenKey))
                      case NoBucket => None
                      case NoRoute => None
                      case Panicked => None
  }

  /** Which keys take the fallback: those without a route, and those of a backend without a client. */
  lemma {:induction false} FallbackIff(e: Executor, buckets: Buckets, bucket: string, key: string)
    requires ValidBuckets(buckets) && RoutesBy(e, buckets, bucket)
    ensures var r := Uncached(buckets, bucket, key);
            var routed := if r.Found? then r.decision.backend else e.fallback.backend;
            var m := e.MapKey(key);
            && m.virtualKey == key
            && (r.Found? && routed in e.prefixes ==>
                m.backendID == routed && m.rewrittenKey == r.decision.rewrittenKey
                && m.physicalKey == e.prefixes[routed] + r.decision.rewrittenKey)
            && (!r.Found? && routed in e.prefixes ==>
                m.backendID == routed && m.physicalKey == e.prefixes[routed] + e.fallback.rewrittenKey)
            && (routed !in e.prefixes ==>
                m.backendID == e.fallback.backend && m.physicalKey == e.fallbackPrefix + e.fallback.rewrittenKey)
  {
    hide Uncached;
    var target := e.route(key);
  }

  /** The executor works on the routes of one bucket, and the backends of all routes have a client. */
  ghost predicate Serves(e: Executor, routes: seq<BucketRoute>, bucket: string)
    requires forall r :: r in Routes(routes) ==> r.Valid()
  {
    && ValidBuckets(map[bucket := Routes(routes)])
    && RoutesBy(e, map[bucket := Routes(routes)], bucket)
    && forall i :: 0 <= i < |routes| ==>
         routes[i].Backend() in e.prefixes && e.prefixes[routes[i].Backend()] == routes[i].b
  }

  /** A requested key is deleted where its first route keeps it, and a listing of that route shows this object as the key. */
  lemma {:induction false} TargetIsListed(e: Executor, routes: seq<BucketRoute>, bucket: string, v: string)
    requires ValidRoutes(routes) && NoNewline(v) && FirstIndex(routes, v, 0) < |routes|
    requires (forall r :: r in Routes(routes) ==> r.Valid()) && Serves(e, routes, bucket)
    ensures var m, r := e.MapKey(v), routes[FirstIndex(routes, v, 0)];
            && m.virtualKey == v && m.backendID == r.Backend() && m.physicalKey == r.PhysicalKey(v)
            && Becomes(m.physicalKey, r.b, r.config, v)
  {
    hide InClass, FirstRoute;
    var r := routes[FirstIndex(routes, v, 0)];
    FirstRouteIs(routes, v, 0);
    UncachedIs(routes, bucket, v);
    FallbackIff(e, map[bucket := Routes(routes)], bucket, v);
    Assoc(r.b, r.q, v[|r.Literal()|..]);
    PlaceBecomes(r, v);
  }

  lemma UncachedIs(routes: seq<BucketRoute>, bucket: string, v: string)
    requires forall r :: r in Routes(routes) ==> r.Valid()
    ensures ValidBuckets(map[bucket := Routes(routes)])
    ensures Uncached(map[bucket := Routes(routes)], bucket, v) == FirstRoute(Routes(routes), v, 0)
  {}

  lemma {:induction false} PlaceBecomes(r: BucketRoute, v: string)
    requires r.Valid() && NoNewline(v) && r.Literal() <= v
    ensures Becomes(r.PhysicalKey(v), r.b, r.config, v)
  {
    hide InClass, ReverseRewrite;
    var rest := v[|r.Literal()|..];
    var k := r.b + r.q + rest;
    assert k[|r.b|..] == r.q + rest && (r.q + rest)[|r.q|..] == rest;
    ForwardKey(r.config, r.p, r.q, v);
    ReverseKey(r.config, r.p, r.q, k[|r.b|..]);
    assert v == r.Literal() + rest;
  }

  /** A key that no route matches, deleted through the fallback. */
  lemma {:induction false} UnroutedTarget(e: Executor, routes: seq<BucketRoute>, bucket: string, v: string)
    requires ValidRoutes(routes) && NoNewline(v) && FirstIndex(routes, v, 0) == |routes|
    requires (forall r :: r in Routes(routes) ==> r.Valid()) && Serves(e, routes, bucket)
    ensures var m := e.MapKey(v);
            m.backendID == e.fallback.backend
            && m.physicalKey == (if e.fallback.backend in e.prefixes then e.prefixes[e.fallback.backend]
                                 else e.fallbackPrefix) + e.fallback.rewrittenKey
  {
    hide InClass, FirstRoute;
    FirstRouteIs(routes, v, 0);
    UncachedIs(routes, bucket, v);
    FallbackIff(e, map[bucket := Routes(routes)], bucket, v);
  }

  // ----- the listing after a delete -----

  /** The request asks for this object of this backend. */
  predicate Asked(e: Executor, keys: seq<string>, id: string, k: string) {
    k in BatchDelete.PhysicalKeys(BatchDelete.Group(e.MapKeys(keys), id))
  }

  /** What the backends hold once all of them have done what they were asked. */
  ghost function Remaining(e: Executor, keys: seq<string>, stores: Stores): Stores {
    id => iset k | k in stores(id) && !Asked(e, keys, id, k)
  }

  lemma {:induction false} AskedIff(e: Executor, keys: seq<string>, id: string, k: string)
    ensures Asked(e, keys, id, k) <==>
            exists key :: key in keys && e.MapKey(key).backendID == id && e.MapKey(key).physicalKey == k
  {
    hide BatchDelete.Executor.MapKey, BatchDelete.Group;
    var mappings := e.MapKeys(keys);
    var group := BatchDelete.Group(mappings, id);
    BatchDelete.GroupElements(mappings, id);
    if Asked(e, keys, id, k) {
      var i :| 0 <= i < |group| && group[i].physicalKey == k;
      assert group[i] in group;
      var j :| 0 <= j < |mappings| && mappings[j] == group[i];
      assert keys[j] in keys && mappings[j] == e.MapKey(keys[j]);
    }
    if key :| key in keys && e.MapKey(key).backendID == id && e.MapKey(key).physicalKey == k {
      var j :| 0 <= j < |keys| && keys[j] == key;
      assert mappings[j] == e.MapKey(key) && mappings[j] in mappings;
      assert e.MapKey(key) in group;
      var i :| 0 <= i < |group| && group[i] == e.MapKey(key);
      assert BatchDelete.PhysicalKeys(group)[i] == k;
    }
  }

  /** With aligned prefixes and no shadowing, a key is shown for one object: where its first route keeps it. */
  lemma {:induction false} ShownIff(routes: seq<BucketRoute>, fetch: string -> RouteListing.Backend, stores: Stores,
                                    virtualPrefix: string, v: string)
    requires ValidRoutes(routes) && AllAligned(routes, virtualPrefix) && RoutesAgree(routes)
    requires AnswersAll(fetch, stores) && ObjectKey(v) && virtualPrefix <= v
    ensures var f := FirstIndex(routes, v, 0);
            Shown(routes, fetch, virtualPrefix, v)
            <==> f < |routes| && routes[f].PhysicalKey(v) in stores(routes[f].Backend())
  {
    hide ListedBy, AnswersAll, BucketRoute.Valid, SamePlace, BucketRoute.PhysicalKey, BucketRoute.Literal;
    var f := FirstIndex(routes, v, 0);
    forall i | 0 <= i < |routes|
      ensures ListedBy(routes[i], fetch, virtualPrefix, v)
              <==> routes[i].Literal() <= v && routes[i].PhysicalKey(v) in stores(routes[i].Backend())
    {
      ListedByIff(routes[i], fetch, stores, virtualPrefix, v);
    }
    forall i | 0 <= i < |routes| && routes[i].Literal() <= v
      ensures f < |routes| && routes[i].Backend() == routes[f].Backend()
              && routes[i].PhysicalKey(v) == routes[f].PhysicalKey(v)
    {
      if i != f {
        SamePlaceIff(routes[f], routes[i], v);
      }
    }
  }

  /**
   Deleting keys takes out of a listing exactly the keys whose objects were
   deleted: the requested ones, and others only if they show the same object as a
   requested one.
   */
  lemma {:induction false} DeleteUnlists(e: Executor, routes: seq<BucketRoute>, bucket: string, keys: seq<string>,
                                         stores: Stores, fetch: string -> RouteListing.Backend,
                                         after: string -> RouteListing.Backend, virtualPrefix: string, v: string)
    requires ValidRoutes(routes) && AllAligned(routes, virtualPrefix) && RoutesAgree(routes)
    requires (forall r :: r in Routes(routes) ==> r.Valid()) && Serves(e, routes, bucket)
    requires forall key :: key in keys ==> NoNewline(key) && FirstIndex(routes, key, 0) < |routes|
    requires AnswersAll(fetch, stores) && AnswersAll(after, Remaining(e, keys, stores))
    requires ObjectKey(v) && virtualPrefix <= v
    ensures Shown(routes, after, virtualPrefix, v) <==>
            Shown(routes, fetch, virtualPrefix, v) && forall key :: key in keys ==> !SameObject(routes, key, v)
    ensures v in keys ==> !Shown(routes, after, virtualPrefix, v)
  {
    hide AnswersAll, BucketRoute.Valid, RoutesAgree, AllAligned, Serves, Shown, Asked, BatchDelete.Executor.MapKey;
    var f := FirstIndex(routes, v, 0);
    ShownIff(routes, fetch, stores, virtualPrefix, v);
    ShownIff(routes, after, Remaining(e, keys, stores), virtualPrefix, v);
    if f < |routes| {
      AskedIff(e, keys, routes[f].Backend(), routes[f].PhysicalKey(v));
      forall key | key in keys
        ensures SameObject(routes, key, v) <==>
                e.MapKey(key).backendID == routes[f].Backend() && e.MapKey(key).physicalKey == routes[f].PhysicalKey(v)
      {
        TargetIsListed(e, routes, bucket, key);
      }
    }
  }

  /** Both keys lead to one object. */
  predicate SameObject(routes: seq<BucketRoute>, key: string, v: string) {
    var f, g := FirstIndex(routes, key, 0), FirstIndex(routes, v, 0);
    f < |routes| && g < |routes| && routes[f].Backend() == routes[g].Backend()
    && routes[f].PhysicalKey(key) == routes[g].PhysicalKey(v)
  }
}
