/**
 Building a listing response: objects and common prefixes merged in key order,
 cut into pages, and what a client gets that follows the continuation tokens.
 */
module Pagination {
  import opened Text
  import opened Ordering
  import opened RouteListing
  import opened Rollup

  datatype ResponseItem = ObjectItem(obj: VirtualObject) | PrefixItem(prefix: string)
  {
    function SortKey(): string { if ObjectItem? then obj.virtualKey else prefix }
  }

  function Keys(items: seq<ResponseItem>): seq<string> {
    seq(|items|, i requires 0 <= i < |items| => items[i].SortKey())
  }

  predicate Sorted(keys: seq<string>) { forall i, j :: 0 <= i < j < |keys| ==> LessEq(keys[i], keys[j]) }

  lemma {:induction false} AscendingIsSorted(keys: seq<string>)
    requires Ascending(keys)
    ensures Sorted(keys)
  {
    forall i, j | 0 <= i < j < |keys|
      ensures LessEq(keys[i], keys[j])
    {
      LessIff(keys[i], keys[j]);
    }
  }

  // ----- the merged list -----

  /** The objects shown as such. */
  function Kept(objects: seq<VirtualObject>, delimiter: string, prefix: string): seq<VirtualObject> {
    if delimiter == "" then objects else Remaining(objects, delimiter, prefix)
  }

  predicate RolledUp(objects: seq<VirtualObject>, delimiter: string, prefix: string, c: string) {
    delimiter != "" && Contributes(objects, delimiter, prefix, c)
  }

  /** The kept objects and the common prefixes, each once, in key order. */
  ghost predicate IsMerged(items: seq<ResponseItem>, objects: seq<VirtualObject>, delimiter: string, prefix: string) {
    && Ascending(Keys(items))
    && (forall o :: ObjectItem(o) in items <==> o in Kept(objects, delimiter, prefix))
    && (forall c :: PrefixItem(c) in items <==> RolledUp(objects, delimiter, prefix, c))
  }

  /**
   The same without supposing that the objects have different keys: every object
   as often as it was collected and every common prefix once, in key order.
   */
  ghost predicate IsArranged(items: seq<ResponseItem>, objects: seq<VirtualObject>, delimiter: string, prefix: string) {
    && SortedBy(KeyLe, items)
    && (forall o :: multiset(items)[ObjectItem(o)] == multiset(Kept(objects, delimiter, prefix))[o])
    && (forall c :: multiset(items)[PrefixItem(c)] == if RolledUp(objects, delimiter, prefix, c) then 1 else 0)
  }

  /** An ascending list is determined by its elements. */
  lemma {:induction false} AscendingUnique(a: seq<ResponseItem>, b: seq<ResponseItem>)
    requires Ascending(Keys(a)) && Ascending(Keys(b)) && forall x :: x in a <==> x in b
    ensures a == b
  {
    SameEmptiness(a, b);
    if a != [] {
      assert a[0] in b && b[0] in a;
      SameFirst(a, b);
      TailElements(a);
      TailElements(b);
      AscendingUnique(a[1..], b[1..]);
      assert a == [a[0]] + a[1..] && b == [b[0]] + b[1..];
    }
  }

  lemma {:induction false} SameEmptiness<T>(a: seq<T>, b: seq<T>)
    requires forall x :: x in a <==> x in b
    ensures a == [] <==> b == []
  {
    if a != [] {
      assert a[0] in a;
    }
    if b != [] {
      assert b[0] in b;
    }
  }

  lemma {:induction false} SameFirst(a: seq<ResponseItem>, b: seq<ResponseItem>)
    requires Ascending(Keys(a)) && Ascending(Keys(b)) && a != [] && b != [] && a[0] in b && b[0] in a
    ensures a[0] == b[0]
  {
    var i :| 0 <= i < |b| && b[i] == a[0];
    var j :| 0 <= j < |a| && a[j] == b[0];
    if i > 0 && j > 0 {
      assert Less(Keys(b)[0], Keys(b)[i]) && Less(Keys(a)[0], Keys(a)[j]);
      LessTransitive(b[0].SortKey(), a[0].SortKey(), b[0].SortKey());
      LessEqReflexive(b[0].SortKey());
    }
  }

  lemma {:induction false} TailElements(a: seq<ResponseItem>)
    requires Ascending(Keys(a)) && a != []
    ensures Ascending(Keys(a[1..])) && forall x :: x in a[1..] <==> x in a && x != a[0]
  {
    assert forall i :: 0 <= i < |a| - 1 ==> Keys(a[1..])[i] == Keys(a)[i + 1];
    assert a == [a[0]] + a[1..];
    forall i | 0 < i < |a|
      ensures a[i] != a[0]
    {
      LessIff(Keys(a)[0], Keys(a)[i]);
    }
  }

  /** So the merged list does not depend on the order in which objects or prefixes were collected. */
  lemma {:induction false} MergedUnique(a: seq<ResponseItem>, b: seq<ResponseItem>, objects: seq<VirtualObject>,
                                        others: seq<VirtualObject>, delimiter: string, prefix: string)
    requires forall o :: o in objects <==> o in others
    requires IsMerged(a, objects, delimiter, prefix) && IsMerged(b, others, delimiter, prefix)
    ensures a == b
  {
    hide CommonPrefix, Remaining;
    RemainingElements(objects, delimiter, prefix);
    RemainingElements(others, delimiter, prefix);
    forall c
      ensures Contributes(objects, delimiter, prefix, c) <==> Contributes(others, delimiter, prefix, c)
    {
      ContributesIff(objects, delimiter, prefix, c);
      ContributesIff(others, delimiter, prefix, c);
    }
    forall x: ResponseItem
      ensures x in a <==> x in b
    {
      assert x == if x.ObjectItem? then ObjectItem(x.obj) else PrefixItem(x.prefix);
    }
    AscendingUnique(a, b);
  }

  lemma {:induction false} ContributesIff(objects: seq<VirtualObject>, delimiter: string, prefix: string, c: string)
    ensures Contributes(objects, delimiter, prefix, c)
            <==> exists o :: o in objects && CommonPrefix(o.virtualKey, delimiter, prefix) == Some(c)
  {
    hide CommonPrefix;
    if o :| o in objects && CommonPrefix(o.virtualKey, delimiter, prefix) == Some(c) {
      var i :| 0 <= i < |objects| && objects[i] == o;
    }
  }

  predicate KeyLe(a: ResponseItem, b: ResponseItem) { LessEq(a.SortKey(), b.SortKey()) }

  predicate DistinctItems(items: seq<ResponseItem>) {
    forall i, j :: 0 <= i < j < |items| ==> items[i].SortKey() != items[j].SortKey()
  }

  lemma {:induction false} KeyLeOrder()
    ensures TotalPreorder(KeyLe)
  {
    StringOrder();
    forall a, b, c | KeyLe(a, b) && KeyLe(b, c)
      ensures KeyLe(a, c)
    {
      LessEqTransitive(a.SortKey(), b.SortKey(), c.SortKey());
    }
    forall a, b
      ensures KeyLe(a, b) || KeyLe(b, a)
    {
      LessEqTotal(a.SortKey(), b.SortKey());
    }
  }

  /** Sorting items with different keys makes them ascend. */
  lemma {:induction false} SortAscends(items: seq<ResponseItem>)
    requires DistinctItems(items)
    ensures Ascending(Keys(Sort(KeyLe, items)))
    ensures forall x :: x in Sort(KeyLe, items) <==> x in items
  {
    var sorted := Sort(KeyLe, items);
    KeyLeOrder();
    SortSorts(KeyLe, items);
    SortElements(KeyLe, items);
    SortPermutes(KeyLe, items);
    forall i, j | 0 <= i < j < |sorted|
      ensures Less(Keys(sorted)[i], Keys(sorted)[j])
    {
      assert KeyLe(sorted[i], sorted[j]);
      PermutedDistinct(items, sorted, i, j);
      LessIff(sorted[i].SortKey(), sorted[j].SortKey());
    }
  }

  lemma {:induction false} PermutedDistinct(items: seq<ResponseItem>, sorted: seq<ResponseItem>, i: nat, j: nat)
    requires DistinctItems(items) && multiset(items) == multiset(sorted) && i < j < |sorted|
    ensures sorted[i].SortKey() != sorted[j].SortKey()
  {
    SameElements(items, sorted);
    assert sorted[i] in items && sorted[j] in items;
    assert forall k, l :: 0 <= k < l < |items| ==> items[k].SortKey() != items[l].SortKey();
    DistinctPermuted(items, sorted);
  }

  /** Collects the common prefixes from their map, in whatever order it yields them. */
  method ListPrefixes(prefixes: set<string>) returns (list: seq<string>)
    ensures Ascending(list) && forall c :: c in list <==> c in prefixes
  {
    list := [];
    var todo := prefixes;
    while todo != {}
      invariant todo <= prefixes
      invariant forall c :: c in list <==> c in prefixes && c !in todo
      invariant Distinct(list)
    {
      var c :| c in todo;
      todo := todo - {c};
      list := list + [c];
    }
    SortedStringsAscend(list);
    list := Sort(LessEq, list);
  }

  /** The first half of buildResponse: filter, roll up, merge and sort. */
  method MergeItems(allObjects: seq<VirtualObject>, delimiter: string, prefix: string)
    returns (items: seq<ResponseItem>)
    ensures IsArranged(items, FilterByPrefix(allObjects, prefix), delimiter, prefix)
    ensures DistinctKeys(allObjects) ==> IsMerged(items, FilterByPrefix(allObjects, prefix), delimiter, prefix)
  {
    hide IsArranged, IsMerged, DistinctKeys, Ascending, Sort;
    var objects := FilterByVirtualPrefix(allObjects, prefix);
    FilterElements(allObjects, prefix);
    var kept := objects;
    var prefixList: seq<string> := [];
    if delimiter != "" {
      var commonPrefixes := ExtractCommonPrefixes(objects, delimiter, prefix);
      kept := WithoutCommonPrefix(objects, commonPrefixes, delimiter, prefix);
      prefixList := ListPrefixes(commonPrefixes);
    } else {
      NothingAscends();
    }
    items := ToItems(kept, prefixList);
    SortedItemsArranged(objects, delimiter, prefix, prefixList);
    if DistinctKeys(allObjects) {
      FilterDistinct(allObjects, prefix);
      SortedItemsMerged(objects, delimiter, prefix, prefixList);
    }
    items := Sort(KeyLe, items);
  }

  lemma NothingAscends()
    ensures Ascending([])
  {}

  function ObjectItems(kept: seq<VirtualObject>): seq<ResponseItem> {
    seq(|kept|, i requires 0 <= i < |kept| => ObjectItem(kept[i]))
  }

  function PrefixItems(prefixList: seq<string>): seq<ResponseItem> {
    seq(|prefixList|, i requires 0 <= i < |prefixList| => PrefixItem(prefixList[i]))
  }

  function ItemsOf(kept: seq<VirtualObject>, prefixList: seq<string>): seq<ResponseItem> {
    ObjectItems(kept) + PrefixItems(prefixList)
  }

  lemma {:induction false} ObjectCount(kept: seq<VirtualObject>, x: ResponseItem)
    ensures multiset(ObjectItems(kept))[x] == if x.ObjectItem? then multiset(kept)[x.obj] else 0
  {
    if kept != [] {
      var n := |kept| - 1;
      ObjectCount(kept[..n], x);
      assert ObjectItems(kept) == ObjectItems(kept[..n]) + [ObjectItem(kept[n])];
      assert kept == kept[..n] + [kept[n]];
    }
  }

  lemma {:induction false} PrefixCount(prefixList: seq<string>, x: ResponseItem)
    ensures multiset(PrefixItems(prefixList))[x] == if x.PrefixItem? then multiset(prefixList)[x.prefix] else 0
  {
    if prefixList != [] {
      var n := |prefixList| - 1;
      PrefixCount(prefixList[..n], x);
      assert PrefixItems(prefixList) == PrefixItems(prefixList[..n]) + [PrefixItem(prefixList[n])];
      assert prefixList == prefixList[..n] + [prefixList[n]];
    }
  }

  lemma {:induction false} ItemCount(kept: seq<VirtualObject>, prefixList: seq<string>, x: ResponseItem)
    ensures multiset(ItemsOf(kept, prefixList))[x]
            == if x.ObjectItem? then multiset(kept)[x.obj] else multiset(prefixList)[x.prefix]
  {
    hide ObjectItems, PrefixItems;
    ObjectCount(kept, x);
    PrefixCount(prefixList, x);
  }

  lemma {:induction false} SortedItemsArranged(objects: seq<VirtualObject>, delimiter: string, prefix: string,
                                               prefixList: seq<string>)
    requires Ascending(prefixList) && forall c :: c in prefixList <==> RolledUp(objects, delimiter, prefix, c)
    ensures IsArranged(Sort(KeyLe, ItemsOf(Kept(objects, delimiter, prefix), prefixList)), objects, delimiter, prefix)
  {
    hide KeyLe, Kept, ItemsOf, RolledUp;
    var kept := Kept(objects, delimiter, prefix);
    KeyLeOrder();
    SortSorts(KeyLe, ItemsOf(kept, prefixList));
    SortPermutes(KeyLe, ItemsOf(kept, prefixList));
    AscendingDistinct(prefixList);
    forall x: ResponseItem
      ensures multiset(ItemsOf(kept, prefixList))[x]
              == if x.ObjectItem? then multiset(kept)[x.obj] else if x.prefix in prefixList then 1 else 0
    {
      ItemCount(kept, prefixList, x);
      if x.PrefixItem? {
        CountedOnce(prefixList, x.prefix);
      }
    }
  }

  lemma {:induction false} AscendingDistinct(keys: seq<string>)
    requires Ascending(keys)
    ensures Distinct(keys)
  {
    forall i, j | 0 <= i < j < |keys|
      ensures keys[i] != keys[j]
    {
      LessIff(keys[i], keys[j]);
    }
  }

  lemma {:induction false} SortedItemsMerged(objects: seq<VirtualObject>, delimiter: string, prefix: string,
                                             prefixList: seq<string>)
    requires DistinctKeys(objects) && forall o :: o in objects ==> HasPrefix(o.virtualKey, prefix)
    requires Ascending(prefixList) && forall c :: c in prefixList <==> RolledUp(objects, delimiter, prefix, c)
    ensures IsMerged(Sort(KeyLe, ItemsOf(Kept(objects, delimiter, prefix), prefixList)), objects, delimiter, prefix)
  {
    hide KeyLe, ItemsOf, Ascending, Sort;
    var kept := Kept(objects, delimiter, prefix);
    if delimiter != "" {
      RemainingDistinct(objects, delimiter, prefix);
      forall o | o in kept
        ensures o.virtualKey !in prefixList
      {
        RemainingIsNoPrefix(objects, delimiter, prefix, o);
      }
    }
    ItemsDistinct(kept, prefixList, ItemsOf(kept, prefixList));
    SortAscends(ItemsOf(kept, prefixList));
  }

  method ToItems(kept: seq<VirtualObject>, prefixList: seq<string>) returns (items: seq<ResponseItem>)
    ensures items == ItemsOf(kept, prefixList)
  {
    items := [];
    for i := 0 to |kept|
      invariant items == seq(i, k requires 0 <= k < i => ObjectItem(kept[k]))
    {
      items := items + [ObjectItem(kept[i])];
    }
    ghost var objectItems := items;
    for i := 0 to |prefixList|
      invariant items == objectItems + seq(i, k requires 0 <= k < i => PrefixItem(prefixList[k]))
    {
      items := items + [PrefixItem(prefixList[i])];
    }
  }

  lemma {:induction false} ItemsDistinct(kept: seq<VirtualObject>, prefixList: seq<string>, items: seq<ResponseItem>)
    requires DistinctKeys(kept) && Ascending(prefixList) && forall o :: o in kept ==> o.virtualKey !in prefixList
    requires items == ItemsOf(kept, prefixList)
    ensures DistinctItems(items)
    ensures forall o :: ObjectItem(o) in items <==> o in kept
    ensures forall c :: PrefixItem(c) in items <==> c in prefixList
  {
    var n := |kept|;
    assert forall i :: 0 <= i < |items| ==>
      items[i] == if i < n then ObjectItem(kept[i]) else PrefixItem(prefixList[i - n]);
    forall i, j | 0 <= i < j < |items|
      ensures items[i].SortKey() != items[j].SortKey()
    {
      if n <= i {
        LessIff(prefixList[i - n], prefixList[j - n]);
      } else if j < n {
        assert kept[i].virtualKey != kept[j].virtualKey;
      } else {
        assert kept[i] in kept && prefixList[j - n] in prefixList;
      }
    }
    forall o
      ensures ObjectItem(o) in items <==> o in kept
    {
      if i :| 0 <= i < n && kept[i] == o {
        assert items[i] == ObjectItem(o);
      }
    }
    forall c
      ensures PrefixItem(c) in items <==> c in prefixList
    {
      if i :| 0 <= i < |prefixList| && prefixList[i] == c {
        assert items[n + i] == PrefixItem(c);
      }
    }
  }

  // ----- where a page starts -----

  /** How many keys at the front do not exceed after. */
  function StartIndex(keys: seq<string>, after: string): (n: nat)
    ensures n <= |keys|
  {
    if keys != [] && LessEq(keys[0], after) then 1 + StartIndex(keys[1..], after) else 0
  }

  predicate SplitsAt(keys: seq<string>, after: string, n: nat) {
    n <= |keys|
    && (forall i :: 0 <= i < n ==> LessEq(keys[i], after))
    && (forall i :: n <= i < |keys| ==> Less(after, keys[i]))
  }

  /** On sorted keys it is the one place that separates the keys up to after from those beyond it. */
  lemma {:induction false} StartIndexSplits(keys: seq<string>, after: string, n: nat)
    requires Sorted(keys)
    ensures SplitsAt(keys, after, n) <==> n == StartIndex(keys, after)
  {
    if keys != [] {
      var rest := keys[1..];
      assert forall i :: 0 <= i < |rest| ==> rest[i] == keys[i + 1];
      if LessEq(keys[0], after) {
        if n > 0 {
          StartIndexSplits(rest, after, n - 1);
          assert SplitsAt(keys, after, n) ==> SplitsAt(rest, after, n - 1);
          assert SplitsAt(rest, after, n - 1) ==> SplitsAt(keys, after, n);
        }
      } else {
        forall i | 0 <= i < |keys|
          ensures Less(after, keys[i])
        {
          if LessEq(keys[i], after) && i > 0 {
            LessEqTransitive(keys[0], keys[i], after);
          }
        }
      }
    }
  }

  /** The binary search of findStartIndex. */
  method FindStartIndex(objects: seq<VirtualObject>, startAfterKey: string) returns (left: nat)
    requires Sorted(ObjectKeys(objects))
    ensures left == StartIndex(ObjectKeys(objects), startAfterKey)
  {
    ghost var keys := ObjectKeys(objects);
    left := 0;
    var right := |objects|;
    while left < right
      invariant left <= right <= |objects|
      invariant forall i :: 0 <= i < left ==> LessEq(keys[i], startAfterKey)
      invariant forall i :: right <= i < |keys| ==> Less(startAfterKey, keys[i])
    {
      var mid := left + (right - left) / 2;
      if LessEq(objects[mid].virtualKey, startAfterKey) {
        forall i | 0 <= i <= mid
          ensures LessEq(keys[i], startAfterKey)
        {
          if i < mid {
            LessEqTransitive(keys[i], keys[mid], startAfterKey);
          }
        }
        left := mid + 1;
      } else {
        forall i | mid <= i < |keys|
          ensures Less(startAfterKey, keys[i])
        {
          if mid < i && LessEq(keys[i], startAfterKey) {
            LessEqTransitive(keys[mid], keys[i], startAfterKey);
          }
        }
        right := mid;
      }
    }
    StartIndexSplits(keys, startAfterKey, left);
  }

  function ObjectKeys(objects: seq<VirtualObject>): seq<string> {
    seq(|objects|, i requires 0 <= i < |objects| => objects[i].virtualKey)
  }

  /** The linear scan of buildResponse, which tells "not found" from "at the front" by a second look. */
  method ScanStart(items: seq<ResponseItem>, startAfterKey: string) returns (startIndex: nat)
    requires items != [] && Sorted(Keys(items))
    ensures startIndex == if startAfterKey == "" then 0 else StartIndex(Keys(items), startAfterKey)
  {
    ghost var keys := Keys(items);
    startIndex := 0;
    if startAfterKey != "" {
      for i := 0 to |items|
        invariant startIndex == 0
        invariant forall k :: 0 <= k < i ==> LessEq(keys[k], startAfterKey)
      {
        if Less(startAfterKey, items[i].SortKey()) {
          startIndex := i;
          forall k | i <= k < |keys|
            ensures Less(startAfterKey, keys[k])
          {
            if i < k && LessEq(keys[k], startAfterKey) {
              LessEqTransitive(keys[i], keys[k], startAfterKey);
            }
          }
          break;
        }
      }
      if startIndex == 0 && LessEq(items[0].SortKey(), startAfterKey) {
        startIndex := |items|;
      }
      StartIndexSplits(keys, startAfterKey, startIndex);
    }
  }

  // ----- pages -----

  datatype ListParams = ListParams(prefix: string, delimiter: string, maxKeys: nat, startAfter: string,
                                   continuationToken: string)

  datatype Page = Page(items: seq<ResponseItem>, isTruncated: bool, nextToken: string)

  /** The items after a key, at most maxKeys of them. */
  function PageOf(items: seq<ResponseItem>, after: string, maxKeys: nat): Page {
    var start := if after == "" then 0 else StartIndex(Keys(items), after);
    var end := start + maxKeys;
    if end >= |items| || start == |items| then Page(items[start..], false, "")
    else Page(items[start..end], true, if maxKeys > 0 then items[end - 1].SortKey() else "")
  }

  function Objects(items: seq<ResponseItem>): seq<VirtualObject> {
    if items == [] then []
    else (if items[0].ObjectItem? then [items[0].obj] else []) + Objects(items[1..])
  }

  function Prefixes(items: seq<ResponseItem>): seq<string> {
    if items == [] then []
    else (if items[0].PrefixItem? then [items[0].prefix] else []) + Prefixes(items[1..])
  }

  lemma {:induction false} SplitAppend(a: seq<ResponseItem>, b: seq<ResponseItem>)
    ensures Objects(a + b) == Objects(a) + Objects(b) && Prefixes(a + b) == Prefixes(a) + Prefixes(b)
  {
    if a == [] {
      assert a + b == b;
    } else {
      assert (a + b)[1..] == a[1..] + b;
      SplitAppend(a[1..], b);
      Assoc(if a[0].ObjectItem? then [a[0].obj] else [], Objects(a[1..]), Objects(b));
      Assoc(if a[0].PrefixItem? then [a[0].prefix] else [], Prefixes(a[1..]), Prefixes(b));
    }
  }

  lemma {:induction false} SplitLength(a: seq<ResponseItem>)
    ensures |Objects(a)| + |Prefixes(a)| == |a|
  {
    if a != [] {
      SplitLength(a[1..]);
    }
  }

  datatype Response = Response(contents: seq<VirtualObject>, commonPrefixes: seq<string>, isTruncated: bool,
                               nextContinuationToken: string, keyCount: nat)

  /** The key after which a request wants to continue: its token if it has one. */
  function AfterKey(params: ListParams): string {
    if params.continuationToken != "" then params.continuationToken else params.startAfter
  }

  /** A page as the answer to a request. */
  function ResponseOf(page: Page): Response {
    Response(Objects(page.items), Prefixes(page.items), page.isTruncated, page.nextToken, |page.items|)
  }

  /** What a request is answered with, over the merged list. */
  function Respond(params: ListParams, items: seq<ResponseItem>): Response {
    ResponseOf(PageOf(items, AfterKey(params), params.maxKeys))
  }

  /**
   buildResponse: a page of the arranged list. If the collected keys differ, that
   is the merged list, of which there is one (MergedUnique).
   */
  method BuildResponse(params: ListParams, allObjects: seq<VirtualObject>) returns (response: Response)
    ensures exists items ::
              && IsArranged(items, FilterByPrefix(allObjects, params.prefix), params.delimiter, params.prefix)
              && (DistinctKeys(allObjects) ==>
                  IsMerged(items, FilterByPrefix(allObjects, params.prefix), params.delimiter, params.prefix))
              && response == Respond(params, items)
  {
    hide IsMerged, IsArranged, PageOf;
    var unifiedList := MergeItems(allObjects, params.delimiter, params.prefix);
    ghost var items := unifiedList;
    ArrangedIsSorted(items, FilterByPrefix(allObjects, params.prefix), params.delimiter, params.prefix);
    var startAfterKey := "";
    if params.continuationToken != "" {
      startAfterKey := params.continuationToken;
    } else if params.startAfter != "" {
      startAfterKey := params.startAfter;
    }
    var page := CutPage(unifiedList, startAfterKey, params.maxKeys);
    var contents, commonPrefixes := SplitItems(page.items);
    SplitLength(page.items);
    response := Response(contents, commonPrefixes, page.isTruncated, page.nextToken,
                         |contents| + |commonPrefixes|);
  }

  lemma {:induction false} ArrangedIsSorted(items: seq<ResponseItem>, objects: seq<VirtualObject>, delimiter: string,
                                            prefix: string)
    requires IsArranged(items, objects, delimiter, prefix)
    ensures Sorted(Keys(items))
  {
    forall i, j | 0 <= i < j < |items|
      ensures LessEq(items[i].SortKey(), items[j].SortKey())
    {
      assert KeyLe(items[i], items[j]);
    }
  }

  /** The paging part of buildResponse. */
  method CutPage(unifiedList: seq<ResponseItem>, startAfterKey: string, maxKeys: nat) returns (page: Page)
    requires Sorted(Keys(unifiedList))
    ensures page == PageOf(unifiedList, startAfterKey, maxKeys)
  {
    var isTruncated, nextToken := false, "";
    var paginatedItems: seq<ResponseItem> := [];
    if |unifiedList| > 0 {
      var startIndex := ScanStart(unifiedList, startAfterKey);
      if startIndex < |unifiedList| {
        var endIndex := startIndex + maxKeys;
        if endIndex >= |unifiedList| {
          paginatedItems := unifiedList[startIndex..];
        } else {
          isTruncated := true;
          paginatedItems := unifiedList[startIndex..endIndex];
          if |paginatedItems| > 0 {
            nextToken := paginatedItems[|paginatedItems| - 1].SortKey();
          }
        }
      }
    }
    page := Page(paginatedItems, isTruncated, nextToken);
  }

  method SplitItems(items: seq<ResponseItem>) returns (contents: seq<VirtualObject>, commonPrefixes: seq<string>)
    ensures contents == Objects(items) && commonPrefixes == Prefixes(items)
  {
    contents, commonPrefixes := [], [];
    assert items[..|items|] == items;
    for i := 0 to |items|
      invariant contents == Objects(items[..i]) && commonPrefixes == Prefixes(items[..i])
    {
      assert items[..i + 1] == items[..i] + [items[i]];
      SplitAppend(items[..i], [items[i]]);
      assert [items[i]][1..] == [];
      if items[i].PrefixItem? {
        commonPrefixes := commonPrefixes + [items[i].prefix];
      } else {
        contents := contents + [items[i].obj];
      }
    }
  }

  // ----- following the tokens -----

  predicate ProperKeys(items: seq<ResponseItem>) {
    Ascending(Keys(items)) && forall i :: 0 <= i < |items| ==> items[i].SortKey() != ""
  }

  function StartOf(items: seq<ResponseItem>, after: string): (n: nat)
    ensures n <= |items|
  {
    if after == "" then 0 else StartIndex(Keys(items), after)
  }

  /** A continuation token leads to the item after the last one shown. */
  lemma {:induction false} TokenContinues(items: seq<ResponseItem>, after: string, maxKeys: nat)
    requires ProperKeys(items) && maxKeys > 0 && PageOf(items, after, maxKeys).isTruncated
    ensures var token := PageOf(items, after, maxKeys).nextToken;
            token != "" && StartOf(items, token) == StartOf(items, after) + maxKeys < |items|
  {
    var keys, end := Keys(items), StartOf(items, after) + maxKeys;
    var token := items[end - 1].SortKey();
    AscendingIsSorted(keys);
    forall i | 0 <= i < end
      ensures LessEq(keys[i], token)
    {
      if i < end - 1 {
        LessIff(keys[i], keys[end - 1]);
      }
      LessEqReflexive(token);
    }
    StartIndexSplits(keys, token, end);
  }

  /** All pages of a run: the first request, then one per token until a page is not truncated. */
  function Follow(items: seq<ResponseItem>, after: string, maxKeys: nat): seq<Page>
    requires ProperKeys(items) && maxKeys > 0
    decreases |items| - StartOf(items, after)
  {
    var page := PageOf(items, after, maxKeys);
    if page.isTruncated then
      TokenContinues(items, after, maxKeys);
      [page] + Follow(items, page.nextToken, maxKeys)
    else [page]
  }

  function AllItems(pages: seq<Page>): seq<ResponseItem> {
    if pages == [] then [] else pages[0].items + AllItems(pages[1..])
  }

  /** The number of pages that m items need: at least one, even if there are none. */
  function PageCount(m: nat, maxKeys: nat): nat
    requires maxKeys > 0
  {
    if m <= maxKeys then 1 else 1 + PageCount(m - maxKeys, maxKeys)
  }

  /**
   A whole run shows every item beyond the start key exactly once and in order,
   in pages that are all full but the last.
   */
  lemma {:induction false} FollowEnumerates(items: seq<ResponseItem>, after: string, maxKeys: nat)
    requires ProperKeys(items) && maxKeys > 0
    ensures var pages := Follow(items, after, maxKeys);
            && AllItems(pages) == items[StartOf(items, after)..]
            && |pages| == PageCount(|items| - StartOf(items, after), maxKeys)
            && (forall i :: 0 <= i < |pages| - 1 ==> |pages[i].items| == maxKeys && pages[i].isTruncated)
            && |pages[|pages| - 1].items| <= maxKeys && !pages[|pages| - 1].isTruncated
    decreases |items| - StartOf(items, after)
  {
    hide PageOf, StartOf, Keys, ProperKeys, Ascending;
    var page, start := PageOf(items, after, maxKeys), StartOf(items, after);
    PageItems(items, after, maxKeys);
    if page.isTruncated {
      TokenContinues(items, after, maxKeys);
      FollowEnumerates(items, page.nextToken, maxKeys);
      var more := Follow(items, page.nextToken, maxKeys);
      var pages := [page] + more;
      assert pages[1..] == more;
      assert forall i :: 0 < i < |pages| ==> pages[i] == more[i - 1];
      assert items[start..] == items[start..start + maxKeys] + items[start + maxKeys..];
    } else {
      assert [page][1..] == [] && page.items + [] == page.items;
    }
  }

  lemma PageItems(items: seq<ResponseItem>, after: string, maxKeys: nat)
    requires maxKeys > 0
    ensures var page, start := PageOf(items, after, maxKeys), StartOf(items, after);
            if page.isTruncated then start + maxKeys < |items| && page.items == items[start..start + maxKeys]
            else |items| - start <= maxKeys && page.items == items[start..]
  {}

  /**
   A truncated page carries a token that leads further, exactly when pages hold
   at least one key or nothing is left after the start.
   */
  lemma {:induction false} TokenProgressIff(items: seq<ResponseItem>, after: string, maxKeys: nat)
    requires ProperKeys(items)
    ensures maxKeys > 0 || StartOf(items, after) == |items| <==>
            var page := PageOf(items, after, maxKeys);
            page.isTruncated ==> page.nextToken != "" && StartOf(items, page.nextToken) > StartOf(items, after)
  {
    hide ProperKeys, Keys;
    if maxKeys > 0 && PageOf(items, after, maxKeys).isTruncated {
      TokenContinues(items, after, maxKeys);
    }
  }

  /** The number of pages is the quotient rounded up, and one for nothing. */
  lemma {:induction false} PageCountIsCeiling(m: nat, maxKeys: nat)
    requires maxKeys > 0
    ensures (PageCount(m, maxKeys) - 1) * maxKeys < Max(m, 1) <= PageCount(m, maxKeys) * maxKeys
  {
    if m > maxKeys {
      PageCountIsCeiling(m - maxKeys, maxKeys);
      var n := PageCount(m - maxKeys, maxKeys);
      assert (n + 1) * maxKeys == n * maxKeys + maxKeys;
      assert n * maxKeys == (n - 1) * maxKeys + maxKeys;
    }
  }

  /**
   End to end: over a run that starts after a key, an object is shown once if it
   is under the prefix, beyond that key and not rolled up; and a common prefix is
   shown once if it is beyond that key and stands for some object.
   */
  lemma {:induction false} RunShowsExactly(items: seq<ResponseItem>, allObjects: seq<VirtualObject>, delimiter: string,
                                           prefix: string, after: string, maxKeys: nat, x: ResponseItem)
    requires IsMerged(items, FilterByPrefix(allObjects, prefix), delimiter, prefix)
    requires (forall o :: o in allObjects ==> o.virtualKey != "") && maxKeys > 0
    ensures ProperKeys(items)
    ensures var shown := AllItems(Follow(items, after, maxKeys));
            && Ascending(Keys(shown))
            && (x in shown <==>
                (after == "" || Less(after, x.SortKey()))
                && if x.ObjectItem? then x.obj in Kept(FilterByPrefix(allObjects, prefix), delimiter, prefix)
                   else RolledUp(FilterByPrefix(allObjects, prefix), delimiter, prefix, x.prefix))
  {
    hide CommonPrefix, Keys, Kept, RolledUp;
    MergedKeysProper(items, allObjects, delimiter, prefix);
    FollowEnumerates(items, after, maxKeys);
    SuffixElements(items, after, x);
    assert x == if x.ObjectItem? then ObjectItem(x.obj) else PrefixItem(x.prefix);
  }

  // ----- runs of requests -----

  /**
   The answers to a client that repeats its request, start key and all, with the
   token of the last answer until an answer is not truncated.
   */
  function Responses(params: ListParams, items: seq<ResponseItem>): seq<Response>
    requires ProperKeys(items) && params.maxKeys > 0
    decreases |items| - StartOf(items, AfterKey(params))
  {
    var response := Respond(params, items);
    if response.isTruncated then
      TokenContinues(items, AfterKey(params), params.maxKeys);
      [response] + Responses(params.(continuationToken := response.nextContinuationToken), items)
    else [response]
  }

  function AllContents(responses: seq<Response>): seq<VirtualObject> {
    if responses == [] then [] else responses[0].contents + AllContents(responses[1..])
  }

  function AllCommonPrefixes(responses: seq<Response>): seq<string> {
    if responses == [] then [] else responses[0].commonPrefixes + AllCommonPrefixes(responses[1..])
  }

  predicate CountsKeys(r: Response) { r.keyCount == |r.contents| + |r.commonPrefixes| }

  /** The answers of a run hold the items beyond the first start, objects and common prefixes apart. */
  lemma {:induction false} ResponsesEnumerate(params: ListParams, items: seq<ResponseItem>)
    requires ProperKeys(items) && params.maxKeys > 0
    ensures var rest, responses := items[StartOf(items, AfterKey(params))..], Responses(params, items);
            && AllContents(responses) == Objects(rest) && AllCommonPrefixes(responses) == Prefixes(rest)
            && |responses| == PageCount(|rest|, params.maxKeys)
            && forall r :: r in responses ==> CountsKeys(r) && r.keyCount <= params.maxKeys
    decreases |items| - StartOf(items, AfterKey(params))
  {
    hide PageOf, StartOf, Keys, ProperKeys, Objects, Prefixes;
    var after := AfterKey(params);
    var page, start := PageOf(items, after, params.maxKeys), StartOf(items, after);
    PageItems(items, after, params.maxKeys);
    SplitLength(page.items);
    if page.isTruncated {
      TokenContinues(items, after, params.maxKeys);
      var next := params.(continuationToken := page.nextToken);
      ResponsesEnumerate(next, items);
      assert items[start..] == page.items + items[start + params.maxKeys..];
      SplitAppend(page.items, items[start + params.maxKeys..]);
      var more := Responses(next, items);
      assert ([ResponseOf(page)] + more)[1..] == more;
    } else {
      assert [ResponseOf(page)][1..] == [];
      assert Objects(page.items) + [] == Objects(page.items) && Prefixes(page.items) + [] == Prefixes(page.items);
    }
  }

  lemma {:induction false} SplitMembers(items: seq<ResponseItem>)
    ensures forall o :: o in Objects(items) <==> ObjectItem(o) in items
    ensures forall c :: c in Prefixes(items) <==> PrefixItem(c) in items
  {
    if items != [] {
      SplitMembers(items[1..]);
      assert items == [items[0]] + items[1..];
    }
  }

  lemma {:induction false} SplitAscends(items: seq<ResponseItem>)
    requires Ascending(Keys(items))
    ensures Ascending(ObjectKeys(Objects(items))) && Ascending(Prefixes(items))
  {
    hide Ascending, Less, Keys, ObjectKeys;
    if items == [] {
      NothingSplits();
    } else {
      var rest := items[1..];
      TailElements(items);
      SplitAscends(rest);
      forall k | k in ObjectKeys(Objects(rest)) || k in Prefixes(rest)
        ensures Less(items[0].SortKey(), k)
      {
        KeyOfRest(items, k);
      }
      SplitStep(items);
      AscendingCons(items[0].SortKey(), ObjectKeys(Objects(rest)));
      AscendingCons(items[0].SortKey(), Prefixes(rest));
    }
  }

  lemma NothingSplits()
    ensures Ascending(ObjectKeys(Objects([]))) && Ascending(Prefixes([]))
  {}

  lemma {:induction false} SplitStep(items: seq<ResponseItem>)
    requires items != []
    ensures var key, rest := items[0].SortKey(), items[1..];
            && ObjectKeys(Objects(items))
               == (if items[0].ObjectItem? then [key] + ObjectKeys(Objects(rest)) else ObjectKeys(Objects(rest)))
            && Prefixes(items) == (if items[0].ObjectItem? then Prefixes(rest) else [key] + Prefixes(rest))
  {
    hide ObjectKeys;
    var objects, prefixes := Objects(items[1..]), Prefixes(items[1..]);
    if items[0].PrefixItem? {
      assert Objects(items) == [] + objects == objects;
    } else {
      assert Prefixes(items) == [] + prefixes == prefixes;
      assert Objects(items) == [items[0].obj] + objects;
      ObjectKeysCons(items[0].obj, objects);
    }
  }

  lemma ObjectKeysCons(o: VirtualObject, objects: seq<VirtualObject>)
    ensures ObjectKeys([o] + objects) == [o.virtualKey] + ObjectKeys(objects)
  {}

  lemma {:induction false} KeyOfRest(items: seq<ResponseItem>, k: string)
    requires Ascending(Keys(items)) && items != []
    requires k in ObjectKeys(Objects(items[1..])) || k in Prefixes(items[1..])
    ensures Less(items[0].SortKey(), k)
  {
    hide Less;
    var rest, objects := items[1..], Objects(items[1..]);
    SplitMembers(rest);
    var x := PrefixItem(k);
    if k !in Prefixes(rest) {
      var i :| 0 <= i < |objects| && ObjectKeys(objects)[i] == k;
      assert objects[i] in objects;
      x := ObjectItem(objects[i]);
    }
    var j :| 0 <= j < |rest| && rest[j] == x;
    assert Keys(items)[j + 1] == k && Keys(items)[0] == items[0].SortKey();
  }

  lemma {:induction false} AscendingCons(head: string, tail: seq<string>)
    requires Ascending(tail) && forall k :: k in tail ==> Less(head, k)
    ensures Ascending([head] + tail)
  {
    assert forall j :: 0 <= j < |tail| ==> tail[j] in tail;
  }

  /**
   End to end, on requests: whoever asks without a token and then follows the
   tokens gets, over all answers, every object under the prefix and beyond the
   start key that is not rolled up, and every common prefix beyond the start key
   that stands for some object; each once, and in order.
   */
  lemma {:induction false} RequestsShowExactly(params: ListParams, items: seq<ResponseItem>,
                                               allObjects: seq<VirtualObject>)
    requires IsMerged(items, FilterByPrefix(allObjects, params.prefix), params.delimiter, params.prefix)
    requires (forall o :: o in allObjects ==> o.virtualKey != "")
    requires params.maxKeys > 0 && params.continuationToken == ""
    ensures ProperKeys(items)
    ensures var responses, under := Responses(params, items), FilterByPrefix(allObjects, params.prefix);
            && Ascending(ObjectKeys(AllContents(responses))) && Ascending(AllCommonPrefixes(responses))
            && (forall o :: o in AllContents(responses) <==>
                (params.startAfter == "" || Less(params.startAfter, o.virtualKey))
                && o in Kept(under, params.delimiter, params.prefix))
            && (forall c :: c in AllCommonPrefixes(responses) <==>
                (params.startAfter == "" || Less(params.startAfter, c))
                && RolledUp(under, params.delimiter, params.prefix, c))
  {
    hide CommonPrefix, Keys, Kept, RolledUp, Responses, ProperKeys, Ascending, Objects, Prefixes, StartOf, Less, FilterByPrefix,
      Contributes;
    var after := params.startAfter;
    MergedKeysProper(items, allObjects, params.delimiter, params.prefix);
    ResponsesEnumerate(params, items);
    var rest := items[StartOf(items, after)..];
    forall x: ResponseItem
      ensures Ascending(Keys(rest)) && (x in rest <==> x in items && (after == "" || Less(after, x.SortKey())))
    {
      SuffixElements(items, after, x);
    }
    SuffixElements(items, after, PrefixItem(""));
    SplitMembers(rest);
    SplitAscends(rest);
  }

  /** The same run, made of calls to buildResponse. */
  method FollowTokens(params: ListParams, allObjects: seq<VirtualObject>)
    returns (contents: seq<VirtualObject>, commonPrefixes: seq<string>)
    requires DistinctKeys(allObjects) && forall o :: o in allObjects ==> o.virtualKey != ""
    requires params.maxKeys > 0 && params.continuationToken == ""
    ensures exists items ::
              && IsMerged(items, FilterByPrefix(allObjects, params.prefix), params.delimiter, params.prefix)
              && ProperKeys(items)
              && contents == AllContents(Responses(params, items))
              && commonPrefixes == AllCommonPrefixes(Responses(params, items))
  {
    hide IsMerged, IsArranged, PageOf, Responses, ProperKeys, StartOf, Objects, Prefixes, DistinctKeys;
    var response := BuildResponse(params, allObjects);
    ghost var objects := FilterByPrefix(allObjects, params.prefix);
    ghost var items :| IsMerged(items, objects, params.delimiter, params.prefix) && response == Respond(params, items);
    MergedKeysProper(items, allObjects, params.delimiter, params.prefix);
    ghost var run := Responses(params, items);
    contents, commonPrefixes := response.contents, response.commonPrefixes;
    var request := params;
    ResponsesStep(request, items);
    assert contents + [] == contents && commonPrefixes + [] == commonPrefixes;
    while response.isTruncated
      invariant request.prefix == params.prefix && request.delimiter == params.delimiter
      invariant request.maxKeys == params.maxKeys && response == Respond(request, items)
      invariant Responses(request, items) != []
      invariant contents + AllContents(Responses(request, items)[1..]) == AllContents(run)
      invariant commonPrefixes + AllCommonPrefixes(Responses(request, items)[1..]) == AllCommonPrefixes(run)
      decreases |items| - StartOf(items, AfterKey(request))
    {
      ghost var before := request;
      request := request.(continuationToken := response.nextContinuationToken);
      NextRequest(before, items);
      response := BuildResponse(request, allObjects);
      ghost var same :| IsMerged(same, objects, params.delimiter, params.prefix) && response == Respond(request, same);
      MergedUnique(items, same, objects, objects, params.delimiter, params.prefix);
      ResponsesStep(request, items);
      Assoc(contents, response.contents, AllContents(Responses(request, items)[1..]));
      Assoc(commonPrefixes, response.commonPrefixes, AllCommonPrefixes(Responses(request, items)[1..]));
      contents := contents + response.contents;
      commonPrefixes := commonPrefixes + response.commonPrefixes;
    }
    ResponsesStep(request, items);
    assert contents + [] == contents && commonPrefixes + [] == commonPrefixes;
  }

  lemma {:induction false} ResponsesStep(params: ListParams, items: seq<ResponseItem>)
    requires ProperKeys(items) && params.maxKeys > 0
    ensures var run, first := Responses(params, items), Respond(params, items);
            && run != [] && run[0] == first
            && AllContents(run) == first.contents + AllContents(run[1..])
            && AllCommonPrefixes(run) == first.commonPrefixes + AllCommonPrefixes(run[1..])
            && (!first.isTruncated ==> AllContents(run[1..]) == [] && AllCommonPrefixes(run[1..]) == [])
  {
    hide PageOf, StartOf, ProperKeys;
    if !Respond(params, items).isTruncated {
      assert Responses(params, items)[1..] == [];
    }
  }

  lemma {:induction false} NextRequest(params: ListParams, items: seq<ResponseItem>)
    requires ProperKeys(items) && params.maxKeys > 0 && Respond(params, items).isTruncated
    ensures var next := params.(continuationToken := Respond(params, items).nextContinuationToken);
            && Responses(params, items)[1..] == Responses(next, items)
            && StartOf(items, AfterKey(params)) < StartOf(items, AfterKey(next)) <= |items|
  {
    hide PageOf, StartOf, ProperKeys, Objects, Prefixes, Keys;
    TokenContinues(items, AfterKey(params), params.maxKeys);
    var response := Respond(params, items);
    var more := Responses(params.(continuationToken := response.nextContinuationToken), items);
    assert ([response] + more)[1..] == more;
  }

  /** The items that a run shows are those beyond the start key. */
  lemma {:induction false} SuffixElements(items: seq<ResponseItem>, after: string, x: ResponseItem)
    requires ProperKeys(items)
    ensures var shown := items[StartOf(items, after)..];
            Ascending(Keys(shown)) && (x in shown <==> x in items && (after == "" || Less(after, x.SortKey())))
  {
    var n, keys := StartOf(items, after), Keys(items);
    var before, shown := items[..n], items[n..];
    assert forall i :: 0 <= i < |shown| ==> Keys(shown)[i] == keys[i + n];
    assert items == before + shown;
    AscendingIsSorted(keys);
    StartIndexSplits(keys, after, StartIndex(keys, after));
    forall i | 0 <= i < n
      ensures !(after == "" || Less(after, before[i].SortKey()))
    {
      assert keys[i] == before[i].SortKey();
    }
    forall i | 0 <= i < |shown|
      ensures after == "" || Less(after, shown[i].SortKey())
    {
      assert keys[i + n] == shown[i].SortKey();
    }
  }

  lemma {:induction false} MergedKeysProper(items: seq<ResponseItem>, allObjects: seq<VirtualObject>, delimiter: string,
                                            prefix: string)
    requires IsMerged(items, FilterByPrefix(allObjects, prefix), delimiter, prefix)
    requires forall o :: o in allObjects ==> o.virtualKey != ""
    ensures ProperKeys(items)
  {
    hide CommonPrefix, Ascending, Less, Kept, RolledUp;
    forall i | 0 <= i < |items|
      ensures items[i].SortKey() != ""
    {
      MergedKey(items, allObjects, delimiter, prefix, items[i]);
    }
  }

  lemma {:induction false} MergedKey(items: seq<ResponseItem>, allObjects: seq<VirtualObject>, delimiter: string,
                                     prefix: string, x: ResponseItem)
    requires IsMerged(items, FilterByPrefix(allObjects, prefix), delimiter, prefix) && x in items
    requires forall o :: o in allObjects ==> o.virtualKey != ""
    ensures x.SortKey() != ""
  {
    hide CommonPrefix, Ascending, Remaining, FilterByPrefix;
    var objects := FilterByPrefix(allObjects, prefix);
    FilterElements(allObjects, prefix);
    RemainingElements(objects, delimiter, prefix);
    if x.ObjectItem? {
      assert ObjectItem(x.obj) in items;
    } else {
      assert PrefixItem(x.prefix) in items;
      var k :| 0 <= k < |objects| && CommonPrefix(objects[k].virtualKey, delimiter, prefix) == Some(x.prefix);
      CommonPrefixAt(objects[k].virtualKey, delimiter, prefix);
    }
  }
}
