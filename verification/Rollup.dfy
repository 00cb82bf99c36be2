/**
 Delimiter roll-up of a listing: which keys stay, and which are represented by
 a common prefix.
 */
module Rollup {
  import opened Text
  import opened RouteListing

  /** strings.Index: where sub first occurs, None for -1. */
  function Index(s: string, sub: string): Option<nat> {
    if HasPrefix(s, sub) then Some(0)
    else if s == "" then None
    else match Index(s[1..], sub) case None => None case Some(i) => Some(i + 1)
  }

  predicate OccursAt(s: string, sub: string, i: nat) { i + |sub| <= |s| && s[i..i + |sub|] == sub }

  /** Index finds the first occurrence, and none only if there is none. */
  lemma {:induction false} IndexFirst(s: string, sub: string)
    ensures match Index(s, sub)
      case Some(i) => OccursAt(s, sub, i) && forall j: nat :: j < i ==> !OccursAt(s, sub, j)
      case None => forall j: nat :: !OccursAt(s, sub, j)
  {
    assert HasPrefix(s, sub) <==> OccursAt(s, sub, 0);
    if !HasPrefix(s, sub) && s != "" {
      IndexFirst(s[1..], sub);
      assert forall j: nat :: j > 0 ==> (OccursAt(s, sub, j) <==> OccursAt(s[1..], sub, j - 1));
    }
  }

  /** The common prefix that a key contributes, if the delimiter occurs after the listing prefix. */
  function CommonPrefix(key: string, delimiter: string, prefix: string): (r: Option<string>)
  {
    var rest := if prefix != "" && HasPrefix(key, prefix) then key[|prefix|..] else key;
    match Index(rest, delimiter)
    case None => None
    case Some(i) => Some(prefix + rest[..Min(i + |delimiter|, |rest|)])
  }

  predicate Contributes(objects: seq<VirtualObject>, delimiter: string, prefix: string, common: string) {
    exists i :: 0 <= i < |objects| && CommonPrefix(objects[i].virtualKey, delimiter, prefix) == Some(common)
  }

  /** The objects under the listing prefix, in their order. */
  function FilterByPrefix(objects: seq<VirtualObject>, prefix: string): seq<VirtualObject> {
    if objects == [] then []
    else (if HasPrefix(objects[0].virtualKey, prefix) then [objects[0]] else []) + FilterByPrefix(objects[1..], prefix)
  }

  /** The objects that no common prefix stands for, in their order. */
  function Remaining(objects: seq<VirtualObject>, delimiter: string, prefix: string): seq<VirtualObject> {
    if objects == [] then []
    else
      (if CommonPrefix(objects[0].virtualKey, delimiter, prefix).None? then [objects[0]] else [])
      + Remaining(objects[1..], delimiter, prefix)
  }

  lemma {:induction false} FilterAppend(a: seq<VirtualObject>, o: VirtualObject, prefix: string)
    ensures FilterByPrefix(a + [o], prefix)
            == FilterByPrefix(a, prefix) + if HasPrefix(o.virtualKey, prefix) then [o] else []
  {
    if a == [] {
      assert a + [o] == [o] && [o][1..] == [];
    } else {
      assert (a + [o])[1..] == a[1..] + [o];
      FilterAppend(a[1..], o, prefix);
    }
  }

  lemma {:induction false} RemainingAppend(a: seq<VirtualObject>, o: VirtualObject, d: string, prefix: string)
    ensures Remaining(a + [o], d, prefix)
            == Remaining(a, d, prefix) + if CommonPrefix(o.virtualKey, d, prefix).None? then [o] else []
  {
    if a == [] {
      assert a + [o] == [o] && [o][1..] == [];
    } else {
      assert (a + [o])[1..] == a[1..] + [o];
      RemainingAppend(a[1..], o, d, prefix);
    }
  }

  lemma {:induction false} FilterElements(objects: seq<VirtualObject>, prefix: string)
    ensures forall o :: o in FilterByPrefix(objects, prefix) <==> o in objects && HasPrefix(o.virtualKey, prefix)
  {
    if objects != [] {
      FilterElements(objects[1..], prefix);
      assert objects == [objects[0]] + objects[1..];
    }
  }

  lemma {:induction false} RemainingElements(objects: seq<VirtualObject>, d: string, prefix: string)
    ensures forall o :: o in Remaining(objects, d, prefix)
                        <==> o in objects && CommonPrefix(o.virtualKey, d, prefix).None?
  {
    if objects != [] {
      RemainingElements(objects[1..], d, prefix);
      assert objects == [objects[0]] + objects[1..];
    }
  }

  predicate DistinctKeys(objects: seq<VirtualObject>) {
    forall i, j :: 0 <= i < j < |objects| ==> objects[i].virtualKey != objects[j].virtualKey
  }

  lemma {:induction false} FilterDistinct(objects: seq<VirtualObject>, prefix: string)
    requires DistinctKeys(objects)
    ensures DistinctKeys(FilterByPrefix(objects, prefix))
  {
    if objects != [] {
      var head, tail := objects[0], FilterByPrefix(objects[1..], prefix);
      FilterDistinct(objects[1..], prefix);
      FilterElements(objects[1..], prefix);
      ConsDistinct(head, objects[1..], tail);
    }
  }

  lemma {:induction false} RemainingDistinct(objects: seq<VirtualObject>, d: string, prefix: string)
    requires DistinctKeys(objects)
    ensures DistinctKeys(Remaining(objects, d, prefix))
  {
    if objects != [] {
      var head, tail := objects[0], Remaining(objects[1..], d, prefix);
      RemainingDistinct(objects[1..], d, prefix);
      RemainingElements(objects[1..], d, prefix);
      ConsDistinct(head, objects[1..], tail);
    }
  }

  lemma {:induction false} ConsDistinct(head: VirtualObject, others: seq<VirtualObject>, tail: seq<VirtualObject>)
    requires DistinctKeys(tail) && (forall o :: o in tail ==> o in others)
    requires forall o :: o in others ==> o.virtualKey != head.virtualKey
    ensures DistinctKeys([head] + tail) && [] + tail == tail
  {
    assert forall j :: 0 <= j < |tail| ==> tail[j] in tail;
  }

  // ----- the loops -----

  method FilterByVirtualPrefix(objects: seq<VirtualObject>, prefix: string) returns (filtered: seq<VirtualObject>)
    ensures filtered == FilterByPrefix(objects, prefix)
  {
    if prefix == "" {
      EmptyPrefixKeepsAll(objects);
      return objects;
    }
    filtered := [];
    for i := 0 to |objects|
      invariant filtered == FilterByPrefix(objects[..i], prefix)
    {
      assert objects[..i + 1] == objects[..i] + [objects[i]];
      FilterAppend(objects[..i], objects[i], prefix);
      if HasPrefix(objects[i].virtualKey, prefix) {
        filtered := filtered + [objects[i]];
      }
    }
    assert objects[..|objects|] == objects;
  }

  lemma {:induction false} EmptyPrefixKeepsAll(objects: seq<VirtualObject>)
    ensures FilterByPrefix(objects, "") == objects
  {
    if objects != [] {
      EmptyPrefixKeepsAll(objects[1..]);
    }
  }

  method ExtractCommonPrefixes(objects: seq<VirtualObject>, delimiter: string, prefix: string)
    returns (prefixes: set<string>)
    ensures forall c :: c in prefixes <==> Contributes(objects, delimiter, prefix, c)
  {
    prefixes := {};
    for i := 0 to |objects|
      invariant forall c :: c in prefixes <==> Contributes(objects[..i], delimiter, prefix, c)
    {
      assert objects[..i + 1] == objects[..i] + [objects[i]];
      ContributesAppend(objects[..i], objects[i], delimiter, prefix);
      match CommonPrefix(objects[i].virtualKey, delimiter, prefix) {
        case None =>
        case Some(common) => prefixes := prefixes + {common};
      }
    }
    assert objects[..|objects|] == objects;
  }

  lemma {:induction false} ContributesAppend(a: seq<VirtualObject>, o: VirtualObject, d: string, prefix: string)
    ensures forall c :: Contributes(a + [o], d, prefix, c) <==>
                        Contributes(a, d, prefix, c) || CommonPrefix(o.virtualKey, d, prefix) == Some(c)
  {
    hide CommonPrefix;
    var all := a + [o];
    assert all[|a|] == o && forall i :: 0 <= i < |a| ==> all[i] == a[i];
  }

  /** The inner loop over the common prefixes, in whatever order the map yields them. */
  method HasCommonPrefix(key: string, commonPrefixes: set<string>) returns (found: bool)
    ensures found <==> exists c :: c in commonPrefixes && HasPrefix(key, c)
  {
    var todo := commonPrefixes;
    while todo != {}
      invariant todo <= commonPrefixes
      invariant forall c :: c in commonPrefixes && c !in todo ==> !HasPrefix(key, c)
    {
      var c :| c in todo;
      if HasPrefix(key, c) {
        return true;
      }
      todo := todo - {c};
    }
    found := false;
  }

  /** The objects that no common prefix is a prefix of. */
  method WithoutCommonPrefix(objects: seq<VirtualObject>, commonPrefixes: set<string>, delimiter: string,
                             prefix: string)
    returns (rest: seq<VirtualObject>)
    requires delimiter != ""
    requires forall o :: o in objects ==> HasPrefix(o.virtualKey, prefix)
    requires forall c :: c in commonPrefixes <==> Contributes(objects, delimiter, prefix, c)
    ensures rest == Remaining(objects, delimiter, prefix)
  {
    rest := [];
    for i := 0 to |objects|
      invariant rest == Remaining(objects[..i], delimiter, prefix)
    {
      var has := HasCommonPrefix(objects[i].virtualKey, commonPrefixes);
      assert objects[..i + 1] == objects[..i] + [objects[i]];
      RemainingAppend(objects[..i], objects[i], delimiter, prefix);
      CoveredIff(objects, delimiter, prefix, objects[i]);
      if !has {
        rest := rest + [objects[i]];
      }
    }
    assert objects[..|objects|] == objects;
  }

  // ----- the partition -----

  /** A key that has a common prefix of another key contributes that very prefix itself. */
  lemma {:induction false} SameCommonPrefix(key: string, other: string, delimiter: string, prefix: string)
    requires delimiter != "" && HasPrefix(key, prefix) && HasPrefix(other, prefix)
    requires CommonPrefix(other, delimiter, prefix).Some?
    requires HasPrefix(key, CommonPrefix(other, delimiter, prefix).value)
    ensures CommonPrefix(key, delimiter, prefix) == CommonPrefix(other, delimiter, prefix)
  {
    hide CommonPrefix, Index;
    var n := |prefix|;
    var a, b := key[n..], other[n..];
    CommonPrefixAt(key, delimiter, prefix);
    CommonPrefixAt(other, delimiter, prefix);
    var e := Index(b, delimiter).value + |delimiter|;
    var c := prefix + b[..e];
    assert key[..|c|] == c;
    assert a[..e] == key[..|c|][n..] == c[n..] == b[..e];
    SameIndex(a, b, e, delimiter);
  }

  lemma {:induction false} CommonPrefixAt(key: string, delimiter: string, prefix: string)
    requires HasPrefix(key, prefix)
    ensures var rest := key[|prefix|..];
            match Index(rest, delimiter)
            case None => CommonPrefix(key, delimiter, prefix) == None
            case Some(i) =>
              i + |delimiter| <= |rest|
              && CommonPrefix(key, delimiter, prefix) == Some(prefix + rest[..i + |delimiter|])
  {
    hide Index;
    assert prefix == "" ==> key[|prefix|..] == key;
    IndexFirst(key[|prefix|..], delimiter);
  }

  lemma {:induction false} SameIndex(a: string, b: string, e: nat, d: string)
    requires e <= |a| && e <= |b| && a[..e] == b[..e]
    requires Index(b, d).Some? && e == Index(b, d).value + |d|
    ensures Index(a, d) == Index(b, d)
  {
    hide Index;
    IndexFirst(a, d);
    IndexFirst(b, d);
    SameOccurrences(a, b, e, d);
    assert OccursAt(a, d, Index(b, d).value);
  }

  /** Texts that agree on their first e characters have the same occurrences there. */
  lemma {:induction false} SameOccurrences(a: string, b: string, e: nat, d: string)
    requires e <= |a| && e <= |b| && a[..e] == b[..e]
    ensures forall j: nat :: j + |d| <= e ==> (OccursAt(a, d, j) <==> OccursAt(b, d, j))
  {
    forall j: nat | j + |d| <= e
      ensures OccursAt(a, d, j) <==> OccursAt(b, d, j)
    {
      assert a[j..j + |d|] == a[..e][j..j + |d|];
      assert b[j..j + |d|] == b[..e][j..j + |d|];
    }
  }

  lemma {:induction false} CommonPrefixIsPrefix(key: string, delimiter: string, prefix: string)
    requires HasPrefix(key, prefix) && CommonPrefix(key, delimiter, prefix).Some?
    ensures HasPrefix(key, CommonPrefix(key, delimiter, prefix).value)
  {
    var n := |prefix|;
    assert key == prefix + key[n..];
    assert prefix == "" ==> key[n..] == key;
  }

  /** Having one of the collected prefixes is the same as holding the delimiter after the listing prefix. */
  lemma {:induction false} CoveredIff(objects: seq<VirtualObject>, delimiter: string, prefix: string, o: VirtualObject)
    requires delimiter != "" && o in objects
    requires forall x :: x in objects ==> HasPrefix(x.virtualKey, prefix)
    ensures (exists c :: Contributes(objects, delimiter, prefix, c) && HasPrefix(o.virtualKey, c))
            <==> CommonPrefix(o.virtualKey, delimiter, prefix).Some?
  {
    hide CommonPrefix;
    if CommonPrefix(o.virtualKey, delimiter, prefix).Some? {
      CommonPrefixIsPrefix(o.virtualKey, delimiter, prefix);
      var c := CommonPrefix(o.virtualKey, delimiter, prefix).value;
      assert Contributes(objects, delimiter, prefix, c);
    }
    forall c | Contributes(objects, delimiter, prefix, c) && HasPrefix(o.virtualKey, c)
      ensures CommonPrefix(o.virtualKey, delimiter, prefix) == Some(c)
    {
      var i :| 0 <= i < |objects| && CommonPrefix(objects[i].virtualKey, delimiter, prefix) == Some(c);
      SameCommonPrefix(o.virtualKey, objects[i].virtualKey, delimiter, prefix);
    }
  }

  /**
   Roll-up is a partition, for delimiters of any length and shape: a key either
   stays and has none of the common prefixes, or goes and has exactly one of
   them; and every common prefix has a key behind it.
   */
  lemma {:induction false} RollupPartitions(objects: seq<VirtualObject>, delimiter: string, prefix: string,
                                            o: VirtualObject)
    requires delimiter != "" && o in objects
    requires forall x :: x in objects ==> HasPrefix(x.virtualKey, prefix)
    ensures o in Remaining(objects, delimiter, prefix)
            <==> !exists c :: Contributes(objects, delimiter, prefix, c) && HasPrefix(o.virtualKey, c)
    ensures forall c, c' :: (Contributes(objects, delimiter, prefix, c) && Contributes(objects, delimiter, prefix, c')
                             && HasPrefix(o.virtualKey, c) && HasPrefix(o.virtualKey, c')) ==> c == c'
  {
    hide CommonPrefix;
    RemainingElements(objects, delimiter, prefix);
    CoveredIff(objects, delimiter, prefix, o);
    forall c | Contributes(objects, delimiter, prefix, c) && HasPrefix(o.virtualKey, c)
      ensures CommonPrefix(o.virtualKey, delimiter, prefix) == Some(c)
    {
      var i :| 0 <= i < |objects| && CommonPrefix(objects[i].virtualKey, delimiter, prefix) == Some(c);
      SameCommonPrefix(o.virtualKey, objects[i].virtualKey, delimiter, prefix);
    }
  }

  /** No remaining key is itself a common prefix. */
  lemma {:induction false} RemainingIsNoPrefix(objects: seq<VirtualObject>, delimiter: string, prefix: string,
                                               o: VirtualObject)
    requires delimiter != "" && o in Remaining(objects, delimiter, prefix)
    requires forall x :: x in objects ==> HasPrefix(x.virtualKey, prefix)
    ensures !Contributes(objects, delimiter, prefix, o.virtualKey)
  {
    RemainingElements(objects, delimiter, prefix);
    RollupPartitions(objects, delimiter, prefix, o);
  }
}
