/**
 The canonical query string of a signed request: parameters sorted by name and
 value, percent-encoded, and joined. It stands for the multiset of parameters.
 */
module CanonicalQuery {
  import opened Text
  import opened Ordering
  import opened PercentCoding

  /** url.Values: every name with its values in the order they arrived. */
  type Query = map<string, seq<string>>

  datatype Pair = Pair(name: string, value: string)

  /** How often the query has a parameter. */
  function Occurrences(query: Query, p: Pair): nat {
    if p.name in query then multiset(query[p.name])[p.value] else 0
  }

  ghost predicate SameParameters(a: Query, b: Query) {
    forall p :: Occurrences(a, p) == Occurrences(b, p)
  }

  /** By name, then by value. */
  predicate PairLe(a: Pair, b: Pair) {
    Less(a.name, b.name) || (a.name == b.name && LessEq(a.value, b.value))
  }

  function EncodePair(p: Pair): string { Encode(p.name) + "=" + Encode(p.value) }

  function EncodePairs(pairs: seq<Pair>): seq<string> {
    if pairs == [] then [] else [EncodePair(pairs[0])] + EncodePairs(pairs[1..])
  }

  function Render(pairs: seq<Pair>): string { Join(EncodePairs(pairs), '&') }

  /** The parameters of the query in canonical order. */
  ghost predicate Canonical(pairs: seq<Pair>, query: Query) {
    SortedBy(PairLe, pairs) && forall p :: multiset(pairs)[p] == Occurrences(query, p)
  }

  lemma {:induction false} PairOrder()
    ensures TotalPreorder(PairLe)
    ensures forall a, b :: PairLe(a, b) && PairLe(b, a) ==> a == b
  {
    forall a, b
      ensures PairLe(a, b) || PairLe(b, a)
      ensures PairLe(a, b) && PairLe(b, a) ==> a == b
    {
      LessIff(a.name, b.name);
      LessIff(b.name, a.name);
      LessEqTotal(a.name, b.name);
      LessEqTotal(a.value, b.value);
      if LessEq(a.value, b.value) && LessEq(b.value, a.value) {
        LessEqAntisymmetric(a.value, b.value);
      }
    }
    forall a, b, c | PairLe(a, b) && PairLe(b, c)
      ensures PairLe(a, c)
    {
      if Less(a.name, b.name) && Less(b.name, c.name) {
        LessTransitive(a.name, b.name, c.name);
      } else if a.name == b.name == c.name {
        LessEqTransitive(a.value, b.value, c.value);
      }
    }
  }

  /** The names of the query, in whatever order the map yields them. */
  method ListNames(query: Query) returns (names: seq<string>)
    ensures (forall n :: n in names <==> n in query) && Distinct(names)
  {
    names := [];
    var todo := query.Keys;
    while todo != {}
      invariant todo <= query.Keys
      invariant forall n :: n in names <==> n in query && n !in todo
      invariant Distinct(names)
    {
      var n :| n in todo;
      todo := todo - {n};
      names := names + [n];
    }
  }

  /** The parameters of the query whose names are given, in canonical order. */
  ghost predicate Collected(list: seq<Pair>, query: Query, names: seq<string>) {
    && SortedBy(PairLe, list)
    && (forall i :: 0 <= i < |list| ==> list[i].name in names)
    && forall p :: multiset(list)[p] == if p.name in names then Occurrences(query, p) else 0
  }

  /** encodeQueryStringRFC3986: the parameters in canonical order, of which there is one (SameParametersSameList). */
  method EncodeQueryString(query: Query) returns (result: string)
    ensures exists list :: Canonical(list, query) && result == Render(list)
  {
    hide Encode, LessEq, Collected, Canonical, Sort, Ascending;
    ghost var list: seq<Pair> := [];
    if |query| == 0 {
      NothingCollected(query);
      return "";
    }
    var keys := ListNames(query);
    SortedStringsAscend(keys);
    keys := Sort(LessEq, keys);
    var pairs: seq<string> := [];
    NothingCollected(query);
    assert keys[..0] == [];
    for i := 0 to |keys|
      invariant pairs == EncodePairs(list) && Collected(list, query, keys[..i])
    {
      var k := keys[i];
      assert k in keys;
      var values := Sort(LessEq, query[k]);
      var encoded := EncodeValues(k, values);
      EncodeAppend(list, PairsOf(k, values));
      CollectName(list, query, keys, i);
      pairs := pairs + encoded;
      list := list + PairsOf(k, values);
    }
    assert keys[..|keys|] == keys;
    AllCollected(list, query, keys);
    result := Join(pairs, '&');
  }

  lemma {:induction false} NothingCollected(query: Query)
    ensures Collected([], query, [])
    ensures |query| == 0 ==> Canonical([], query) && Render([]) == ""
  {
    assert |query| == |query.Keys|;
  }

  lemma {:induction false} AllCollected(list: seq<Pair>, query: Query, names: seq<string>)
    requires Collected(list, query, names) && forall n :: n in names <==> n in query
    ensures Canonical(list, query)
  {
    hide PairLe;
    forall p
      ensures multiset(list)[p] == Occurrences(query, p)
    {
      assert p.name in names <==> p.name in query;
    }
  }

  /** The loop body: the values of the next name, sorted, go to the end of the list. */
  lemma {:induction false} CollectName(list: seq<Pair>, query: Query, keys: seq<string>, i: nat)
    requires i < |keys| && keys[i] in query && Ascending(keys) && Collected(list, query, keys[..i])
    ensures Collected(list + PairsOf(keys[i], Sort(LessEq, query[keys[i]])), query, keys[..i + 1])
  {
    hide LessEq, Sort, PairLe, Ascending, PairsOf;
    var added := PairsOf(keys[i], Sort(LessEq, query[keys[i]]));
    AppendSorted(list, added, keys, i, query[keys[i]]);
    AppendCounts(list, added, query, keys, i);
  }

  function PairsOf(name: string, values: seq<string>): seq<Pair> {
    seq(|values|, i requires 0 <= i < |values| => Pair(name, values[i]))
  }

  /** The inner loop: one encoded parameter for each value. */
  method EncodeValues(name: string, values: seq<string>) returns (encoded: seq<string>)
    ensures encoded == EncodePairs(PairsOf(name, values))
  {
    hide Encode, EncodePairs, PairsOf;
    var encodedKey := EncodeRFC3986(name);
    encoded := [];
    NoValues(name);
    assert values[..0] == [];
    for i := 0 to |values|
      invariant encoded == EncodePairs(PairsOf(name, values[..i]))
    {
      var v := EncodeRFC3986(values[i]);
      OneMoreValue(name, values, i);
      encoded := encoded + [encodedKey + "=" + v];
    }
    assert values[..|values|] == values;
  }

  lemma NoValues(name: string)
    ensures EncodePairs(PairsOf(name, [])) == []
  {}

  lemma {:induction false} OneMoreValue(name: string, values: seq<string>, i: nat)
    requires i < |values|
    ensures EncodePairs(PairsOf(name, values[..i + 1]))
            == EncodePairs(PairsOf(name, values[..i])) + [Encode(name) + "=" + Encode(values[i])]
  {
    hide Encode;
    var added := [Pair(name, values[i])];
    assert PairsOf(name, values[..i + 1]) == PairsOf(name, values[..i]) + added;
    EncodeAppend(PairsOf(name, values[..i]), added);
    assert added[1..] == [];
  }

  lemma {:induction false} EncodeAppend(a: seq<Pair>, b: seq<Pair>)
    ensures EncodePairs(a + b) == EncodePairs(a) + EncodePairs(b)
  {
    if a == [] {
      assert a + b == b;
    } else {
      assert (a + b)[1..] == a[1..] + b;
      EncodeAppend(a[1..], b);
    }
  }

  lemma {:induction false} AppendSorted(list: seq<Pair>, added: seq<Pair>, keys: seq<string>, i: nat,
                                        values: seq<string>)
    requires i < |keys| && added == PairsOf(keys[i], Sort(LessEq, values)) && SortedBy(PairLe, list)
    requires forall k :: 0 <= k < |list| ==> list[k].name in keys[..i]
    requires Ascending(keys)
    ensures SortedBy(PairLe, list + added)
    ensures forall k :: 0 <= k < |list + added| ==> (list + added)[k].name in keys[..i + 1]
  {
    hide LessEq, Sort;
    StringOrder();
    SortSorts(LessEq, values);
    assert keys[..i + 1] == keys[..i] + [keys[i]];
    forall a, b | 0 <= a < |list| && 0 <= b < |added|
      ensures PairLe(list[a], added[b])
    {
      var k :| 0 <= k < i && keys[..i][k] == list[a].name;
      assert Less(keys[k], keys[i]);
    }
  }

  lemma {:induction false} PairsCount(name: string, values: seq<string>, p: Pair)
    ensures multiset(PairsOf(name, values))[p] == if p.name == name then multiset(values)[p.value] else 0
  {
    if values != [] {
      var n := |values| - 1;
      PairsCount(name, values[..n], p);
      assert values == values[..n] + [values[n]];
      assert PairsOf(name, values) == PairsOf(name, values[..n]) + [Pair(name, values[n])];
    }
  }

  lemma {:induction false} AppendCounts(list: seq<Pair>, added: seq<Pair>, query: Query, keys: seq<string>, i: nat)
    requires i < |keys| && keys[i] in query && added == PairsOf(keys[i], Sort(LessEq, query[keys[i]]))
    requires forall p :: multiset(list)[p] == if p.name in keys[..i] then Occurrences(query, p) else 0
    requires Ascending(keys)
    ensures forall p :: multiset(list + added)[p] == if p.name in keys[..i + 1] then Occurrences(query, p) else 0
  {
    hide LessEq, Sort;
    var k := keys[i];
    SortPermutes(LessEq, query[k]);
    assert keys[..i + 1] == keys[..i] + [k];
    forall p
      ensures multiset(list + added)[p] == if p.name in keys[..i + 1] then Occurrences(query, p) else 0
    {
      PairsCount(k, Sort(LessEq, query[k]), p);
      if p.name in keys[..i] {
        var j :| 0 <= j < i && keys[..i][j] == p.name;
        LessIff(keys[j], keys[i]);
      }
    }
  }

  // ----- the string stands for the multiset -----

  /** Queries with the same parameters, in whatever order they arrived, have one canonical list. */
  lemma {:induction false} SameParametersSameList(a: seq<Pair>, b: seq<Pair>, x: Query, y: Query)
    requires Canonical(a, x) && Canonical(b, y) && SameParameters(x, y)
    ensures a == b
  {
    hide PairLe;
    PairOrder();
    assert multiset(a) == multiset(b);
    SortedUnique(PairLe, a, b);
  }

  predicate SeparatorFree(s: string) { '&' !in s && '=' !in s }

  lemma PlainIsSeparatorFree(s: string)
    requires Plain(s)
    ensures SeparatorFree(s)
  {}

  lemma {:induction false} EncodedIsSeparatorFree(s: string)
    ensures SeparatorFree(Encode(s))
  {
    EncodedIsPlain(Runes(s));
    PlainIsSeparatorFree(Encode(s));
  }

  lemma {:induction false} EncodePairInjective(a: Pair, b: Pair)
    requires ValidUtf8(a.name) && ValidUtf8(a.value) && ValidUtf8(b.name) && ValidUtf8(b.value)
    requires EncodePair(a) == EncodePair(b)
    ensures a == b
  {
    hide Encode, ValidUtf8;
    EncodedIsSeparatorFree(a.name);
    EncodedIsSeparatorFree(b.name);
    IndexByteAt(Encode(a.name), '=', Encode(a.value));
    IndexByteAt(Encode(b.name), '=', Encode(b.value));
    var s, n := EncodePair(a), |Encode(a.name)|;
    assert s[..n] == Encode(a.name) && s[..n] == Encode(b.name);
    assert s[n + 1..] == Encode(a.value) && s[n + 1..] == Encode(b.value);
    EncodeInjective(a.name, b.name);
    EncodeInjective(a.value, b.value);
  }

  ghost predicate AllValid(pairs: seq<Pair>) {
    forall i :: 0 <= i < |pairs| ==> ValidUtf8(pairs[i].name) && ValidUtf8(pairs[i].value)
  }

  lemma {:induction false} EncodePairsInjective(a: seq<Pair>, b: seq<Pair>)
    requires AllValid(a) && AllValid(b) && EncodePairs(a) == EncodePairs(b)
    ensures a == b
  {
    hide EncodePair, ValidUtf8;
    if a != [] && b != [] {
      assert EncodePairs(a)[0] == EncodePairs(b)[0] && EncodePairs(a)[1..] == EncodePairs(b)[1..];
      EncodePairInjective(a[0], b[0]);
      EncodePairsInjective(a[1..], b[1..]);
      assert a == [a[0]] + a[1..] && b == [b[0]] + b[1..];
    }
  }

  lemma {:induction false} EncodedPairsJoinable(pairs: seq<Pair>)
    ensures |EncodePairs(pairs)| == |pairs|
    ensures forall e :: e in EncodePairs(pairs) ==> '&' !in e && e != ""
  {
    hide Encode;
    if pairs != [] {
      EncodedPairsJoinable(pairs[1..]);
      EncodedIsSeparatorFree(pairs[0].name);
      EncodedIsSeparatorFree(pairs[0].value);
    }
  }

  lemma {:induction false} RenderInjective(a: seq<Pair>, b: seq<Pair>)
    requires AllValid(a) && AllValid(b) && Render(a) == Render(b)
    ensures a == b
  {
    hide EncodePairs, AllValid;
    EncodedPairsJoinable(a);
    EncodedPairsJoinable(b);
    RenderEmptyIff(a);
    RenderEmptyIff(b);
    if a != [] {
      JoinInjective(EncodePairs(a), EncodePairs(b), '&');
    }
    EncodePairsInjective(a, b);
  }

  lemma {:induction false} RenderEmptyIff(pairs: seq<Pair>)
    ensures Render(pairs) == "" <==> pairs == []
  {
    hide EncodePair;
    EncodedPairsJoinable(pairs);
    if pairs != [] {
      assert EncodePairs(pairs)[0] in EncodePairs(pairs);
    }
  }

  /** For UTF-8 parameters, the strings are equal exactly when the parameters are the same. */
  lemma {:induction false} CanonicalStringIff(a: seq<Pair>, b: seq<Pair>, x: Query, y: Query)
    requires Canonical(a, x) && Canonical(b, y) && AllValid(a) && AllValid(b)
    ensures Render(a) == Render(b) <==> SameParameters(x, y)
  {
    hide Render, Occurrences, AllValid;
    if Render(a) == Render(b) {
      RenderInjective(a, b);
    }
    if SameParameters(x, y) {
      SameParametersSameList(a, b, x, y);
    }
  }

  // ----- reading the string back -----

  /** One parameter: the name before the first '=', the value behind it. */
  function DecodePair(part: string): Pair {
    match IndexByte(part, '=')
    case None => Pair(Unescape(part), "")
    case Some(i) => Pair(Unescape(part[..i]), Unescape(part[i + 1..]))
  }

  function DecodePairs(parts: seq<string>): seq<Pair> {
    if parts == [] then [] else [DecodePair(parts[0])] + DecodePairs(parts[1..])
  }

  function ParseQuery(s: string): seq<Pair> { if s == "" then [] else DecodePairs(Parts(s, '&')) }

  lemma {:induction false} DecodeEncodedPair(p: Pair)
    requires ValidUtf8(p.name) && ValidUtf8(p.value)
    ensures DecodePair(EncodePair(p)) == p
  {
    hide Encode, ValidUtf8, Unescape;
    EncodedIsSeparatorFree(p.name);
    IndexByteAt(Encode(p.name), '=', Encode(p.value));
    var part := EncodePair(p);
    assert part == Encode(p.name) + ['='] + Encode(p.value);
    assert part[..|Encode(p.name)|] == Encode(p.name) && part[|Encode(p.name)| + 1..] == Encode(p.value);
    RoundTripIff(p.name);
    RoundTripIff(p.value);
  }

  lemma {:induction false} DecodeEncodedPairs(pairs: seq<Pair>)
    requires AllValid(pairs)
    ensures DecodePairs(EncodePairs(pairs)) == pairs
  {
    hide EncodePair, DecodePair, ValidUtf8;
    if pairs != [] {
      DecodeEncodedPair(pairs[0]);
      DecodeEncodedPairs(pairs[1..]);
      assert EncodePairs(pairs)[1..] == EncodePairs(pairs[1..]);
    }
  }

  /** The string, split at '&' and at the first '=', decodes to the parameters in canonical order. */
  lemma {:induction false} ParseRender(pairs: seq<Pair>)
    requires AllValid(pairs)
    ensures ParseQuery(Render(pairs)) == pairs
  {
    hide EncodePairs, DecodePairs, AllValid, Parts;
    RenderEmptyIff(pairs);
    DecodeEncodedPairs(pairs);
    if pairs != [] {
      EncodedPairsJoinable(pairs);
      PartsOfJoin(EncodePairs(pairs), '&');
    }
  }
}
