/**
 Go's order on strings, and sorting by a comparison. The library's sort
 routines are represented by an insertion sort; the lemmas say that a sorted
 arrangement is unique wherever the comparison decides.
 */
module Ordering {
  import opened Text

  /** Lexicographic order by code unit: a <= b in Go. */
  predicate LessEq(a: string, b: string) {
    a == "" || (b != "" && (a[0] < b[0] || (a[0] == b[0] && LessEq(a[1..], b[1..]))))
  }

  predicate Less(a: string, b: string) { !LessEq(b, a) }

  lemma {:induction false} LessEqTotal(a: string, b: string)
    ensures LessEq(a, b) || LessEq(b, a)
  {
    if a != "" && b != "" && a[0] == b[0] {
      LessEqTotal(a[1..], b[1..]);
    }
  }

  lemma {:induction false} LessEqAntisymmetric(a: string, b: string)
    requires LessEq(a, b) && LessEq(b, a)
    ensures a == b
  {
    if a != "" && b != "" {
      LessEqAntisymmetric(a[1..], b[1..]);
      assert a == [a[0]] + a[1..] && b == [b[0]] + b[1..];
    }
  }

  lemma {:induction false} LessEqTransitive(a: string, b: string, c: string)
    requires LessEq(a, b) && LessEq(b, c)
    ensures LessEq(a, c)
  {
    if a != "" && a[0] == b[0] == c[0] {
      LessEqTransitive(a[1..], b[1..], c[1..]);
    }
  }

  lemma {:induction false} LessEqReflexive(a: string)
    ensures LessEq(a, a)
  {
    LessEqTotal(a, a);
  }

  lemma {:induction false} LessIff(a: string, b: string)
    ensures Less(a, b) <==> LessEq(a, b) && a != b
  {
    LessEqTotal(a, b);
    LessEqReflexive(a);
    if LessEq(a, b) && LessEq(b, a) {
      LessEqAntisymmetric(a, b);
    }
  }

  lemma {:induction false} LessTransitive(a: string, b: string, c: string)
    requires Less(a, b) && Less(b, c)
    ensures Less(a, c)
  {
    LessIff(a, b);
    LessIff(b, c);
    LessEqTransitive(a, b, c);
    if LessEq(c, a) {
      LessEqTransitive(b, c, a);
    }
  }

  /** The order is decided where two strings first differ, or by the end of the shorter. */
  predicate FirstDifference(a: string, b: string, i: nat) {
    i <= |a| && i < |b| && a[..i] == b[..i] && (i < |a| ==> a[i] < b[i])
  }

  lemma {:induction false} LessMeans(a: string, b: string)
    ensures Less(a, b) <==> exists i: nat :: FirstDifference(a, b, i)
  {
    if a != "" && b != "" && a[0] == b[0] {
      LessMeans(a[1..], b[1..]);
      assert a == [a[0]] + a[1..] && b == [b[0]] + b[1..];
      if i: nat :| FirstDifference(a[1..], b[1..], i) {
        assert a[..i + 1] == [a[0]] + a[1..][..i] && b[..i + 1] == [b[0]] + b[1..][..i];
        assert FirstDifference(a, b, i + 1);
      }
      if i: nat :| FirstDifference(a, b, i) {
        assert i > 0;
        assert a[1..][..i - 1] == a[..i][1..] && b[1..][..i - 1] == b[..i][1..];
        assert FirstDifference(a[1..], b[1..], i - 1);
      }
    } else if Less(a, b) {
      assert FirstDifference(a, b, 0);
    } else if i: nat :| FirstDifference(a, b, i) {
      SameHeads(a, b, i);
    }
  }

  lemma {:induction false} SameHeads(a: string, b: string, i: nat)
    requires FirstDifference(a, b, i)
    ensures i > 0 ==> a[0] == b[0]
  {
    assert i > 0 ==> a[..i][0] == b[..i][0];
  }

  // ----- sorting by a comparison -----

  type Comparison<!T> = (T, T) -> bool

  ghost predicate TotalPreorder<T(!new)>(le: Comparison<T>) {
    && (forall x, y :: le(x, y) || le(y, x))
    && (forall x, y, z :: le(x, y) && le(y, z) ==> le(x, z))
  }

  predicate SortedBy<T>(le: Comparison<T>, s: seq<T>) {
    forall i, j :: 0 <= i < j < |s| ==> le(s[i], s[j])
  }

  function Insert<T>(le: Comparison<T>, x: T, s: seq<T>): seq<T> {
    if s == [] || le(x, s[0]) then [x] + s else [s[0]] + Insert(le, x, s[1..])
  }

  /** Stable: an element stays before later ones that compare as equal. */
  function Sort<T>(le: Comparison<T>, s: seq<T>): seq<T> {
    if s == [] then [] else Insert(le, s[0], Sort(le, s[1..]))
  }

  lemma {:induction false} InsertPermutes<T>(le: Comparison<T>, x: T, s: seq<T>)
    ensures multiset(Insert(le, x, s)) == multiset{x} + multiset(s)
  {
    if s != [] && !le(x, s[0]) {
      InsertPermutes(le, x, s[1..]);
      assert s == [s[0]] + s[1..];
    }
  }

  lemma {:induction false} SortPermutes<T>(le: Comparison<T>, s: seq<T>)
    ensures multiset(Sort(le, s)) == multiset(s)
  {
    if s != [] {
      SortPermutes(le, s[1..]);
      InsertPermutes(le, s[0], Sort(le, s[1..]));
      assert s == [s[0]] + s[1..];
    }
  }

  /** The same elements, whatever their multiplicity. */
  lemma {:induction false} SameElements<T>(a: seq<T>, b: seq<T>)
    requires multiset(a) == multiset(b)
    ensures |a| == |b| && forall x :: x in a <==> x in b
  {
    assert |multiset(a)| == |a| && |multiset(b)| == |b|;
    forall x
      ensures x in a <==> x in b
    {
      assert x in a <==> x in multiset(a);
    }
  }

  lemma {:induction false} SortElements<T>(le: Comparison<T>, s: seq<T>)
    ensures |Sort(le, s)| == |s| && forall x :: x in Sort(le, s) <==> x in s
  {
    SortPermutes(le, s);
    SameElements(Sort(le, s), s);
  }

  /** The head of a sorted list comes before all of the list. */
  lemma HeadFirst<T(!new)>(le: Comparison<T>, s: seq<T>)
    requires TotalPreorder(le) && SortedBy(le, s) && s != []
    ensures forall y :: y in s ==> le(s[0], y)
  {}

  lemma SortedCons<T>(le: Comparison<T>, x: T, s: seq<T>)
    requires SortedBy(le, s) && forall y :: y in s ==> le(x, y)
    ensures SortedBy(le, [x] + s)
  {}

  lemma {:induction false} InsertSorts<T(!new)>(le: Comparison<T>, x: T, s: seq<T>)
    requires TotalPreorder(le) && SortedBy(le, s)
    ensures SortedBy(le, Insert(le, x, s))
  {
    if s == [] {
    } else if le(x, s[0]) {
      HeadFirst(le, s);
      SortedCons(le, x, s);
    } else {
      var t := Insert(le, x, s[1..]);
      InsertSorts(le, x, s[1..]);
      InsertPermutes(le, x, s[1..]);
      HeadFirst(le, s);
      SameElements(t, [x] + s[1..]);
      SortedCons(le, s[0], t);
    }
  }

  lemma {:induction false} SortSorts<T(!new)>(le: Comparison<T>, s: seq<T>)
    requires TotalPreorder(le)
    ensures SortedBy(le, Sort(le, s))
  {
    if s != [] {
      SortSorts(le, s[1..]);
      InsertSorts(le, s[0], Sort(le, s[1..]));
    }
  }

  /** Where the comparison tells all elements apart, there is one sorted arrangement. */
  lemma {:induction false} SortedUnique<T(!new)>(le: Comparison<T>, a: seq<T>, b: seq<T>)
    requires TotalPreorder(le) && multiset(a) == multiset(b) && SortedBy(le, a) && SortedBy(le, b)
    requires forall x, y :: x in a && y in a && le(x, y) && le(y, x) ==> x == y
    ensures a == b
  {
    SameElements(a, b);
    if a != [] {
      SameHead(le, a, b);
      DropHead(a);
      DropHead(b);
      SortedUnique(le, a[1..], b[1..]);
      assert a == [a[0]] + a[1..] && b == [b[0]] + b[1..];
    }
  }

  lemma {:induction false} SameHead<T(!new) >(le: Comparison<T>, a: seq<T>, b: seq<T>)
    requires TotalPreorder(le) && SortedBy(le, a) && SortedBy(le, b) && a != [] && b != []
    requires forall x :: x in a <==> x in b
    requires forall x, y :: x in a && y in a && le(x, y) && le(y, x) ==> x == y
    ensures a[0] == b[0]
  {
    HeadFirst(le, a);
    HeadFirst(le, b);
    assert a[0] in b && b[0] in a;
  }

  lemma {:induction false} DropHead<T>(a: seq<T>)
    requires a != []
    ensures multiset(a[1..]) == multiset(a) - multiset{a[0]}
  {
    assert a == [a[0]] + a[1..];
  }

  lemma {:induction false} StringOrder()
    ensures TotalPreorder(LessEq)
    ensures forall x, y :: LessEq(x, y) && LessEq(y, x) ==> x == y
  {
    forall x, y
      ensures LessEq(x, y) || LessEq(y, x)
      ensures LessEq(x, y) && LessEq(y, x) ==> x == y
    {
      LessEqTotal(x, y);
      if LessEq(x, y) && LessEq(y, x) {
        LessEqAntisymmetric(x, y);
      }
    }
    forall x, y, z | LessEq(x, y) && LessEq(y, z)
      ensures LessEq(x, z)
    {
      LessEqTransitive(x, y, z);
    }
  }

  // ----- no element twice -----

  predicate Distinct<T(==)>(s: seq<T>) { forall i, j :: 0 <= i < j < |s| ==> s[i] != s[j] }

  lemma {:induction false} CountedOnce<T>(s: seq<T>, x: T)
    requires Distinct(s)
    ensures multiset(s)[x] <= 1
  {
    if s != [] {
      CountedOnce(s[1..], x);
      assert s == [s[0]] + s[1..];
      if s[0] == x {
        assert x !in s[1..];
      }
    }
  }

  lemma {:induction false} CountedTwice<T>(s: seq<T>, i: nat, j: nat)
    requires i < j < |s| && s[i] == s[j]
    ensures multiset(s)[s[i]] >= 2
  {
    assert s == s[..j] + ([s[j]] + s[j + 1..]);
    assert s[i] == s[..j][i];
    assert s[i] in multiset(s[..j]);
  }

  /** A rearrangement has no element twice either. */
  lemma {:induction false} DistinctPermuted<T>(a: seq<T>, b: seq<T>)
    requires Distinct(a) && multiset(a) == multiset(b)
    ensures Distinct(b)
  {
    forall i, j | 0 <= i < j < |b|
      ensures b[i] != b[j]
    {
      if b[i] == b[j] {
        CountedTwice(b, i, j);
        CountedOnce(a, b[i]);
      }
    }
  }

  predicate Ascending(keys: seq<string>) { forall i, j :: 0 <= i < j < |keys| ==> Less(keys[i], keys[j]) }

  /** Sorting different strings makes them ascend. */
  lemma {:induction false} SortedStringsAscend(s: seq<string>)
    requires Distinct(s)
    ensures Ascending(Sort(LessEq, s)) && forall x :: x in Sort(LessEq, s) <==> x in s
  {
    var sorted := Sort(LessEq, s);
    StringOrder();
    SortSorts(LessEq, s);
    SortElements(LessEq, s);
    SortPermutes(LessEq, s);
    DistinctPermuted(s, sorted);
    forall i, j | 0 <= i < j < |sorted|
      ensures Less(sorted[i], sorted[j])
    {
      LessIff(sorted[i], sorted[j]);
    }
  }
}
