/**
 Byte strings as the router handles them: prefixes, searching, lines and the
 lexicographic order of Go's `<` on strings.
 */
module Text {

  datatype Option<+T> = None | Some(value: T)

  function Min(a: int, b: int): int { if a <= b then a else b }

  function Max(a: int, b: int): int { if a >= b then a else b }

  /** Go's integer division, which truncates toward zero. */
  function TruncDiv(a: int, b: int): int
    requires b > 0
  {
    if a >= 0 then a / b else -((-a) / b)
  }

  /** Go's remainder, which takes the sign of the dividend. */
  function TruncMod(a: int, b: int): int
    requires b > 0
  {
    if a >= 0 then a % b else -((-a) % b)
  }

  /** Taking one divisor off a dividend lowers the quotient by one and keeps the remainder. */
  lemma {:induction false} DivModStep(n: nat, c: nat)
    requires c > 0
    ensures n / c > 0 <==> n >= c
    ensures n < c ==> n % c == n
    ensures n >= c ==> (n - c) / c == n / c - 1 && (n - c) % c == n % c
  {
    if n >= c {
      var q, r := (n - c) / c, (n - c) % c;
      assert n == (q * c + r) + c == (q + 1) * c + r;
      DivModUnique(n, c, q + 1, r);
    } else {
      DivModUnique(n, c, 0, n);
    }
  }

  lemma {:induction false} DivModUnique(n: nat, c: nat, q: nat, r: nat)
    requires c > 0 && n == q * c + r && r < c
    ensures n / c == q && n % c == r
  {
    var q', r' := n / c, n % c;
    assert (q - q') * c == r' - r;
    MultipleBounds(q - q', c);
  }

  lemma {:induction false} MultipleBounds(k: int, c: nat)
    ensures k >= 1 ==> k * c >= c
    ensures k <= -1 ==> k * c <= 0 - c
  {
    if k >= 1 {
      assert k * c == (k - 1) * c + c;
    } else if k <= -1 {
      assert k * c == (k + 1) * c - c;
    }
  }

  /** strings.HasPrefix */
  predicate HasPrefix(s: string, p: string) { p <= s }

  /** strings.HasSuffix */
  predicate HasSuffix(s: string, p: string) {
    |p| <= |s| && s[|s| - |p|..] == p
  }

  /** strings.TrimPrefix */
  function TrimPrefix(s: string, p: string): string {
    if HasPrefix(s, p) then s[|p|..] else s
  }

  /** strings.TrimSuffix */
  function TrimSuffix(s: string, p: string): string {
    if HasSuffix(s, p) then s[..|s| - |p|] else s
  }

  /** strings.IndexByte, with None for -1. */
  function IndexByte(s: string, c: char): (r: Option<nat>)
    ensures r.Some? ==> r.value < |s|
  {
    if s == "" then None
    else if s[0] == c then Some(0)
    else
      match IndexByte(s[1..], c)
      case None => None
      case Some(i) => Some(i + 1)
  }

  /** IndexByte finds the first occurrence, and fails only if there is none. */
  lemma {:induction false} IndexByteFirst(s: string, c: char)
    ensures match IndexByte(s, c)
      case None => c !in s
      case Some(i) => s[i] == c && c !in s[..i]
  {
    if s != "" && s[0] != c {
      IndexByteFirst(s[1..], c);
      assert s == [s[0]] + s[1..];
      match IndexByte(s[1..], c)
      case None =>
      case Some(i) => assert s[..i + 1] == [s[0]] + s[1..][..i];
    }
  }

  /** IndexByte finds the place where a separator follows text without it. */
  lemma {:induction false} IndexByteAt(a: string, c: char, b: string)
    requires c !in a
    ensures IndexByte(a + [c] + b, c) == Some(|a|)
  {
    if a != "" {
      assert (a + [c] + b)[1..] == a[1..] + [c] + b;
      IndexByteAt(a[1..], c, b);
    }
  }

  lemma Assoc<T>(a: seq<T>, b: seq<T>, c: seq<T>)
    ensures (a + b) + c == a + (b + c)
  {}

  /** Concatenates a list of strings. */
  function Concat(parts: seq<string>): string {
    if parts == [] then "" else parts[0] + Concat(parts[1..])
  }

  lemma {:induction false} ConcatAppend(a: seq<string>, b: seq<string>)
    ensures Concat(a + b) == Concat(a) + Concat(b)
  {
    if a == [] {
      assert a + b == b;
    } else {
      assert (a + b)[1..] == a[1..] + b;
      ConcatAppend(a[1..], b);
    }
  }

  /** strings.Join with a separator of one character. */
  function Join(parts: seq<string>, sep: char): string {
    if parts == [] then ""
    else if |parts| == 1 then parts[0]
    else parts[0] + [sep] + Join(parts[1..], sep)
  }

  /** Parts that do not hold the separator can be told apart again. */
  lemma {:induction false} JoinInjective(a: seq<string>, b: seq<string>, sep: char)
    requires a != [] && b != [] && Join(a, sep) == Join(b, sep)
    requires (forall p :: p in a ==> sep !in p) && (forall p :: p in b ==> sep !in p)
    ensures a == b
  {
    FirstPart(a, sep);
    FirstPart(b, sep);
    assert a[0] in a && b[0] in b;
    if |a| > 1 {
      JoinInjective(a[1..], b[1..], sep);
      assert a == [a[0]] + a[1..] && b == [b[0]] + b[1..];
    }
  }

  /** Where the first part ends in the joined text. */
  lemma {:induction false} FirstPart(a: seq<string>, sep: char)
    requires a != [] && forall p :: p in a ==> sep !in p
    ensures var s := Join(a, sep);
            && (|a| == 1 ==> IndexByte(s, sep) == None && s == a[0])
            && (|a| > 1 ==> IndexByte(s, sep) == Some(|a[0]|) && s[..|a[0]|] == a[0]
                            && s[|a[0]| + 1..] == Join(a[1..], sep))
  {
    assert a[0] in a;
    if |a| == 1 {
      IndexByteFirst(a[0], sep);
    } else {
      IndexByteAt(a[0], sep, Join(a[1..], sep));
    }
  }

  /** strings.Split with a separator of one character. */
  function Parts(s: string, sep: char): (r: seq<string>)
    ensures r != []
    decreases |s|
  {
    match IndexByte(s, sep)
    case None => [s]
    case Some(i) => [s[..i]] + Parts(s[i + 1..], sep)
  }

  /** Splitting gives back the parts that were joined. */
  lemma {:induction false} PartsOfJoin(parts: seq<string>, sep: char)
    requires parts != [] && forall p :: p in parts ==> sep !in p
    ensures Parts(Join(parts, sep), sep) == parts
  {
    FirstPart(parts, sep);
    if |parts| > 1 {
      PartsOfJoin(parts[1..], sep);
      assert parts == [parts[0]] + parts[1..];
    }
  }
}
