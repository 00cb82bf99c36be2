/**
 The one-pass grammar of templates, in which a default value is simply a list
 of items that ends at the first '}' of its own level, and the proof that the
 brace-counting parser accepts the same texts with the same trees.
 */
module TemplateGrammar {
  import opened Text
  import opened TemplateSyntax

  /** A list of nodes and the number of characters it covers. */
  type Items = Option<(seq<Node>, nat)>

  /** The text after "${", in one pass. */
  function Braced(s: string): (r: Parsed)
    ensures Within(r, |s|)
    decreases |s|, 0
  {
    var n := NameLength(s);
    var r := s[n..];
    if n == 0 then None
    else if StartsOperator(r) then
      match ItemList(r[2..], true)
      case None => None
      case Some((nodes, k)) =>
        if k == |r| - 2 then None
        else Some((Placeholder(s[..n], Some(Collapse(nodes)), r[1] == '+'), n + 2 + k + 1))
    else if StartsWith(r, '}') then Some((Placeholder(s[..n], None, false), n + 1))
    else None
  }

  function Dollar(s: string): (r: Parsed)
    requires StartsWith(s, '$')
    ensures Within(r, |s|)
    decreases |s|, 0
  {
    var rest := s[1..];
    if StartsWith(rest, '{') then
      match Braced(rest[1..])
      case None => None
      case Some((node, n)) => Some((node, n + 2))
    else
      var n := NameLength(rest);
      if n == 0 then Some((Literal("$"), 1)) else Some((Placeholder(rest[..n], None, false), n + 1))
  }

  predicate Ends(s: string, nested: bool) { s == "" || (nested && s[0] == '}') }

  function Item(s: string, nested: bool): (r: Parsed)
    requires !Ends(s, nested)
    ensures Within(r, |s|)
    decreases |s|, 1
  {
    if s[0] == '$' then Dollar(s)
    else Some((Literal(s[..LiteralRun(s, nested)]), LiteralRun(s, nested)))
  }

  /** Items up to the end of the text or, inside a default value, up to its '}'. */
  function ItemList(s: string, nested: bool): (r: Items)
    ensures r.Some? ==> r.value.1 <= |s|
    decreases |s|, 2
  {
    if Ends(s, nested) then Some(([], 0))
    else
      match Item(s, nested)
      case None => None
      case Some((node, n)) => Cons(node, n, ItemList(s[n..], nested))
  }

  function Cons(node: Node, n: nat, r: Items): Items {
    match r
    case None => None
    case Some((nodes, m)) => Some(([node] + nodes, n + m))
  }

  lemma {:induction false} ItemListEnds(s: string, nested: bool)
    requires ItemList(s, nested).Some?
    ensures Ends(s[ItemList(s, nested).value.1..], nested)
    decreases |s|
  {
    if !Ends(s, nested) {
      var n := Item(s, nested).value.1;
      ItemListEnds(s[n..], nested);
      assert s[ItemList(s, nested).value.1..] == s[n..][ItemList(s[n..], nested).value.1..];
    }
  }

  /** The whole text as a template. */
  function Grammar(s: string): Option<Node> {
    match ItemList(s, false)
    case None => None
    case Some((nodes, _)) => Some(Collapse(nodes))
  }

  // ----- the brace count steps over whole items -----

  lemma ShiftShift(m: nat, n: nat, r: Option<nat>)
    ensures Shift(m, Shift(n, r)) == Shift(m + n, r)
  {}

  predicate Plain(s: string) { forall i :: 0 <= i < |s| ==> s[i] != '$' && s[i] != '}' }

  lemma {:induction false} ScanPlain(s: string, n: nat, depth: nat)
    requires n <= |s| && depth > 0 && Plain(s[..n])
    ensures ScanDefault(s, depth) == Shift(n, ScanDefault(s[n..], depth))
  {
    if n == 0 {
      assert s[0..] == s;
    } else {
      assert s[0] == s[..n][0];
      assert s[1..][..n - 1] == s[..n][1..];
      ScanPlain(s[1..], n - 1, depth);
      assert s[1..][n - 1..] == s[n..];
    }
  }

  lemma {:induction false} DigitRunDigits(s: string)
    ensures forall i :: 0 <= i < DigitRun(s) ==> IsDigit(s[i])
  {
    if s != "" && IsDigit(s[0]) {
      DigitRunDigits(s[1..]);
      assert forall i :: 1 <= i < DigitRun(s) ==> s[i] == s[1..][i - 1];
    }
  }

  lemma {:induction false} IdentifierRunParts(s: string)
    ensures forall i :: 0 <= i < IdentifierRun(s) ==> IsIdentifierPart(s[i])
  {
    if s != "" && IsIdentifierPart(s[0]) {
      IdentifierRunParts(s[1..]);
      assert forall i :: 1 <= i < IdentifierRun(s) ==> s[i] == s[1..][i - 1];
    }
  }

  lemma {:induction false} NameIsPlain(s: string)
    ensures Plain(s[..NameLength(s)])
    ensures forall i :: 0 <= i < NameLength(s) ==> IsIdentifierPart(s[i])
  {
    DigitRunDigits(s);
    if DigitRun(s) == 0 && s != "" && IsIdentifierStart(s[0]) {
      IdentifierRunParts(s[1..]);
      assert forall i :: 1 <= i < NameLength(s) ==> s[i] == s[1..][i - 1];
    }
  }

  lemma {:induction false} LiteralIsPlain(s: string)
    ensures Plain(s[..LiteralRun(s, true)])
  {
    var n := LiteralRun(s, true);
    if n > 0 {
      LiteralIsPlain(s[1..]);
      assert forall i :: 1 <= i < n ==> s[..n][i] == s[1..][..n - 1][i - 1];
    }
  }

  /** At any depth, the count after an item is the count before it. */
  lemma {:induction false} ScanItem(s: string, depth: nat)
    requires depth > 0 && !Ends(s, true) && Item(s, true).Some?
    ensures var n := Item(s, true).value.1; ScanDefault(s, depth) == Shift(n, ScanDefault(s[n..], depth))
    decreases |s|, 1
  {
    if s[0] != '$' {
      LiteralIsPlain(s);
      ScanPlain(s, LiteralRun(s, true), depth);
    } else if StartsWith(s[1..], '{') {
      var b := s[2..];
      assert s[1..][1..] == b;
      ScanBraced(b, depth);
      var n := Braced(b).value.1;
      assert b[n..] == s[n + 2..];
      ShiftShift(2, n, ScanDefault(s[n + 2..], depth));
    } else {
      var rest := s[1..];
      var n := NameLength(rest);
      NameIsPlain(rest);
      ScanPlain(rest, n, depth);
      assert rest[n..] == s[n + 1..];
      ShiftShift(1, n, ScanDefault(s[n + 1..], depth));
    }
  }

  lemma {:induction false} BracedParts(s: string)
    requires Braced(s).Some?
    ensures var r := s[NameLength(s)..];
            if StartsOperator(r) then
              var items := ItemList(r[2..], true);
              items.Some? && items.value.1 < |r| - 2 && Braced(s).value.1 == NameLength(s) + items.value.1 + 3
            else StartsWith(r, '}') && Braced(s).value.1 == NameLength(s) + 1
  {
    hide NameLength, ItemList;
  }

  lemma {:induction false} ScanBraced(s: string, depth: nat)
    requires depth > 0 && Braced(s).Some?
    ensures var n := Braced(s).value.1; ScanDefault(s, depth + 1) == Shift(n, ScanDefault(s[n..], depth))
    decreases |s|, 0
  {
    hide ScanDefault, NameLength, ItemList, Braced;
    BracedParts(s);
    var n := NameLength(s);
    var r := s[n..];
    NameIsPlain(s);
    ScanPlain(s, n, depth + 1);
    if StartsOperator(r) {
      var k := ItemList(r[2..], true).value.1;
      ScanItems(r[2..], depth + 1);
      ScanDefaultValue(r, k, depth);
      assert r[k + 3..] == s[n + k + 3..];
    } else {
      ScanClose(r, depth);
      assert r[1..] == s[n + 1..];
    }
  }

  /** From the operator of a default value to the brace after it. */
  lemma {:induction false} ScanDefaultValue(r: string, k: nat, depth: nat)
    requires depth > 0 && StartsOperator(r)
    requires var d := r[2..];
             ItemList(d, true).Some? && k == ItemList(d, true).value.1 < |d|
             && ScanDefault(d, depth + 1) == Shift(k, ScanDefault(d[k..], depth + 1))
    ensures ScanDefault(r, depth + 1) == Shift(k + 3, ScanDefault(r[k + 3..], depth))
  {
    hide ScanDefault, ItemList;
    var d := r[2..];
    ScanPlain(r, 2, depth + 1);
    ItemListEnds(d, true);
    ScanClose(d[k..], depth);
    assert d[k..][1..] == r[k + 3..];
  }

  lemma ScanClose(s: string, depth: nat)
    requires depth > 0 && StartsWith(s, '}')
    ensures ScanDefault(s, depth + 1) == Shift(1, ScanDefault(s[1..], depth))
  {}

  lemma {:induction false} ScanItems(s: string, depth: nat)
    requires depth > 0 && ItemList(s, true).Some?
    ensures var k := ItemList(s, true).value.1; ScanDefault(s, depth) == Shift(k, ScanDefault(s[k..], depth))
    decreases |s|, 2
  {
    hide ScanDefault, Item;
    if Ends(s, true) {
      assert s[0..] == s;
    } else {
      ScanItem(s, depth);
      var n := Item(s, true).value.1;
      ScanItems(s[n..], depth);
      var m := ItemList(s[n..], true).value.1;
      assert s[n..][m..] == s[n + m..];
      ShiftShift(n, m, ScanDefault(s[n + m..], depth));
    }
  }

  // ----- an item depends on its own text only -----

  lemma {:induction false} DigitRunPrefix(s: string, e: nat)
    requires DigitRun(s) <= e <= |s|
    ensures DigitRun(s[..e]) == DigitRun(s)
  {
    if DigitRun(s) > 0 {
      DigitRunPrefix(s[1..], e - 1);
      assert s[..e][1..] == s[1..][..e - 1];
    }
  }

  lemma {:induction false} IdentifierRunPrefix(s: string, e: nat)
    requires IdentifierRun(s) <= e <= |s|
    ensures IdentifierRun(s[..e]) == IdentifierRun(s)
  {
    if IdentifierRun(s) > 0 {
      IdentifierRunPrefix(s[1..], e - 1);
      assert s[..e][1..] == s[1..][..e - 1];
    }
  }

  lemma {:induction false} NamePrefix(s: string, e: nat)
    requires NameLength(s) <= e <= |s|
    ensures NameLength(s[..e]) == NameLength(s)
  {
    if DigitRun(s) > 0 || NameLength(s) == 0 {
      DigitRunPrefix(s, e);
    } else {
      DigitRunPrefix(s, e);
      IdentifierRunPrefix(s[1..], e - 1);
      assert s[..e][1..] == s[1..][..e - 1];
    }
  }

  /** Cutting the text anywhere after an item that ends by itself does not change the item. */
  lemma {:induction false} DollarPrefix(s: string, e: nat)
    requires StartsWith(s, '$') && Dollar(s).Some? && Dollar(s).value.1 <= e <= |s|
    ensures Dollar(s[..e]) == Dollar(s)
    decreases |s|, 1
  {
    hide NameLength, Braced;
    var rest := s[1..];
    assert s[..e][1..] == rest[..e - 1];
    if StartsWith(rest, '{') {
      assert rest[..e - 1][1..] == rest[1..][..e - 2];
      BracedPrefix(rest[1..], e - 2);
    } else {
      NamePrefix(rest, e - 1);
      assert rest[..e - 1][..NameLength(rest)] == rest[..NameLength(rest)];
    }
  }

  lemma {:induction false} BracedPrefix(s: string, e: nat)
    requires Braced(s).Some? && Braced(s).value.1 <= e <= |s|
    ensures Braced(s[..e]) == Braced(s)
    decreases |s|, 0
  {
    hide NameLength, ItemList;
    var n := NameLength(s);
    var r := s[n..];
    NamePrefix(s, e);
    assert s[..e][n..] == r[..e - n];
    assert s[..e][..n] == s[..n];
    if StartsOperator(r) {
      assert r[..e - n][2..] == r[2..][..e - n - 2];
      ItemListPrefix(r[2..], e - n - 2);
    }
  }

  lemma {:induction false} LiteralRunPrefix(s: string, nested: bool, e: nat)
    requires LiteralRun(s, nested) <= e <= |s|
    ensures LiteralRun(s[..e], nested) == LiteralRun(s, nested)
  {
    if LiteralRun(s, nested) > 0 {
      LiteralRunPrefix(s[1..], nested, e - 1);
      assert s[..e][1..] == s[1..][..e - 1];
    }
  }

  lemma {:induction false} ItemPrefix(s: string, nested: bool, e: nat)
    requires !Ends(s, nested) && Item(s, nested).Some? && Item(s, nested).value.1 <= e <= |s|
    ensures !Ends(s[..e], nested) && Item(s[..e], nested) == Item(s, nested)
    decreases |s|, 2
  {
    if s[0] == '$' {
      DollarPrefix(s, e);
    } else {
      LiteralRunPrefix(s, nested, e);
      assert s[..e][..LiteralRun(s, nested)] == s[..LiteralRun(s, nested)];
    }
  }

  lemma {:induction false} ItemListPrefix(s: string, e: nat)
    requires ItemList(s, true).Some? && ItemList(s, true).value.1 < e <= |s|
    ensures ItemList(s[..e], true) == ItemList(s, true)
    decreases |s|, 3
  {
    hide Item;
    if !Ends(s, true) {
      ItemPrefix(s, true, e);
      var n := Item(s, true).value.1;
      ItemListPrefix(s[n..], e - n);
      assert s[..e][n..] == s[n..][..e - n];
    }
  }

  /** Text that cannot continue a name. */
  predicate EndsName(t: string) { t != "" && !IsIdentifierPart(t[0]) }

  lemma {:induction false} DigitRunExtend(s: string, t: string)
    requires EndsName(t)
    ensures DigitRun(s + t) == DigitRun(s)
  {
    if s == "" {
      assert s + t == t;
    } else {
      assert (s + t)[1..] == s[1..] + t;
      DigitRunExtend(s[1..], t);
    }
  }

  lemma {:induction false} IdentifierRunExtend(s: string, t: string)
    requires EndsName(t)
    ensures IdentifierRun(s + t) == IdentifierRun(s)
  {
    if s == "" {
      assert s + t == t;
    } else {
      assert (s + t)[1..] == s[1..] + t;
      IdentifierRunExtend(s[1..], t);
    }
  }

  lemma {:induction false} NameExtend(s: string, t: string)
    requires EndsName(t)
    ensures NameLength(s + t) == NameLength(s)
  {
    DigitRunExtend(s, t);
    if s == "" {
      assert s + t == t;
    } else {
      assert (s + t)[1..] == s[1..] + t;
      IdentifierRunExtend(s[1..], t);
    }
  }

  /** A closing brace after an item does not change the item. */
  lemma {:induction false} DollarExtend(s: string, t: string)
    requires StartsWith(s, '$') && Dollar(s).Some? && StartsWith(t, '}')
    ensures Dollar(s + t) == Dollar(s)
    decreases |s|, 1
  {
    hide NameLength, Braced;
    var rest := s[1..];
    assert (s + t)[1..] == rest + t;
    if StartsWith(rest, '{') {
      assert (rest + t)[1..] == rest[1..] + t;
      BracedExtend(rest[1..], t);
    } else {
      NameExtend(rest, t);
      assert (rest + t)[..NameLength(rest)] == rest[..NameLength(rest)];
    }
  }

  lemma {:induction false} BracedExtend(s: string, t: string)
    requires Braced(s).Some? && StartsWith(t, '}')
    ensures Braced(s + t) == Braced(s)
    decreases |s|, 0
  {
    hide NameLength, ItemList;
    var n := NameLength(s);
    var r := s[n..];
    NameExtend(s, t);
    assert (s + t)[n..] == r + t;
    assert (s + t)[..n] == s[..n];
    if StartsOperator(r) {
      assert (r + t)[2..] == r[2..] + t;
      ItemListExtend(r[2..], t);
    }
  }

  lemma {:induction false} LiteralRunExtend(s: string, t: string)
    requires StartsWith(t, '}')
    ensures LiteralRun(s + t, true) == LiteralRun(s, true)
  {
    if LiteralRun(s, true) > 0 {
      assert (s + t)[1..] == s[1..] + t;
      LiteralRunExtend(s[1..], t);
    } else {
      assert s == "" ==> s + t == t;
    }
  }

  lemma {:induction false} ItemListExtend(s: string, t: string)
    requires ItemList(s, true).Some? && StartsWith(t, '}')
    ensures ItemList(s + t, true) == ItemList(s, true)
    decreases |s|, 3
  {
    hide Item;
    if Ends(s, true) {
      assert s == "" ==> s + t == t;
    } else {
      var n := Item(s, true).value.1;
      ItemExtend(s, t);
      ItemListExtend(s[n..], t);
      assert (s + t)[n..] == s[n..] + t;
    }
  }

  lemma {:induction false} ItemExtend(s: string, t: string)
    requires !Ends(s, true) && Item(s, true).Some? && StartsWith(t, '}')
    ensures Item(s + t, true) == Item(s, true)
    decreases |s|, 2
  {
    hide Dollar, LiteralRun;
    if s[0] == '$' {
      DollarExtend(s, t);
    } else {
      LiteralRunExtend(s, t);
      assert (s + t)[..LiteralRun(s, true)] == s[..LiteralRun(s, true)];
    }
  }

  // ----- a default value is a template of its own -----

  lemma {:induction false} LiteralRunTop(s: string, e: nat)
    requires var n := LiteralRun(s, true); n <= e <= |s| && (e == n || s[n] == '$')
    ensures LiteralRun(s[..e], false) == LiteralRun(s, true)
  {
    if LiteralRun(s, true) > 0 {
      LiteralRunTop(s[1..], e - 1);
      assert s[..e][1..] == s[1..][..e - 1];
    }
  }

  /** The items of a default value are the items of its text alone. */
  lemma {:induction false} NestedIsTemplate(s: string)
    requires ItemList(s, true).Some?
    ensures var (nodes, k) := ItemList(s, true).value; ItemList(s[..k], false) == Some((nodes, k))
  {
    hide Item;
    if !Ends(s, true) {
      var n := Item(s, true).value.1;
      NestedIsTemplate(s[n..]);
      ItemListEnds(s, true);
      var k := ItemList(s, true).value.1;
      ItemTop(s, k);
      assert s[..k][n..] == s[n..][..k - n];
    }
  }

  lemma {:induction false} ItemTop(s: string, e: nat)
    requires !Ends(s, true) && Item(s, true).Some?
    requires var n := Item(s, true).value.1; n <= e <= |s| && (e == n || !Ends(s[n..], true))
    ensures Item(s[..e], false) == Item(s, true)
  {
    hide Dollar, LiteralRun;
    if s[0] == '$' {
      DollarPrefix(s, e);
    } else {
      LiteralRunStops(s, true);
      LiteralRunTop(s, e);
      assert s[..e][..LiteralRun(s, true)] == s[..LiteralRun(s, true)];
    }
  }

  lemma {:induction false} LiteralRunStops(s: string, nested: bool)
    ensures var n := LiteralRun(s, nested); n == |s| || s[n] == '$' || (nested && s[n] == '}')
  {
    if LiteralRun(s, nested) > 0 {
      LiteralRunStops(s[1..], nested);
    }
  }

  lemma {:induction false} LiteralRunNested(s: string, t: string)
    requires StartsWith(t, '}') && ScanDefault(s + t, 1) == Some(|s|)
    ensures LiteralRun(s + t, true) == LiteralRun(s, false)
  {
    if s == "" {
      assert s + t == t;
    } else if s[0] != '$' {
      assert (s + t)[1..] == s[1..] + t;
      LiteralRunNested(s[1..], t);
    }
  }

  /** A template that ends where the brace count ends is the list of items of the default value. */
  lemma {:induction false} TemplateIsNested(s: string, t: string)
    requires StartsWith(t, '}') && ScanDefault(s + t, 1) == Some(|s|)
    requires ItemList(s, false).Some?
    ensures ItemList(s + t, true) == ItemList(s, false)
  {
    hide ScanDefault, Dollar;
    if s == "" {
      assert s + t == t;
    } else {
      var n := Item(s, false).value.1;
      if s[0] == '$' {
        DollarExtend(s, t);
      } else {
        LiteralRunNested(s, t);
        assert (s + t)[..n] == s[..n];
      }
      ScanItem(s + t, 1);
      assert (s + t)[n..] == s[n..] + t;
      TemplateIsNested(s[n..], t);
    }
  }

  // ----- the brace-counting parser is the grammar -----

  function Nodes(r: Items): Option<seq<Node>> {
    match r case None => None case Some((nodes, _)) => Some(nodes)
  }

  lemma {:induction false} BracedEquals(s: string)
    ensures ParseBraced(s) == Braced(s)
    decreases |s|, 0
  {
    hide NameLength, ScanDefault, ItemList, ParseItems;
    var r := s[NameLength(s)..];
    if NameLength(s) > 0 && StartsOperator(r) {
      DefaultEquals(r[2..]);
    }
  }

  /** Counting braces and then parsing the text found is parsing items up to the closing brace. */
  lemma {:induction false} DefaultEquals(d: string)
    ensures (match ScanDefault(d, 1)
             case None => None
             case Some(k) => match ParseItems(d[..k]) case None => None case Some(nodes) => Some((nodes, k)))
            == if ItemList(d, true).Some? && ItemList(d, true).value.1 < |d| then ItemList(d, true) else None
    decreases |d|, 3
  {
    hide ScanDefault, ItemList, ParseItems;
    if ItemList(d, true).Some? && ItemList(d, true).value.1 < |d| {
      var (nodes, k) := ItemList(d, true).value;
      ScanItems(d, 1);
      ItemListEnds(d, true);
      ScanAtBrace(d[k..]);
      NestedIsTemplate(d);
      ItemsEqual(d[..k]);
    } else if ScanDefault(d, 1).Some? {
      var k := ScanDefault(d, 1).value;
      ItemsEqual(d[..k]);
      if ItemList(d[..k], false).Some? {
        assert d == d[..k] + d[k..];
        TemplateIsNested(d[..k], d[k..]);
        ItemListCovers(d[..k]);
      }
    }
  }

  lemma ScanAtBrace(s: string)
    requires StartsWith(s, '}')
    ensures ScanDefault(s, 1) == Some(0)
  {}

  lemma {:induction false} ItemListCovers(s: string)
    requires ItemList(s, false).Some?
    ensures ItemList(s, false).value.1 == |s|
  {
    ItemListEnds(s, false);
  }

  lemma {:induction false} ItemsEqual(s: string)
    ensures ParseItems(s) == Nodes(ItemList(s, false))
    decreases |s|, 2
  {
    if s != "" {
      if s[0] == '$' {
        if StartsWith(s[1..], '{') {
          BracedEquals(s[1..][1..]);
        }
      }
      assert ParseItem(s) == Item(s, false);
      if Item(s, false).Some? {
        ItemsEqual(s[Item(s, false).value.1..]);
      }
    }
  }

  /** The parser accepts exactly the texts of the grammar, with the same tree, on every input. */
  lemma {:induction false} ParserMeetsGrammar(s: string)
    ensures ParseTemplate(s) == Grammar(s)
  {
    ItemsEqual(s);
  }
}
