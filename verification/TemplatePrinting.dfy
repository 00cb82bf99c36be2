/**
 Writing syntax trees back as text with "${...}" around every name. Parsing
 the text of a canonical tree gives the tree back, and the parser yields
 canonical trees only.
 */
module TemplatePrinting {
  import opened Text
  import opened TemplateSyntax
  import opened TemplateGrammar

  function Print(node: Node): string
    decreases node
  {
    match node
    case Literal(value) => value
    case Placeholder(name, None, _) => "${" + name + "}"
    case Placeholder(name, Some(inner), ifSet) =>
      "${" + name + (if ifSet then ":+" else ":-") + Print(inner) + "}"
    case Sequence(nodes) => PrintAll(nodes)
  }

  function PrintAll(nodes: seq<Node>): string
    decreases nodes
  {
    if nodes == [] then "" else Print(nodes[0]) + PrintAll(nodes[1..])
  }

  /** Literal text other than a lone '$'. */
  predicate IsText(node: Node) { node.Literal? && node.value != "$" }

  predicate StartsName(s: string) { s != "" && (IsDigit(s[0]) || IsIdentifierStart(s[0])) }

  /** Neighbours that the parser would not have joined or read differently. */
  predicate Adjacent(a: Node, b: Node) {
    && (IsText(a) ==> !IsText(b))
    && (a == Literal("$") && IsText(b) ==> !StartsWith(b.value, '{') && !StartsName(b.value))
  }

  predicate CanonicalItem(node: Node, nested: bool)
    decreases node, 1
  {
    match node
    case Literal(value) => value == "$" || (value != "" && '$' !in value && (nested ==> '}' !in value))
    case Placeholder(name, inner, ifSet) =>
      && name != "" && NameLength(name) == |name|
      && (match inner case None => !ifSet case Some(tree) => Canonical(tree, true))
    case Sequence(_) => false
  }

  predicate CanonicalItems(nodes: seq<Node>, nested: bool)
    decreases nodes, 0
  {
    nodes != [] ==>
      && CanonicalItem(nodes[0], nested)
      && (|nodes| > 1 ==> Adjacent(nodes[0], nodes[1]))
      && CanonicalItems(nodes[1..], nested)
  }

  /** The trees that templates have; nested ones, inside a default value, hold no '}' in their text. */
  predicate Canonical(node: Node, nested: bool)
    decreases node, 2
  {
    match node
    case Sequence(nodes) => |nodes| >= 2 && CanonicalItems(nodes, nested)
    case _ => node == Literal("") || CanonicalItem(node, nested)
  }

  function ItemsOf(node: Node): seq<Node> {
    match node
    case Sequence(nodes) => nodes
    case _ => if node == Literal("") then [] else [node]
  }

  lemma {:induction false} CanonicalItemsOf(node: Node, nested: bool)
    requires Canonical(node, nested)
    ensures CanonicalItems(ItemsOf(node), nested)
    ensures Collapse(ItemsOf(node)) == node && PrintAll(ItemsOf(node)) == Print(node)
  {
    if node != Literal("") && !node.Sequence? {
      assert PrintAll([node][1..]) == "";
      assert Print(node) + "" == Print(node);
      assert CanonicalItems([node][1..], nested);
    }
  }

  // ----- printing, then parsing -----

  lemma {:induction false} TextRun(value: string, u: string, nested: bool)
    requires '$' !in value && (nested ==> '}' !in value)
    requires StartsWith(u, '$') || Ends(u, nested)
    ensures LiteralRun(value + u, nested) == |value|
  {
    if value == "" {
      assert value + u == u;
    } else {
      assert (value + u)[1..] == value[1..] + u;
      TextRun(value[1..], u, nested);
    }
  }

  /** What may follow the text of a node without changing how the node is read. */
  predicate Follows(node: Node, u: string, nested: bool) {
    && (IsText(node) ==> StartsWith(u, '$') || Ends(u, nested))
    && (node == Literal("$") ==> !StartsWith(u, '{') && !StartsName(u))
  }

  lemma {:induction false} AdjacentFollows(a: Node, more: seq<Node>, t: string, nested: bool)
    requires CanonicalItems([a] + more, nested) && Ends(t, nested)
    ensures Follows(a, PrintAll(more) + t, nested)
  {
    assert ([a] + more)[1..] == more;
    if more == [] {
      assert PrintAll(more) + t == t;
    } else {
      var b := more[0];
      assert ([a] + more)[1] == b;
      assert CanonicalItems(more, nested) && CanonicalItem(b, nested);
      assert Print(b) != "";
      assert PrintAll(more) + t == Print(b) + (PrintAll(more[1..]) + t);
    }
  }

  lemma {:induction false} PlaceholderParses(node: Node, u: string)
    requires node.Placeholder? && CanonicalItem(node, false)
    ensures Dollar(Print(node) + u) == Some((node, |Print(node)|))
    decreases node, 1
  {
    hide NameLength, Braced, Dollar, Collapse, ItemList, CanonicalItems;
    match node.inner
    case None =>
      BarePlaceholderParses(node, u);
    case Some(tree) =>
      TreeParses(tree, "}" + u, true);
      CanonicalItemsOf(tree, true);
      DefaultParses(node, tree, u);
  }

  lemma {:induction false} BarePlaceholderParses(node: Node, u: string)
    requires node.Placeholder? && CanonicalItem(node, false) && node.inner.None?
    ensures Dollar(Print(node) + u) == Some((node, |Print(node)|))
  {
    hide NameLength, Braced, Dollar;
    var b := node.name + "}" + u;
    assert Print(node) + u == "${" + b;
    DollarBrace(b);
    NameAndBrace(node.name, u);
  }

  lemma {:induction false} DefaultParses(node: Node, tree: Node, u: string)
    requires node.Placeholder? && CanonicalItem(node, false) && node.inner == Some(tree)
    requires ItemList(Print(tree) + ("}" + u), true) == Some((ItemsOf(tree), |Print(tree)|))
    requires Collapse(ItemsOf(tree)) == tree
    ensures Dollar(Print(node) + u) == Some((node, |Print(node)|))
  {
    hide NameLength, Braced, Dollar, ItemList, Collapse, CanonicalItems;
    var op := if node.ifSet then ":+" else ":-";
    var d := Print(tree) + ("}" + u);
    NameAndDefault(node.name, op, d, ItemsOf(tree), |Print(tree)|);
    assert Print(node) + u == "${" + (node.name + op + d);
    DollarBrace(node.name + op + d);
  }

  lemma {:induction false} DollarBrace(b: string)
    ensures Dollar("${" + b) == match Braced(b) case None => None case Some((node, n)) => Some((node, n + 2))
  {
    hide Braced, NameLength;
    assert ("${" + b)[1..][1..] == b;
  }

  lemma {:induction false} NameAndBrace(name: string, u: string)
    requires name != "" && NameLength(name) == |name|
    ensures Braced(name + "}" + u) == Some((Placeholder(name, None, false), |name| + 1))
  {
    hide NameLength;
    var b := name + "}" + u;
    assert b == name + ("}" + u);
    NameExtend(name, "}" + u);
    assert b[..|name|] == name && b[|name|..] == "}" + u;
  }

  lemma {:induction false} NameAndDefault(name: string, op: string, d: string, nodes: seq<Node>, k: nat)
    requires name != "" && NameLength(name) == |name| && (op == ":-" || op == ":+")
    requires ItemList(d, true) == Some((nodes, k)) && k < |d|
    ensures Braced(name + op + d)
            == Some((Placeholder(name, Some(Collapse(nodes)), op == ":+"), |name| + 2 + k + 1))
  {
    hide NameLength, ItemList;
    var b := name + op + d;
    assert b == name + (op + d);
    NameExtend(name, op + d);
    assert b[..|name|] == name && b[|name|..] == op + d;
    assert (op + d)[2..] == d;
  }

  lemma {:induction false} TreeParses(tree: Node, t: string, nested: bool)
    requires Canonical(tree, nested) && Ends(t, nested)
    ensures ItemList(Print(tree) + t, nested) == Some((ItemsOf(tree), |Print(tree)|))
    decreases tree, 3
  {
    hide Item;
    if tree.Sequence? {
      ItemsParse(tree.nodes, t, nested);
    } else if tree == Literal("") {
      assert Print(tree) + t == t;
    } else {
      ItemParses(tree, t, nested);
      assert (Print(tree) + t)[|Print(tree)|..] == t;
      assert ItemList(t, nested) == Some(([], 0));
      assert [tree] + [] == [tree];
    }
  }

  lemma {:induction false} ItemParses(node: Node, u: string, nested: bool)
    requires CanonicalItem(node, nested) && Follows(node, u, nested)
    ensures var s := Print(node) + u;
            !Ends(s, nested) && Item(s, nested) == Some((node, |Print(node)|))
    decreases node, 2
  {
    var s := Print(node) + u;
    if node.Placeholder? {
      hide Dollar;
      assert s[0] == '$';
      PlaceholderParses(node, u);
    } else if node == Literal("$") {
      assert s[1..] == u;
    } else {
      TextRun(node.value, u, nested);
      assert s[0] == node.value[0];
      assert s[..|node.value|] == node.value;
    }
  }

  /** The printed nodes are read back, whatever ends the list. */
  lemma {:induction false} ItemsParse(nodes: seq<Node>, t: string, nested: bool)
    requires CanonicalItems(nodes, nested) && Ends(t, nested)
    ensures ItemList(PrintAll(nodes) + t, nested) == Some((nodes, |PrintAll(nodes)|))
    decreases nodes, 2
  {
    hide Item;
    if nodes == [] {
      assert PrintAll(nodes) + t == t;
    } else {
      var a, more := nodes[0], nodes[1..];
      assert nodes == [a] + more;
      var u := PrintAll(more) + t;
      Assoc(Print(a), PrintAll(more), t);
      AdjacentFollows(a, more, t, nested);
      ItemParses(a, u, nested);
      ItemsParse(more, t, nested);
      assert (Print(a) + u)[|Print(a)|..] == u;
    }
  }

  /** Round trip: the text of a canonical tree parses to that tree. */
  lemma {:induction false} ParsePrint(node: Node)
    requires Canonical(node, false)
    ensures ParseTemplate(Print(node)) == Some(node)
  {
    hide ItemList;
    CanonicalItemsOf(node, false);
    assert Print(node) + "" == Print(node);
    TreeParses(node, "", false);
    ParserMeetsGrammar(Print(node));
  }

  // ----- parsing yields canonical trees -----

  lemma {:induction false} LiteralRunText(s: string, nested: bool)
    ensures var v := s[..LiteralRun(s, nested)]; '$' !in v && (nested ==> '}' !in v)
  {
    var n := LiteralRun(s, nested);
    if n > 0 {
      LiteralRunText(s[1..], nested);
      assert s[..n] == [s[0]] + s[1..][..n - 1];
    }
  }

  lemma {:induction false} NameValid(s: string)
    ensures NameLength(s[..NameLength(s)]) == NameLength(s)
  {
    NamePrefix(s, NameLength(s));
  }

  lemma {:induction false} DollarCanonical(s: string, nested: bool)
    requires StartsWith(s, '$') && Dollar(s).Some?
    ensures CanonicalItem(Dollar(s).value.0, nested)
    decreases |s|, 1
  {
    hide NameLength;
    var rest := s[1..];
    if StartsWith(rest, '{') {
      BracedCanonical(rest[1..], nested);
    } else {
      NameValid(rest);
    }
  }

  lemma {:induction false} BracedCanonical(s: string, nested: bool)
    requires Braced(s).Some?
    ensures CanonicalItem(Braced(s).value.0, nested)
    decreases |s|, 0
  {
    hide NameLength, ItemList;
    NameValid(s);
    var r := s[NameLength(s)..];
    if StartsOperator(r) {
      ItemsCanonical(r[2..], true);
      CollapseCanonical(ItemList(r[2..], true).value.0, true);
    }
  }

  lemma CollapseCanonical(nodes: seq<Node>, nested: bool)
    requires CanonicalItems(nodes, nested)
    ensures Canonical(Collapse(nodes), nested)
  {}

  lemma {:induction false} ItemCanonical(s: string, nested: bool)
    requires !Ends(s, nested) && Item(s, nested).Some?
    ensures CanonicalItem(Item(s, nested).value.0, nested)
    decreases |s|, 2
  {
    hide Dollar;
    if s[0] == '$' {
      DollarCanonical(s, nested);
    } else {
      LiteralRunText(s, nested);
      assert s[..LiteralRun(s, nested)][0] == s[0];
    }
  }

  /** Two items read one after the other are canonical neighbours. */
  lemma {:induction false} NeighboursCanonical(s: string, nested: bool)
    requires !Ends(s, nested) && Item(s, nested).Some?
    requires var u := s[Item(s, nested).value.1..]; !Ends(u, nested) && Item(u, nested).Some?
    ensures Adjacent(Item(s, nested).value.0, Item(s[Item(s, nested).value.1..], nested).value.0)
  {
    hide Braced;
    var (a, n) := Item(s, nested).value;
    var u := s[n..];
    if s[0] != '$' {
      LiteralRunStops(s, nested);
      assert '$' == u[0];
      DollarIsNoText(u);
    } else if a == Literal("$") {
      DollarLone(s);
      if u[0] == '$' {
        DollarIsNoText(u);
      } else {
        assert u[..LiteralRun(u, nested)][0] == u[0];
      }
    } else {
      DollarIsNoText(s);
    }
  }

  lemma {:induction false} DollarIsNoText(s: string)
    requires StartsWith(s, '$') && Dollar(s).Some?
    ensures !IsText(Dollar(s).value.0)
  {
    if StartsWith(s[1..], '{') {
      BracedIsPlaceholder(s[1..][1..]);
    }
  }

  lemma BracedIsPlaceholder(s: string)
    requires Braced(s).Some?
    ensures Braced(s).value.0.Placeholder?
  {}

  lemma {:induction false} DollarLone(s: string)
    requires StartsWith(s, '$') && Dollar(s).Some? && Dollar(s).value.0 == Literal("$")
    ensures Dollar(s).value.1 == 1 && !StartsWith(s[1..], '{') && !StartsName(s[1..])
  {
    if StartsWith(s[1..], '{') {
      BracedIsPlaceholder(s[1..][1..]);
    }
  }

  lemma {:induction false} ItemsCanonical(s: string, nested: bool)
    requires ItemList(s, nested).Some?
    ensures CanonicalItems(ItemList(s, nested).value.0, nested)
    decreases |s|, 3
  {
    hide Item;
    if !Ends(s, nested) {
      ItemCanonical(s, nested);
      var u := s[Item(s, nested).value.1..];
      ItemsCanonical(u, nested);
      if !Ends(u, nested) {
        NeighboursCanonical(s, nested);
      }
      assert ItemList(s, nested).value.0[1..] == ItemList(u, nested).value.0;
    }
  }

  /** Every parsed tree is canonical, so printing it and parsing again changes nothing. */
  lemma {:induction false} ParsedIsCanonical(s: string)
    requires ParseTemplate(s).Some?
    ensures Canonical(ParseTemplate(s).value, false)
    ensures ParseTemplate(Print(ParseTemplate(s).value)) == ParseTemplate(s)
  {
    hide ItemList;
    ParserMeetsGrammar(s);
    ItemsCanonical(s, false);
    CollapseCanonical(ItemList(s, false).value.0, false);
    ParsePrint(ParseTemplate(s).value);
  }
}
