/**
 What templates mean, as texts: names, numbers, the two operators, and
 everything around them.
 */
module TemplateMeaning {
  import opened Text
  import opened TemplateSyntax
  import opened TemplateGrammar
  import opened TemplatePrinting
  import opened TemplateAnalysis

  /** Parses and evaluates a template; None if it does not parse. */
  function Evaluate(p: Placeholders, text: string): Option<string> {
    match ParseTemplate(text)
    case None => None
    case Some(node) => Some(Execute(p, node))
  }

  predicate IsName(name: string) { name != "" && NameLength(name) == |name| }

  lemma {:induction false} EvaluatePrinted(p: Placeholders, node: Node)
    requires Canonical(node, false)
    ensures Evaluate(p, Print(node)) == Some(Execute(p, node))
  {
    ParsePrint(node);
  }

  // ----- what a name stands for -----

  function Digit(d: nat): char
    requires d < 10
  {
    '0' + d as char
  }

  /** The decimal numeral of n. */
  function Numeral(n: nat): string { if n < 10 then [Digit(n)] else Numeral(n / 10) + [Digit(n % 10)] }

  function Zeros(k: nat): string { seq(k, _ => '0') }

  lemma {:induction false} AtoiNumeral(k: nat, n: nat)
    ensures Atoi(Zeros(k) + Numeral(n)) == Some(n)
    decreases n
  {
    var s := Zeros(k) + Numeral(n);
    if n < 10 {
      assert s[|s| - 1] == Digit(n) && s[..|s| - 1] == Zeros(k);
      AtoiZeros(k);
    } else {
      assert s[|s| - 1] == Digit(n % 10) && s[..|s| - 1] == Zeros(k) + Numeral(n / 10);
      AtoiNumeral(k, n / 10);
      assert |Zeros(k) + Numeral(n / 10)| > 0;
    }
  }

  lemma {:induction false} AtoiZeros(k: nat)
    ensures Atoi(Zeros(k)) == if k == 0 then None else Some(0)
  {
    if k > 1 {
      AtoiZeros(k - 1);
      assert Zeros(k)[..k - 1] == Zeros(k - 1);
    }
  }

  lemma {:induction false} AtoiDigits(s: string)
    ensures Atoi(s).Some? <==> s != "" && forall i :: 0 <= i < |s| ==> IsDigit(s[i])
  {
    if |s| > 1 {
      AtoiDigits(s[..|s| - 1]);
    }
  }

  /** `$n` and `${n}` are the same. */
  lemma {:induction false} BareForm(p: Placeholders, name: string)
    requires IsName(name)
    ensures ParseTemplate("$" + name) == ParseTemplate("${" + name + "}") == Some(Placeholder(name, None, false))
  {
    hide NameLength;
    var node := Placeholder(name, None, false);
    ParsePrint(node);
    var s := "$" + name;
    assert s[1..] == name && name[..|name|] == name;
    NameIsNoBrace(name);
    assert ParsePlaceholder(s) == Some((node, |s|));
    assert s[|s|..] == "" && ParseItems(s) == Some([node] + []);
  }

  lemma NameIsNoBrace(name: string)
    requires IsName(name)
    ensures name[0] != '{'
  {}

  /** Where a bare name ends inside longer text: the name is as long as it can be. */
  lemma {:induction false} NameIsLongest(s: string)
    ensures var n := NameLength(s);
            && (n > 0 && IsDigit(s[0]) ==>
                (forall i :: 0 <= i < n ==> IsDigit(s[i])) && (n < |s| ==> !IsDigit(s[n])))
            && (n > 0 && !IsDigit(s[0]) ==>
                IsIdentifierStart(s[0]) && (forall i :: 0 <= i < n ==> IsIdentifierPart(s[i]))
                && (n < |s| ==> !IsIdentifierPart(s[n])))
            && (n == 0 ==> s == "" || !(IsDigit(s[0]) || IsIdentifierStart(s[0])))
  {
    DigitRunIsLongest(s);
    if s != "" {
      IdentifierRunIsLongest(s[1..]);
    }
  }

  lemma {:induction false} DigitRunIsLongest(s: string)
    ensures var n := DigitRun(s);
            (forall i :: 0 <= i < n ==> IsDigit(s[i])) && (n < |s| ==> !IsDigit(s[n]))
  {
    if s != "" && IsDigit(s[0]) {
      DigitRunIsLongest(s[1..]);
    }
  }

  lemma {:induction false} IdentifierRunIsLongest(s: string)
    ensures var n := IdentifierRun(s);
            (forall i :: 0 <= i < n ==> IsIdentifierPart(s[i])) && (n < |s| ==> !IsIdentifierPart(s[n]))
  {
    if s != "" && IsIdentifierPart(s[0]) {
      IdentifierRunIsLongest(s[1..]);
    }
  }

  /** A named value comes first. */
  lemma {:induction false} NamedValue(p: Placeholders, name: string)
    requires IsName(name) && name in p.named
    ensures Evaluate(p, "${" + name + "}") == Some(p.named[name])
  {
    EvaluatePrinted(p, Placeholder(name, None, false));
  }

  /** Without one, a numeral of any length gives the value with its number, or nothing if there is none. */
  lemma {:induction false} NumberedValue(p: Placeholders, k: nat, i: nat)
    requires Zeros(k) + Numeral(i) !in p.named
    ensures Evaluate(p, "${" + (Zeros(k) + Numeral(i)) + "}") == Some(if i < |p.indexed| then p.indexed[i] else "")
  {
    hide NameLength;
    AtoiNumeral(k, i);
    AtoiDigits(Zeros(k) + Numeral(i));
    DigitsAreName(Zeros(k) + Numeral(i));
    EvaluatePrinted(p, Placeholder(Zeros(k) + Numeral(i), None, false));
  }

  lemma {:induction false} DigitsAreName(s: string)
    requires s != "" && forall i :: 0 <= i < |s| ==> IsDigit(s[i])
    ensures IsName(s)
  {
    DigitRunIsLongest(s);
  }

  /** And any other name gives nothing. */
  lemma {:induction false} UnknownName(p: Placeholders, name: string)
    requires IsName(name) && name !in p.named && IsIdentifierStart(name[0])
    ensures Evaluate(p, "${" + name + "}") == Some("")
  {
    AtoiDigits(name);
    EvaluatePrinted(p, Placeholder(name, None, false));
  }

  // ----- the operators -----

  /** What t gives inside a default value is what it gives as a template of its own. */
  lemma {:induction false} NestedIsPlain(node: Node)
    requires Canonical(node, true)
    ensures Canonical(node, false)
  {
    match node
    case Sequence(nodes) => NestedItemsArePlain(nodes);
    case _ =>
  }

  lemma {:induction false} NestedItemsArePlain(nodes: seq<Node>)
    requires CanonicalItems(nodes, true)
    ensures CanonicalItems(nodes, false)
  {
    if nodes != [] {
      NestedItemsArePlain(nodes[1..]);
    }
  }

  lemma {:induction false} DefaultText(p: Placeholders, t: Node)
    requires Canonical(t, true)
    ensures Evaluate(p, Print(t)) == Some(Execute(p, t))
  {
    NestedIsPlain(t);
    EvaluatePrinted(p, t);
  }

  /** `${n:-t}`: what `${n}` gives if that is not empty, and what t gives otherwise. */
  lemma {:induction false} DefaultForm(p: Placeholders, name: string, t: Node)
    requires IsName(name) && Canonical(t, true)
    ensures var bare, other := Evaluate(p, "${" + name + "}"), Evaluate(p, Print(t));
            && bare.Some? && other.Some?
            && Evaluate(p, "${" + name + ":-" + Print(t) + "}") == if bare.value != "" then bare else other
  {
    DefaultText(p, t);
    EvaluatePrinted(p, Placeholder(name, None, false));
    EvaluatePrinted(p, Placeholder(name, Some(t), false));
  }

  /** `${n:+t}`: what t gives if `${n}` is not empty, and nothing otherwise. */
  lemma {:induction false} AlternativeForm(p: Placeholders, name: string, t: Node)
    requires IsName(name) && Canonical(t, true)
    ensures var bare, other := Evaluate(p, "${" + name + "}"), Evaluate(p, Print(t));
            && bare.Some? && other.Some?
            && Evaluate(p, "${" + name + ":+" + Print(t) + "}") == if bare.value != "" then other else Some("")
  {
    DefaultText(p, t);
    EvaluatePrinted(p, Placeholder(name, None, false));
    EvaluatePrinted(p, Placeholder(name, Some(t), true));
  }

  // ----- text around placeholders -----

  /** What the parts of a template give, one after the other. */
  function EvaluateAll(p: Placeholders, nodes: seq<Node>): string {
    if nodes == [] then ""
    else
      var first := Evaluate(p, Print(nodes[0]));
      (if first.Some? then first.value else "") + EvaluateAll(p, nodes[1..])
  }

  /** A template gives what its parts give, in order; and literal text gives itself. */
  lemma {:induction false} PartsInOrder(p: Placeholders, nodes: seq<Node>)
    requires |nodes| >= 2 && CanonicalItems(nodes, false)
    ensures Evaluate(p, PrintAll(nodes)) == Some(EvaluateAll(p, nodes))
  {
    hide CanonicalItems, CanonicalItem;
    EvaluatePrinted(p, Sequence(nodes)) by {
      assert Canonical(Sequence(nodes), false);
    }
    PartsMean(p, nodes);
  }

  lemma {:induction false} PartsMean(p: Placeholders, nodes: seq<Node>)
    requires CanonicalItems(nodes, false)
    ensures EvaluateAll(p, nodes) == ExecuteAll(p, nodes)
  {
    if nodes != [] {
      hide CanonicalItem, Evaluate;
      ItemIsTree(nodes[0]);
      EvaluatePrinted(p, nodes[0]);
      PartsMean(p, nodes[1..]);
    }
  }

  lemma ItemIsTree(node: Node)
    requires CanonicalItem(node, false)
    ensures Canonical(node, false)
  {}

  lemma {:induction false} LiteralText(p: Placeholders, text: string)
    requires '$' !in text
    ensures Evaluate(p, text) == Some(text)
  {
    EvaluatePrinted(p, Literal(text));
  }
}
