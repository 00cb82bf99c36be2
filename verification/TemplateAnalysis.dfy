/**
 What a template evaluates to, and the flattened form (a prefix, then each
 placeholder with the literal text after it) that routes and listings rely on.
 */
module TemplateAnalysis {
  import opened Text
  import opened TemplateSyntax

  datatype Placeholders = Placeholders(named: map<string, string>, indexed: seq<string>)

  /** strconv.Atoi on the names that the parser yields, which carry no sign. */
  function Atoi(s: string): Option<nat> {
    if s == "" || !IsDigit(s[|s| - 1]) then None
    else
      var d := s[|s| - 1] as int - '0' as int;
      if |s| == 1 then Some(d)
      else match Atoi(s[..|s| - 1]) case None => None case Some(n) => Some(10 * n + d)
  }

  /** A named value first, then an indexed one if the name is a number in range. */
  function Lookup(p: Placeholders, name: string): Option<string> {
    if name in p.named then Some(p.named[name])
    else
      match Atoi(name)
      case None => None
      case Some(i) => if i < |p.indexed| then Some(p.indexed[i]) else None
  }

  /** executeNode and executePlaceholder. */
  function Execute(p: Placeholders, node: Node): string
    decreases node
  {
    match node
    case Literal(value) => value
    case Placeholder(name, inner, ifSet) =>
      var value := Lookup(p, name);
      var isSet := value.Some? && value.value != "";
      (match inner
       case None => if value.Some? then value.value else ""
       case Some(tree) =>
         if ifSet then (if isSet then Execute(p, tree) else "")
         else if isSet then value.value
         else Execute(p, tree))
    case Sequence(nodes) => ExecuteAll(p, nodes)
  }

  function ExecuteAll(p: Placeholders, nodes: seq<Node>): string
    decreases nodes
  {
    if nodes == [] then "" else Execute(p, nodes[0]) + ExecuteAll(p, nodes[1..])
  }

  lemma {:induction false} ExecuteAppend(p: Placeholders, a: seq<Node>, b: seq<Node>)
    ensures ExecuteAll(p, a + b) == ExecuteAll(p, a) + ExecuteAll(p, b)
  {
    if a == [] {
      assert a + b == b;
    } else {
      assert (a + b)[1..] == a[1..] + b;
      ExecuteAppend(p, a[1..], b);
      Assoc(Execute(p, a[0]), ExecuteAll(p, a[1..]), ExecuteAll(p, b));
    }
  }

  // ----- the flattened form -----

  datatype PlaceholderTail = PlaceholderTail(placeholder: Node, tail: string)

  datatype Analysis = Analysis(prefix: string, rest: seq<PlaceholderTail>, containsConditionals: bool)

  /** The fields of templateAnalyzerContext. */
  datatype Context = Context(prefix: string, tail: string, last: Option<Node>, rest: seq<PlaceholderTail>,
                             conditionals: bool)

  const START := Context("", "", None, [], false)

  /** The literals and placeholders in order; what is inside a default value is not looked at. */
  function Leaves(node: Node): seq<Node>
    decreases node
  {
    match node
    case Sequence(nodes) => AllLeaves(nodes)
    case _ => [node]
  }

  function AllLeaves(nodes: seq<Node>): seq<Node>
    decreases nodes
  {
    if nodes == [] then [] else Leaves(nodes[0]) + AllLeaves(nodes[1..])
  }

  function Flush(c: Context): seq<PlaceholderTail> {
    match c.last case None => c.rest case Some(n) => c.rest + [PlaceholderTail(n, c.tail)]
  }

  function Visit(c: Context, leaf: Node): Context {
    match leaf
    case Placeholder(_, inner, _) =>
      Context(c.prefix, if c.last.Some? then "" else c.tail, Some(leaf), Flush(c), c.conditionals || inner.Some?)
    case Literal(value) =>
      if c.last.None? then c.(prefix := c.prefix + value) else c.(tail := c.tail + value)
    case Sequence(_) => c
  }

  function VisitAll(c: Context, leaves: seq<Node>): Context
    decreases |leaves|
  {
    if leaves == [] then c else VisitAll(Visit(c, leaves[0]), leaves[1..])
  }

  function Finish(c: Context): Analysis { Analysis(c.prefix, Flush(c), c.conditionals) }

  /** template.Analysis(), computed once when the template is parsed. */
  function Analyze(root: Node): Analysis { Finish(VisitAll(START, Leaves(root))) }

  lemma {:induction false} VisitAppend(c: Context, a: seq<Node>, b: seq<Node>)
    ensures VisitAll(c, a + b) == VisitAll(VisitAll(c, a), b)
    decreases |a|
  {
    if a == [] {
      assert a + b == b;
    } else {
      assert (a + b)[1..] == a[1..] + b;
      VisitAppend(Visit(c, a[0]), a[1..], b);
    }
  }

  /** The analyzer object, whose buffers are filled while it walks the tree. */
  class Analyzer {
    var prefixB: string
    var tailB: string
    var ln: Option<Node>
    var rest: seq<PlaceholderTail>
    var containsConditionals: bool

    ghost function State(): Context
      reads this
    {
      Context(prefixB, tailB, ln, rest, containsConditionals)
    }

    constructor ()
      ensures State() == START
    {
      prefixB, tailB, ln, rest, containsConditionals := "", "", None, [], false;
    }

    method Traverse(n: Node)
      modifies this
      ensures State() == VisitAll(old(State()), Leaves(n))
      decreases n
    {
      match n {
        case Placeholder(_, inner, _) =>
          if ln.Some? {
            rest := rest + [PlaceholderTail(ln.value, tailB)];
            tailB := "";
          }
          containsConditionals := containsConditionals || inner.Some?;
          ln := Some(n);
        case Literal(value) =>
          if ln.None? {
            prefixB := prefixB + value;
          } else {
            tailB := tailB + value;
          }
        case Sequence(nodes) =>
          ghost var before := State();
          assert nodes[..|nodes|] == nodes;
          for i := 0 to |nodes|
            invariant State() == VisitAll(before, AllLeaves(nodes[..i]))
          {
            ghost var c := State();
            Traverse(nodes[i]);
            AllLeavesAppend(nodes[..i], nodes[i]);
            assert nodes[..i + 1] == nodes[..i] + [nodes[i]];
            VisitAppend(before, AllLeaves(nodes[..i]), Leaves(nodes[i]));
          }
      }
    }

    method Finalize()
      modifies this`rest
      ensures rest == Flush(old(State()))
    {
      if ln.Some? {
        rest := rest + [PlaceholderTail(ln.value, tailB)];
      }
    }
  }

  lemma {:induction false} AllLeavesAppend(nodes: seq<Node>, last: Node)
    ensures AllLeaves(nodes + [last]) == AllLeaves(nodes) + Leaves(last)
  {
    if nodes == [] {
      assert [last][1..] == [] && Leaves(last) + [] == Leaves(last);
    } else {
      assert (nodes + [last])[1..] == nodes[1..] + [last];
      AllLeavesAppend(nodes[1..], last);
      Assoc(Leaves(nodes[0]), AllLeaves(nodes[1..]), Leaves(last));
    }
  }

  method AnalyzeTemplate(root: Node) returns (analysis: Analysis)
    ensures analysis == Analyze(root)
  {
    var ctx := new Analyzer();
    ctx.Traverse(root);
    ctx.Finalize();
    analysis := Analysis(ctx.prefixB, ctx.rest, ctx.containsConditionals);
  }

  // ----- the flattened form means the same as the tree -----

  /** The value of the flattened part: each placeholder's value followed by its tail. */
  function ExecuteRest(p: Placeholders, rest: seq<PlaceholderTail>): string {
    if rest == [] then ""
    else Execute(p, rest[0].placeholder) + rest[0].tail + ExecuteRest(p, rest[1..])
  }

  predicate IsConditional(node: Node) { node.Placeholder? && node.inner.Some? }

  predicate HasConditional(rest: seq<PlaceholderTail>) {
    exists i :: 0 <= i < |rest| && IsConditional(rest[i].placeholder)
  }

  lemma {:induction false} HasConditionalAppend(rest: seq<PlaceholderTail>, last: PlaceholderTail)
    ensures HasConditional(rest + [last]) <==> HasConditional(rest) || IsConditional(last.placeholder)
  {
    var all := rest + [last];
    assert all[|rest|] == last;
    assert forall i :: 0 <= i < |rest| ==> all[i] == rest[i];
  }

  lemma {:induction false} ExecuteRestAppend(p: Placeholders, rest: seq<PlaceholderTail>, last: PlaceholderTail)
    ensures ExecuteRest(p, rest + [last]) == ExecuteRest(p, rest) + Execute(p, last.placeholder) + last.tail
  {
    if rest == [] {
      assert [last][1..] == [];
    } else {
      assert (rest + [last])[1..] == rest[1..] + [last];
      ExecuteRestAppend(p, rest[1..], last);
    }
  }

  function ContextText(p: Placeholders, c: Context): string { c.prefix + ExecuteRest(p, Flush(c)) }

  /** What holds of the buffers at every moment of the walk. */
  predicate Consistent(c: Context) {
    && (c.last.None? ==> c.tail == "" && c.rest == [])
    && (c.last.Some? ==> c.last.value.Placeholder?)
    && (c.conditionals <==> HasConditional(Flush(c)))
  }

  lemma {:induction false} VisitStep(p: Placeholders, c: Context, leaf: Node)
    requires Consistent(c) && !leaf.Sequence?
    ensures Consistent(Visit(c, leaf))
    ensures ContextText(p, Visit(c, leaf)) == ContextText(p, c) + Execute(p, leaf)
  {
    hide HasConditional, Lookup;
    if leaf.Placeholder? {
      var added := PlaceholderTail(leaf, "");
      assert Flush(Visit(c, leaf)) == Flush(c) + [added];
      ExecuteRestAppend(p, Flush(c), added);
      HasConditionalAppend(Flush(c), added);
      AppendNothing(c.prefix, ExecuteRest(p, Flush(c)), Execute(p, leaf));
    } else if c.last.None? {
      assert ContextText(p, c) == c.prefix;
    } else {
      LiteralAfterPlaceholder(p, c, leaf.value);
    }
  }

  lemma AppendNothing(a: string, b: string, d: string)
    ensures a + (b + d + "") == (a + b) + d
  {}

  lemma {:induction false} LiteralAfterPlaceholder(p: Placeholders, c: Context, value: string)
    requires Consistent(c) && c.last.Some?
    ensures var d := c.(tail := c.tail + value);
            Consistent(d) && ContextText(p, d) == ContextText(p, c) + value
  {
    hide Execute, HasConditional;
    var n := c.last.value;
    var before, after := PlaceholderTail(n, c.tail), PlaceholderTail(n, c.tail + value);
    ExecuteRestAppend(p, c.rest, before);
    ExecuteRestAppend(p, c.rest, after);
    HasConditionalAppend(c.rest, before);
    HasConditionalAppend(c.rest, after);
  }

  lemma {:induction false} VisitLeaves(p: Placeholders, c: Context, leaves: seq<Node>)
    requires Consistent(c) && forall n :: n in leaves ==> !n.Sequence?
    ensures Consistent(VisitAll(c, leaves))
    ensures ContextText(p, VisitAll(c, leaves)) == ContextText(p, c) + ExecuteAll(p, leaves)
    decreases |leaves|
  {
    if leaves != [] {
      VisitStep(p, c, leaves[0]);
      VisitLeaves(p, Visit(c, leaves[0]), leaves[1..]);
      Assoc(ContextText(p, c), Execute(p, leaves[0]), ExecuteAll(p, leaves[1..]));
    }
  }

  lemma {:induction false} LeavesMean(p: Placeholders, node: Node)
    ensures ExecuteAll(p, Leaves(node)) == Execute(p, node)
    ensures forall n :: n in Leaves(node) ==> !n.Sequence?
    decreases node
  {
    if node.Sequence? {
      AllLeavesMean(p, node.nodes);
    } else {
      assert ExecuteAll(p, [node][1..]) == "";
    }
  }

  lemma {:induction false} AllLeavesMean(p: Placeholders, nodes: seq<Node>)
    ensures ExecuteAll(p, AllLeaves(nodes)) == ExecuteAll(p, nodes)
    ensures forall n :: n in AllLeaves(nodes) ==> !n.Sequence?
    decreases nodes
  {
    if nodes != [] {
      LeavesMean(p, nodes[0]);
      AllLeavesMean(p, nodes[1..]);
      ExecuteAppend(p, Leaves(nodes[0]), AllLeaves(nodes[1..]));
    }
  }

  /** For every tree and all values, evaluating the flattened form is evaluating the tree. */
  lemma {:induction false} AnalysisRefinesTree(p: Placeholders, root: Node)
    ensures Execute(p, root) == Analyze(root).prefix + ExecuteRest(p, Analyze(root).rest)
    ensures Analyze(root).containsConditionals <==> HasConditional(Analyze(root).rest)
  {
    LeavesMean(p, root);
    VisitLeaves(p, START, Leaves(root));
    assert "" + ExecuteAll(p, Leaves(root)) == ExecuteAll(p, Leaves(root));
  }
}
