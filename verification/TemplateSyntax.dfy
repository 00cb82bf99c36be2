/**
 Templates such as "PREFIX/${name:-${1}}": the syntax tree, and the parser as
 the router runs it, which cuts out the text of a default value by counting
 braces and then parses that text on its own.
 */
module TemplateSyntax {
  import opened Text

  datatype Node =
    | Literal(value: string)
    | Placeholder(name: string, inner: Option<Node>, ifSet: bool)
    | Sequence(nodes: seq<Node>)

  predicate IsDigit(ch: char) { '0' <= ch <= '9' }

  predicate IsIdentifierStart(ch: char) { 'a' <= ch <= 'z' || 'A' <= ch <= 'Z' || ch == '_' }

  predicate IsIdentifierPart(ch: char) { IsIdentifierStart(ch) || IsDigit(ch) }

  /** Length of the longest prefix of digits. */
  function DigitRun(s: string): (n: nat)
    ensures n <= |s|
  {
    if s != "" && IsDigit(s[0]) then 1 + DigitRun(s[1..]) else 0
  }

  function IdentifierRun(s: string): (n: nat)
    ensures n <= |s|
  {
    if s != "" && IsIdentifierPart(s[0]) then 1 + IdentifierRun(s[1..]) else 0
  }

  /** Length of the name that s starts with: a number or an identifier, 0 if neither. */
  function NameLength(s: string): (n: nat)
    ensures n <= |s|
  {
    if DigitRun(s) > 0 then DigitRun(s)
    else if s == "" || !IsIdentifierStart(s[0]) then 0
    else 1 + IdentifierRun(s[1..])
  }

  /** Length of the literal text that s starts with; inside a default value it also ends at '}'. */
  function LiteralRun(s: string, nested: bool): (n: nat)
    ensures n <= |s|
    ensures n == 0 <==> s == "" || s[0] == '$' || (nested && s[0] == '}')
  {
    if s == "" || s[0] == '$' || (nested && s[0] == '}') then 0 else 1 + LiteralRun(s[1..], nested)
  }

  predicate StartsWith(s: string, ch: char) { s != "" && s[0] == ch }

  predicate StartsOperator(s: string) { |s| >= 2 && s[0] == ':' && (s[1] == '-' || s[1] == '+') }

  /** An empty list becomes an empty literal and a single node stands for itself. */
  function Collapse(nodes: seq<Node>): Node {
    if nodes == [] then Literal("") else if |nodes| == 1 then nodes[0] else Sequence(nodes)
  }

  function Shift(n: nat, r: Option<nat>): Option<nat> {
    match r case None => None case Some(k) => Some(n + k)
  }

  /** The brace count of parseDefaultValue: where the brace that brings the depth to zero is. */
  function ScanDefault(s: string, depth: nat): (r: Option<nat>)
    requires depth > 0
    ensures r.Some? ==> r.value < |s| && s[r.value] == '}'
  {
    if s == "" then None
    else if s[0] == '$' && |s| >= 2 && s[1] == '{' then Shift(2, ScanDefault(s[2..], depth + 1))
    else if s[0] == '}' then if depth == 1 then Some(0) else Shift(1, ScanDefault(s[1..], depth - 1))
    else Shift(1, ScanDefault(s[1..], depth))
  }

  /** A node and the number of characters it was parsed from. */
  type Parsed = Option<(Node, nat)>

  predicate Within(p: Parsed, n: nat) { p.Some? ==> 0 < p.value.1 <= n }

  /** parseBracedPlaceholder, on the text after "${". */
  function ParseBraced(s: string): (r: Parsed)
    ensures Within(r, |s|)
    decreases |s|, 0
  {
    var n := NameLength(s);
    var r := s[n..];
    if n == 0 then None
    else if StartsOperator(r) then
      match ScanDefault(r[2..], 1)
      case None => None
      case Some(k) =>
        match ParseItems(r[2..][..k])
        case None => None
        case Some(nodes) => Some((Placeholder(s[..n], Some(Collapse(nodes)), r[1] == '+'), n + 2 + k + 1))
    else if StartsWith(r, '}') then Some((Placeholder(s[..n], None, false), n + 1))
    else None
  }

  /** parsePlaceholder; a '$' without a name after it is literal text. */
  function ParsePlaceholder(s: string): (r: Parsed)
    requires StartsWith(s, '$')
    ensures Within(r, |s|)
    decreases |s|, 0
  {
    var rest := s[1..];
    if StartsWith(rest, '{') then
      match ParseBraced(rest[1..])
      case None => None
      case Some((node, n)) => Some((node, n + 2))
    else
      var n := NameLength(rest);
      if n == 0 then Some((Literal("$"), 1)) else Some((Placeholder(rest[..n], None, false), n + 1))
  }

  /** The loop of parseTemplate: the nodes of the whole text. */
  function ParseItems(s: string): Option<seq<Node>>
    decreases |s|, 2
  {
    if s == "" then Some([])
    else
      match ParseItem(s)
      case None => None
      case Some((node, k)) =>
        match ParseItems(s[k..])
        case None => None
        case Some(nodes) => Some([node] + nodes)
  }

  /** One round of the loop of parseTemplate. */
  function ParseItem(s: string): (r: Parsed)
    requires s != ""
    ensures Within(r, |s|)
    decreases |s|, 1
  {
    if s[0] == '$' then ParsePlaceholder(s)
    else Some((Literal(s[..LiteralRun(s, false)]), LiteralRun(s, false)))
  }

  function ParseTemplate(s: string): Option<Node> {
    match ParseItems(s)
    case None => None
    case Some(nodes) => Some(Collapse(nodes))
  }
}

/** The parser object, whose position advances through its input. */
module TemplateParsing {
  import opened Text
  import opened TemplateSyntax

  class Parser {
    const input: string
    var pos: nat

    ghost predicate Valid()
      reads this
    {
      pos <= |input|
    }

    ghost function Rest(): string
      requires Valid()
      reads this
    {
      input[pos..]
    }

    constructor (input: string)
      ensures Valid() && this.input == input && pos == 0
    {
      this.input := input;
      this.pos := 0;
    }

    /** The current character; Go returns byte 0 at the end, which equals no character tested for. */
    predicate At(ch: char)
      reads this
    {
      pos < |input| && input[pos] == ch
    }

    predicate PeekIs(ch: char)
      reads this
    {
      pos + 1 < |input| && input[pos + 1] == ch
    }

    method ParseLiteral() returns (node: Node)
      requires Valid()
      modifies this`pos
      ensures Valid()
      ensures var n := LiteralRun(old(Rest()), false);
              node == Literal(old(Rest())[..n]) && pos == old(pos) + n
    {
      var start := pos;
      while pos < |input| && !At('$')
        invariant start <= pos <= |input|
        invariant LiteralRun(input[start..], false) == pos - start + LiteralRun(input[pos..], false)
      {
        assert input[pos..][1..] == input[pos + 1..];
        pos := pos + 1;
      }
      node := Literal(input[start..pos]);
    }

    method SkipDigits()
      requires Valid()
      modifies this`pos
      ensures Valid() && pos == old(pos) + DigitRun(old(Rest()))
    {
      var start := pos;
      while pos < |input| && IsDigit(input[pos])
        invariant start <= pos <= |input|
        invariant DigitRun(input[start..]) == pos - start + DigitRun(input[pos..])
      {
        assert input[pos..][1..] == input[pos + 1..];
        pos := pos + 1;
      }
    }

    method SkipIdentifier()
      requires Valid()
      modifies this`pos
      ensures Valid() && pos == old(pos) + IdentifierRun(old(Rest()))
    {
      var start := pos;
      while pos < |input| && IsIdentifierPart(input[pos])
        invariant start <= pos <= |input|
        invariant IdentifierRun(input[start..]) == pos - start + IdentifierRun(input[pos..])
      {
        assert input[pos..][1..] == input[pos + 1..];
        pos := pos + 1;
      }
    }

    method ParseName() returns (name: string)
      requires Valid()
      modifies this`pos
      ensures Valid()
      ensures var n := NameLength(old(Rest()));
              name == old(Rest())[..n] && pos == old(pos) + n
    {
      var start := pos;
      SkipDigits();
      if pos > start {
        return input[start..pos];
      }
      if pos >= |input| || !IsIdentifierStart(input[pos]) {
        return "";
      }
      pos := pos + 1;
      assert input[start..][1..] == Rest();
      SkipIdentifier();
      name := input[start..pos];
    }

    /** The loop of parseDefaultValue, which leaves pos at the closing brace. */
    method FindClosingBrace() returns (found: bool)
      requires Valid()
      modifies this`pos
      ensures Valid()
      ensures match ScanDefault(old(Rest()), 1)
        case None => !found
        case Some(k) => found && pos == old(pos) + k
    {
      hide ScanDefault;
      var start := pos;
      var depth := 1;
      while pos < |input| && depth > 0
        invariant start <= pos <= |input| && depth >= 1
        invariant ScanDefault(input[start..], 1) == Shift(pos - start, ScanDefault(input[pos..], depth))
      {
        ScanStep(pos, depth);
        if At('$') && PeekIs('{') {
          pos := pos + 2;
          depth := depth + 1;
        } else if At('}') {
          if depth == 1 {
            return true;
          }
          depth := depth - 1;
          pos := pos + 1;
        } else {
          pos := pos + 1;
        }
      }
      ScanEmpty(depth);
      found := false;
    }

    lemma ScanEmpty(depth: nat)
      requires depth > 0
      ensures ScanDefault("", depth) == None
    {}

    lemma {:induction false} ScanStep(p: nat, depth: nat)
      requires p < |input| && depth > 0
      ensures ScanDefault(input[p..], depth) ==
              if input[p] == '$' && p + 1 < |input| && input[p + 1] == '{' then
                Shift(2, ScanDefault(input[p + 2..], depth + 1))
              else if input[p] == '}' then
                if depth == 1 then Some(0) else Shift(1, ScanDefault(input[p + 1..], depth - 1))
              else Shift(1, ScanDefault(input[p + 1..], depth))
    {
      var s := input[p..];
      assert s[1..] == input[p + 1..];
      assert |s| >= 2 ==> s[2..] == input[p + 2..];
    }

    /** parseDefaultValue: finds the closing brace, then runs a parser of its own on the text before it. */
    method ParseDefaultValue() returns (node: Option<Node>)
      requires Valid()
      modifies this`pos
      ensures Valid()
      ensures match ScanDefault(old(Rest()), 1)
        case None => node.None?
        case Some(k) => node == ParseTemplate(old(Rest())[..k]) && pos == old(pos) + k
      decreases |input| - pos, 3
    {
      var start := pos;
      var found := FindClosingBrace();
      if !found {
        return None;
      }
      var defaultStr := input[start..pos];
      assert defaultStr == input[start..][..pos - start];
      var subParser := new Parser(defaultStr);
      assert subParser.Rest() == defaultStr;
      node := subParser.ParseTemplateText();
    }

    lemma {:induction false} ParseBracedCases(s: string)
      ensures var n := NameLength(s);
              var r := s[n..];
              ParseBraced(s) ==
              if n == 0 then None
              else if StartsOperator(r) then
                match ScanDefault(r[2..], 1)
                case None => None
                case Some(k) =>
                  match ParseTemplate(r[2..][..k])
                  case None => None
                  case Some(inner) => Some((Placeholder(s[..n], Some(inner), r[1] == '+'), n + 2 + k + 1))
              else if StartsWith(r, '}') then Some((Placeholder(s[..n], None, false), n + 1))
              else None
    {
      hide NameLength, ScanDefault, ParseItems;
    }

    method ParseBracedPlaceholder() returns (node: Option<Node>)
      requires Valid() && At('{')
      modifies this`pos
      ensures Valid()
      ensures match ParseBraced(old(Rest())[1..])
        case None => node.None?
        case Some((n, k)) => node == Some(n) && pos == old(pos) + 1 + k
      decreases |input| - pos, 0
    {
      hide NameLength, ScanDefault, ParseItems, ParseBraced;
      ghost var s := Rest()[1..];
      ParseBracedCases(s);
      pos := pos + 1;
      assert Rest() == s;
      var name := ParseName();
      if name == "" {
        return None;
      }
      assert Rest() == s[|name|..];
      if At(':') && (PeekIs('-') || PeekIs('+')) {
        var isPositive := PeekIs('+');
        ghost var d := Rest()[2..];
        pos := pos + 2;
        assert Rest() == d;
        var expansion := ParseDefaultValue();
        if expansion.None? || !At('}') {
          return None;
        }
        pos := pos + 1;
        return Some(Placeholder(name, expansion, isPositive));
      }
      if !At('}') {
        return None;
      }
      pos := pos + 1;
      return Some(Placeholder(name, None, false));
    }

    method ParsePlaceholderNode() returns (node: Option<Node>)
      requires Valid() && At('$')
      modifies this`pos
      ensures Valid()
      ensures match ParsePlaceholder(old(Rest()))
        case None => node.None?
        case Some((n, k)) => node == Some(n) && pos == old(pos) + k
      decreases |input| - pos, 1
    {
      ghost var rest := Rest()[1..];
      pos := pos + 1;
      assert Rest() == rest;
      if At('{') {
        node := ParseBracedPlaceholder();
        return;
      }
      var name := ParseName();
      if name == "" {
        return Some(Literal("$"));
      }
      return Some(Placeholder(name, None, false));
    }

    lemma ParseItemCases(s: string)
      requires s != ""
      ensures s[0] == '$' ==> ParseItem(s) == ParsePlaceholder(s)
      ensures s[0] != '$' ==>
                ParseItem(s) == Some((Literal(s[..LiteralRun(s, false)]), LiteralRun(s, false)))
    {}

    method ParseTemplateText() returns (node: Option<Node>)
      requires Valid()
      modifies this`pos
      ensures Valid() && node == ParseTemplate(old(Rest()))
      decreases |input| - pos, 2
    {
      hide ParseItem;
      var nodes: seq<Node> := [];
      ghost var all := ParseItems(Rest());
      assert all.Some? ==> [] + all.value == all.value;
      while pos < |input|
        invariant Valid() && pos >= old(pos)
        invariant all == (match ParseItems(Rest()) case None => None case Some(more) => Some(nodes + more))
      {
        ghost var s := Rest();
        ParseItemCases(s);
        var item: Node;
        if At('$') {
          var ph := ParsePlaceholderNode();
          if ph.None? {
            return None;
          }
          item := ph.value;
        } else {
          item := ParseLiteral();
        }
        assert ParseItem(s) == Some((item, |s| - |Rest()|));
        assert Rest() == s[|s| - |Rest()|..];
        ghost var more := ParseItems(Rest());
        if more.Some? {
          Assoc(nodes, [item], more.value);
        }
        nodes := nodes + [item];
      }
      assert nodes + [] == nodes;
      if |nodes| == 0 {
        return Some(Literal(""));
      }
      if |nodes| == 1 {
        return Some(nodes[0]);
      }
      return Some(Sequence(nodes));
    }
  }

  /** template.Parse, up to the analysis of the tree. */
  method Parse(input: string) returns (root: Option<Node>)
    ensures root == ParseTemplate(input)
  {
    var parser := new Parser(input);
    assert parser.Rest() == input;
    root := parser.ParseTemplateText();
  }
}
