/**
 * The recursive-descent parser of src/syntax/parser.rs and
 * src/syntax/parser/mod.rs with the production files under src/syntax/, as
 * functions from the node list and a cursor (position and diagnostics so
 * far) to the parsed value and the new cursor. A panic of the source is a
 * `Fail(Panic)`. The imperative `Parser` class is proved against these.
 */
module Grammar {
  import opened Fallible
  import opened Tokens
  import opened Errors
  import opened SyntaxTree

  /** What the parser updates: its position in the node list and its diagnostics. */
  datatype Cursor = Cursor(position: nat, errors: seq<Error>)

  /** A parsed value and the cursor after it. */
  datatype Parsed<+T> = Parsed(value: T, cursor: Cursor)

  /** `c'` is further along than `c` and kept every diagnostic `c` had. */
  predicate Advanced(c: Cursor, c': Cursor) {
    c.position < c'.position && c.errors <= c'.errors
  }

  /** `peek(ahead)`: the token `ahead` nodes past the position, EndOfFile past the end. */
  function Peek(nodes: seq<Node>, c: Cursor, ahead: nat): Token {
    if c.position + ahead < |nodes| then nodes[c.position + ahead].token else EndOfFile
  }

  /** How many nodes are left to read. */
  function Remaining(nodes: seq<Node>, c: Cursor): nat {
    if c.position <= |nodes| then |nodes| - c.position else 0
  }

  /** Where the past-end EndOfFile node is placed: just after the last node's lexeme. */
  function PastEnd(last: Description): (p: nat)
    ensures p >= last.position && p - last.position == last.length
  {
    last.position + last.length
  }

  /** The past-end position as the source computes it, counting the last node's position twice. */
  function PastEndAsWritten(last: Description): nat {
    last.position + last.position + last.length
  }

  /** The past-end node: EndOfFile, empty, after the last node. */
  function EndNode(nodes: seq<Node>): Node
    requires nodes != []
  {
    Node(EndOfFile, Description(PastEnd(nodes[|nodes| - 1].description), 0))
  }

  /**
   * `next`: the node at the position, or the past-end EndOfFile node; the
   * position moves by one either way. Past the end of an empty node list
   * the source unwraps a missing last node and panics.
   */
  function Next(nodes: seq<Node>, c: Cursor): (r: Result<Parsed<Node>>)
    ensures r.Fail? <==> nodes == []
    ensures r.Ok? ==> r.value.cursor == Cursor(c.position + 1, c.errors)
    ensures r.Ok? ==> r.value.value.token == Peek(nodes, c, 0)
    ensures r.Ok? && c.position < |nodes| ==> r.value.value == nodes[c.position]
    ensures r.Ok? && c.position >= |nodes| ==> r.value.value == EndNode(nodes)
    ensures r.Ok? && c.position >= |nodes| ==> r.value.value.description.length == 0
  {
    var c' := Cursor(c.position + 1, c.errors);
    if c.position < |nodes| then Ok(Parsed(nodes[c.position], c'))
    else if nodes == [] then Fail(Panic)
    else Ok(Parsed(EndNode(nodes), c'))
  }

  /** The range a node's lexeme covers. */
  function RangeOf(n: Node): Range {
    Range(n.description.position, n.description.position + n.description.length)
  }

  /**
   * `expect`: take the next node; on a token other than `expected`, record
   * one UnexpectedToken (range, expected, found) and carry on with the node
   * retagged as `expected`.
   */
  function Expect(nodes: seq<Node>, c: Cursor, expected: Token): (r: Result<Parsed<Node>>)
    ensures r.Fail? <==> nodes == []
    ensures r.Ok? ==> r.value.value.token == expected && r.value.cursor.position == c.position + 1
    ensures r.Ok? ==> r.value.value.description == Next(nodes, c).value.value.description
    ensures r.Ok? && Peek(nodes, c, 0) == expected ==> r.value.cursor.errors == c.errors
    ensures r.Ok? && Peek(nodes, c, 0) != expected ==>
      r.value.cursor.errors == c.errors + [UnexpectedToken(RangeOf(Next(nodes, c).value.value), expected, Peek(nodes, c, 0))]
  {
    var n :- Next(nodes, c);
    if n.value.token == expected then Ok(n)
    else
      var error := UnexpectedToken(RangeOf(n.value), expected, n.value.token);
      Ok(Parsed(Node(expected, n.value.description), n.cursor.(errors := n.cursor.errors + [error])))
  }

  /** `assert`: take the next node, which must carry `expected`; anything else panics. */
  function Assert(nodes: seq<Node>, c: Cursor, expected: Token): (r: Result<Parsed<Node>>)
    ensures r.Ok? <==> nodes != [] && Peek(nodes, c, 0) == expected
    ensures r.Ok? ==> r.value.cursor == Cursor(c.position + 1, c.errors) && r.value.value.token == expected
    ensures r.Ok? && expected != EndOfFile ==> c.position < |nodes| && r.value.value == nodes[c.position]
  {
    var n :- Next(nodes, c);
    if n.value.token == expected then Ok(n) else Fail(Panic)
  }

  /** The tokens `primary` turns into a literal. */
  predicate IsLiteralToken(t: Token) {
    t == Number || t == String || t == Boolean || t == Tokens.None
  }

  /**
   * `primary`: a parenthesised statement, a literal, or else a name taken
   * with `expect(Identifier)`. It always consumes at least one node.
   */
  function ParsePrimary(nodes: seq<Node>, c: Cursor): (r: Result<Parsed<Syntax>>)
    ensures r.Fail? <==> nodes == []
    ensures r.Ok? ==> Advanced(c, r.value.cursor)
    ensures r.Ok? && IsLiteralToken(Peek(nodes, c, 0)) ==>
      r.value == Parsed(Literal(nodes[c.position]), Cursor(c.position + 1, c.errors))
    ensures r.Ok? && Peek(nodes, c, 0) == OpenParenthesis ==>
      var inner := ParseStatement(nodes, Cursor(c.position + 1, c.errors));
      && inner.Ok?
      && r.value == Parsed(inner.value.value, Expect(nodes, inner.value.cursor, CloseParenthesis).value.cursor)
    ensures r.Ok? && Peek(nodes, c, 0) != OpenParenthesis && !IsLiteralToken(Peek(nodes, c, 0)) ==>
      r.value == Parsed(Name(Expect(nodes, c, Identifier).value.value), Expect(nodes, c, Identifier).value.cursor)
    ensures r.Ok? && Peek(nodes, c, 0) != OpenParenthesis && !IsLiteralToken(Peek(nodes, c, 0)) ==>
      r.value.value.Name? && r.value.value.node.token == Identifier
    decreases Remaining(nodes, c), 1
  {
    if Peek(nodes, c, 0) == OpenParenthesis then
      var open := Next(nodes, c).value;
      var e := ParseStatement(nodes, open.cursor).value;
      var close := Expect(nodes, e.cursor, CloseParenthesis).value;
      Ok(Parsed(e.value, close.cursor))
    else if IsLiteralToken(Peek(nodes, c, 0)) then
      var n := Next(nodes, c).value;
      Ok(Parsed(Literal(n.value), n.cursor))
    else
      var n :- Expect(nodes, c, Identifier);
      Ok(Parsed(Name(n.value), n.cursor))
  }

  /** Where a call chain stops: at EndOfFile or at a closing parenthesis, which it leaves unread. */
  predicate ChainEnds(nodes: seq<Node>, c: Cursor) {
    Peek(nodes, c, 0) == EndOfFile || Peek(nodes, c, 0) == CloseParenthesis
  }

  /** `call` (CallSyntax::parse): a primary, then more primaries folded onto it from the left. */
  function ParseCall(nodes: seq<Node>, c: Cursor): (r: Result<Parsed<Syntax>>)
    ensures r.Fail? <==> nodes == []
    ensures r.Ok? ==> Advanced(c, r.value.cursor) && ChainEnds(nodes, r.value.cursor)
    decreases Remaining(nodes, c), 3
  {
    var left :- ParsePrimary(nodes, c);
    CallChain(nodes, left.value, left.cursor)
  }

  /** The loop of `call`: while the chain has not ended, apply `left` to the next primary. */
  function CallChain(nodes: seq<Node>, left: Syntax, c: Cursor): (r: Result<Parsed<Syntax>>)
    ensures r.Ok?
    ensures c.position <= r.value.cursor.position && c.errors <= r.value.cursor.errors
    ensures ChainEnds(nodes, r.value.cursor)
    decreases Remaining(nodes, c), 2
  {
    if ChainEnds(nodes, c) then Ok(Parsed(left, c))
    else
      var right := ParsePrimary(nodes, c).value;
      CallChain(nodes, Call(left, right.value), right.cursor)
  }

  /**
   * The primaries a call chain reads from `c` on, one `primary` after
   * another, up to the EndOfFile or closing parenthesis that ends it.
   */
  function Primaries(nodes: seq<Node>, c: Cursor): seq<Syntax>
    decreases Remaining(nodes, c)
  {
    if ChainEnds(nodes, c) then []
    else
      var p := ParsePrimary(nodes, c).value;
      [p.value] + Primaries(nodes, p.cursor)
  }

  /** `AssignmentSyntax::parse`: the name by `expect`, `=` by `assert`, then a statement; no annotation. */
  function ParseAssignment(nodes: seq<Node>, c: Cursor): (r: Result<Parsed<Syntax>>)
    ensures r.Fail? <==> nodes == [] || Peek(nodes, c, 1) != Equals
    ensures r.Ok? ==> Advanced(c, r.value.cursor)
    ensures r.Ok? ==>
      && r.value.value.Assignment? && r.value.value.typeExpression.None?
      && r.value.value.target.token == Identifier && r.value.value.equals == nodes[c.position + 1]
    ensures r.Ok? ==>
      var name := Expect(nodes, c, Identifier).value;
      var e := ParseStatement(nodes, Cursor(c.position + 2, name.cursor.errors));
      && e.Ok?
      && r.value == Parsed(Assignment(name.value, Option.None, nodes[c.position + 1], e.value.value), e.value.cursor)
    decreases Remaining(nodes, c), 3
  {
    var name :- Expect(nodes, c, Identifier);
    var equals :- Assert(nodes, name.cursor, Equals);
    var e := ParseStatement(nodes, equals.cursor).value;
    Ok(Parsed(Assignment(name.value, Option.None, equals.value, e.value), e.cursor))
  }

  /** `parse_with_type`: the given name and annotation, `=` by `expect`, then a statement. */
  function ParseAssignmentWithType(nodes: seq<Node>, name: Node, annotation: TypeExpressionSyntax, c: Cursor)
    : (r: Result<Parsed<Syntax>>)
    ensures r.Fail? <==> nodes == []
    ensures r.Ok? ==> Advanced(c, r.value.cursor)
    ensures r.Ok? ==>
      && r.value.value.Assignment? && r.value.value.target == name
      && r.value.value.typeExpression == Some(annotation) && r.value.value.equals.token == Equals
    ensures r.Ok? ==>
      var equals := Expect(nodes, c, Equals).value;
      var e := ParseStatement(nodes, equals.cursor);
      && e.Ok?
      && r.value == Parsed(Assignment(name, Some(annotation), equals.value, e.value.value), e.value.cursor)
    decreases Remaining(nodes, c), 5
  {
    var equals :- Expect(nodes, c, Equals);
    var e := ParseStatement(nodes, equals.cursor).value;
    Ok(Parsed(Assignment(name, Some(annotation), equals.value, e.value), e.cursor))
  }

  /**
   * `ClosureSyntax::parse`: the parameter by `expect`, the lambda by
   * `assert`, the colon and the type name by `expect`, then the body.
   */
  function ParseClosure(nodes: seq<Node>, c: Cursor): (r: Result<Parsed<Syntax>>)
    ensures r.Fail? <==> nodes == [] || Peek(nodes, c, 1) != Lambda
    ensures r.Ok? ==> Advanced(c, r.value.cursor)
    ensures r.Ok? ==>
      && r.value.value.Closure? && r.value.value.name.token == Identifier
      && r.value.value.lambda == nodes[c.position + 1]
      && r.value.value.colon.token == Colon && r.value.value.typeName.token == Identifier
    ensures r.Ok? ==>
      var name := Expect(nodes, c, Identifier).value;
      var colon := Expect(nodes, Cursor(c.position + 2, name.cursor.errors), Colon).value;
      var typeName := Expect(nodes, colon.cursor, Identifier).value;
      var body := ParseStatement(nodes, typeName.cursor);
      && body.Ok?
      && r.value == Parsed(Closure(name.value, nodes[c.position + 1], colon.value, typeName.value, body.value.value), body.value.cursor)
    decreases Remaining(nodes, c), 3
  {
    var name :- Expect(nodes, c, Identifier);
    var lambda :- Assert(nodes, name.cursor, Lambda);
    var colon := Expect(nodes, lambda.cursor, Colon).value;
    var typeName := Expect(nodes, colon.cursor, Identifier).value;
    var body := ParseStatement(nodes, typeName.cursor).value;
    Ok(Parsed(Closure(name.value, lambda.value, colon.value, typeName.value, body.value), body.cursor))
  }

  /** `TypeExpressionSyntax::parse`: the colon by `assert`, then the name by `expect`. */
  function ParseTypeExpression(nodes: seq<Node>, c: Cursor): (r: Result<Parsed<TypeExpressionSyntax>>)
    ensures r.Fail? <==> nodes == [] || Peek(nodes, c, 0) != Colon
    ensures r.Ok? ==> r.value.cursor.position == c.position + 2 && c.errors <= r.value.cursor.errors
    ensures r.Ok? ==> r.value.value.colon == nodes[c.position] && r.value.value.name.token == Identifier
    ensures r.Ok? ==>
      var name := Expect(nodes, Cursor(c.position + 1, c.errors), Identifier).value;
      r.value == Parsed(TypeExpressionSyntax(nodes[c.position], name.value), name.cursor)
  {
    var colon :- Assert(nodes, c, Colon);
    var name := Expect(nodes, colon.cursor, Identifier).value;
    Ok(Parsed(TypeExpressionSyntax(colon.value, name.value), name.cursor))
  }

  /**
   * `Syntax::parse`: the token after the current one alone picks the
   * production: `=` an assignment, the lambda a closure, anything else a
   * call chain. It panics exactly when there are no nodes at all.
   */
  function ParseStatement(nodes: seq<Node>, c: Cursor): (r: Result<Parsed<Syntax>>)
    ensures r.Fail? <==> nodes == []
    ensures r.Ok? ==> Advanced(c, r.value.cursor)
    ensures r.Ok? && Peek(nodes, c, 1) == Equals ==> r.value.value.Assignment?
    ensures r.Ok? && Peek(nodes, c, 1) == Lambda ==> r.value.value.Closure?
    ensures Peek(nodes, c, 1) == Equals ==> r == ParseAssignment(nodes, c)
    ensures Peek(nodes, c, 1) == Lambda ==> r == ParseClosure(nodes, c)
    ensures Peek(nodes, c, 1) != Equals && Peek(nodes, c, 1) != Lambda ==> r == ParseCall(nodes, c)
    decreases Remaining(nodes, c), 4
  {
    match Peek(nodes, c, 1)
    case Equals => ParseAssignment(nodes, c)
    case Lambda => ParseClosure(nodes, c)
    case _ => ParseCall(nodes, c)
  }

  // ---------------------------------------------------------------------------
  // Properties

  /** One step of a chain that has not ended: read a primary, apply `left` to it, go on. */
  lemma ChainStep(nodes: seq<Node>, left: Syntax, c: Cursor)
    requires !ChainEnds(nodes, c)
    ensures var right := ParsePrimary(nodes, c).value;
      && CallChain(nodes, left, c) == CallChain(nodes, Call(left, right.value), right.cursor)
      && Primaries(nodes, c) == [right.value] + Primaries(nodes, right.cursor)
      && Remaining(nodes, right.cursor) < Remaining(nodes, c)
  {
  }

  /**
   * A call chain folds the primaries it reads onto `left` from the left:
   * `left p1 p2` is `Call(Call(left, p1), p2)`.
   */
  lemma {:induction false} CallChainFoldsLeft(nodes: seq<Node>, left: Syntax, c: Cursor)
    ensures CallChain(nodes, left, c).value.value == FoldCalls([left] + Primaries(nodes, c))
    decreases Remaining(nodes, c)
  {
    if !ChainEnds(nodes, c) {
      ChainStep(nodes, left, c);
      var right := ParsePrimary(nodes, c).value;
      var rest := Primaries(nodes, right.cursor);
      CallChainFoldsLeft(nodes, Call(left, right.value), right.cursor);
      FoldCallsHead(left, right.value, rest, Primaries(nodes, c));
    }
  }

  /** The operands of a call chain's result are those of `left` followed by the primaries read. */
  lemma {:induction false} CallChainSpine(nodes: seq<Node>, left: Syntax, c: Cursor)
    ensures Spine(CallChain(nodes, left, c).value.value) == Spine(left) + Primaries(nodes, c)
    decreases Remaining(nodes, c)
  {
    if !ChainEnds(nodes, c) {
      ChainStep(nodes, left, c);
      var right := ParsePrimary(nodes, c).value;
      var rest := Primaries(nodes, right.cursor);
      CallChainSpine(nodes, Call(left, right.value), right.cursor);
      SpineOfCallThen(left, right.value, rest, Primaries(nodes, c));
    }
  }

  /** Folding `Call(a, b)` and then the rest is folding `a`, then `b`, then the rest. */
  lemma {:induction false} FoldCallsHead(a: Syntax, b: Syntax, rest: seq<Syntax>, items: seq<Syntax>)
    requires items == [b] + rest
    ensures FoldCalls([Call(a, b)] + rest) == FoldCalls([a] + items)
    decreases |rest|
  {
    if rest != [] {
      var xs, ys := [Call(a, b)] + rest, [a] + items;
      var init := rest[..|rest| - 1];
      assert xs[..|xs| - 1] == [Call(a, b)] + init;
      assert ys[..|ys| - 1] == [a] + ([b] + init);
      FoldCallsHead(a, b, init, [b] + init);
    }
  }

  /** The operands of `Call(a, b)` followed by the rest are those of `a`, then `b`, then the rest. */
  lemma SpineOfCallThen(a: Syntax, b: Syntax, rest: seq<Syntax>, items: seq<Syntax>)
    requires items == [b] + rest
    ensures Spine(Call(a, b)) + rest == Spine(a) + items
  {
    SpineOfCall(a, b);
  }

  /**
   * `call` is its first primary with the chain's primaries folded onto it
   * from the left; when that first primary is not itself a parenthesised
   * call, the operands of the result are exactly the primaries read.
   */
  lemma ParseCallFoldsLeft(nodes: seq<Node>, c: Cursor)
    ensures ParseCall(nodes, c).Ok? ==>
      var first := ParsePrimary(nodes, c).value;
      && ParseCall(nodes, c).value.value == FoldCalls([first.value] + Primaries(nodes, first.cursor))
      && (!first.value.Call? ==> Spine(ParseCall(nodes, c).value.value) == [first.value] + Primaries(nodes, first.cursor))
  {
    if nodes != [] {
      var first := ParsePrimary(nodes, c).value;
      CallChainFoldsLeft(nodes, first.value, first.cursor);
      CallChainSpine(nodes, first.value, first.cursor);
    }
  }

  /**
   * A statement whose second token is neither `=` nor the lambda is a call
   * chain: its first primary with the following primaries folded onto it
   * from the left, stopping at EndOfFile or `)`.
   */
  lemma StatementCallFoldsLeft(nodes: seq<Node>, c: Cursor)
    ensures Peek(nodes, c, 1) != Equals && Peek(nodes, c, 1) != Lambda && nodes != [] ==>
      var first := ParsePrimary(nodes, c).value;
      var r := ParseStatement(nodes, c);
      && r.Ok?
      && r.value.value == FoldCalls([first.value] + Primaries(nodes, first.cursor))
      && ChainEnds(nodes, r.value.cursor)
  {
    ParseCallFoldsLeft(nodes, c);
  }

  /** Three juxtaposed names parse as `Call(Call(a, b), c)` with no diagnostic. */
  lemma ThreeNamesFoldLeft(a: Description, b: Description, d: Description)
    ensures var nodes := [Node(Identifier, a), Node(Identifier, b), Node(Identifier, d)];
      ParseStatement(nodes, Cursor(0, [])) ==
        Ok(Parsed(Call(Call(Name(nodes[0]), Name(nodes[1])), Name(nodes[2])), Cursor(3, [])))
  {
    var nodes := [Node(Identifier, a), Node(Identifier, b), Node(Identifier, d)];
    var n0, n1, n2 := Name(nodes[0]), Name(nodes[1]), Name(nodes[2]);
    assert ParsePrimary(nodes, Cursor(0, [])) == Ok(Parsed(n0, Cursor(1, [])));
    assert ParsePrimary(nodes, Cursor(1, [])) == Ok(Parsed(n1, Cursor(2, [])));
    assert ParsePrimary(nodes, Cursor(2, [])) == Ok(Parsed(n2, Cursor(3, [])));
    assert CallChain(nodes, Call(Call(n0, n1), n2), Cursor(3, [])) == Ok(Parsed(Call(Call(n0, n1), n2), Cursor(3, [])));
    assert CallChain(nodes, Call(n0, n1), Cursor(2, [])) == Ok(Parsed(Call(Call(n0, n1), n2), Cursor(3, [])));
    assert CallChain(nodes, n0, Cursor(1, [])) == Ok(Parsed(Call(Call(n0, n1), n2), Cursor(3, [])));
  }

  /**
   * On the past-end node, the source's position overshoots the end of the
   * last lexeme by the last lexeme's own position. For the source `a (`,
   * whose last node `(` lies at 2 with length 1, it is 5 while the text
   * has 3 characters; the corrected position is 3.
   */
  lemma PastEndOvershoots(last: Description)
    ensures PastEndAsWritten(last) == PastEnd(last) + last.position
    ensures last.position > 0 ==> PastEndAsWritten(last) > PastEnd(last)
    ensures PastEndAsWritten(Description(2, 1)) == 5 && PastEnd(Description(2, 1)) == 3
  {
  }

  /**
   * The corrected past-end position at work: in `(a` the missing `)` is
   * reported as an empty range at 2, just after `a`; the source's own
   * computation would place it at 3.
   */
  lemma UnclosedParenthesisRange()
    ensures var nodes := [Node(OpenParenthesis, Description(0, 1)), Node(Identifier, Description(1, 1))];
      && ParsePrimary(nodes, Cursor(0, [])) ==
        Ok(Parsed(Name(nodes[1]), Cursor(3, [UnexpectedToken(Range(2, 2), CloseParenthesis, EndOfFile)])))
      && PastEndAsWritten(nodes[1].description) == 3
  {
    var nodes := [Node(OpenParenthesis, Description(0, 1)), Node(Identifier, Description(1, 1))];
    var a := Name(nodes[1]);
    assert Peek(nodes, Cursor(1, []), 1) == EndOfFile;
    assert ParsePrimary(nodes, Cursor(1, [])) == Ok(Parsed(a, Cursor(2, [])));
    assert CallChain(nodes, a, Cursor(2, [])) == Ok(Parsed(a, Cursor(2, [])));
    assert ParseCall(nodes, Cursor(1, [])) == Ok(Parsed(a, Cursor(2, [])));
    assert ParseStatement(nodes, Cursor(1, [])) == Ok(Parsed(a, Cursor(2, [])));
    var end := Node(EndOfFile, Description(2, 0));
    assert Next(nodes, Cursor(2, [])) == Ok(Parsed(end, Cursor(3, [])));
    assert RangeOf(end) == Range(2, 2);
    assert [] + [UnexpectedToken(Range(2, 2), CloseParenthesis, EndOfFile)] == [UnexpectedToken(Range(2, 2), CloseParenthesis, EndOfFile)];
    assert Expect(nodes, Cursor(2, []), CloseParenthesis) ==
      Ok(Parsed(Node(CloseParenthesis, end.description), Cursor(3, [UnexpectedToken(Range(2, 2), CloseParenthesis, EndOfFile)])));
  }
}
