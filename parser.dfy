/**
 * The `Parser` of src/syntax/parser/mod.rs and src/syntax/parser.rs: a
 * cursor over the Space-free node list, its diagnostics, and the
 * productions as methods that advance it in place. Every method is proved
 * against the function of module Grammar that specifies it.
 */
module Parser {
  import opened Fallible
  import opened Tokens
  import opened Errors
  import opened Recognition
  import opened SyntaxTree
  import opened Grammar
  import Lexer

  /** The lexer's tokens paired with their descriptions, with every Space dropped (`From<Lexer>`). */
  function NodesOf(tokens: seq<Token>, ds: seq<Description>): seq<Node>
    requires |tokens| == |ds|
    decreases |tokens|
  {
    if tokens == [] then []
    else
      var n := |tokens| - 1;
      NodesOf(tokens[..n], ds[..n]) + (if tokens[n] == Space then [] else [Node(tokens[n], ds[n])])
  }

  /** Converting a concatenation converts each part: the kept nodes stay in the lexer's order. */
  lemma {:induction false} NodesOfAppend(t1: seq<Token>, d1: seq<Description>, t2: seq<Token>, d2: seq<Description>)
    requires |t1| == |d1| && |t2| == |d2|
    ensures NodesOf(t1 + t2, d1 + d2) == NodesOf(t1, d1) + NodesOf(t2, d2)
    decreases |t2|
  {
    if t2 == [] {
      assert t1 + t2 == t1 && d1 + d2 == d1;
    } else {
      var n := |t2| - 1;
      assert (t1 + t2)[..|t1| + n] == t1 + t2[..n];
      assert (d1 + d2)[..|d1| + n] == d1 + d2[..n];
      assert (t1 + t2)[|t1| + n] == t2[n] && (d1 + d2)[|d1| + n] == d2[n];
      NodesOfAppend(t1, d1, t2[..n], d2[..n]);
    }
  }

  /** No Space survives, every other token survives with its own description, and nothing else appears. */
  lemma {:induction false} NodesOfDropsSpaces(tokens: seq<Token>, ds: seq<Description>)
    requires |tokens| == |ds|
    ensures forall n :: n in NodesOf(tokens, ds) ==> n.token != Space
    ensures forall n :: n in NodesOf(tokens, ds) ==> exists i :: 0 <= i < |tokens| && n == Node(tokens[i], ds[i])
    ensures forall i :: 0 <= i < |tokens| && tokens[i] != Space ==> Node(tokens[i], ds[i]) in NodesOf(tokens, ds)
    decreases |tokens|
  {
    if tokens != [] {
      var n := |tokens| - 1;
      NodesOfDropsSpaces(tokens[..n], ds[..n]);
      forall m | m in NodesOf(tokens, ds)
        ensures exists i :: 0 <= i < |tokens| && m == Node(tokens[i], ds[i])
      {
        if m in NodesOf(tokens[..n], ds[..n]) {
          var i :| 0 <= i < n && m == Node(tokens[..n][i], ds[..n][i]);
          assert m == Node(tokens[i], ds[i]);
        } else {
          assert m == Node(tokens[n], ds[n]);
        }
      }
      forall i | 0 <= i < |tokens| && tokens[i] != Space
        ensures Node(tokens[i], ds[i]) in NodesOf(tokens, ds)
      {
        if i < n {
          assert tokens[..n][i] == tokens[i] && ds[..n][i] == ds[i];
        }
      }
    }
  }

  /** The nodes the parser reads for a source text. */
  function SourceNodes(source: seq<char>): seq<Node> {
    var lexed := Lex(source);
    LexCoversSource(source);
    NodesOf(lexed.tokens, lexed.description)
  }

  /**
   * Every node read from a source text lies inside it, so the corrected
   * past-end node sits at or before the end of the text.
   */
  lemma SourceNodesWithin(source: seq<char>)
    ensures forall n :: n in SourceNodes(source) ==> n.description.position + n.description.length <= |source|
    ensures SourceNodes(source) != [] ==> EndNode(SourceNodes(source)).description.position <= |source|
  {
    var lexed := Lex(source);
    LexCoversSource(source);
    ContiguousWithin(lexed.description, lexed.position);
    NodesOfDropsSpaces(lexed.tokens, lexed.description);
  }

  /**
   * `parse(source)`: the statement over the source's nodes, starting from
   * the lexer's diagnostics. It panics exactly when the source has no
   * nodes, and the lexer's diagnostics come first in what it returns.
   */
  function ParseText(source: seq<char>): (r: Result<Parsed<Syntax>>)
    ensures r.Fail? <==> SourceNodes(source) == []
    ensures r.Ok? ==> Lex(source).errors <= r.value.cursor.errors
  {
    ParseStatement(SourceNodes(source), Cursor(0, Lex(source).errors))
  }

  class Parser {
    var position: nat
    const nodes: seq<Node>
    var errors: seq<Error>

    /** The cursor the productions advance. */
    function State(): Cursor
      reads this
    {
      Cursor(position, errors)
    }

    /** `r` is what `spec` computes, and the parser holds the cursor `spec` ends with; a panic says nothing of the state. */
    ghost predicate Follows<T>(r: Result<T>, spec: Result<Parsed<T>>)
      reads this
    {
      r.Ok? == spec.Ok? && (r.Ok? ==> r.value == spec.value.value && State() == spec.value.cursor)
    }

    /** `Parser::new`: lex the source, keep the non-Space nodes and start from the lexer's diagnostics. */
    constructor (source: seq<char>)
      ensures nodes == SourceNodes(source) && State() == Cursor(0, Lex(source).errors)
    {
      var lexer := Lexer.Tokenize(source);
      position := 0;
      nodes := NodesOf(lexer.tokens, lexer.description);
      errors := lexer.errors;
    }

    function Peek(ahead: nat): Token
      reads this
    {
      Grammar.Peek(nodes, State(), ahead)
    }

    function Current(): Token
      reads this
    {
      Peek(0)
    }

    method Next() returns (r: Result<Node>)
      modifies this
      ensures Follows(r, Grammar.Next(nodes, old(State())))
    {
      position := position + 1;
      if position - 1 < |nodes| {
        r := Ok(nodes[position - 1]);
      } else if nodes == [] {
        r := Fail(Panic);
      } else {
        var last := nodes[|nodes| - 1].description;
        r := Ok(Node(EndOfFile, Description(PastEnd(last), 0)));
      }
    }

    method Expect(expected: Token) returns (r: Result<Node>)
      modifies this
      ensures Follows(r, Grammar.Expect(nodes, old(State()), expected))
    {
      var n :- Next();
      if n.token == expected {
        r := Ok(n);
      } else {
        errors := errors + [UnexpectedToken(RangeOf(n), expected, n.token)];
        r := Ok(Node(expected, n.description));
      }
    }

    method Assert(expected: Token) returns (r: Result<Node>)
      modifies this
      ensures Follows(r, Grammar.Assert(nodes, old(State()), expected))
    {
      var n :- Next();
      if n.token == expected {
        r := Ok(n);
      } else {
        r := Fail(Panic);
      }
    }

    method Primary() returns (r: Result<Syntax>)
      modifies this
      ensures Follows(r, ParsePrimary(nodes, old(State())))
      decreases Remaining(nodes, State()), 1
    {
      if Current() == OpenParenthesis {
        var _ := Next();
        var e := Parse();
        var _ := Expect(CloseParenthesis);
        r := Ok(e.value);
        return;
      }
      if Current() == Number || Current() == String || Current() == Boolean || Current() == Tokens.None {
        var n := Next();
        r := Ok(Literal(n.value));
        return;
      }
      var n :- Expect(Identifier);
      r := Ok(Name(n));
    }

    /** `call`: a primary, then, until EndOfFile or `)`, the chain so far applied to the next primary. */
    method Call() returns (r: Result<Syntax>)
      modifies this
      ensures Follows(r, ParseCall(nodes, old(State())))
      decreases Remaining(nodes, State()), 3
    {
      var left :- Primary();
      while Current() != EndOfFile && Current() != CloseParenthesis
        invariant CallChain(nodes, left, State()) == ParseCall(nodes, old(State()))
        invariant old(position) <= position
        decreases Remaining(nodes, State())
      {
        var right := Primary();
        left := SyntaxTree.Call(left, right.value);
      }
      r := Ok(left);
    }

    method Assignment() returns (r: Result<Syntax>)
      modifies this
      ensures Follows(r, ParseAssignment(nodes, old(State())))
      decreases Remaining(nodes, State()), 3
    {
      var name :- Expect(Identifier);
      var equals :- Assert(Equals);
      var expression := Parse();
      r := Ok(SyntaxTree.Assignment(name, Option.None, equals, expression.value));
    }

    method AssignmentWithType(name: Node, annotation: TypeExpressionSyntax) returns (r: Result<Syntax>)
      modifies this
      ensures Follows(r, ParseAssignmentWithType(nodes, name, annotation, old(State())))
      decreases Remaining(nodes, State()), 5
    {
      var equals :- Expect(Equals);
      var expression := Parse();
      r := Ok(SyntaxTree.Assignment(name, Some(annotation), equals, expression.value));
    }

    method Closure() returns (r: Result<Syntax>)
      modifies this
      ensures Follows(r, ParseClosure(nodes, old(State())))
      decreases Remaining(nodes, State()), 3
    {
      var name :- Expect(Identifier);
      var lambda :- Assert(Lambda);
      var colon := Expect(Colon);
      var typeName := Expect(Identifier);
      var body := Parse();
      r := Ok(SyntaxTree.Closure(name, lambda, colon.value, typeName.value, body.value));
    }

    method TypeExpression() returns (r: Result<TypeExpressionSyntax>)
      modifies this
      ensures Follows(r, ParseTypeExpression(nodes, old(State())))
    {
      var colon :- Assert(Colon);
      var name := Expect(Identifier);
      r := Ok(TypeExpressionSyntax(colon, name.value));
    }

    /** `Syntax::parse`: dispatch on the token after the current one. */
    method Parse() returns (r: Result<Syntax>)
      modifies this
      ensures Follows(r, ParseStatement(nodes, old(State())))
      decreases Remaining(nodes, State()), 4
    {
      match Peek(1) {
        case Equals => r := Assignment();
        case Lambda => r := Closure();
        case _ => r := Call();
      }
    }
  }

  /** `parse(source)`: a fresh parser, one statement, and the statement with every diagnostic. */
  method ParseSource(source: seq<char>) returns (r: Result<(Syntax, seq<Error>)>)
    ensures r.Ok? <==> ParseText(source).Ok?
    ensures r.Ok? ==> r.value == (ParseText(source).value.value, ParseText(source).value.cursor.errors)
  {
    var parser := new Parser(source);
    var syntax :- parser.Parse();
    r := Ok((syntax, parser.errors));
  }
}
