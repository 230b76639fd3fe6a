/**
 * The syntax tree of src/syntax/mod.rs and the node records of the
 * production files (name.rs, literal.rs, call.rs, closure.rs,
 * assignment.rs, type_expression.rs), with the left fold that builds
 * call chains and its inverse.
 */
module SyntaxTree {
  import opened Fallible
  import Tokens

  /** A token together with the position and length of its lexeme (a `Leaf`, or `Node`, of the parser). */
  datatype Node = Node(token: Tokens.Token, description: Tokens.Description)

  /** `: name` after an assignment target. */
  datatype TypeExpressionSyntax = TypeExpressionSyntax(colon: Node, name: Node)

  /**
   * The node kinds. The `TypeExpression` kind is dispatched on by the
   * interpreter but missing from the enum as shown; it is included here.
   */
  datatype Syntax =
    | Name(node: Node)
    | Literal(node: Node)
    | Call(left: Syntax, right: Syntax)
    | Closure(name: Node, lambda: Node, colon: Node, typeName: Node, body: Syntax)
    | Assignment(target: Node, typeExpression: Option<TypeExpressionSyntax>, equals: Node, expression: Syntax)
    | TypeExpression(annotation: TypeExpressionSyntax)

  /** Juxtaposed operands folded to the left: `a b c` is `Call(Call(a, b), c)`. */
  function FoldCalls(items: seq<Syntax>): Syntax
    requires |items| >= 1
    decreases |items|
  {
    if |items| == 1 then items[0] else Call(FoldCalls(items[..|items| - 1]), items[|items| - 1])
  }

  /** The operands of a left-nested call chain, innermost function first. */
  function Spine(e: Syntax): (r: seq<Syntax>)
    ensures |r| >= 1 && !r[0].Call?
    ensures r[|r| - 1] == (if e.Call? then e.right else e)
  {
    if e.Call? then Spine(e.left) + [e.right] else [e]
  }

  /** Folding the operands of any tree gives back that tree. */
  lemma {:induction false} FoldSpine(e: Syntax)
    ensures FoldCalls(Spine(e)) == e
  {
    if e.Call? {
      var s := Spine(e);
      assert s[..|s| - 1] == Spine(e.left);
      FoldSpine(e.left);
    }
  }

  /** The operands of a fold are the folded items, provided the first is not itself a call. */
  lemma {:induction false} SpineFold(items: seq<Syntax>)
    requires |items| >= 1 && !items[0].Call?
    ensures Spine(FoldCalls(items)) == items
    decreases |items|
  {
    if |items| > 1 {
      SpineFold(items[..|items| - 1]);
    }
  }

  /** Applying a chain to one more operand extends its operands on the right. */
  lemma SpineOfCall(left: Syntax, right: Syntax)
    ensures Spine(Call(left, right)) == Spine(left) + [right]
  {
  }
}
