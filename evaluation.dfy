/**
 * The evaluator: the `eval` of calls and assignments (src/syntax/call.rs,
 * assignment.rs) and the dispatch in src/interpreter/mod.rs, as one
 * function of the session. The `eval` of names and literals is not part
 * of this model; here a name reads the nearest value and a literal
 * decodes its lexeme.
 */
module Evaluation {
  import opened Fallible
  import opened Values
  import opened Environment
  import opened Scopes
  import Types
  import Tokens
  import Decimal
  import SyntaxTree
  import Library

  /**
   * What evaluation may do to a session: only value maps change; the text,
   * the diagnostics, the parent links and every type map stay as they are.
   */
  predicate Stores(st: Session, st': Session) {
    && st'.text == st.text
    && st'.errors == st.errors
    && |st'.chain| == |st.chain|
    && forall i :: 0 <= i < |st.chain| ==>
      st'.chain[i] == st.chain[i].(values := st'.chain[i].values)
  }

  /** The characters between the quotes of a string lexeme; an unterminated string has only the opening one. */
  function Unquote(text: string): (r: string)
    ensures |r| <= |text|
    ensures |text| >= 2 && text[0] == Tokens.DOUBLE_QUOTE && text[|text| - 1] == Tokens.DOUBLE_QUOTE ==>
      r == text[1..|text| - 1]
  {
    var body := if |text| >= 1 && text[0] == Tokens.DOUBLE_QUOTE then text[1..] else text;
    if |body| >= 1 && body[|body| - 1] == Tokens.DOUBLE_QUOTE then body[..|body| - 1] else body
  }

  /** Unquoting gives back whatever was put between two quotes. */
  lemma UnquoteQuoted(s: string)
    ensures Unquote([Tokens.DOUBLE_QUOTE] + s + [Tokens.DOUBLE_QUOTE]) == s
  {
    var t := [Tokens.DOUBLE_QUOTE] + s + [Tokens.DOUBLE_QUOTE];
    assert t[1..|t| - 1] == s;
  }

  /**
   * A literal's value from its lexeme: a number reads its digits as a
   * `usize` (empty, non-digit or overflowing text panics), a string drops
   * its quotes, a boolean is `true` or `false`, and none has no payload.
   */
  function LiteralValue(token: Tokens.Token, text: string): (r: Result<Value>)
    ensures r.Ok? ==> token == Tokens.Number || token == Tokens.String || token == Tokens.Boolean || token == Tokens.None
    ensures token == Tokens.Number && r.Ok? ==> Decimal.AllDigits(text) && r.value.Number? && r.value.n == Decimal.Value(text)
    ensures token == Tokens.Boolean ==> (r.Ok? <==> text == Tokens.TRUE || text == Tokens.FALSE)
  {
    match token
    case Number =>
      if |text| > 0 && Decimal.AllDigits(text) && Decimal.Value(text) <= USIZE_MAX then Ok(Number(Decimal.Value(text)))
      else Fail(Panic)
    case String => Ok(String(Unquote(text)))
    case Boolean =>
      if text == Tokens.TRUE then Ok(Boolean(true))
      else if text == Tokens.FALSE then Ok(Boolean(false))
      else Fail(Panic)
    case None => Ok(Value.None)
    case _ => Fail(Panic)
  }

  /** Every number's decimal text decodes back to that number. */
  lemma NumberLiteralRoundTrip(n: Usize)
    ensures LiteralValue(Tokens.Number, Decimal.Text(n)) == Ok(Number(n))
  {
    Decimal.ValueOfText(n);
  }

  /** `Interpreter::eval` and the `eval` of every node kind, in scope `scope`. */
  function Eval(e: SyntaxTree.Syntax, scope: nat, st: Session): (r: Result<Outcome<Value>>)
    requires ChainWellFormed(st.chain)
    ensures r.Ok? ==> ChainWellFormed(r.value.session.chain) && Stores(st, r.value.session)
    decreases e
  {
    match e
    case Name(node) =>
      var found :- Get(st, scope, node);
      if found.None? then Fail(Panic) else Ok(Outcome(Clone(found.value), st))
    case Literal(node) =>
      var text :- Source(st.text, node);
      var v :- LiteralValue(node.token, text);
      Ok(Outcome(v, st))
    case Closure(_, _, _, _, _) => Fail(NotModelled)
    case Call(left, right) =>
      var callee :- Eval(left, scope, st);
      var f :- UnwrapClosure(callee.value);
      var argument :- Eval(right, scope, callee.session);
      var v :- Library.Apply(f, argument.value);
      Ok(Outcome(v, argument.session))
    case Assignment(target, _, _, expression) =>
      var name :- Source(st.text, target);
      var rhs :- Eval(expression, scope, st);
      var after :- Insert(rhs.session, scope, name, rhs.value);
      Ok(Outcome(Value.None, after))
    case TypeExpression(_) => Ok(Outcome(Value.None, st))
  }

  /**
   * After an assignment the name reads back as the assigned value from the
   * same scope, whatever it was bound to before: the last write wins, and
   * the assignment itself evaluates to None.
   */
  lemma AssignThenRead(target: SyntaxTree.Node, annotation: Option<SyntaxTree.TypeExpressionSyntax>, equals: SyntaxTree.Node,
                       expression: SyntaxTree.Syntax, again: SyntaxTree.Node, scope: nat, st: Session)
    requires ChainWellFormed(st.chain)
    requires Eval(SyntaxTree.Assignment(target, annotation, equals, expression), scope, st).Ok?
    requires Source(st.text, again) == Source(st.text, target)
    ensures Eval(expression, scope, st).Ok?
    ensures var r := Eval(SyntaxTree.Assignment(target, annotation, equals, expression), scope, st).value;
      && r.value == Value.None
      && Eval(SyntaxTree.Name(again), scope, r.session) == Ok(Outcome(Eval(expression, scope, st).value.value, r.session))
  {
    var rhs := Eval(expression, scope, st).value;
    InsertThenGet(rhs.session, scope, target, rhs.value, rhs.value);
    CloneIsIdentity(rhs.value);
  }

  /** Two assignments to one name in one scope: the name reads as the second value. */
  lemma LastWriteWins(target: SyntaxTree.Node, equals: SyntaxTree.Node, first: SyntaxTree.Syntax, second: SyntaxTree.Syntax,
                      scope: nat, st: Session)
    requires ChainWellFormed(st.chain)
    requires Eval(SyntaxTree.Assignment(target, Option.None, equals, first), scope, st).Ok?
    ensures var mid := Eval(SyntaxTree.Assignment(target, Option.None, equals, first), scope, st).value.session;
      var last := Eval(SyntaxTree.Assignment(target, Option.None, equals, second), scope, mid);
      last.Ok? ==>
        Eval(SyntaxTree.Name(target), scope, last.value.session).Ok? &&
        Eval(SyntaxTree.Name(target), scope, last.value.session).value.value == Eval(second, scope, mid).value.value
  {
    var mid := Eval(SyntaxTree.Assignment(target, Option.None, equals, first), scope, st).value.session;
    if Eval(SyntaxTree.Assignment(target, Option.None, equals, second), scope, mid).Ok? {
      AssignThenRead(target, Option.None, equals, second, target, scope, mid);
    }
  }

  /**
   * A call evaluates its callee first and panics unless that is a closure,
   * before the argument is evaluated; then it applies the closure to the
   * argument's value.
   */
  lemma EvalCallOrder(left: SyntaxTree.Syntax, right: SyntaxTree.Syntax, scope: nat, st: Session)
    requires ChainWellFormed(st.chain)
    ensures Eval(left, scope, st).Ok? && !Eval(left, scope, st).value.value.Closure? ==>
      Eval(SyntaxTree.Call(left, right), scope, st) == Fail(Panic)
    ensures Eval(SyntaxTree.Call(left, right), scope, st).Ok? ==>
      && Eval(left, scope, st).Ok? && Eval(left, scope, st).value.value.Closure?
      && var callee := Eval(left, scope, st).value;
         Eval(right, scope, callee.session).Ok?
         && Eval(SyntaxTree.Call(left, right), scope, st).value ==
              Outcome(Library.Apply(callee.value.f, Eval(right, scope, callee.session).value.value).value,
                      Eval(right, scope, callee.session).value.session)
  {
  }

  /** A type expression evaluates to None and changes nothing. */
  lemma EvalTypeExpression(annotation: SyntaxTree.TypeExpressionSyntax, scope: nat, st: Session)
    requires ChainWellFormed(st.chain)
    ensures Eval(SyntaxTree.TypeExpression(annotation), scope, st) == Ok(Outcome(Value.None, st))
  {
  }

  /** In a fresh session with the text `inc 5`, the call `inc 5` evaluates to 6. */
  lemma IncFive()
    ensures var st := Initial().(text := "inc 5");
      var inc := SyntaxTree.Name(SyntaxTree.Node(Tokens.Identifier, Tokens.Description(0, 3)));
      var five := SyntaxTree.Literal(SyntaxTree.Node(Tokens.Number, Tokens.Description(4, 1)));
      Eval(SyntaxTree.Call(inc, five), 0, st) == Ok(Outcome(Number(6), st))
  {
    var st := Initial().(text := "inc 5");
    assert st.text[0..3] == "inc";
    assert st.text[4..5] == "5";
    assert Decimal.Value("5") == 5 by {
      assert "5"[..0] == "";
    }
  }
}
