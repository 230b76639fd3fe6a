/**
 * The `Interpreter` of src/interpreter/mod.rs: the source text, the arena
 * of scopes and the diagnostics as fields updated in place, with the
 * `bind` and `eval` of the node kinds (the files under src/syntax) as its
 * methods. Every method is proved against the function of module Binding,
 * Evaluation or Environment that specifies it; the read-only walks are
 * those functions applied to the current state.
 */
module Interpreter {
  import opened Fallible
  import opened Environment
  import opened Scopes
  import Errors
  import Types
  import Values
  import SyntaxTree
  import Binding
  import Evaluation
  import Grammar
  import Library

  class Interpreter {
    var source: string
    var chain: seq<Scope>
    var errors: seq<Errors.Error>

    function State(): Session
      reads this
    {
      Session(source, chain, errors)
    }

    ghost predicate Valid()
      reads this
    {
      ChainWellFormed(chain)
    }

    /** `r` is what `spec` computes, and the interpreter holds the session `spec` ends with; a panic says nothing of the state. */
    ghost predicate Follows<T>(r: Result<T>, spec: Result<Outcome<T>>)
      reads this
    {
      r.Ok? == spec.Ok? && (r.Ok? ==> r.value == spec.value.value && State() == spec.value.session)
    }

    /** `Interpreter::new`: an empty text, the global scope alone, no diagnostics. */
    constructor ()
      ensures State() == Initial() && Valid()
    {
      source := "";
      chain := [Global()];
      errors := [];
    }

    /** `set_source`: the text later lexemes are sliced from. */
    method SetSource(text: string)
      modifies this
      ensures State() == old(State()).(text := text)
    {
      source := text;
    }

    /** `error`: append one diagnostic after the others. */
    method Error(e: Errors.Error)
      modifies this
      ensures State() == Report(old(State()), e)
    {
      errors := errors + [e];
    }

    /** `flush_errors`: hand over every diagnostic, in order, and start an empty list. */
    method FlushErrors() returns (flushed: seq<Errors.Error>)
      modifies this
      ensures flushed == old(errors)
      ensures State() == old(State()).(errors := [])
    {
      flushed := errors;
      errors := [];
    }

    /** `declare`: bind the node's lexeme to `t` in that scope's type map. */
    method Declare(scope: nat, node: SyntaxTree.Node, t: Types.Type) returns (r: Result<()>)
      requires Valid()
      modifies this
      ensures r.Ok? == Environment.Declare(old(State()), scope, node, t).Ok?
      ensures r.Ok? ==> State() == Environment.Declare(old(State()), scope, node, t).value
    {
      var key :- Source(source, node);
      if scope >= |chain| {
        return Fail(Panic);
      }
      chain := chain[scope := chain[scope].(types := chain[scope].types[key := t])];
      r := Ok(());
    }

    /** `Interpreter::bind`: dispatch on the node kind. */
    method Bind(e: SyntaxTree.Syntax, scope: nat) returns (r: Result<Types.Type>)
      requires Valid()
      modifies this
      ensures Follows(r, Binding.Bind(e, scope, old(State())))
      decreases e, 1
    {
      match e {
        case Name(_) => r := BindName(e, scope);
        case Literal(node) => r := Binding.LiteralType(node.token);
        case Call(_, _) => r := BindCall(e, scope);
        case Closure(_, _, _, _, _) => r := BindClosure(e, scope);
        case Assignment(_, _, _, _) => r := BindAssignment(e, scope);
        case TypeExpression(annotation) => r := BindTypeExpression(annotation, scope);
      }
    }

    /** `NameSyntax::bind`. */
    method BindName(e: SyntaxTree.Syntax, scope: nat) returns (r: Result<Types.Type>)
      requires Valid() && e.Name?
      modifies this
      ensures Follows(r, Binding.Bind(e, scope, old(State())))
      decreases e, 0
    {
      var found :- Lookup(State(), scope, e.node);
      if found.Some? {
        return Ok(found.value);
      }
      Error(Errors.UnknownName(Grammar.RangeOf(e.node), Source(source, e.node).value));
      r := Ok(Types.None);
    }

    /** `CallSyntax::bind`: the callee, then the argument, then the check of one against the other. */
    method BindCall(e: SyntaxTree.Syntax, scope: nat) returns (r: Result<Types.Type>)
      requires Valid() && e.Call?
      modifies this
      ensures Follows(r, Binding.Bind(e, scope, old(State())))
      decreases e, 0
    {
      var callee :- Bind(e.left, scope);
      var argument :- Bind(e.right, scope);
      if callee.Closure? {
        if argument != callee.param {
          Error(Errors.UnexpectedType(Errors.Range(0, 0), callee.param, argument));
        }
        r := Ok(callee.ret);
      } else {
        Error(Errors.BadCall(Errors.Range(0, 0)));
        r := Ok(Types.None);
      }
    }

    /** `ClosureSyntax::bind`. */
    method BindClosure(e: SyntaxTree.Syntax, scope: nat) returns (r: Result<Types.Type>)
      requires Valid() && e.Closure?
      modifies this
      ensures Follows(r, Binding.Bind(e, scope, old(State())))
      decreases e, 0
    {
      var param :- Lookup(State(), scope, e.typeName);
      if param.None? {
        return Fail(Panic);
      }
      var result :- Bind(e.body, scope);
      r := Ok(Types.Closure(param.value, result));
    }

    /** `AssignmentSyntax::bind`: the right-hand side, then either a Reassignment or a declaration. */
    method BindAssignment(e: SyntaxTree.Syntax, scope: nat) returns (r: Result<Types.Type>)
      requires Valid() && e.Assignment?
      modifies this
      ensures Follows(r, Binding.Bind(e, scope, old(State())))
      decreases e, 0
    {
      var rhs :- Bind(e.expression, scope);
      var found :- Lookup(State(), scope, e.target);
      if found.Some? {
        Error(Errors.Reassignment(Grammar.RangeOf(e.target), Source(source, e.target).value));
      } else {
        var _ := Declare(scope, e.target, rhs);
      }
      r := Ok(Types.None);
    }

    /** `TypeExpressionSyntax::bind`. */
    method BindTypeExpression(annotation: SyntaxTree.TypeExpressionSyntax, scope: nat) returns (r: Result<Types.Type>)
      requires Valid()
      modifies this
      ensures Follows(r, Binding.Bind(SyntaxTree.TypeExpression(annotation), scope, old(State())))
    {
      var definition :- LookupTypeDefinition(State(), scope, annotation.name);
      r := Ok(if definition.Some? then definition.value else Types.None);
    }

    /** `Interpreter::eval`: dispatch on the node kind. */
    method Eval(e: SyntaxTree.Syntax, scope: nat) returns (r: Result<Values.Value>)
      requires Valid()
      modifies this
      ensures Follows(r, Evaluation.Eval(e, scope, old(State())))
      decreases e, 1
    {
      match e {
        case Name(node) =>
          var found :- Get(State(), scope, node);
          if found.None? {
            r := Fail(Panic);
          } else {
            r := Ok(Values.Clone(found.value));
          }
        case Literal(node) =>
          var text :- Source(source, node);
          r := Evaluation.LiteralValue(node.token, text);
        case Closure(_, _, _, _, _) => r := Fail(NotModelled);
        case Call(_, _) => r := EvalCall(e, scope);
        case Assignment(_, _, _, _) => r := EvalAssignment(e, scope);
        case TypeExpression(_) => r := Ok(Values.Value.None);
      }
    }

    /** `CallSyntax::eval`: the callee must be a closure before the argument is evaluated. */
    method EvalCall(e: SyntaxTree.Syntax, scope: nat) returns (r: Result<Values.Value>)
      requires Valid() && e.Call?
      modifies this
      ensures Follows(r, Evaluation.Eval(e, scope, old(State())))
      decreases e, 0
    {
      var callee :- Eval(e.left, scope);
      var f :- Values.UnwrapClosure(callee);
      var argument :- Eval(e.right, scope);
      r := Library.Apply(f, argument);
    }

    /** `AssignmentSyntax::eval`: store the value under the name in this scope, replacing any earlier one. */
    method EvalAssignment(e: SyntaxTree.Syntax, scope: nat) returns (r: Result<Values.Value>)
      requires Valid() && e.Assignment?
      modifies this
      ensures Follows(r, Evaluation.Eval(e, scope, old(State())))
      decreases e, 0
    {
      var name :- Source(source, e.target);
      var value :- Eval(e.expression, scope);
      if scope >= |chain| {
        return Fail(Panic);
      }
      chain := chain[scope := chain[scope].(values := chain[scope].values[name := value])];
      r := Ok(Values.Value.None);
    }
  }
}
