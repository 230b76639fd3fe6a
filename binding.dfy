/**
 * The static binder: the `bind` of each node kind (src/syntax/name.rs,
 * literal.rs, call.rs, closure.rs, type_expression.rs, assignment.rs) and
 * the dispatch in src/interpreter/mod.rs, as one function of the session.
 * Diagnostics are appended and binding carries on; a panic is a `Fail`.
 */
module Binding {
  import opened Fallible
  import opened Errors
  import opened Environment
  import opened Scopes
  import Types
  import Tokens
  import SyntaxTree
  import Grammar

  /**
   * What binding may do to a session: the text, parent links, values and
   * type definitions stay as they are, diagnostics are only appended, and a
   * declared type is never replaced (names are only added).
   */
  predicate Grows(st: Session, st': Session) {
    && st'.text == st.text
    && st.errors <= st'.errors
    && |st'.chain| == |st.chain|
    && forall i :: 0 <= i < |st.chain| ==>
      && st'.chain[i].parent == st.chain[i].parent
      && st'.chain[i].values == st.chain[i].values
      && st'.chain[i].typeDefinitions == st.chain[i].typeDefinitions
      && forall k :: k in st.chain[i].types ==> k in st'.chain[i].types && st'.chain[i].types[k] == st.chain[i].types[k]
  }

  lemma GrowsTransitive(a: Session, b: Session, c: Session)
    requires Grows(a, b) && Grows(b, c)
    ensures Grows(a, c)
  {
  }

  /** `LiteralSyntax::bind`: the type of a literal is fixed by its token kind; any other kind panics. */
  function LiteralType(token: Tokens.Token): (r: Result<Types.Type>)
    ensures r.Ok? <==> Grammar.IsLiteralToken(token)
    ensures token == Tokens.String ==> r == Ok(Types.String)
    ensures token == Tokens.Number ==> r == Ok(Types.Number)
    ensures token == Tokens.Boolean ==> r == Ok(Types.Boolean)
    ensures token == Tokens.None ==> r == Ok(Types.None)
  {
    match token
    case String => Ok(Types.String)
    case Number => Ok(Types.Number)
    case Boolean => Ok(Types.Boolean)
    case None => Ok(Types.None)
    case _ => Fail(Panic)
  }

  /**
   * The diagnostics a call adds of its own: none when the callee is a
   * closure whose parameter type is the argument's, one UnexpectedType
   * (expected, received) when it is a closure of another parameter type,
   * one BadCall otherwise. Both carry the placeholder range 0..0.
   */
  function CallDiagnostics(callee: Types.Type, argument: Types.Type): (ds: seq<Error>)
    ensures |ds| <= 1
    ensures ds == [] <==> callee.Closure? && argument == callee.param
    ensures forall d :: d in ds ==> d.range == Range(0, 0) && CategoryOf(d) == TypeCategory
    ensures callee.Closure? && argument != callee.param ==> ds == [UnexpectedType(Range(0, 0), callee.param, argument)]
    ensures !callee.Closure? ==> ds == [BadCall(Range(0, 0))]
  {
    if !callee.Closure? then [BadCall(Range(0, 0))]
    else if argument != callee.param then [UnexpectedType(Range(0, 0), callee.param, argument)]
    else []
  }

  /** The type of a call: the callee's return type, or None when the callee is not a closure. */
  function CallType(callee: Types.Type): Types.Type {
    if callee.Closure? then callee.ret else Types.None
  }

  /** `Interpreter::bind` and the `bind` of every node kind, in scope `scope`. */
  function Bind(e: SyntaxTree.Syntax, scope: nat, st: Session): (r: Result<Outcome<Types.Type>>)
    requires ChainWellFormed(st.chain)
    ensures r.Ok? ==> ChainWellFormed(r.value.session.chain) && Grows(st, r.value.session)
    decreases e
  {
    match e
    case Name(node) =>
      var found :- Lookup(st, scope, node);
      if found.Some? then Ok(Outcome(found.value, st))
      else Ok(Outcome(Types.None, Report(st, UnknownName(Grammar.RangeOf(node), Source(st.text, node).value))))
    case Literal(node) =>
      var t :- LiteralType(node.token);
      Ok(Outcome(t, st))
    case Call(left, right) =>
      var callee :- Bind(left, scope, st);
      var argument :- Bind(right, scope, callee.session);
      var after := argument.session;
      Ok(Outcome(CallType(callee.value), after.(errors := after.errors + CallDiagnostics(callee.value, argument.value))))
    case Closure(_, _, _, typeName, body) =>
      var param :- Lookup(st, scope, typeName);
      if param.None? then Fail(Panic)
      else
        var result :- Bind(body, scope, st);
        Ok(Outcome(Types.Closure(param.value, result.value), result.session))
    case Assignment(target, _, _, expression) =>
      var rhs :- Bind(expression, scope, st);
      var found :- Lookup(rhs.session, scope, target);
      if found.Some? then
        Ok(Outcome(Types.None, Report(rhs.session, Reassignment(Grammar.RangeOf(target), Source(st.text, target).value))))
      else
        Ok(Outcome(Types.None, Declare(rhs.session, scope, target, rhs.value).value))
    case TypeExpression(annotation) =>
      var definition :- LookupTypeDefinition(st, scope, annotation.name);
      Ok(Outcome(if definition.Some? then definition.value else Types.None, st))
  }

  /**
   * A literal binds to the same type whatever its text and scope, and
   * binding it changes neither the scopes nor the diagnostics.
   */
  lemma LiteralBindIsContentFree(a: SyntaxTree.Node, b: SyntaxTree.Node, s: nat, t: nat, st: Session, st': Session)
    requires a.token == b.token && ChainWellFormed(st.chain) && ChainWellFormed(st'.chain)
    ensures Bind(SyntaxTree.Literal(a), s, st).Ok? <==> Bind(SyntaxTree.Literal(b), t, st').Ok?
    ensures Bind(SyntaxTree.Literal(a), s, st).Ok? ==>
      && Bind(SyntaxTree.Literal(a), s, st).value == Outcome(Bind(SyntaxTree.Literal(b), t, st').value.value, st)
      && Bind(SyntaxTree.Literal(b), t, st').value.session == st'
  {
  }

  /**
   * A name declared on the path to the root binds to the type of its
   * nearest declaration (a scope on the path that declares it, with no
   * scope walked before it declaring it too) with no diagnostic; a name declared nowhere on that
   * path adds exactly one UnknownName (range, lexeme) and binds to None.
   * Nothing else changes.
   */
  lemma BindName(node: SyntaxTree.Node, scope: nat, st: Session)
    requires ChainWellFormed(st.chain)
    ensures Bind(SyntaxTree.Name(node), scope, st).Ok? <==> Lookup(st, scope, node).Ok?
    ensures Bind(SyntaxTree.Name(node), scope, st).Ok? ==>
      var key, path := Source(st.text, node).value, Path(st.chain, scope);
      Lookup(st, scope, node).value.None? <==> forall j :: 0 <= j < |path| ==> !Holds(st.chain[path[j]], TypeMap, key)
    ensures Bind(SyntaxTree.Name(node), scope, st).Ok? ==>
      var found, r := Lookup(st, scope, node).value, Bind(SyntaxTree.Name(node), scope, st).value;
      && (found.Some? ==> r == Outcome(found.value, st))
      && (found.None? ==> r == Outcome(Types.None, st.(errors := st.errors + [UnknownName(Grammar.RangeOf(node), Source(st.text, node).value)])))
    ensures Bind(SyntaxTree.Name(node), scope, st).Ok? && Lookup(st, scope, node).value.Some? ==>
      var key, path := Source(st.text, node).value, Path(st.chain, scope);
      var h := Holder(st.chain, scope, TypeMap, key);
      && h.Some? && h.value in path && key in st.chain[h.value].types
      && Bind(SyntaxTree.Name(node), scope, st).value.value == st.chain[h.value].types[key]
      && forall j :: 0 <= j < |path| && path[j] > h.value ==> !Holds(st.chain[path[j]], TypeMap, key)
  {
    if Lookup(st, scope, node).Ok? {
      HolderNoneIffUnbound(st.chain, scope, TypeMap, Source(st.text, node).value);
      HolderIsNearest(st.chain, scope, TypeMap, Source(st.text, node).value);
    }
  }

  /**
   * A call binds its callee, then its argument, then adds its own
   * diagnostics, so they appear in that order; it binds to the callee's
   * return type, or to None with a BadCall when the callee is no closure.
   */
  lemma BindCallOrder(left: SyntaxTree.Syntax, right: SyntaxTree.Syntax, scope: nat, st: Session)
    requires ChainWellFormed(st.chain) && Bind(SyntaxTree.Call(left, right), scope, st).Ok?
    ensures Bind(left, scope, st).Ok?
    ensures var callee := Bind(left, scope, st).value;
      && Bind(right, scope, callee.session).Ok?
      && var argument := Bind(right, scope, callee.session).value;
         var r := Bind(SyntaxTree.Call(left, right), scope, st).value;
         && st.errors <= callee.session.errors <= argument.session.errors
         && r.session.errors == argument.session.errors + CallDiagnostics(callee.value, argument.value)
         && r.session.chain == argument.session.chain
         && r.value == (if callee.value.Closure? then callee.value.ret else Types.None)
  {
  }

  /**
   * From a fresh session, the closure `x \U{2192} : Number x` panics when
   * bound: its annotation `Number` is looked up among the types of values,
   * and the global scope declares only `inc` and `dec` there.
   */
  lemma AnnotatedClosurePanicsAtTop()
    ensures var st := Initial().(text := "x \U{2192} : Number x");
      var closure := SyntaxTree.Closure(
        SyntaxTree.Node(Tokens.Identifier, Tokens.Description(0, 1)),
        SyntaxTree.Node(Tokens.Lambda, Tokens.Description(2, 1)),
        SyntaxTree.Node(Tokens.Colon, Tokens.Description(4, 1)),
        SyntaxTree.Node(Tokens.Identifier, Tokens.Description(6, 6)),
        SyntaxTree.Name(SyntaxTree.Node(Tokens.Identifier, Tokens.Description(13, 1))));
      Bind(closure, 0, st) == Fail(Panic)
  {
    var st := Initial().(text := "x \U{2192} : Number x");
    var typeName := SyntaxTree.Node(Tokens.Identifier, Tokens.Description(6, 6));
    assert |st.text| == 14;
    assert st.text[6..12] == "Number";
    assert Source(st.text, typeName) == Ok("Number");
    assert "Number" !in Global().types;
    assert Holder(st.chain, 0, TypeMap, "Number").None?;
  }

  /**
   * A closure's annotation is looked up among the types of values (not the
   * type definitions) and binding panics when it is absent; otherwise the
   * closure binds to Closure(annotation, body type), with the body bound in
   * the closure's own scope and the parameter never declared.
   */
  lemma BindClosure(name: SyntaxTree.Node, lambda: SyntaxTree.Node, colon: SyntaxTree.Node, typeName: SyntaxTree.Node,
                    body: SyntaxTree.Syntax, scope: nat, st: Session)
    requires ChainWellFormed(st.chain)
    ensures var e := SyntaxTree.Closure(name, lambda, colon, typeName, body);
      && (Lookup(st, scope, typeName).Ok? && Lookup(st, scope, typeName).value.None? ==> Bind(e, scope, st).Fail?)
      && (Bind(e, scope, st).Ok? ==>
            && Lookup(st, scope, typeName).Ok? && Lookup(st, scope, typeName).value.Some?
            && Bind(body, scope, st).Ok?
            && Bind(e, scope, st).value ==
                 Outcome(Types.Closure(Lookup(st, scope, typeName).value.value, Bind(body, scope, st).value.value),
                         Bind(body, scope, st).value.session))
  {
  }

  /** A type expression binds to its definition, or to None with no diagnostic, and changes nothing. */
  lemma BindTypeExpressionReadOnly(annotation: SyntaxTree.TypeExpressionSyntax, scope: nat, st: Session)
    requires ChainWellFormed(st.chain)
    ensures var r := Bind(SyntaxTree.TypeExpression(annotation), scope, st);
      && (r.Ok? <==> LookupTypeDefinition(st, scope, annotation.name).Ok?)
      && (r.Ok? ==> r.value.session == st)
      && (r.Ok? && LookupTypeDefinition(st, scope, annotation.name).value.None? ==> r.value.value == Types.None)
      && (r.Ok? && LookupTypeDefinition(st, scope, annotation.name).value.Some? ==>
            r.value.value == LookupTypeDefinition(st, scope, annotation.name).value.value)
  {
  }

  /**
   * Assignment binds its right-hand side first. If the name is already
   * declared in the scope or an ancestor, exactly one Reassignment is added
   * and no type changes; otherwise the name is declared in the current
   * scope with the right-hand side's type and no diagnostic is added.
   * Either way the assignment binds to None.
   */
  lemma BindAssignment(target: SyntaxTree.Node, annotation: Option<SyntaxTree.TypeExpressionSyntax>, equals: SyntaxTree.Node,
                       expression: SyntaxTree.Syntax, scope: nat, st: Session)
    requires ChainWellFormed(st.chain)
    requires Bind(SyntaxTree.Assignment(target, annotation, equals, expression), scope, st).Ok?
    ensures Bind(expression, scope, st).Ok?
    ensures var rhs := Bind(expression, scope, st).value;
      var r := Bind(SyntaxTree.Assignment(target, annotation, equals, expression), scope, st).value;
      && r.value == Types.None
      && Lookup(rhs.session, scope, target).Ok?
      && (Lookup(rhs.session, scope, target).value.Some? ==>
            && r.session.chain == rhs.session.chain
            && r.session.errors == rhs.session.errors + [Reassignment(Grammar.RangeOf(target), Source(st.text, target).value)])
      && (Lookup(rhs.session, scope, target).value.None? ==>
            && r.session.errors == rhs.session.errors
            && Lookup(r.session, scope, target) == Ok(Some(rhs.value)))
  {
    var rhs := Bind(expression, scope, st).value;
    if Lookup(rhs.session, scope, target).value.None? {
      DeclareThenLookup(rhs.session, scope, target, rhs.value, target);
    }
  }

  /** Binding never undeclares a name: what a scope can see stays visible from it. */
  lemma StaysDeclared(st: Session, st': Session, scope: nat, key: string)
    requires ChainWellFormed(st.chain) && ChainWellFormed(st'.chain) && Grows(st, st') && scope < |st.chain|
    requires Holder(st.chain, scope, TypeMap, key).Some?
    ensures Holder(st'.chain, scope, TypeMap, key).Some?
  {
    var h := Holder(st.chain, scope, TypeMap, key).value;
    HolderIsNearest(st.chain, scope, TypeMap, key);
    PathUnchanged(st.chain, st'.chain, scope);
    HolderNoneIffUnbound(st'.chain, scope, TypeMap, key);
    var p := Path(st.chain, scope);
    var j :| 0 <= j < |p| && p[j] == h;
    assert Holds(st'.chain[p[j]], TypeMap, key);
  }

  /** Binding the same assignment twice: the second time the name is known, so it reports a Reassignment. */
  lemma RebindingReportsReassignment(target: SyntaxTree.Node, equals: SyntaxTree.Node, expression: SyntaxTree.Syntax,
                                     scope: nat, st: Session)
    requires ChainWellFormed(st.chain)
    requires Bind(SyntaxTree.Assignment(target, Option.None, equals, expression), scope, st).Ok?
    ensures var once := Bind(SyntaxTree.Assignment(target, Option.None, equals, expression), scope, st).value.session;
      var rhs := Bind(expression, scope, once);
      rhs.Ok? ==>
        var twice := Bind(SyntaxTree.Assignment(target, Option.None, equals, expression), scope, once);
        twice.Ok? && twice.value.session.errors ==
          rhs.value.session.errors + [Reassignment(Grammar.RangeOf(target), Source(st.text, target).value)]
  {
    var e := SyntaxTree.Assignment(target, Option.None, equals, expression);
    BindAssignment(target, Option.None, equals, expression, scope, st);
    var once := Bind(e, scope, st).value.session;
    var key := Source(st.text, target).value;
    assert Lookup(once, scope, target).Ok? && Lookup(once, scope, target).value.Some?;
    var rhs := Bind(expression, scope, once);
    if rhs.Ok? {
      StaysDeclared(once, rhs.value.session, scope, key);
    }
  }

  /** Two chains with the same parent links have the same paths. */
  lemma {:induction false} PathUnchanged(a: seq<Scope>, b: seq<Scope>, scope: nat)
    requires ChainWellFormed(a) && ChainWellFormed(b) && |a| == |b| && scope < |a|
    requires forall i :: 0 <= i < |a| ==> a[i].parent == b[i].parent
    ensures Path(a, scope) == Path(b, scope)
    decreases scope
  {
    if a[scope].parent.Some? {
      PathUnchanged(a, b, a[scope].parent.value);
    }
  }
}
