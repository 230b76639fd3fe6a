/**
 * The interpreter's state (src/interpreter/mod.rs) as a value: the source
 * text, the arena of scopes with parent indices, and the diagnostics. The
 * read-only walks `lookup`, `lookup_type_definition` and `get`, the slices
 * `source` and `range`, and the updates `declare` and the value-map insert
 * are functions of it.
 */
module Environment {
  import opened Fallible
  import opened Values
  import opened Scopes
  import Types
  import Errors
  import SyntaxTree
  import Recognition
  import Parser

  datatype Session = Session(text: string, chain: seq<Scope>, errors: seq<Errors.Error>)

  /** A result together with the session after computing it. */
  datatype Outcome<+T> = Outcome(value: T, session: Session)

  /**
   * Every parent link points to an earlier scope, so each walk towards the
   * root terminates. Scopes are only ever appended under an existing one.
   */
  predicate ChainWellFormed(chain: seq<Scope>) {
    forall i :: 0 <= i < |chain| && chain[i].parent.Some? ==> chain[i].parent.value < i
  }

  /** `Interpreter::new`: the global scope alone and no diagnostics. */
  function Initial(): (st: Session)
    ensures ChainWellFormed(st.chain) && |st.chain| == 1 && st.chain[0].parent.None?
    ensures st.errors == []
  {
    Session("", [Global()], [])
  }

  /** `error`: append a diagnostic after those already recorded. */
  function Report(st: Session, e: Errors.Error): (st': Session)
    ensures st'.errors == st.errors + [e] && st'.text == st.text && st'.chain == st.chain
  {
    st.(errors := st.errors + [e])
  }

  /** `source(node)`: the node's lexeme; slicing past the end of the text panics. */
  function Source(text: string, node: SyntaxTree.Node): (r: Result<string>)
    ensures r.Ok? <==> node.description.position + node.description.length <= |text|
    ensures r.Ok? ==> |r.value| == node.description.length
    ensures r.Ok? ==> r.value == Recognition.SpanOf(text, node.description.position, node.description.length)
  {
    var d := node.description;
    if d.position + d.length <= |text| then Ok(text[d.position..d.position + d.length]) else Fail(Panic)
  }

  /** Every node the parser reads from a text can be sliced out of that text. */
  lemma SourceOfParsedNodes(text: string)
    ensures forall n :: n in Parser.SourceNodes(text) ==> Source(text, n).Ok?
  {
    Parser.SourceNodesWithin(text);
  }

  /** The three maps of a scope. */
  datatype Namespace = TypeMap | TypeDefinitionMap | ValueMap

  predicate Holds(s: Scope, ns: Namespace, key: string) {
    match ns
    case TypeMap => key in s.types
    case TypeDefinitionMap => key in s.typeDefinitions
    case ValueMap => key in s.values
  }

  /**
   * The walk all three lookups share: the scope itself if it binds `key`,
   * else the parent's answer, and nothing past the root.
   */
  function Holder(chain: seq<Scope>, scope: nat, ns: Namespace, key: string): (r: Option<nat>)
    requires ChainWellFormed(chain) && scope < |chain|
    ensures r.Some? ==> r.value <= scope && Holds(chain[r.value], ns, key)
    decreases scope
  {
    if Holds(chain[scope], ns, key) then Some(scope)
    else match chain[scope].parent
      case None => Option.None
      case Some(p) => Holder(chain, p, ns, key)
  }

  /** The scopes from `scope` up to the root, following parent links. */
  function Path(chain: seq<Scope>, scope: nat): (p: seq<nat>)
    requires ChainWellFormed(chain) && scope < |chain|
    ensures |p| >= 1 && p[0] == scope
    ensures forall i :: 0 <= i < |p| ==> p[i] <= scope
    ensures chain[p[|p| - 1]].parent.None?
    ensures forall i :: 0 <= i < |p| - 1 ==> chain[p[i]].parent == Some(p[i + 1])
    decreases scope
  {
    match chain[scope].parent
    case None => [scope]
    case Some(q) => [scope] + Path(chain, q)
  }

  /** One step of the path: a scope with a parent goes on with the parent's path. */
  lemma PathStep(chain: seq<Scope>, scope: nat)
    requires ChainWellFormed(chain) && scope < |chain| && chain[scope].parent.Some?
    ensures Path(chain, scope) == [scope] + Path(chain, chain[scope].parent.value)
  {
  }

  /** A scope that lacks the name, over a parent path that lacks it, gives a path that lacks it. */
  lemma UnboundOnPath(chain: seq<Scope>, scope: nat, ns: Namespace, key: string)
    requires ChainWellFormed(chain) && scope < |chain| && chain[scope].parent.Some?
    requires !Holds(chain[scope], ns, key)
    requires var p' := Path(chain, chain[scope].parent.value);
      forall j :: 0 <= j < |p'| ==> !Holds(chain[p'[j]], ns, key)
    ensures var p := Path(chain, scope);
      forall j :: 0 <= j < |p| ==> !Holds(chain[p[j]], ns, key)
  {
    var p, p' := Path(chain, scope), Path(chain, chain[scope].parent.value);
    PathStep(chain, scope);
    forall j | 0 <= j < |p|
      ensures !Holds(chain[p[j]], ns, key)
    {
      if j == 0 {
        assert p[j] == scope;
      } else {
        assert p[j] == p'[j - 1];
      }
    }
  }

  /** The walk finds nothing exactly when no scope on the path to the root binds the name. */
  lemma {:induction false} HolderNoneIffUnbound(chain: seq<Scope>, scope: nat, ns: Namespace, key: string)
    requires ChainWellFormed(chain) && scope < |chain|
    ensures var p := Path(chain, scope);
      Holder(chain, scope, ns, key).None? <==> forall j :: 0 <= j < |p| ==> !Holds(chain[p[j]], ns, key)
    decreases scope
  {
    var p := Path(chain, scope);
    if Holds(chain[scope], ns, key) {
      assert Holds(chain[Path(chain, scope)[0]], ns, key);
    } else if chain[scope].parent.None? {
      assert p == [scope];
    } else {
      var q := chain[scope].parent.value;
      var p' := Path(chain, q);
      HolderNoneIffUnbound(chain, q, ns, key);
      if Holder(chain, q, ns, key).None? {
        UnboundOnPath(chain, scope, ns, key);
      } else {
        PathStep(chain, scope);
        var j :| 0 <= j < |p'| && Holds(chain[p'[j]], ns, key);
        assert p[j + 1] == p'[j];
      }
    }
  }

  /**
   * What the walk finds is a scope on the path to the root, and every scope
   * the path passes before it (those with a larger index) lacks the name.
   */
  lemma {:induction false} HolderIsNearest(chain: seq<Scope>, scope: nat, ns: Namespace, key: string)
    requires ChainWellFormed(chain) && scope < |chain|
    ensures var p, h := Path(chain, scope), Holder(chain, scope, ns, key);
      h.Some? ==> h.value in p && forall j :: 0 <= j < |p| && p[j] > h.value ==> !Holds(chain[p[j]], ns, key)
    decreases scope
  {
    var p := Path(chain, scope);
    var h := Holder(chain, scope, ns, key);
    if !Holds(chain[scope], ns, key) && chain[scope].parent.Some? {
      var q := chain[scope].parent.value;
      HolderIsNearest(chain, q, ns, key);
      var p' := Path(chain, q);
      assert p == [scope] + p';
    }
  }

  /** `lookup`: the type of a name, from the nearest scope that declares it. */
  function Lookup(st: Session, scope: nat, node: SyntaxTree.Node): (r: Result<Option<Types.Type>>)
    requires ChainWellFormed(st.chain)
    ensures r.Ok? <==> scope < |st.chain| && Source(st.text, node).Ok?
    ensures r.Ok? ==> (r.value.Some? <==> Holder(st.chain, scope, TypeMap, Source(st.text, node).value).Some?)
    ensures r.Ok? && r.value.Some? ==>
      var key, h := Source(st.text, node).value, Holder(st.chain, scope, TypeMap, Source(st.text, node).value);
      h.Some? && key in st.chain[h.value].types && r.value.value == st.chain[h.value].types[key]
  {
    if scope >= |st.chain| then Fail(Panic)
    else
      var key :- Source(st.text, node);
      var h := Holder(st.chain, scope, TypeMap, key);
      Ok(if h.Some? then Some(st.chain[h.value].types[key]) else Option.None)
  }

  /** `lookup_type_definition`: the same walk over the type definitions. */
  function LookupTypeDefinition(st: Session, scope: nat, node: SyntaxTree.Node): (r: Result<Option<Types.Type>>)
    requires ChainWellFormed(st.chain)
    ensures r.Ok? <==> scope < |st.chain| && Source(st.text, node).Ok?
    ensures r.Ok? ==> (r.value.Some? <==> Holder(st.chain, scope, TypeDefinitionMap, Source(st.text, node).value).Some?)
    ensures r.Ok? && r.value.Some? ==>
      var key, h := Source(st.text, node).value, Holder(st.chain, scope, TypeDefinitionMap, Source(st.text, node).value);
      h.Some? && key in st.chain[h.value].typeDefinitions && r.value.value == st.chain[h.value].typeDefinitions[key]
  {
    if scope >= |st.chain| then Fail(Panic)
    else
      var key :- Source(st.text, node);
      var h := Holder(st.chain, scope, TypeDefinitionMap, key);
      Ok(if h.Some? then Some(st.chain[h.value].typeDefinitions[key]) else Option.None)
  }

  /** `get`: the same walk over the values. */
  function Get(st: Session, scope: nat, node: SyntaxTree.Node): (r: Result<Option<Value>>)
    requires ChainWellFormed(st.chain)
    ensures r.Ok? <==> scope < |st.chain| && Source(st.text, node).Ok?
    ensures r.Ok? ==> (r.value.Some? <==> Holder(st.chain, scope, ValueMap, Source(st.text, node).value).Some?)
    ensures r.Ok? && r.value.Some? ==>
      var key, h := Source(st.text, node).value, Holder(st.chain, scope, ValueMap, Source(st.text, node).value);
      h.Some? && key in st.chain[h.value].values && r.value.value == st.chain[h.value].values[key]
  {
    if scope >= |st.chain| then Fail(Panic)
    else
      var key :- Source(st.text, node);
      var h := Holder(st.chain, scope, ValueMap, key);
      Ok(if h.Some? then Some(st.chain[h.value].values[key]) else Option.None)
  }

  /** Two sessions that differ at most in one scope's type map. */
  predicate OnlyTypesOf(st: Session, st': Session, scope: nat) {
    && st'.text == st.text && st'.errors == st.errors && |st'.chain| == |st.chain|
    && (forall i :: 0 <= i < |st.chain| && i != scope ==> st'.chain[i] == st.chain[i])
    && (scope < |st.chain| ==>
          st'.chain[scope] == st.chain[scope].(types := st'.chain[scope].types))
  }

  /**
   * `declare`: bind the node's lexeme to `t` in that scope's type map. It
   * panics when the lexeme or the scope does not exist; nothing but that one
   * map changes.
   */
  function Declare(st: Session, scope: nat, node: SyntaxTree.Node, t: Types.Type): (r: Result<Session>)
    requires ChainWellFormed(st.chain)
    ensures r.Ok? <==> scope < |st.chain| && Source(st.text, node).Ok?
    ensures r.Ok? ==> ChainWellFormed(r.value.chain) && OnlyTypesOf(st, r.value, scope)
    ensures r.Ok? ==> r.value.chain[scope].types == st.chain[scope].types[Source(st.text, node).value := t]
  {
    var key :- Source(st.text, node);
    if scope >= |st.chain| then Fail(Panic)
    else
      var s := st.chain[scope];
      Ok(st.(chain := st.chain[scope := s.(types := s.types[key := t])]))
  }

  /** A declared name is found again from the scope it was declared in, with the declared type. */
  lemma DeclareThenLookup(st: Session, scope: nat, node: SyntaxTree.Node, t: Types.Type, again: SyntaxTree.Node)
    requires ChainWellFormed(st.chain) && Declare(st, scope, node, t).Ok?
    requires Source(st.text, again) == Source(st.text, node)
    ensures Lookup(Declare(st, scope, node, t).value, scope, again) == Ok(Some(t))
  {
  }

  /**
   * The value-map insert of assignment evaluation: `key` is bound to `v` in
   * that scope, replacing any earlier value; a missing scope panics.
   */
  function Insert(st: Session, scope: nat, key: string, v: Value): (r: Result<Session>)
    requires ChainWellFormed(st.chain)
    ensures r.Ok? <==> scope < |st.chain|
    ensures r.Ok? ==> ChainWellFormed(r.value.chain)
    ensures r.Ok? ==>
      && r.value.text == st.text && r.value.errors == st.errors && |r.value.chain| == |st.chain|
      && (forall i :: 0 <= i < |st.chain| && i != scope ==> r.value.chain[i] == st.chain[i])
      && r.value.chain[scope] == st.chain[scope].(values := st.chain[scope].values[key := v])
  {
    if scope >= |st.chain| then Fail(Panic)
    else
      var s := st.chain[scope];
      Ok(st.(chain := st.chain[scope := s.(values := s.values[key := v])]))
  }

  /** After an insert the name reads back as the inserted value, and a second insert wins over the first. */
  lemma InsertThenGet(st: Session, scope: nat, node: SyntaxTree.Node, v: Value, w: Value)
    requires ChainWellFormed(st.chain) && scope < |st.chain| && Source(st.text, node).Ok?
    ensures var key := Source(st.text, node).value;
      Get(Insert(st, scope, key, v).value, scope, node) == Ok(Some(v))
    ensures var key := Source(st.text, node).value;
      Insert(Insert(st, scope, key, v).value, scope, key, w) == Insert(st, scope, key, w)
  {
    var key := Source(st.text, node).value;
    var s := st.chain[scope];
    var s1 := s.(values := s.values[key := v]);
    assert s1.(values := s1.values[key := w]) == s.(values := s.values[key := w]);
    assert st.chain[scope := s1][scope := s1.(values := s1.values[key := w])] == st.chain[scope := s.(values := s.values[key := w])];
  }
}
