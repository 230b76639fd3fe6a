/**
 * Binding frames (src/interpreter/scope.rs): a parent index and three maps
 * from names to values, to the types of values, and to type definitions.
 * The global frame is the root of every chain and registers `inc` and `dec`.
 */
module Scopes {
  import opened Fallible
  import opened Values
  import Types
  import Library

  /**
   * A frame of the scope chain. `typeDefinitions` is the namespace type
   * annotations are resolved in; the interpreter reads it although the
   * record as shown declares only the first two maps.
   */
  datatype Scope = Scope(
    parent: Option<nat>,
    values: map<string, Value>,
    types: map<string, Types.Type>,
    typeDefinitions: map<string, Types.Type>)

  /**
   * `Scope::global`: no parent; `inc` and `dec` with type
   * `Closure(Number, Number)` and the successor and predecessor closures.
   */
  function Global(): (s: Scope)
    ensures s.parent == Option.None
    ensures s.types.Keys == s.values.Keys == {"inc", "dec"}
    ensures forall name :: name in s.types ==>
      s.types[name] == Library.NUMBER_TO_NUMBER && Library.HasType(s.values[name], s.types[name])
    ensures s.typeDefinitions == map[]
  {
    Scope(
      Option.None,
      map["inc" := Closure(Successor), "dec" := Closure(Predecessor)],
      map["inc" := Library.NUMBER_TO_NUMBER, "dec" := Library.NUMBER_TO_NUMBER],
      map[])
  }

  /** `Scope::new(parent)`: a frame under `parent` with nothing bound. */
  function New(parent: nat): (s: Scope)
    ensures s.parent == Some(parent)
    ensures s.values == map[] && s.types == map[] && s.typeDefinitions == map[]
  {
    Scope(Some(parent), map[], map[], map[])
  }

  /**
   * The global `inc` and `dec` are the library's modules of those names:
   * same type, same closure, so `inc n` is `n + 1` and `dec n` is `n - 1`.
   */
  lemma GlobalAgreesWithLibrary(n: Usize)
    ensures forall m :: m in [Library.IncModule(), Library.DecModule()] ==>
      m.name in Global().values && Global().values[m.name] == m.value && Global().types[m.name] == m.moduleType
    ensures n < USIZE_MAX ==> Library.Apply(Global().values["inc"].f, Number(n)) == Ok(Number(n + 1))
    ensures n > 0 ==> Library.Apply(Global().values["dec"].f, Number(n)) == Ok(Number(n - 1))
  {
    Library.IncSpec(Number(n));
    Library.DecSpec(Number(n));
  }
}
