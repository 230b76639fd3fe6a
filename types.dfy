/** The static types of the language (src/interpreter/type.rs). */
module Types {

  datatype Type =
    | Number
    | String
    | Boolean
    | Closure(param: Type, ret: Type)
    | None

  /** The derived `PartialEq` of `Type`: same constructor, and equal components for closures. */
  function Equal(a: Type, b: Type): bool {
    match (a, b)
    case (Number, Number) => true
    case (String, String) => true
    case (Boolean, Boolean) => true
    case (None, None) => true
    case (Closure(p, r), Closure(q, s)) => Equal(p, q) && Equal(r, s)
    case _ => false
  }

  /** The derived equality is exactly structural identity of types. */
  lemma {:induction false} EqualIsIdentity(a: Type, b: Type)
    ensures Equal(a, b) <==> a == b
  {
    match (a, b)
    case (Closure(p, r), Closure(q, s)) =>
      EqualIsIdentity(p, q);
      EqualIsIdentity(r, s);
    case _ =>
  }

  /** Closure types are equal exactly when parameters and results are. */
  lemma ClosureEquality(a: Type, b: Type, c: Type, d: Type)
    ensures Equal(Closure(a, b), Closure(c, d)) <==> Equal(a, c) && Equal(b, d)
  {
  }

  /** The derived equality is reflexive and symmetric. */
  lemma {:induction false} EqualReflexiveSymmetric(a: Type, b: Type)
    ensures Equal(a, a)
    ensures Equal(a, b) == Equal(b, a)
  {
    EqualIsIdentity(a, a);
    EqualIsIdentity(a, b);
    EqualIsIdentity(b, a);
  }

  /** The derived `Debug` text of a type, as diagnostics print it. */
  function Text(t: Type): string {
    match t
    case Number => "Number"
    case String => "String"
    case Boolean => "Boolean"
    case None => "None"
    case Closure(p, r) => "Closure(" + Text(p) + ", " + Text(r) + ")"
  }
}
