/**
 * Runtime values (src/interpreter/value.rs): unsigned machine numbers,
 * strings, booleans, closures and none, with the payload accessors that
 * panic on the wrong variant, `clone`, and the hand-written equality.
 *
 * A closure is an `Arc<dyn Fn>` in the source. The only closures the shown
 * code creates are the library functions and their partial applications,
 * so a closure value is one of those, named by a `Builtin` tag.
 */
module Values {
  import opened Fallible

  /** The largest `usize`: numbers are 64-bit unsigned integers. */
  const USIZE_MAX: nat := 0xFFFF_FFFF_FFFF_FFFF

  type Usize = n: nat | n <= USIZE_MAX

  datatype Value =
    | Number(n: Usize)
    | String(s: string)
    | Boolean(b: bool)
    | Closure(f: Builtin)
    | None

  /**
   * The closures of the library: `inc`, `dec`, and the curried `mul`, `div`
   * and `cat` before and after their first argument.
   */
  datatype Builtin =
    | Successor
    | Predecessor
    | Product
    | ProductWith(first: Value)
    | Quotient
    | QuotientOf(first: Value)
    | Concatenation
    | ConcatenationWith(first: Value)

  function UnwrapNumber(v: Value): (r: Result<Usize>)
    ensures r.Ok? <==> v.Number?
    ensures r.Ok? ==> v == Number(r.value)
  {
    match v
    case Number(n) => Ok(n)
    case _ => Fail(Panic)
  }

  function UnwrapString(v: Value): (r: Result<string>)
    ensures r.Ok? <==> v.String?
    ensures r.Ok? ==> v == String(r.value)
  {
    match v
    case String(s) => Ok(s)
    case _ => Fail(Panic)
  }

  function UnwrapBool(v: Value): (r: Result<bool>)
    ensures r.Ok? <==> v.Boolean?
    ensures r.Ok? ==> v == Boolean(r.value)
  {
    match v
    case Boolean(b) => Ok(b)
    case _ => Fail(Panic)
  }

  function UnwrapClosure(v: Value): (r: Result<Builtin>)
    ensures r.Ok? <==> v.Closure?
    ensures r.Ok? ==> v == Closure(r.value)
  {
    match v
    case Closure(f) => Ok(f)
    case _ => Fail(Panic)
  }

  /** `clone`: a copy of each payload; a closure shares the same function. */
  function Clone(v: Value): Value {
    match v
    case Number(n) => Number(n)
    case String(s) => String(s)
    case Boolean(b) => Boolean(b)
    case Closure(f) => Closure(f)
    case None => Value.None
  }

  /** A clone is the value itself: same variant, same payload. */
  lemma CloneIsIdentity(v: Value)
    ensures Clone(v) == v
  {
  }

  /**
   * `eq`: a number, string or boolean unwraps the other side as its own
   * variant (and so panics on any other); a closure is never equal; none
   * equals only none.
   */
  function Equals(a: Value, b: Value): Result<bool> {
    var other := Clone(b);
    match a
    case Number(n) => var m :- UnwrapNumber(other); Ok(n == m)
    case String(s) => var t :- UnwrapString(other); Ok(s == t)
    case Boolean(x) => var y :- UnwrapBool(other); Ok(x == y)
    case Closure(_) => Ok(false)
    case None => Ok(other.None?)
  }

  /** Comparing a number, string or boolean with a value of another variant panics. */
  lemma EqualsPanicsAcrossVariants(a: Value, b: Value)
    requires a.Number? || a.String? || a.Boolean?
    ensures Equals(a, b).Fail? <==>
      (a.Number? && !b.Number?) || (a.String? && !b.String?) || (a.Boolean? && !b.Boolean?)
  {
  }

  /** Between two values of the same plain variant, `eq` is equality of payloads. */
  lemma EqualsOnSameVariant(a: Value, b: Value)
    requires (a.Number? && b.Number?) || (a.String? && b.String?) || (a.Boolean? && b.Boolean?) || a.None?
    ensures Equals(a, b) == Ok(a == b)
  {
  }

  /** A closure equals nothing, not even itself, and none equals exactly none. */
  lemma EqualsClosureAndNone(f: Builtin, b: Value)
    ensures Equals(Closure(f), b) == Ok(false)
    ensures Equals(Closure(f), Closure(f)) == Ok(false)
    ensures Equals(Value.None, b) == Ok(b == Value.None)
  {
  }

  /** `eq` is not symmetric: none against a number is false, a number against none panics. */
  lemma EqualsIsAsymmetric()
    ensures Equals(Value.None, Number(0)) == Ok(false)
    ensures Equals(Number(0), Value.None) == Fail(Panic)
  {
  }
}
