/**
 * The core library (src/core/library/inc.rs, dec.rs, mul.rs, div.rs,
 * cat.rs): each `define` builds a named module of a type and a closure
 * value. Applying a closure is `Apply`; arithmetic on `usize` panics on
 * overflow, underflow and division by zero, as in a debug build.
 */
module Library {
  import opened Fallible
  import opened Values
  import Types

  /** `Module::new(name, type, value)`. */
  datatype Module = Module(name: string, moduleType: Types.Type, value: Value)

  const NUMBER_TO_NUMBER: Types.Type := Types.Closure(Types.Number, Types.Number)
  const STRING_TO_STRING: Types.Type := Types.Closure(Types.String, Types.String)

  function IncModule(): Module { Module("inc", NUMBER_TO_NUMBER, Closure(Successor)) }

  function DecModule(): Module { Module("dec", NUMBER_TO_NUMBER, Closure(Predecessor)) }

  function MulModule(): Module { Module("mul", Types.Closure(Types.Number, NUMBER_TO_NUMBER), Closure(Product)) }

  function DivModule(): Module { Module("div", Types.Closure(Types.Number, NUMBER_TO_NUMBER), Closure(Quotient)) }

  function CatModule(): Module { Module("cat", Types.Closure(Types.String, STRING_TO_STRING), Closure(Concatenation)) }

  /**
   * Calling a library closure on an argument. The first stage of `mul`,
   * `div` and `cat` only captures its argument; the second stage unwraps
   * the captured value first and then the new one.
   */
  function Apply(f: Builtin, v: Value): Result<Value> {
    match f
    case Successor =>
      var n :- UnwrapNumber(v);
      if n + 1 > USIZE_MAX then Fail(Panic) else Ok(Number(n + 1))
    case Predecessor =>
      var n :- UnwrapNumber(v);
      if n == 0 then Fail(Panic) else Ok(Number(n - 1))
    case Product => Ok(Closure(ProductWith(v)))
    case ProductWith(first) =>
      var a :- UnwrapNumber(Clone(first));
      var b :- UnwrapNumber(v);
      if a * b > USIZE_MAX then Fail(Panic) else Ok(Number(a * b))
    case Quotient => Ok(Closure(QuotientOf(v)))
    case QuotientOf(first) =>
      var a :- UnwrapNumber(Clone(first));
      var b :- UnwrapNumber(v);
      if b == 0 then Fail(Panic) else Ok(Number(a / b))
    case Concatenation => Ok(Closure(ConcatenationWith(v)))
    case ConcatenationWith(first) =>
      var a :- UnwrapString(Clone(first));
      var b :- UnwrapString(v);
      Ok(String(a + b))
  }

  /** A closure applied to two arguments in turn, as `f x y` evaluates. */
  function Apply2(f: Builtin, x: Value, y: Value): Result<Value> {
    var g :- Apply(f, x);
    var h :- UnwrapClosure(g);
    Apply(h, y)
  }

  /** `inc` is the successor and panics at the top of `usize`; it panics on anything but a number. */
  lemma IncSpec(v: Value)
    ensures Apply(Successor, v).Ok? <==> v.Number? && v.n < USIZE_MAX
    ensures Apply(Successor, v).Ok? ==> Apply(Successor, v).value == Number(v.n + 1)
  {
  }

  /** `dec` is the predecessor and panics at 0; it panics on anything but a number. */
  lemma DecSpec(v: Value)
    ensures Apply(Predecessor, v).Ok? <==> v.Number? && v.n > 0
    ensures Apply(Predecessor, v).Ok? ==> Apply(Predecessor, v).value == Number(v.n - 1)
  {
  }

  /** `dec` undoes `inc` and `inc` undoes `dec`, wherever the first step does not panic. */
  lemma IncDecInverse(n: Usize)
    ensures n < USIZE_MAX ==> Apply(Predecessor, Apply(Successor, Number(n)).value) == Ok(Number(n))
    ensures n > 0 ==> Apply(Successor, Apply(Predecessor, Number(n)).value) == Ok(Number(n))
  {
  }

  /**
   * `mul a` only captures `a`; `mul a b` is the product, panicking when it
   * overflows `usize` or when either argument is not a number (the captured
   * one is unwrapped first).
   */
  lemma MulSpec(a: Value, b: Value)
    ensures Apply(Product, a) == Ok(Closure(ProductWith(a)))
    ensures Apply2(Product, a, b).Ok? <==> a.Number? && b.Number? && a.n * b.n <= USIZE_MAX
    ensures Apply2(Product, a, b).Ok? ==> Apply2(Product, a, b).value == Number(a.n * b.n)
  {
  }

  /**
   * `div a b` is the floor quotient: the largest `q` with `q * b <= a`. A
   * zero divisor or a non-number argument panics.
   */
  lemma DivSpec(a: Value, b: Value)
    ensures Apply(Quotient, a) == Ok(Closure(QuotientOf(a)))
    ensures Apply2(Quotient, a, b).Ok? <==> a.Number? && b.Number? && b.n != 0
    ensures Apply2(Quotient, a, b).Ok? ==>
      var q := Apply2(Quotient, a, b).value;
      q.Number? && q.n * b.n <= a.n < (q.n + 1) * b.n
  {
    if a.Number? && b.Number? && b.n != 0 {
      var q := a.n / b.n;
      assert a.n == q * b.n + a.n % b.n;
      assert (q + 1) * b.n == q * b.n + b.n;
    }
  }

  /** `cat a b` is `a` followed by `b`; anything but two strings panics. */
  lemma CatSpec(a: Value, b: Value)
    ensures Apply(Concatenation, a) == Ok(Closure(ConcatenationWith(a)))
    ensures Apply2(Concatenation, a, b).Ok? <==> a.String? && b.String?
    ensures Apply2(Concatenation, a, b).Ok? ==>
      var r := Apply2(Concatenation, a, b).value;
      r.String? && |r.s| == |a.s| + |b.s| && r.s[..|a.s|] == a.s && r.s[|a.s|..] == b.s
  {
  }

  /** Each library module is registered under its own name. */
  lemma ModuleNames()
    ensures IncModule().name == "inc" && DecModule().name == "dec" && MulModule().name == "mul"
    ensures DivModule().name == "div" && CatModule().name == "cat"
  {
  }

  /** `div (mul a b) b` gives back `a` for a non-zero `b`, when the product fits. */
  lemma DivUndoesMul(a: Usize, b: Usize)
    requires b > 0 && a * b <= USIZE_MAX
    ensures Apply2(Product, Number(a), Number(b)) == Ok(Number(a * b))
    ensures Apply2(Quotient, Number(a * b), Number(b)) == Ok(Number(a))
  {
    ProductQuotient(a, b);
  }

  /** Dividing a product by one factor leaves the other. */
  lemma ProductQuotient(a: nat, b: nat)
    requires b > 0
    ensures (a * b) / b == a
  {
    var d: int := a - (a * b) / b;
    assert d * b == (a * b) % b;
    assert (d - 1) * b == d * b - b && (d + 1) * b == d * b + b;
    assert (d - 1) * b < 0 < (d + 1) * b;
  }

  /** The type a library closure value has. */
  function BuiltinType(f: Builtin): Types.Type {
    match f
    case Successor => NUMBER_TO_NUMBER
    case Predecessor => NUMBER_TO_NUMBER
    case Product => Types.Closure(Types.Number, NUMBER_TO_NUMBER)
    case ProductWith(_) => NUMBER_TO_NUMBER
    case Quotient => Types.Closure(Types.Number, NUMBER_TO_NUMBER)
    case QuotientOf(_) => NUMBER_TO_NUMBER
    case Concatenation => Types.Closure(Types.String, STRING_TO_STRING)
    case ConcatenationWith(_) => STRING_TO_STRING
  }

  /** A value of type `t`; a partial application must have captured a value of its parameter type. */
  predicate HasType(v: Value, t: Types.Type) {
    match v
    case Number(_) => t == Types.Number
    case String(_) => t == Types.String
    case Boolean(_) => t == Types.Boolean
    case None => t == Types.None
    case Closure(f) =>
      && t == BuiltinType(f)
      && (f.ProductWith? ==> f.first.Number?)
      && (f.QuotientOf? ==> f.first.Number?)
      && (f.ConcatenationWith? ==> f.first.String?)
  }

  /**
   * Applying a well-typed closure to an argument of its parameter type never
   * panics on a variant: it yields a value of the result type, or panics
   * only for the arithmetic reasons (overflow, `dec 0`, division by zero).
   */
  lemma ApplyPreservesTypes(f: Builtin, v: Value)
    requires HasType(Closure(f), BuiltinType(f)) && HasType(v, BuiltinType(f).param)
    ensures Apply(f, v).Ok? ==> HasType(Apply(f, v).value, BuiltinType(f).ret)
    ensures Apply(f, v).Fail? ==>
      || (f.Successor? && v.n == USIZE_MAX)
      || (f.Predecessor? && v.n == 0)
      || (f.ProductWith? && f.first.n * v.n > USIZE_MAX)
      || (f.QuotientOf? && v.n == 0)
  {
  }

  /** Each module's value has the module's declared type. */
  lemma ModulesAreWellTyped()
    ensures forall m :: m in [IncModule(), DecModule(), MulModule(), DivModule(), CatModule()] ==>
      HasType(m.value, m.moduleType)
  {
  }
}
