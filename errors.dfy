/**
 * Diagnostics (src/error/mod.rs): seven variants, each carrying the source
 * range it is about, split into a Syntax and a Type category, and rendered as
 * "<category> Error: <message>" followed by the range. Terminal colours are
 * not modelled.
 */
module Errors {
  import opened Tokens
  import Types
  import Decimal

  /** A half-open interval `start..end` of character offsets. */
  datatype Range = Range(start: nat, end: nat)

  datatype Error =
    | UnknownToken(range: Range, text: string)
    | UnknownName(range: Range, name: string)
    | UnexpectedType(range: Range, expected: Types.Type, received: Types.Type)
    | Reassignment(range: Range, name: string)
    | UnexpectedToken(range: Range, expectedToken: Token, receivedToken: Token)
    | BadCall(range: Range)
    | MismatchedTypeAssignment(range: Range, target: string, expressionType: Types.Type, nameType: Types.Type)

  /** `Category::Syntax` and `Category::Type`. */
  datatype Category = SyntaxCategory | TypeCategory

  /** The category each diagnostic is reported under. */
  function CategoryOf(e: Error): (c: Category)
    ensures c == SyntaxCategory <==> e.UnknownToken? || e.UnexpectedToken?
    ensures c == TypeCategory <==>
      e.UnknownName? || e.UnexpectedType? || e.Reassignment? || e.BadCall? || e.MismatchedTypeAssignment?
  {
    match e
    case UnknownName(_, _) => TypeCategory
    case UnexpectedType(_, _, _) => TypeCategory
    case Reassignment(_, _) => TypeCategory
    case UnknownToken(_, _) => SyntaxCategory
    case UnexpectedToken(_, _, _) => SyntaxCategory
    case BadCall(_) => TypeCategory
    case MismatchedTypeAssignment(_, _, _, _) => TypeCategory
  }

  function CategoryText(c: Category): string {
    match c
    case SyntaxCategory => "Syntax"
    case TypeCategory => "Type"
  }

  /** The derived `Debug` text of a token kind. */
  function TokenText(t: Token): string {
    match t
    case Identifier => "Identifier"
    case Space => "Space"
    case Number => "Number"
    case String => "String"
    case Boolean => "Boolean"
    case Lambda => "Lambda"
    case Equals => "Equals"
    case Unknown => "Unknown"
    case OpenParenthesis => "OpenParenthesis"
    case CloseParenthesis => "CloseParenthesis"
    case Colon => "Colon"
    case EndOfFile => "EndOfFile"
    case None => "None"
  }

  function Message(e: Error): string {
    match e
    case UnknownName(_, name) => "Unknown name \"" + name + "\""
    case UnexpectedType(_, expected, received) =>
      "Unexpected type " + Types.Text(received) + ", expected a " + Types.Text(expected)
    case Reassignment(_, name) => "Cannot reassign name \"" + name + "\""
    case UnknownToken(_, text) => "Unknown token " + text
    case UnexpectedToken(_, expected, received) =>
      "Unexpected token " + TokenText(received) + ", expected " + TokenText(expected)
    case BadCall(_) => "Cannot call a non-closure value"
    case MismatchedTypeAssignment(_, name, expressionType, nameType) =>
      "Tried to assign expression of type " + Types.Text(expressionType) + " to name \"" + name
      + "\", which is of type " + Types.Text(nameType)
  }

  /** The text `Error::log` writes, without its colour codes. */
  function Render(e: Error): string {
    CategoryText(CategoryOf(e)) + " Error: " + Message(e) + "\n    at range "
    + Decimal.Text(e.range.start) + ".." + Decimal.Text(e.range.end)
  }

  /** A rendered diagnostic ends with its range, start and end in decimal. */
  lemma RenderEndsWithRange(e: Error)
    ensures var tail := Decimal.Text(e.range.start) + ".." + Decimal.Text(e.range.end);
      |tail| <= |Render(e)| && Render(e)[|Render(e)| - |tail|..] == tail
  {
    var tail := Decimal.Text(e.range.start) + ".." + Decimal.Text(e.range.end);
    var head := CategoryText(CategoryOf(e)) + " Error: " + Message(e) + "\n    at range ";
    assert Render(e) == head + tail;
  }

  /**
   * The offsets printed at the end of a rendered diagnostic read back as
   * the range: the digits after the last `..` give its end, and the digits
   * just before that `..` give its start.
   */
  lemma RenderedRangeReadsBack(e: Error)
    ensures var r, a, b := Render(e), Decimal.Text(e.range.start), Decimal.Text(e.range.end);
      && |a| + 2 + |b| <= |r|
      && r[|r| - |b| - 2..|r| - |b|] == ".."
      && Decimal.AllDigits(r[|r| - |b|..]) && Decimal.Value(r[|r| - |b|..]) == e.range.end
      && Decimal.AllDigits(r[|r| - |b| - 2 - |a|..|r| - |b| - 2])
      && Decimal.Value(r[|r| - |b| - 2 - |a|..|r| - |b| - 2]) == e.range.start
  {
    var r, a, b := Render(e), Decimal.Text(e.range.start), Decimal.Text(e.range.end);
    var head := CategoryText(CategoryOf(e)) + " Error: " + Message(e) + "\n    at range ";
    assert r == head + a + ".." + b;
    RangeSuffix(r, head, a, b);
    Decimal.ValueOfText(e.range.start);
    Decimal.ValueOfText(e.range.end);
  }

  /** Where the two offsets and the `..` between them sit at the end of a text. */
  lemma RangeSuffix(r: string, head: string, a: string, b: string)
    requires r == head + a + ".." + b
    ensures |a| + 2 + |b| <= |r|
    ensures r[|r| - |b|..] == b
    ensures r[|r| - |b| - 2..|r| - |b|] == ".."
    ensures r[|r| - |b| - 2 - |a|..|r| - |b| - 2] == a
  {
  }
}
