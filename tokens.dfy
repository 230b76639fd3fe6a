/**
 * Token kinds, lexeme positions and the character constants the lexer
 * recognises (the `Token` enum of src/syntax/token/mod.rs and the
 * `Description` record of src/syntax/token/lexer.rs).
 */
module Tokens {

  datatype Token =
    | Identifier
    | Space
    | Number
    | String
    | Boolean
    | Lambda
    | Equals
    | Unknown
    | OpenParenthesis
    | CloseParenthesis
    | Colon
    | EndOfFile
    | None

  /** Where a lexeme lies in the source: its first character index and its length. */
  datatype Description = Description(position: nat, length: nat)

  // The character constants. Their defining module is not part of this model;
  // the values are fixed here so that the lexer is concrete.
  const TERMINATOR: char := '\0'        // what `current` yields past the last character
  const DOUBLE_QUOTE: char := '"'
  const NEWLINE: char := '\n'
  const LAMBDA: char := '\U{2192}'      // the arrow of a closure
  const EQUALS: char := '='
  const OPEN_PARENTHESIS: char := '('
  const CLOSE_PARENTHESIS: char := ')'
  const COLON: char := ':'

  // The reserved spellings of the literal keywords.
  const TRUE: string := "true"
  const FALSE: string := "false"
  const NONE: string := "none"
  const KEYWORDS: seq<string> := [TRUE, FALSE, NONE]

  // Character classes, restricted to ASCII.
  predicate IsAlphabetic(c: char) {
    'a' <= c <= 'z' || 'A' <= c <= 'Z'
  }

  predicate IsNumeric(c: char) {
    '0' <= c <= '9'
  }

  predicate IsAlphanumeric(c: char) {
    IsAlphabetic(c) || IsNumeric(c)
  }

  predicate IsWhitespace(c: char) {
    c == ' ' || c == '\t' || c == '\n' || c == '\r' || c == '\U{B}' || c == '\U{C}'
  }
}
