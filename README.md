# Platinum: lexer, parser, binder and evaluator

Platinum is a small expression language. A line of text is tokenized by
a character-driven lexer and parsed into a syntax tree by a
recursive-descent parser. A static binder then infers a type for each
node and records diagnostics. Finally an evaluator computes a value.
Both the binder and the evaluator work over an arena of scopes linked by
parent indices. The global scope provides the library closures `inc` and
`dec`.

This project models that pipeline in Dafny. Each stage has two parts.
The lexer, the parser and the interpreter are classes whose fields are
updated in place, as in the Rust code. Each method is proved to compute
exactly what a specification function computes. Those functions are
then proved to have the properties the language promises:

- lexing terminates, and its lexemes tile the source with no gap or
  overlap;
- `a b c` parses as `Call(Call(a, b), c)`;
- a name binds to the nearest declaration on its scope chain;
- an assignment reads back, and the last write wins;
- `div` undoes `mul`.

A Rust panic is modelled as the `Fail(Panic)` result. The rest of the
session's state after a panic is not described.

Modules, in dependency order:

- `Fallible`: `Option`, and `Result` with failures `Panic` and `NotModelled`.
- `Tokens`: token kinds, lexeme descriptions, and the character constants.
- `Decimal`: decimal text of numbers.
- `Types`: the value types.
- `Errors`: the seven diagnostics, their categories and their rendering.
- `Recognition`: the recognizers and `next_token`, as functions of the
  lexer's state.
- `Lexer`: the `Lexer` class and `tokenize`.
- `SyntaxTree`: the tree.
- `Grammar`: the productions, as functions of a cursor.
- `Parser`: the `Parser` class and `parse`.
- `Values`: the values.
- `Library`: `inc`, `dec`, `mul`, `div` and `cat`.
- `Scopes`: the frames.
- `Environment`: the interpreter's state and its lookups.
- `Binding`: `bind`.
- `Evaluation`: `eval`.
- `Interpreter`: the `Interpreter` class.

## Model

| member | source | states |
|---|---|---|
| Lexer.Lexer.constructor | src/syntax/token/lexer.rs:16-26 | a new lexer starts at position 0, with no tokens, descriptions or errors, and reach and flag both 0 |
| Lexer.Lexer.Next | src/syntax/token/lexer.rs:28-33 | pushes one token and one description together, advances the position by the description's length, and resets reach |
| Lexer.Lexer.Push | src/syntax/token/lexer.rs:39-45 | commits a lexeme that starts at the old position and has the given length; the new state is `Commit` of the old one |
| Lexer.Lexer.Step | src/syntax/token/lexer.rs:47-49 | only reach grows, by one; position, tokens, descriptions and errors are unchanged |
| Lexer.Lexer.Add | src/syntax/token/lexer.rs:51-55 | with a non-zero reach, commits the look-ahead as the token; with reach 0, changes nothing |
| Lexer.Lexer.Current | src/syntax/token/lexer.rs:57-62 | the character at position + reach, or TERMINATOR once that index is past the end |
| Lexer.Lexer.Span | src/syntax/token/lexer.rs:64-69 | exactly the characters in [position, position + reach), or empty when that range overruns the source |
| Lexer.Lexer.Flag | src/syntax/token/lexer.rs:71-73 | flag becomes the position; nothing else changes |
| Lexer.Lexer.Check | src/syntax/token/lexer.rs:75-85 | equals `Recognition.Check`: when nothing advanced, one UnknownToken over [p, p+1) and a one-character Unknown token; the flag is then reset to 0 |
| Lexer.Lexer.Register | src/syntax/token/lexer.rs:87-90 | runs one recognizer as `Recognition.Apply` specifies, then drops any uncommitted look-ahead (reach is 0) |
| Lexer.Lexer.RegisterTokens | src/syntax/token/mod.rs:27-39 | runs the eleven recognizers once each, in the fixed order, as `ApplyAll(Order)` |
| Lexer.Lexer.NextToken | src/syntax/token/lexer.rs:92-96 | equals `Recognition.NextToken`, keeps the state well formed, and strictly advances the position within the source |
| Lexer.Lexer.LexIdentifier | src/syntax/token/mod.rs:52-62 | the identifier recognizer commits exactly what `Recognition.Apply(IdentifierRule)` commits |
| Lexer.Lexer.LexSpace | src/syntax/token/mod.rs:64-69 | the space recognizer commits the maximal whitespace run |
| Lexer.Lexer.LexNumber | src/syntax/token/mod.rs:71-76 | the number recognizer commits the maximal digit run |
| Lexer.Lexer.LexString | src/syntax/token/mod.rs:78-92 | the string recognizer commits a quote, the body, and the closing quote when one is there |
| Lexer.Lexer.LexBoolean | src/syntax/token/mod.rs:94-102 | commits the alphabetic run only when it is `true` or `false` |
| Lexer.Lexer.LexNone | src/syntax/token/mod.rs:104-112 | commits the alphabetic run only when it is `none` |
| Lexer.Lexer.LexSymbol | src/syntax/token/mod.rs:114-152 | lambda, parentheses, colon and equals each commit their one character when it is current |
| Lexer.Lexer.LexUnknown | src/syntax/token/mod.rs:154-157 | always commits exactly one character as Unknown |
| Lexer.Lexer.LexRun | src/syntax/token/mod.rs:64-76 | the `while ... step` loop leaves reach at the length of the maximal run and changes nothing else |
| Lexer.Tokenize | src/syntax/token/mod.rs:41-49 | calls `next_token` until the current character is TERMINATOR; the result is `Recognition.Lex(source)` |
| Recognition.Run | src/syntax/token/mod.rs:64-76 | the run is maximal: every character in it is in the class and the next one is not; it never passes the end |
| Recognition.IdentifierLexeme | src/syntax/token/mod.rs:52-62 | an identifier commits iff an alphabetic character is current and the maximal alphanumeric run is not a keyword; it is exactly that run |
| Recognition.KeywordLexemes | src/syntax/token/mod.rs:94-112 | a boolean commits iff the alphabetic run is `true` or `false`; none iff it is `none` |
| Recognition.SymbolLexeme | src/syntax/token/mod.rs:114-152 | lambda, parentheses, colon and equals commit iff their character is current, and take exactly one character |
| Recognition.UnknownLexeme | src/syntax/token/mod.rs:154-157 | the forced unknown always takes exactly one character |
| Recognition.StringLexeme | src/syntax/token/mod.rs:78-92 | a string commits iff a quote is current; its body holds no quote or newline; it ends with the closing quote, or stops before a newline or the end |
| Recognition.ScanWithin | src/syntax/token/mod.rs:52-152 | no recognizer but the forced unknown looks past the end of the source |
| Recognition.ApplyAllAdvances | src/syntax/token/lexer.rs:87-90 | registering recognizers only moves forward and adds no error; tokens and descriptions are only appended; if the position did not move, nothing changed |
| Recognition.RecognizersAdvance | src/syntax/token/mod.rs:27-39 | the same for one pass of the fixed order |
| Recognition.CommitWellFormed | src/syntax/token/lexer.rs:28-45 | a commit keeps tokens and descriptions the same length, and keeps the lexemes contiguous |
| Recognition.NextTokenProgress | src/syntax/token/lexer.rs:92-96 | on input not yet at the end, `next_token` strictly increases the position and stays within the source |
| Recognition.NextTokenUnknown | src/syntax/token/lexer.rs:75-85 | if no recognizer advanced, exactly one UnknownToken over [p, p+1) and one one-character Unknown token are added |
| Recognition.NextTokenKnown | src/syntax/token/lexer.rs:75-85 | if some recognizer advanced, `next_token` adds no diagnostic |
| Recognition.LexFrom | src/syntax/token/mod.rs:41-49 | lexing stops at a TERMINATOR, or at the end, within the source, with the state well formed |
| Recognition.ContiguousSpellsPrefix | src/syntax/token/lexer.rs:28-45 | contiguous descriptions spell out exactly the source prefix they cover |
| Recognition.ContiguousAdjacent | src/syntax/token/lexer.rs:28-45 | the first lexeme starts at 0, and each lexeme starts where the previous one ends |
| Recognition.LexCoversSource | src/syntax/token/mod.rs:41-49 | the lexemes of `tokenize` cover the source up to the first TERMINATOR with no gap or overlap, and pair one to one with the tokens |
| Recognition.LexStopsAtFirstTerminator | src/syntax/token/mod.rs:44-46 | the loop never steps over a TERMINATOR character |
| Recognition.NextTokenSkipsNoTerminator | src/syntax/token/lexer.rs:92-96 | one `next_token` consumes no TERMINATOR character |
| SyntaxTree.Spine | src/syntax/call.rs:12-21 | the operands of a left-nested call chain: the first is not a call, and the last is the outermost argument |
| SyntaxTree.FoldSpine | src/syntax/call.rs:12-21 | folding a tree's operands to the left gives the tree back |
| SyntaxTree.SpineFold | src/syntax/call.rs:12-21 | the operands of a left fold are the folded items |
| Grammar.PastEnd | src/syntax/parser/mod.rs:33-41 | corrected past-end position: exactly the end of the last lexeme |
| Grammar.Next | src/syntax/parser/mod.rs:29-43 | advances by exactly one, even past the end; inside the list it yields the node at the position; past the end it yields the EndOfFile node of length 0 at the end of the last lexeme (the corrected position, see Findings); panics iff there are no nodes |
| Grammar.Expect | src/syntax/parser/mod.rs:45-57 | on a match, returns the node and records nothing; on a mismatch, records exactly one UnexpectedToken(span, expected, actual) and returns the expected kind with the actual span |
| Grammar.Assert | src/syntax/parser/mod.rs:59-66 | succeeds iff the next token is the expected one, and then returns that node unchanged |
| Grammar.ParsePrimary | src/syntax/parser/mod.rs:75-92 | `(` is consumed, a statement parsed, and `)` taken by `expect`, and the result is that statement with the cursor after the `)`; a literal token becomes a Literal after consuming one node; any other token becomes the Name of the node `expect(Identifier)` returns, with its cursor and diagnostic; at least one node is consumed |
| Grammar.ParseCall | src/syntax/call.rs:12-21 | consumes at least one node, and stops at EndOfFile or `)` without consuming it |
| Grammar.CallChain | src/syntax/parser.rs:115-118 | the loop never fails, only moves forward, and stops exactly at EndOfFile or `)` |
| Grammar.ParseAssignment | src/syntax/assignment.rs:31-38 | succeeds iff `=` follows the name; the result is the node (and diagnostic) `expect(Identifier)` gives, the `=` node itself, no annotation, and the statement parsed right after `=`, ending where that statement ends |
| Grammar.ParseAssignmentWithType | src/syntax/assignment.rs:16-27 | keeps the given name and annotation; the `=` is the node (and diagnostic) `expect(Equals)` gives, and the expression is the statement parsed right after it |
| Grammar.ParseClosure | src/syntax/closure.rs:15-23 | succeeds iff the lambda follows the parameter; the parameter is `expect(Identifier)` at the start, the lambda the next node, the colon `expect(Colon)` after it, the type name `expect(Identifier)` after that, and the body the statement parsed next, each with its diagnostics |
| Grammar.ParseTypeExpression | src/syntax/type_expression.rs:12-17 | panics unless a colon is current; the result is that colon node and the node `expect(Identifier)` gives right after it, with its cursor |
| Grammar.ParseStatement | src/syntax/mod.rs:27-33 | `peek(1)` alone decides: `=` gives exactly `AssignmentSyntax::parse`, the lambda exactly `ClosureSyntax::parse`, anything else exactly `CallSyntax::parse`; panics iff there are no nodes |
| Grammar.ChainStep | src/syntax/parser.rs:112-121 | while the chain has not ended, one iteration reads the next primary, applies `left` to it and moves strictly forward |
| Grammar.CallChainFoldsLeft | src/syntax/parser.rs:112-121 | the call loop's result is `left` and the primaries it reads folded to the left: `left p1 p2` is `Call(Call(left, p1), p2)` |
| Grammar.CallChainSpine | src/syntax/parser.rs:112-121 | the operands of the loop's result are the operands of `left` followed by the primaries read |
| Grammar.StatementCallFoldsLeft | src/syntax/mod.rs:27-33 | a statement whose second token is neither `=` nor the lambda parses to its first primary with the following primaries folded on from the left, stopping at EndOfFile or `)` |
| Grammar.ParseCallFoldsLeft | src/syntax/call.rs:12-21 | `call` is its first primary with the following primaries folded onto it to the left; when that primary is no call, the result's operands are exactly the primaries read |
| Grammar.ThreeNamesFoldLeft | src/syntax/call.rs:12-21 | `a b c` parses as `Call(Call(a, b), c)` with no diagnostic |
| Grammar.PastEndOvershoots | src/syntax/parser/mod.rs:36-38 | the position as written exceeds the corrected one by the last lexeme's position (5 instead of 3 for `a (`) |
| Grammar.UnclosedParenthesisRange | src/syntax/parser/mod.rs:29-50 | for `(a`, the missing `)` is one UnexpectedToken(2..2, CloseParenthesis, EndOfFile) and the primary is the name `a`; the position as written would be 3 |
| Parser.NodesOfAppend | src/syntax/parser/mod.rs:101-111 | converting lexer output preserves the order of the tokens |
| Parser.NodesOfDropsSpaces | src/syntax/parser/mod.rs:101-111 | every Space is dropped; every other token is kept with its own description; nothing else appears |
| Parser.SourceNodesWithin | src/syntax/parser/mod.rs:101-111 | every node lies inside the source, so the corrected past-end node does not pass its end |
| Parser.ParseText | src/syntax/parser/mod.rs:95-99 | panics iff the source has no nodes; the lexer's errors come first in the returned list |
| Parser.Parser.constructor | src/syntax/parser/mod.rs:12-20 | cursor at 0, nodes are the Space-free lexer output, and errors start as the lexer's errors |
| Parser.Parser.Next | src/syntax/parser/mod.rs:29-43 | the cursor update and result are exactly `Grammar.Next` |
| Parser.Parser.Expect | src/syntax/parser/mod.rs:45-57 | exactly `Grammar.Expect` |
| Parser.Parser.Assert | src/syntax/parser/mod.rs:59-66 | exactly `Grammar.Assert` |
| Parser.Parser.Primary | src/syntax/parser/mod.rs:75-92 | exactly `Grammar.ParsePrimary` |
| Parser.Parser.Call | src/syntax/call.rs:12-21 | the `while` loop folding into `left` computes exactly `Grammar.ParseCall` |
| Parser.Parser.Assignment | src/syntax/assignment.rs:31-38 | exactly `Grammar.ParseAssignment` |
| Parser.Parser.AssignmentWithType | src/syntax/assignment.rs:16-27 | exactly `Grammar.ParseAssignmentWithType` |
| Parser.Parser.Closure | src/syntax/closure.rs:15-23 | exactly `Grammar.ParseClosure` |
| Parser.Parser.TypeExpression | src/syntax/type_expression.rs:12-17 | exactly `Grammar.ParseTypeExpression` |
| Parser.Parser.Parse | src/syntax/mod.rs:27-33 | exactly `Grammar.ParseStatement` |
| Parser.ParseSource | src/syntax/parser/mod.rs:95-99 | returns the tree and the full error list that `ParseText` specifies |
| Types.EqualIsIdentity | src/interpreter/type.rs:1-8 | derived type equality holds iff the types are the same |
| Types.ClosureEquality | src/interpreter/type.rs:1-8 | Closure(a,b) equals Closure(c,d) iff a equals c and b equals d |
| Types.EqualReflexiveSymmetric | src/interpreter/type.rs:1 | type equality is reflexive and symmetric |
| Errors.CategoryOf | src/error/mod.rs:45-89 | UnknownToken and UnexpectedToken are Syntax errors; the other five are Type errors |
| Errors.RenderEndsWithRange | src/error/mod.rs:34-38 | the rendered text ends with the range's start and end, in decimal |
| Errors.RenderedRangeReadsBack | src/error/mod.rs:34-38 | in the rendered text, the digits after the final `..` read back as the range's end and the digits just before it as the range's start |
| Values.UnwrapNumber | src/interpreter/value.rs:16-21 | returns the payload of a Number; panics on any other variant |
| Values.UnwrapString | src/interpreter/value.rs:23-28 | returns the payload of a String; panics otherwise |
| Values.UnwrapBool | src/interpreter/value.rs:30-35 | returns the payload of a Boolean; panics otherwise |
| Values.UnwrapClosure | src/interpreter/value.rs:37-42 | returns the closure of a Closure; panics otherwise |
| Values.CloneIsIdentity | src/interpreter/value.rs:45-55 | a clone keeps the variant and the payload, and a closure stays the same closure |
| Values.EqualsPanicsAcrossVariants | src/interpreter/value.rs:69-75 | comparing a Number, String or Boolean with another variant panics |
| Values.EqualsOnSameVariant | src/interpreter/value.rs:69-80 | on the same plain variant, `eq` is equality of payloads |
| Values.EqualsClosureAndNone | src/interpreter/value.rs:76-80 | a Closure equals nothing, not even itself; None equals only None |
| Values.EqualsIsAsymmetric | src/interpreter/value.rs:69-82 | `eq` is not symmetric: None vs 0 is false, while 0 vs None panics |
| Library.IncSpec | src/core/library/inc.rs:11-13 | `inc` maps Number(n) to Number(n+1); it panics at the usize maximum and on non-numbers |
| Library.DecSpec | src/core/library/dec.rs:11-13 | `dec` maps Number(n) to Number(n-1); it panics at 0 and on non-numbers |
| Library.IncDecInverse | src/core/library/inc.rs:11-13 | `dec` undoes `inc` and `inc` undoes `dec`, wherever the first step does not panic |
| Library.MulSpec | src/core/library/mul.rs:14-18 | the first application captures its argument; the second is the product, panicking on overflow or a non-number |
| Library.DivSpec | src/core/library/div.rs:17-21 | the first application captures; `div a b` is the floor quotient q with q*b <= a < (q+1)*b; a divisor of 0 panics |
| Library.CatSpec | src/core/library/cat.rs:17-21 | `cat a b` is a followed by b; it panics unless both are strings |
| Library.DivUndoesMul | src/core/library/div.rs:17-21 | `div (mul a b) b` is a for non-zero b, when the product fits |
| Library.ProductQuotient | src/core/library/div.rs:20 | dividing a product by one factor leaves the other |
| Library.ApplyPreservesTypes | src/core/library/mul.rs:9-18 | a well-typed closure applied to an argument of its parameter type yields its result type, or panics only for overflow, `dec 0` or division by zero |
| Library.ModulesAreWellTyped | src/core/library/cat.rs:9-21 | each module's value has the module's declared type |
| Library.ModuleNames | src/core/library/inc.rs:15 | the modules are registered as "inc", "dec", "mul", "div" and "cat" |
| Scopes.Global | src/interpreter/scope.rs:15-48 | no parent; the type map and value map both hold exactly `inc` and `dec`, of type Closure(Number, Number), with values of that type |
| Scopes.New | src/interpreter/scope.rs:50-56 | parent `Some(p)` and empty maps |
| Scopes.GlobalAgreesWithLibrary | src/interpreter/scope.rs:29-41 | the global `inc` and `dec` are the library modules: n maps to n+1 and to n-1 |
| Environment.Initial | src/interpreter/mod.rs:21-27 | one parentless scope and no errors |
| Environment.Report | src/interpreter/mod.rs:41-43 | `error` appends at the end and changes nothing else |
| Environment.Source | src/interpreter/mod.rs:45-51 | the substring [position, position+length), with that length; slicing past the end panics |
| Environment.SourceOfParsedNodes | src/interpreter/mod.rs:45-47 | every node parsed from a text can be sliced from it |
| Environment.Holder | src/interpreter/mod.rs:68-83 | the scope the walk through parent links stops at binds the key, at or below the start |
| Environment.Path | src/interpreter/mod.rs:68-83 | the scopes from the start to the root, following parent links |
| Environment.PathStep | src/interpreter/mod.rs:68-83 | a scope with a parent continues with the parent's path |
| Environment.UnboundOnPath | src/interpreter/mod.rs:76-82 | a scope lacking the key, above a parent path lacking it, gives a path lacking it |
| Environment.HolderNoneIffUnbound | src/interpreter/mod.rs:76-82 | the walk finds nothing iff no scope on the path to the root binds the key |
| Environment.HolderIsNearest | src/interpreter/mod.rs:68-83 | the walk returns the first scope on the path that binds the key |
| Environment.Lookup | src/interpreter/mod.rs:68-83 | panics iff the scope index or the lexeme is out of range; otherwise finds a type iff the walk finds a scope declaring the name, and the type found is that scope's entry for the name |
| Environment.LookupTypeDefinition | src/interpreter/mod.rs:85-100 | the same walk over the type definitions: panics as `lookup` does, and what it finds is the walked-to scope's type definition for the name |
| Environment.Get | src/interpreter/mod.rs:102-117 | the same walk over the values: panics as `lookup` does, and what it finds is the walked-to scope's value for the name |
| Environment.Declare | src/interpreter/mod.rs:63-66 | writes only that scope's type map, keyed by the node's text; every other scope is unchanged; panics on a bad lexeme or scope |
| Environment.DeclareThenLookup | src/interpreter/mod.rs:63-83 | a declared name is found again from its scope, with the declared type |
| Environment.Insert | src/syntax/assignment.rs:55-60 | binds the key in that scope's value map only, replacing any earlier value |
| Environment.InsertThenGet | src/syntax/assignment.rs:55-60 | an inserted value reads back through `get`; a second insert wins over the first |
| Binding.GrowsTransitive | src/interpreter/mod.rs:119-128 | the "binding only adds" relation composes |
| Binding.LiteralType | src/syntax/literal.rs:9-17 | String, Number, Boolean and None bind to their types; any other token kind panics |
| Binding.CallDiagnostics | src/syntax/call.rs:27-35 | no diagnostic iff the callee is a closure whose parameter is the argument's type; otherwise exactly one UnexpectedType(0..0, param, argument) or BadCall(0..0), both Type errors |
| Binding.Bind | src/interpreter/mod.rs:119-128 | binding keeps the chain well formed and only adds errors and type declarations: values, parents and type definitions are untouched |
| Binding.LiteralBindIsContentFree | src/syntax/literal.rs:9-17 | a literal's type depends only on its token kind, whatever its text and scope, and binding it changes nothing |
| Binding.BindName | src/syntax/name.rs:12-23 | a name declared on the path binds, with no diagnostic, to the type in a scope on the path that declares it and before which no scope on the path declares it; a name declared nowhere on the path adds exactly one UnknownName(range, text) and binds to None; nothing else changes |
| Binding.BindCallOrder | src/syntax/call.rs:23-36 | the callee is bound before the argument, so their diagnostics come in that order and are followed by the call's own; the result is the callee's return type, or None |
| Binding.BindClosure | src/syntax/closure.rs:25-29 | the annotation is looked up among value types and panics when absent; the body is bound in the same scope; the result is Closure(param, body type) |
| Binding.AnnotatedClosurePanicsAtTop | src/syntax/closure.rs:25-29 | from a fresh session, binding `x → : Number x` panics, since the global value types hold only `inc` and `dec` |
| Binding.BindTypeExpressionReadOnly | src/syntax/type_expression.rs:19-24 | binds to the definition `lookup_type_definition` finds, or to None when it finds none; panics exactly when that lookup does; no diagnostic and no change to the session |
| Binding.BindAssignment | src/syntax/assignment.rs:40-53 | the right-hand side is bound first; a name visible from the scope gets exactly one Reassignment and no type change; otherwise it is declared here with the right-hand side's type; the result is None |
| Binding.StaysDeclared | src/syntax/assignment.rs:40-53 | a name visible from a scope stays visible after further binding |
| Binding.RebindingReportsReassignment | src/syntax/assignment.rs:43-47 | binding the same assignment twice reports a Reassignment the second time |
| Binding.PathUnchanged | src/interpreter/mod.rs:68-83 | chains with the same parent links have the same paths |
| Evaluation.Unquote | src/interpreter/mod.rs:133 | a quoted lexeme loses exactly its two quotes |
| Evaluation.UnquoteQuoted | src/interpreter/mod.rs:133 | unquoting gives back what was put between two quotes |
| Evaluation.LiteralValue | src/interpreter/mod.rs:133 | a Number literal is the decimal value of its digits; a Boolean succeeds iff its text is `true` or `false` |
| Evaluation.NumberLiteralRoundTrip | src/interpreter/mod.rs:133 | every usize's decimal text evaluates back to that number |
| Evaluation.Eval | src/interpreter/mod.rs:130-139 | evaluation keeps the chain well formed and changes only value maps |
| Evaluation.AssignThenRead | src/syntax/assignment.rs:55-60 | after an assignment, the name reads back as the assigned value from that scope, and the assignment is None |
| Evaluation.LastWriteWins | src/syntax/assignment.rs:55-60 | of two assignments to one name, the second value is the one read |
| Evaluation.EvalCallOrder | src/syntax/call.rs:38-42 | the callee is evaluated first and must be a closure before the argument is evaluated; the result is the application |
| Evaluation.EvalTypeExpression | src/interpreter/mod.rs:137 | a type expression evaluates to None and changes nothing |
| Evaluation.IncFive | src/interpreter/scope.rs:29-41 | in a fresh session, `inc 5` evaluates to 6 |
| Interpreter.Interpreter.constructor | src/interpreter/mod.rs:21-27 | the state is `Initial()`: an empty text, the global scope, no errors |
| Interpreter.Interpreter.SetSource | src/interpreter/mod.rs:53-55 | only the text changes |
| Interpreter.Interpreter.Error | src/interpreter/mod.rs:41-43 | the state becomes `Report(old, e)` |
| Interpreter.Interpreter.FlushErrors | src/interpreter/mod.rs:57-61 | returns all errors in order and leaves the list empty |
| Interpreter.Interpreter.Declare | src/interpreter/mod.rs:63-66 | the in-place update is exactly `Environment.Declare` |
| Interpreter.Interpreter.Bind | src/interpreter/mod.rs:119-128 | the dispatch computes exactly `Binding.Bind` and leaves its final session |
| Interpreter.Interpreter.BindName | src/syntax/name.rs:12-23 | exactly `Binding.Bind` on a name |
| Interpreter.Interpreter.BindCall | src/syntax/call.rs:23-36 | exactly `Binding.Bind` on a call |
| Interpreter.Interpreter.BindClosure | src/syntax/closure.rs:25-29 | exactly `Binding.Bind` on a closure |
| Interpreter.Interpreter.BindAssignment | src/syntax/assignment.rs:40-53 | exactly `Binding.Bind` on an assignment |
| Interpreter.Interpreter.BindTypeExpression | src/syntax/type_expression.rs:19-24 | exactly `Binding.Bind` on a type expression |
| Interpreter.Interpreter.Eval | src/interpreter/mod.rs:130-139 | the dispatch computes exactly `Evaluation.Eval` and leaves its final session |
| Interpreter.Interpreter.EvalCall | src/syntax/call.rs:38-42 | exactly `Evaluation.Eval` on a call |
| Interpreter.Interpreter.EvalAssignment | src/syntax/assignment.rs:55-60 | exactly `Evaluation.Eval` on an assignment |

## Left out

- Unicode: `is_alphabetic`, `is_numeric` and `is_whitespace` are restricted to ASCII.
- Source text is a sequence of characters. The byte index used to slice the UnknownToken text (src/syntax/token/lexer.rs:79) is therefore the same as the character index.
- Environment.Source: slices the text by character index. src/interpreter/mod.rs:46 slices the UTF-8 bytes of the source instead, at offsets the lexer counts in characters (src/syntax/token/lexer.rs:36, 58, 65). The two agree on ASCII text only. After a multi-byte character, such as the three-byte lambda `→`, the program reads the wrong bytes or panics when an offset falls inside a character. The model reads the intended lexeme there, so `lookup`, `lookup_type_definition`, `get`, `declare`, the assignment `eval` and literal decoding may differ from the program after such a character. For example, binding the closure `x → : inc x` succeeds in the model, while the program reads `": i"` as the type name and panics at src/syntax/closure.rs:26.
- The `character` and `keyword` modules are not part of this model. TERMINATOR (`'\0'`), the quote, newline, lambda (`→`), `=`, the parentheses and `:` are fixed constants, and the keywords are `true`, `false` and `none`.
- The two-argument `tokenize(source, start)` that parser/mod.rs:13 calls is not shown. The one-argument `tokenize` of token/mod.rs:41-49 is modelled in its place.
- `Parser::current` is not modelled separately. It is `peek(0)` (`Grammar.Peek` with `ahead` 0).
- The `usize` cursor of the parser is unbounded: `position += 1` never overflows here.
- `Evaluation.Eval`: evaluating a Closure node gives `NotModelled`, because closure.rs defines no `eval`. As a result no child scope is ever appended to the arena.
- The `eval` of names and literals is not shown. A name reads the nearest value through `get` and panics when there is none. A literal decodes its lexeme: digits as a `usize`, which panics when empty or too large; a string between its quotes; `true`/`false`; `none`.
- Evaluation.Unquote: an unterminated string keeps everything after its opening quote. This is a choice of the model.
- `Value::Closure` holds an `Arc<dyn Fn>`. It is modelled as a tag naming a library closure, with the captured first argument of `mul`, `div` or `cat`. Reference counting is not modelled, and `clone` is the identity.
- Integer arithmetic follows debug-build semantics: `inc` at the maximum, `dec 0`, an overflowing `mul` and `div` by 0 panic.
- After a panic the model says nothing about the state of the lexer, parser or interpreter.
- ANSI colours in the `Debug` output of errors and values are not modelled.
- `Value`'s `Debug` text is not modelled.
- src/repl, src/editor and src/main.rs (I/O loops, terminal UI) are not part of this model.
- The registration tables of src/core/mod.rs are not part of this model. The global scope is exactly what `Scope::global` builds: `inc` and `dec`, and no type definitions. `add` and `sub` are not shown.
- The `MismatchedTypeAssignment` diagnostic is never raised. Assignment binding ignores the type annotation, so it exists only as a variant and in the rendering.
- Three behaviours of the code look unintended but are modelled as written, since no single input shows what was meant instead:
  - assignment binding reports a Reassignment for a name visible through ancestor scopes, not only for one in the current scope, so an inner scope cannot shadow;
  - closure binding resolves the annotation among the types of values rather than among type definitions, and declares no parameter and no child scope;
  - the global scope declares only `inc` and `dec` among the types of values, so the closure `x → : Number x` panics when bound from it: closure binding looks `Number` up there (src/syntax/closure.rs:26).
- Grammar.Next: the past-end EndOfFile node is placed at the corrected position `last.position + last.length`, not at `last.position + last.position + last.length` as src/syntax/parser/mod.rs:36-38 computes (see Findings). Two consequences: an UnexpectedToken at the end of input has a different range (for `(a`, 2..2 instead of 3..3), and where binding reaches the name read past the end of `a =`, the model reports an UnknownName with an empty lexeme while the program's slice [5..5) of a 3-character text would panic.
- The `Syntax` enum of src/syntax/mod.rs:17-24 has five kinds. The interpreter also dispatches on a `TypeExpression` kind and reads a `type_definition_map` that the shown records lack. Both are included.

## Findings

| source | as written | input that shows it | evidently intended | confidence | as-written member | corrected member |
|---|---|---|---|---|---|---|
| src/syntax/parser/mod.rs:36-38 | the past-end EndOfFile node is placed at `last.position + last.position + last.length` | `a (`: the last node `(` is at 2 with length 1, so the node lands at 5 in a 3-character text | `last.position + last.length`, the end of the last lexeme | not executed | Grammar.PastEndOvershoots | Grammar.PastEnd |
