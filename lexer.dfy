/**
 * The `Lexer` of src/syntax/token/lexer.rs, its recognizers
 * (src/syntax/token/mod.rs) and `tokenize`, as a class whose methods update
 * its fields in place. Every method is proved against the functions of
 * module Recognition.
 */
module Lexer {
  import opened Tokens
  import opened Errors
  import opened Recognition

  class Lexer {
    const source: seq<char>
    var position: nat
    var description: seq<Description>
    var tokens: seq<Token>
    var reach: nat
    var flag: nat
    var errors: seq<Error>

    /** The fields that persist between recognizers. */
    function State(): LexState
      reads this
    {
      LexState(position, tokens, description, errors)
    }

    ghost predicate Valid()
      reads this
    {
      WellFormed(State())
    }

    /** The state a recognizer leaves behind: `r`'s commit, or its look-ahead when it did not commit. */
    ghost predicate Recognized(r: Rule, before: LexState)
      reads this
    {
      && State() == Apply(source, before, r)
      && reach == (if Accepts(r, source, before.position) then 0 else Scan(r, source, before.position))
    }

    constructor (source: seq<char>)
      ensures this.source == source && State() == Initial && reach == 0 && flag == 0
    {
      this.source := source;
      position := 0;
      description := [];
      tokens := [];
      reach := 0;
      flag := 0;
      errors := [];
    }

    method Next(token: Token, d: Description)
      modifies this
      ensures reach == 0 && flag == old(flag) && errors == old(errors)
      ensures position == old(position) + d.length
      ensures tokens == old(tokens) + [token] && description == old(description) + [d]
    {
      reach := 0;
      position := position + d.length;
      tokens := tokens + [token];
      description := description + [d];
    }

    method Push(token: Token, length: nat)
      modifies this
      ensures State() == Commit(old(State()), token, length) && reach == 0 && flag == old(flag)
    {
      Next(token, Description(position, length));
    }

    method Step()
      modifies this
      ensures reach == old(reach) + 1 && State() == old(State()) && flag == old(flag)
    {
      reach := reach + 1;
    }

    /** Commits the look-ahead as `token` when there is any; otherwise nothing changes. */
    method Add(token: Token)
      modifies this
      ensures old(reach) > 0 ==> State() == Commit(old(State()), token, old(reach)) && reach == 0
      ensures old(reach) == 0 ==> State() == old(State()) && reach == 0
      ensures flag == old(flag)
    {
      if reach > 0 {
        Push(token, reach);
      }
    }

    /** `current`: the character `reach` past the committed position, TERMINATOR once that is past the end. */
    function Current(): (c: char)
      reads this
      ensures position + reach < |source| ==> c == source[position + reach]
      ensures position + reach >= |source| ==> c == TERMINATOR
    {
      CharAt(source, position + reach)
    }

    /** `span`: the look-ahead text `[position, position + reach)`, empty when it overruns the source. */
    function Span(): (r: seq<char>)
      reads this
      ensures position + reach <= |source| ==> |r| == reach && forall i :: 0 <= i < reach ==> r[i] == source[position + i]
      ensures position + reach > |source| ==> r == []
    {
      SpanOf(source, position, reach)
    }

    method Flag()
      modifies this
      ensures flag == position && State() == old(State()) && reach == old(reach)
    {
      flag := position;
    }

    /**
     * Records an UnknownToken and forces a one-character Unknown token when
     * the position has not moved since `flag`. The source slices the
     * character out of the text, which panics past the end: callers keep
     * the position inside the source when that branch is taken.
     */
    method Check()
      requires reach == 0 && (flag == position ==> position < |source|)
      modifies this
      ensures State() == Recognition.Check(source, old(flag), old(State()))
      ensures flag == 0 && reach == 0
    {
      if flag == position {
        errors := errors + [UnknownToken(Range(position, position + 1), source[position..position + 1])];
        LexUnknown();
      }
      flag := 0;
    }

    method Register(r: Rule)
      requires reach == 0
      modifies this
      ensures State() == Apply(source, old(State()), r) && reach == 0 && flag == old(flag)
    {
      match r {
        case IdentifierRule => LexIdentifier();
        case SpaceRule => LexSpace();
        case NumberRule => LexNumber();
        case StringRule => LexString();
        case BooleanRule => LexBoolean();
        case LambdaRule => LexSymbol(LambdaRule, LAMBDA);
        case OpenParenthesisRule => LexSymbol(OpenParenthesisRule, OPEN_PARENTHESIS);
        case CloseParenthesisRule => LexSymbol(CloseParenthesisRule, CLOSE_PARENTHESIS);
        case ColonRule => LexSymbol(ColonRule, COLON);
        case EqualsRule => LexSymbol(EqualsRule, EQUALS);
        case NoneRule => LexNone();
        case UnknownRule => LexUnknown();
      }
      reach := 0;
    }

    /** Every recognizer once, in the fixed order. */
    method RegisterTokens()
      requires reach == 0
      modifies this
      ensures State() == ApplyAll(source, old(State()), Order) && reach == 0 && flag == old(flag)
    {
      // `rest` is what is left of the order; running it from `state` reaches the final state.
      ghost var rest, state := Order, State();
      Register(IdentifierRule);
      rest, state := StepOrder(source, old(State()), rest, state, IdentifierRule), State();
      Register(SpaceRule);
      rest, state := StepOrder(source, old(State()), rest, state, SpaceRule), State();
      Register(NumberRule);
      rest, state := StepOrder(source, old(State()), rest, state, NumberRule), State();
      Register(StringRule);
      rest, state := StepOrder(source, old(State()), rest, state, StringRule), State();
      Register(BooleanRule);
      rest, state := StepOrder(source, old(State()), rest, state, BooleanRule), State();
      Register(LambdaRule);
      rest, state := StepOrder(source, old(State()), rest, state, LambdaRule), State();
      Register(OpenParenthesisRule);
      rest, state := StepOrder(source, old(State()), rest, state, OpenParenthesisRule), State();
      Register(CloseParenthesisRule);
      rest, state := StepOrder(source, old(State()), rest, state, CloseParenthesisRule), State();
      Register(ColonRule);
      rest, state := StepOrder(source, old(State()), rest, state, ColonRule), State();
      Register(EqualsRule);
      rest, state := StepOrder(source, old(State()), rest, state, EqualsRule), State();
      Register(NoneRule);
      rest, state := StepOrder(source, old(State()), rest, state, NoneRule), State();
    }

    /** One `next_token`: flag, every recognizer, check. */
    method NextToken()
      requires Valid() && reach == 0 && position < |source|
      modifies this
      ensures Valid() && reach == 0 && flag == 0
      ensures State() == Recognition.NextToken(source, old(State()))
      ensures old(position) < position <= |source|
    {
      Flag();
      RegisterTokens();
      RecognizersAdvance(source, old(State()));
      Check();
      NextTokenProgress(source, old(State()));
    }

    method LexIdentifier()
      requires reach == 0
      modifies this
      ensures Recognized(IdentifierRule, old(State())) && flag == old(flag)
    {
      if IsAlphabetic(Current()) {
        LexRun(Alphanumeric);
      }
      if Span() !in KEYWORDS {
        Add(Identifier);
      }
    }

    method LexSpace()
      requires reach == 0
      modifies this
      ensures Recognized(SpaceRule, old(State())) && flag == old(flag)
    {
      LexRun(Whitespace);
      Add(Space);
    }

    method LexNumber()
      requires reach == 0
      modifies this
      ensures Recognized(NumberRule, old(State())) && flag == old(flag)
    {
      LexRun(Numeric);
      Add(Number);
    }

    method LexString()
      requires reach == 0
      modifies this
      ensures Recognized(StringRule, old(State())) && flag == old(flag)
    {
      if Current() == DOUBLE_QUOTE {
        Step();
        while Current() != DOUBLE_QUOTE && Current() != TERMINATOR && Current() != NEWLINE
          invariant State() == old(State()) && flag == old(flag) && reach >= 1
          invariant Run(source, position + 1, StringBody) == reach - 1 + Run(source, position + reach, StringBody)
          decreases |source| - (position + reach)
        {
          Step();
        }
      }
      if Current() == DOUBLE_QUOTE {
        Step();
      }
      Add(String);
    }

    method LexBoolean()
      requires reach == 0
      modifies this
      ensures Recognized(BooleanRule, old(State())) && flag == old(flag)
    {
      LexRun(Alphabetic);
      if Span() == TRUE || Span() == FALSE {
        Add(Boolean);
      }
    }

    method LexNone()
      requires reach == 0
      modifies this
      ensures Recognized(NoneRule, old(State())) && flag == old(flag)
    {
      LexRun(Alphabetic);
      if Span() == NONE {
        Add(None);
      }
    }

    /** The single-character recognizers: lambda, open and close parenthesis, colon, equals. */
    method LexSymbol(r: Rule, c: char)
      requires reach == 0
      requires (r, c) in {(LambdaRule, LAMBDA), (OpenParenthesisRule, OPEN_PARENTHESIS),
                          (CloseParenthesisRule, CLOSE_PARENTHESIS), (ColonRule, COLON), (EqualsRule, EQUALS)}
      modifies this
      ensures Recognized(r, old(State())) && flag == old(flag)
    {
      if Current() == c {
        Step();
      }
      Add(TokenOf(r));
    }

    method LexUnknown()
      requires reach == 0
      modifies this
      ensures Recognized(UnknownRule, old(State())) && flag == old(flag)
    {
      Step();
      Add(Unknown);
    }

    /** Steps over the longest run of class-`k` characters from the committed position. */
    method LexRun(k: Class)
      requires reach == 0
      modifies this
      ensures State() == old(State()) && flag == old(flag)
      ensures reach == Run(source, position, k)
    {
      while InClass(Current(), k)
        invariant State() == old(State()) && flag == old(flag)
        invariant Run(source, position, k) == reach + Run(source, position + reach, k)
        decreases |source| - (position + reach)
      {
        TerminatorInNoClass(k);
        Step();
      }
    }
  }

  /**
   * Proof step of `register_tokens`: once `r`, the head of what is left of
   * the order, has run, the rest of the order reaches the same final state.
   */
  ghost function StepOrder(s: seq<char>, start: LexState, rest: seq<Rule>, state: LexState, r: Rule): (rest': seq<Rule>)
    requires rest != [] && rest[0] == r
    requires ApplyAll(s, start, Order) == ApplyAll(s, state, rest)
    ensures rest' == rest[1..]
    ensures ApplyAll(s, start, Order) == ApplyAll(s, Apply(s, state, r), rest')
  {
    rest[1..]
  }

  /** `tokenize`: a fresh lexer, then `next_token` until the current character is TERMINATOR. */
  method Tokenize(source: seq<char>) returns (lexer: Lexer)
    ensures fresh(lexer) && lexer.source == source && lexer.Valid()
    ensures lexer.State() == Lex(source)
  {
    lexer := new Lexer(source);
    while lexer.Current() != TERMINATOR
      invariant lexer.source == source && lexer.Valid() && lexer.reach == 0
      invariant lexer.position <= |source|
      invariant LexFrom(source, lexer.State()) == Lex(source)
      decreases |source| - lexer.position
    {
      lexer.NextToken();
    }
  }
}
