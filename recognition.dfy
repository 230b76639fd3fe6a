/**
 * What each recognizer of src/syntax/token/mod.rs commits, stated as
 * functions of the source text and the committed position, and the lexing
 * state machine of src/syntax/token/lexer.rs as a function on its
 * observable state. The imperative `Lexer` class is proved against these.
 */
module Recognition {
  import opened Tokens
  import opened Errors

  /** What `current` reads at index `i`: the character there, or TERMINATOR past the end. */
  function CharAt(s: seq<char>, i: nat): char {
    if i < |s| then s[i] else TERMINATOR
  }

  /** What `span` reads: the `n` characters from `p`, or nothing when they overrun the source. */
  function SpanOf(s: seq<char>, p: nat, n: nat): seq<char> {
    if p + n <= |s| then s[p..p + n] else []
  }

  /** The character classes the recognizers loop over. */
  datatype Class = Alphabetic | Alphanumeric | Whitespace | Numeric | StringBody

  predicate InClass(c: char, k: Class) {
    match k
    case Alphabetic => IsAlphabetic(c)
    case Alphanumeric => IsAlphanumeric(c)
    case Whitespace => IsWhitespace(c)
    case Numeric => IsNumeric(c)
    case StringBody => c != DOUBLE_QUOTE && c != TERMINATOR && c != NEWLINE
  }

  /** No class contains TERMINATOR, so no run reaches past the end of the source. */
  lemma TerminatorInNoClass(k: Class)
    ensures !InClass(TERMINATOR, k)
  {
  }

  /** The length of the longest run of class-`k` characters starting at `i`. */
  function Run(s: seq<char>, i: nat, k: Class): (n: nat)
    ensures n == 0 || i + n <= |s|
    ensures forall j :: i <= j < i + n ==> InClass(s[j], k)
    ensures !InClass(CharAt(s, i + n), k)
    decreases |s| - i
  {
    if i < |s| && InClass(s[i], k) then 1 + Run(s, i + 1, k) else 0
  }

  /** The recognizers, one per `Token::…` function. */
  datatype Rule =
    | IdentifierRule | SpaceRule | NumberRule | StringRule | BooleanRule | LambdaRule
    | OpenParenthesisRule | CloseParenthesisRule | ColonRule | EqualsRule | NoneRule | UnknownRule

  /** The fixed order in which `register_tokens` runs the recognizers. */
  const Order: seq<Rule> := [
    IdentifierRule, SpaceRule, NumberRule, StringRule, BooleanRule, LambdaRule,
    OpenParenthesisRule, CloseParenthesisRule, ColonRule, EqualsRule, NoneRule
  ]

  /** The token kind a recognizer emits. */
  function TokenOf(r: Rule): Token {
    match r
    case IdentifierRule => Identifier
    case SpaceRule => Space
    case NumberRule => Number
    case StringRule => String
    case BooleanRule => Boolean
    case LambdaRule => Lambda
    case OpenParenthesisRule => OpenParenthesis
    case CloseParenthesisRule => CloseParenthesis
    case ColonRule => Colon
    case EqualsRule => Equals
    case NoneRule => None
    case UnknownRule => Unknown
  }

  /** One character when `c` is at `p`, otherwise nothing. */
  function Symbol(s: seq<char>, p: nat, c: char): nat {
    if CharAt(s, p) == c then 1 else 0
  }

  /** Length of a string lexeme at `p`: the opening quote, the body, and the closing quote if one follows. */
  function StringScan(s: seq<char>, p: nat): nat {
    if CharAt(s, p) == DOUBLE_QUOTE then
      var body := Run(s, p + 1, StringBody);
      1 + body + (if CharAt(s, p + 1 + body) == DOUBLE_QUOTE then 1 else 0)
    else 0
  }

  /** How far a recognizer looks ahead from `p` (its `reach` when it returns without committing). */
  function Scan(r: Rule, s: seq<char>, p: nat): nat {
    match r
    case IdentifierRule => if IsAlphabetic(CharAt(s, p)) then Run(s, p, Alphanumeric) else 0
    case SpaceRule => Run(s, p, Whitespace)
    case NumberRule => Run(s, p, Numeric)
    case StringRule => StringScan(s, p)
    case BooleanRule => Run(s, p, Alphabetic)
    case NoneRule => Run(s, p, Alphabetic)
    case LambdaRule => Symbol(s, p, LAMBDA)
    case OpenParenthesisRule => Symbol(s, p, OPEN_PARENTHESIS)
    case CloseParenthesisRule => Symbol(s, p, CLOSE_PARENTHESIS)
    case ColonRule => Symbol(s, p, COLON)
    case EqualsRule => Symbol(s, p, EQUALS)
    case UnknownRule => 1
  }

  /** The recognizer-specific test on the looked-ahead text before it is committed. */
  predicate Keeps(r: Rule, span: seq<char>) {
    match r
    case IdentifierRule => span !in KEYWORDS
    case BooleanRule => span == TRUE || span == FALSE
    case NoneRule => span == NONE
    case _ => true
  }

  /** Whether a recognizer commits at `p`: it looked ahead at least one character and keeps that text. */
  predicate Accepts(r: Rule, s: seq<char>, p: nat) {
    var n := Scan(r, s, p);
    n > 0 && Keeps(r, SpanOf(s, p, n))
  }

  /** The observable state of the lexer between recognizers. */
  datatype LexState = LexState(position: nat, tokens: seq<Token>, description: seq<Description>, errors: seq<Error>)

  const Initial: LexState := LexState(0, [], [], [])

  /** The descriptions tile `[0, end)` from left to right: each starts where the previous one ends. */
  predicate Contiguous(ds: seq<Description>, end: nat)
    decreases |ds|
  {
    if ds == [] then end == 0
    else
      var last := ds[|ds| - 1];
      last.position + last.length == end && Contiguous(ds[..|ds| - 1], last.position)
  }

  /** Tokens and descriptions are pushed together, lexemes are never empty, and they tile `[0, position)`. */
  predicate WellFormed(st: LexState) {
    && |st.tokens| == |st.description|
    && (forall i :: 0 <= i < |st.description| ==> st.description[i].length > 0)
    && Contiguous(st.description, st.position)
  }

  /** `push`: record a token spanning `length` characters from the committed position and move past it. */
  function Commit(st: LexState, t: Token, length: nat): LexState {
    st.(position := st.position + length,
        tokens := st.tokens + [t],
        description := st.description + [Description(st.position, length)])
  }

  /** The state after `register(r)`: the recognizer's commit, if it accepts; the look-ahead is dropped. */
  function Apply(s: seq<char>, st: LexState, r: Rule): LexState {
    if Accepts(r, s, st.position) then Commit(st, TokenOf(r), Scan(r, s, st.position)) else st
  }

  function ApplyAll(s: seq<char>, st: LexState, rs: seq<Rule>): LexState
    decreases |rs|
  {
    if rs == [] then st else ApplyAll(s, Apply(s, st, rs[0]), rs[1..])
  }

  /** `check`: when no recognizer moved the position, record an UnknownToken and force one Unknown character. */
  function Check(s: seq<char>, flag: nat, st: LexState): LexState {
    if flag == st.position then
      var withError := st.(errors := st.errors + [UnknownToken(Range(st.position, st.position + 1), SpanOf(s, st.position, 1))]);
      Commit(withError, Unknown, 1)
    else st
  }

  /** `next_token`: every recognizer in order, then the progress check. */
  function NextToken(s: seq<char>, st: LexState): LexState {
    Check(s, st.position, ApplyAll(s, st, Order))
  }

  // ---------------------------------------------------------------------------
  // Bounds and progress

  /** A recognizer never looks ahead past the end of the source (the forced Unknown excepted). */
  lemma ScanWithin(r: Rule, s: seq<char>, p: nat)
    requires r != UnknownRule && p <= |s|
    ensures p + Scan(r, s, p) <= |s|
  {
    match r
    case StringRule =>
      if CharAt(s, p) == DOUBLE_QUOTE {
        var body := Run(s, p + 1, StringBody);
        TerminatorInNoClass(StringBody);
        assert p + 1 + body <= |s|;
      }
    case _ =>
  }

  /**
   * Running recognizers from the order only moves the position forward, keeps
   * it in the source and keeps the state well formed; when the position did
   * not move, nothing was committed at all.
   */
  lemma {:induction false} ApplyAllAdvances(s: seq<char>, st: LexState, rs: seq<Rule>)
    requires WellFormed(st) && st.position <= |s|
    requires forall i :: 0 <= i < |rs| ==> rs[i] != UnknownRule
    ensures var st' := ApplyAll(s, st, rs);
      WellFormed(st') && st.position <= st'.position <= |s| && st'.errors == st.errors
      && (st'.position == st.position ==> st' == st)
      && st.tokens <= st'.tokens && st.description <= st'.description
    decreases |rs|
  {
    if rs != [] {
      var st1 := Apply(s, st, rs[0]);
      ScanWithin(rs[0], s, st.position);
      if Accepts(rs[0], s, st.position) {
        CommitWellFormed(st, TokenOf(rs[0]), Scan(rs[0], s, st.position));
      }
      ApplyAllAdvances(s, st1, rs[1..]);
    }
  }

  /** The same, for one pass of the fixed recognizer order. */
  lemma RecognizersAdvance(s: seq<char>, st: LexState)
    requires WellFormed(st) && st.position <= |s|
    ensures var st' := ApplyAll(s, st, Order);
      WellFormed(st') && st.position <= st'.position <= |s| && st'.errors == st.errors
      && (st'.position == st.position ==> st' == st)
  {
    OrderHasNoUnknown();
    ApplyAllAdvances(s, st, Order);
  }

  lemma CommitWellFormed(st: LexState, t: Token, n: nat)
    requires WellFormed(st) && n > 0
    ensures WellFormed(Commit(st, t, n))
  {
    var ds := Commit(st, t, n).description;
    assert ds[..|ds| - 1] == st.description;
  }

  /** One `next_token` from inside the source strictly advances the position and stays within the source. */
  lemma NextTokenProgress(s: seq<char>, st: LexState)
    requires WellFormed(st) && st.position < |s|
    ensures var st' := NextToken(s, st);
      WellFormed(st') && st.position < st'.position <= |s|
  {
    RecognizersAdvance(s, st);
    var st1 := ApplyAll(s, st, Order);
    if st1.position == st.position {
      CommitWellFormed(st1.(errors := st1.errors + [UnknownToken(Range(st1.position, st1.position + 1), SpanOf(s, st1.position, 1))]), Unknown, 1);
    }
  }

  /**
   * When no recognizer commits, `next_token` adds exactly one UnknownToken
   * diagnostic over `[p, p+1)` and exactly one one-character Unknown token.
   */
  lemma NextTokenUnknown(s: seq<char>, st: LexState)
    requires WellFormed(st) && st.position < |s|
    requires ApplyAll(s, st, Order).position == st.position
    ensures NextToken(s, st) ==
      LexState(st.position + 1, st.tokens + [Unknown], st.description + [Description(st.position, 1)],
               st.errors + [UnknownToken(Range(st.position, st.position + 1), [s[st.position]])])
  {
    RecognizersAdvance(s, st);
    CheckForcesUnknown(s, st);
  }

  lemma CheckForcesUnknown(s: seq<char>, st: LexState)
    requires st.position < |s|
    ensures Check(s, st.position, st) ==
      LexState(st.position + 1, st.tokens + [Unknown], st.description + [Description(st.position, 1)],
               st.errors + [UnknownToken(Range(st.position, st.position + 1), [s[st.position]])])
  {
    assert SpanOf(s, st.position, 1) == [s[st.position]];
  }

  /** When some recognizer commits, `next_token` is exactly the recognizers' commits and adds no diagnostic. */
  lemma NextTokenKnown(s: seq<char>, st: LexState)
    requires WellFormed(st) && st.position < |s|
    requires ApplyAll(s, st, Order).position != st.position
    ensures NextToken(s, st) == ApplyAll(s, st, Order) && NextToken(s, st).errors == st.errors
  {
    RecognizersAdvance(s, st);
  }

  // ---------------------------------------------------------------------------
  // tokenize

  /** `tokenize` from a given state: `next_token` until the current character is TERMINATOR. */
  function LexFrom(s: seq<char>, st: LexState): (r: LexState)
    requires WellFormed(st) && st.position <= |s|
    ensures WellFormed(r) && st.position <= r.position <= |s| && CharAt(s, r.position) == TERMINATOR
    decreases |s| - st.position
  {
    if CharAt(s, st.position) == TERMINATOR then st
    else
      NextTokenProgress(s, st);
      LexFrom(s, NextToken(s, st))
  }

  /** `tokenize(source)`: lexing from the start of the source. */
  function Lex(s: seq<char>): LexState {
    LexFrom(s, Initial)
  }

  /** The text of each lexeme, in order, concatenated. */
  function Texts(s: seq<char>, ds: seq<Description>): seq<char>
    decreases |ds|
  {
    if ds == [] then [] else Texts(s, ds[..|ds| - 1]) + SpanOf(s, ds[|ds| - 1].position, ds[|ds| - 1].length)
  }

  /** Lexemes that tile `[0, end)` spell out exactly the first `end` characters of the source. */
  lemma {:induction false} ContiguousSpellsPrefix(s: seq<char>, ds: seq<Description>, end: nat)
    requires Contiguous(ds, end) && end <= |s|
    ensures Texts(s, ds) == s[..end]
    decreases |ds|
  {
    if ds != [] {
      var last := ds[|ds| - 1];
      ContiguousSpellsPrefix(s, ds[..|ds| - 1], last.position);
      assert s[..last.position] + s[last.position..end] == s[..end];
    }
  }

  /** In a tiling of `[0, end)`, every lexeme ends at or before `end`. */
  lemma {:induction false} ContiguousWithin(ds: seq<Description>, end: nat)
    requires Contiguous(ds, end)
    ensures forall i :: 0 <= i < |ds| ==> ds[i].position + ds[i].length <= end
    decreases |ds|
  {
    if ds != [] {
      var prefix := ds[..|ds| - 1];
      ContiguousWithin(prefix, ds[|ds| - 1].position);
      assert forall i :: 0 <= i < |prefix| ==> prefix[i] == ds[i];
    }
  }

  /** In a tiling, the first lexeme starts at 0 and each lexeme starts where the previous one ends. */
  lemma {:induction false} ContiguousAdjacent(ds: seq<Description>, end: nat)
    requires Contiguous(ds, end)
    ensures ds != [] ==> ds[0].position == 0
    ensures forall i :: 0 <= i < |ds| - 1 ==> ds[i].position + ds[i].length == ds[i + 1].position
    decreases |ds|
  {
    if ds != [] {
      var prefix := ds[..|ds| - 1];
      ContiguousAdjacent(prefix, ds[|ds| - 1].position);
      assert forall i :: 0 <= i < |prefix| ==> prefix[i] == ds[i];
    }
  }

  /**
   * Lexing terminates on every input and its lexemes cover the source up to
   * the first TERMINATOR (the whole source when it has none) without gap or
   * overlap; every lexeme is non-empty and has its token.
   */
  lemma LexCoversSource(s: seq<char>)
    ensures var r := Lex(s);
      && r.position <= |s|
      && (r.position == |s| || s[r.position] == TERMINATOR)
      && (forall i :: 0 <= i < r.position ==> s[i] != TERMINATOR)
      && |r.tokens| == |r.description|
      && Texts(s, r.description) == s[..r.position]
      && (r.description != [] ==> r.description[0].position == 0)
      && (forall i :: 0 <= i < |r.description| - 1 ==>
            r.description[i].position + r.description[i].length == r.description[i + 1].position)
  {
    var r := Lex(s);
    ContiguousSpellsPrefix(s, r.description, r.position);
    ContiguousAdjacent(r.description, r.position);
    LexStopsAtFirstTerminator(s, Initial);
  }

  /** Lexing from a state stops at the first TERMINATOR character (or the end) at or after its position. */
  lemma {:induction false} LexStopsAtFirstTerminator(s: seq<char>, st: LexState)
    requires WellFormed(st) && st.position <= |s|
    requires forall i :: 0 <= i < st.position ==> s[i] != TERMINATOR
    ensures forall i :: 0 <= i < LexFrom(s, st).position ==> s[i] != TERMINATOR
    decreases |s| - st.position
  {
    if CharAt(s, st.position) != TERMINATOR {
      NextTokenProgress(s, st);
      var st' := NextToken(s, st);
      NextTokenSkipsNoTerminator(s, st);
      assert NoTerminatorIn(s, st.position, st'.position);
      LexStopsAtFirstTerminator(s, st');
    }
  }

  /** `[lo, hi)` ends within the source and holds no TERMINATOR character. */
  predicate NoTerminatorIn(s: seq<char>, lo: nat, hi: nat) {
    hi <= |s| && forall i :: lo <= i < hi ==> s[i] != TERMINATOR
  }

  /** No lexeme committed by `next_token` contains a TERMINATOR character. */
  lemma NextTokenSkipsNoTerminator(s: seq<char>, st: LexState)
    requires WellFormed(st) && st.position < |s| && s[st.position] != TERMINATOR
    ensures NoTerminatorIn(s, st.position, NextToken(s, st).position)
  {
    OrderHasNoUnknown();
    PassSkipsNoTerminator(s, st, Order);
  }

  lemma OrderHasNoUnknown()
    ensures forall i :: 0 <= i < |Order| ==> Order[i] != UnknownRule
  {
  }

  lemma PassSkipsNoTerminator(s: seq<char>, st: LexState, rs: seq<Rule>)
    requires WellFormed(st) && st.position < |s| && s[st.position] != TERMINATOR
    requires forall i :: 0 <= i < |rs| ==> rs[i] != UnknownRule
    ensures NoTerminatorIn(s, st.position, Check(s, st.position, ApplyAll(s, st, rs)).position)
  {
    ApplyAllAdvances(s, st, rs);
    RecognizersSkipNoTerminator(s, st, rs);
    CheckSkipsNoTerminator(s, st.position, ApplyAll(s, st, rs));
  }

  lemma CheckSkipsNoTerminator(s: seq<char>, flag: nat, st: LexState)
    requires flag <= st.position
    requires st.position == flag ==> flag < |s| && s[flag] != TERMINATOR
    requires NoTerminatorIn(s, flag, st.position)
    ensures NoTerminatorIn(s, flag, Check(s, flag, st).position)
  {
    if flag == st.position {
      assert Check(s, flag, st).position == flag + 1;
    }
  }

  /** Two spans free of TERMINATOR, one ending where the other starts, make one such span. */
  lemma NoTerminatorJoin(s: seq<char>, a: nat, b: nat, c: nat)
    requires NoTerminatorIn(s, a, b) && NoTerminatorIn(s, b, c)
    ensures NoTerminatorIn(s, a, c)
  {
    forall i | a <= i < c
      ensures s[i] != TERMINATOR
    {
      if i < b {
        assert a <= i < b && NoTerminatorIn(s, a, b);
      } else {
        assert b <= i < c && NoTerminatorIn(s, b, c);
      }
    }
  }

  lemma {:induction false} RecognizersSkipNoTerminator(s: seq<char>, st: LexState, rs: seq<Rule>)
    requires st.position <= |s|
    requires forall i :: 0 <= i < |rs| ==> rs[i] != UnknownRule
    ensures NoTerminatorIn(s, st.position, ApplyAll(s, st, rs).position)
    decreases |rs|
  {
    if rs != [] {
      var st1 := Apply(s, st, rs[0]);
      ScanWithin(rs[0], s, st.position);
      ScanSkipsNoTerminator(rs[0], s, st.position);
      assert forall i :: 0 <= i < |rs[1..]| ==> rs[1..][i] == rs[i + 1];
      RecognizersSkipNoTerminator(s, st1, rs[1..]);
      assert ApplyAll(s, st, rs) == ApplyAll(s, st1, rs[1..]);
      assert st1.position == st.position || st1.position == st.position + Scan(rs[0], s, st.position);
      assert NoTerminatorIn(s, st.position, st1.position);
      NoTerminatorJoin(s, st.position, st1.position, ApplyAll(s, st, rs).position);
    }
  }

  /** The characters a recognizer (other than the forced Unknown) looks ahead over are never TERMINATOR. */
  lemma ScanSkipsNoTerminator(r: Rule, s: seq<char>, p: nat)
    requires r != UnknownRule && p <= |s|
    ensures NoTerminatorIn(s, p, p + Scan(r, s, p))
  {
    ScanWithin(r, s, p);
    TerminatorInNoClass(Alphanumeric);
    TerminatorInNoClass(Alphabetic);
    TerminatorInNoClass(Whitespace);
    TerminatorInNoClass(Numeric);
    TerminatorInNoClass(StringBody);
  }

  // ---------------------------------------------------------------------------
  // What each recognizer commits

  /**
   * An identifier is an alphabetic character followed by the longest
   * alphanumeric run, and is committed only when it is not a keyword.
   */
  lemma IdentifierLexeme(s: seq<char>, p: nat)
    ensures Accepts(IdentifierRule, s, p) <==>
      IsAlphabetic(CharAt(s, p)) && SpanOf(s, p, Run(s, p, Alphanumeric)) !in KEYWORDS
    ensures Accepts(IdentifierRule, s, p) ==>
      var n := Scan(IdentifierRule, s, p);
      && p + n <= |s| && IsAlphabetic(s[p])
      && (forall j :: p <= j < p + n ==> IsAlphanumeric(s[j]))
      && !IsAlphanumeric(CharAt(s, p + n))
  {
    if IsAlphabetic(CharAt(s, p)) {
      assert InClass(CharAt(s, p), Alphanumeric);
    }
  }

  /** A boolean is committed exactly when the alphabetic run is `true` or `false`, none exactly when it is `none`. */
  lemma KeywordLexemes(s: seq<char>, p: nat)
    ensures Accepts(BooleanRule, s, p) <==>
      var n := Run(s, p, Alphabetic); n > 0 && (s[p..p + n] == TRUE || s[p..p + n] == FALSE)
    ensures Accepts(NoneRule, s, p) <==>
      var n := Run(s, p, Alphabetic); n > 0 && s[p..p + n] == NONE
  {
  }

  /** Each single-character recognizer commits its one character exactly when it is current. */
  lemma SymbolLexeme(r: Rule, s: seq<char>, p: nat)
    requires r.LambdaRule? || r.OpenParenthesisRule? || r.CloseParenthesisRule? || r.ColonRule? || r.EqualsRule?
    ensures Accepts(r, s, p) <==> p < |s| && s[p] == SymbolOf(r)
    ensures Accepts(r, s, p) ==> Scan(r, s, p) == 1
  {
  }

  /** The forced unknown always takes exactly one character. */
  lemma UnknownLexeme(s: seq<char>, p: nat)
    ensures Scan(UnknownRule, s, p) == 1 && Accepts(UnknownRule, s, p)
  {
  }

  /** The character a single-character recognizer looks for. */
  function SymbolOf(r: Rule): char {
    match r
    case LambdaRule => LAMBDA
    case OpenParenthesisRule => OPEN_PARENTHESIS
    case CloseParenthesisRule => CLOSE_PARENTHESIS
    case ColonRule => COLON
    case EqualsRule => EQUALS
    case _ => TERMINATOR
  }

  /**
   * A string lexeme starts at a double quote and holds no newline or
   * further quote before its last character. It ends either with the
   * closing quote or, unterminated, just before a newline or TERMINATOR;
   * either way it is committed as a String and no diagnostic is added.
   */
  lemma StringLexeme(s: seq<char>, p: nat)
    ensures Accepts(StringRule, s, p) <==> p < |s| && s[p] == DOUBLE_QUOTE
    ensures Accepts(StringRule, s, p) ==>
      var n := Scan(StringRule, s, p);
      && p + n <= |s| && n >= 1
      && (forall j :: p < j < p + n - 1 ==> s[j] != DOUBLE_QUOTE && s[j] != NEWLINE)
      && ((n >= 2 && s[p + n - 1] == DOUBLE_QUOTE) || CharAt(s, p + n) == NEWLINE || CharAt(s, p + n) == TERMINATOR)
  {
    if p < |s| && s[p] == DOUBLE_QUOTE {
      ScanWithin(StringRule, s, p);
    }
  }
}
