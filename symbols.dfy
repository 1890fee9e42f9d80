/** Terminal symbols of the expression grammar and the classifier that maps
    one input character to its symbol (`lexer`), with the reverse display
    map (`token_str`). */
module Symbols {

  /** One category per input character. */
  datatype TerminalSymbol =
    | TsPlus | TsMinus | TsExpo | TsMult | TsDiv
    | TsOpeningScope | TsClosingScope
    | TsWs | TsTab
    | TsZero | TsNonZeroDigit
    | TsEos
    | TsInvalid

  /** The character a C++ string yields when read at its end position. */
  const EndOfString: char := '\0'

  /** The characters the classifier recognises; all others are invalid. */
  predicate IsRecognised(c: char) {
    c == '+' || c == '-' || c == '^' || c == '*' || c == '/' || c == '(' || c == ')'
    || c == ' ' || c == '\t' || '0' <= c <= '9' || c == EndOfString
  }

  /** The symbols `TokenStr` can show as a glyph. */
  const Displayable: set<TerminalSymbol> := {TsPlus, TsMinus, TsExpo, TsMult, TsDiv, TsWs, TsZero}

  /** Classifies a character; total, with `TsInvalid` as the default. */
  function Lexer(c: char): (t: TerminalSymbol)
    ensures t == TsPlus <==> c == '+'
    ensures t == TsMinus <==> c == '-'
    ensures t == TsExpo <==> c == '^'
    ensures t == TsMult <==> c == '*'
    ensures t == TsDiv <==> c == '/'
    ensures t == TsOpeningScope <==> c == '('
    ensures t == TsClosingScope <==> c == ')'
    ensures t == TsWs <==> c == ' '
    ensures t == TsTab <==> c == '\t'
    ensures t == TsZero <==> c == '0'
    ensures t == TsNonZeroDigit <==> '1' <= c <= '9'
    ensures t == TsEos <==> c == EndOfString
    ensures t == TsInvalid <==> !IsRecognised(c)
  {
    if c == '+' then TsPlus
    else if c == '-' then TsMinus
    else if c == '^' then TsExpo
    else if c == '*' then TsMult
    else if c == '/' then TsDiv
    else if c == '(' then TsOpeningScope
    else if c == ')' then TsClosingScope
    else if c == ' ' then TsWs
    else if c == '\t' then TsTab
    else if c == '0' then TsZero
    else if '1' <= c <= '9' then TsNonZeroDigit
    else if c == EndOfString then TsEos
    else TsInvalid
  }

  /** Display glyph of a symbol; "X" for every symbol without one. */
  function TokenStr(s: TerminalSymbol): (r: string)
    ensures r == "X" <==> s !in Displayable
    ensures r != "X" ==> |r| == 1 && Lexer(r[0]) == s
  {
    match s
    case TsPlus => "+"
    case TsMinus => "-"
    case TsExpo => "^"
    case TsMult => "*"
    case TsDiv => "/"
    case TsWs => " "
    case TsZero => "0"
    case _ => "X"
  }

  /** The character test each symbol stands for: `Lexer(c) == t` exactly
      when `Matches(c, t)` (lemma LexerMatches). */
  predicate Matches(c: char, t: TerminalSymbol) {
    match t
    case TsPlus => c == '+'
    case TsMinus => c == '-'
    case TsExpo => c == '^'
    case TsMult => c == '*'
    case TsDiv => c == '/'
    case TsOpeningScope => c == '('
    case TsClosingScope => c == ')'
    case TsWs => c == ' '
    case TsTab => c == '\t'
    case TsZero => c == '0'
    case TsNonZeroDigit => '1' <= c <= '9'
    case TsEos => c == EndOfString
    case TsInvalid => !IsRecognised(c)
  }

  /** The five binary operators the expression loop accepts. */
  predicate IsOperator(t: TerminalSymbol) {
    t == TsPlus || t == TsMinus || t == TsExpo || t == TsMult || t == TsDiv
  }

  /** A character classified as one of the five operators. */
  predicate IsOperatorChar(c: char) {
    c == '+' || c == '-' || c == '^' || c == '*' || c == '/'
  }

  /** A character classified as a space or a tab: what `skip_ws` passes over. */
  predicate IsBlank(c: char) {
    c == ' ' || c == '\t'
  }

  /** A character classified as zero or a nonzero digit: what `digit` accepts. */
  predicate IsDigit(c: char) {
    '0' <= c <= '9'
  }

  /** The symbol tests the grammar uses agree with the classifier. */
  lemma LexerMatches(c: char, t: TerminalSymbol)
    ensures Lexer(c) == t <==> Matches(c, t)
    ensures IsBlank(c) <==> Lexer(c) == TsWs || Lexer(c) == TsTab
    ensures IsDigit(c) <==> Lexer(c) == TsZero || Lexer(c) == TsNonZeroDigit
    ensures IsOperatorChar(c) <==> IsOperator(Lexer(c))
  {
  }

  /** The glyph of a displayable character's symbol is that character. */
  lemma GlyphRoundTrip(c: char)
    requires c in "+-^*/0 "
    ensures TokenStr(Lexer(c)) == [c]
  {
  }
}
