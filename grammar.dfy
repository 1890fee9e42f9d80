/** Reference semantics of the recursive-descent parser, as functions of the
    input string and a cursor index. Each grammar procedure yields where the
    cursor ends and which tokens it appended; the imperative parser in module
    Parsing is proved to behave exactly like these functions.

    Grammar, as the code accepts it:
      expression     := term { ("+"|"-"|"^"|"*"|"/") term }
      term           := "(" expression ")" | integer
      integer        := "0" | ["-"] natural_number
      natural_number := nonzero_digit { digit }
*/
module Grammar {
  import opened Symbols
  import opened Results

  /** What an integer-level procedure returns and where it leaves the cursor. */
  datatype Scan = Scan(result: ParserResult, next: nat)

  /** What a token-producing procedure ends with, where it leaves the
      cursor, and the tokens it appended, in order. */
  datatype Step = Step(outcome: Outcome, next: nat, emitted: seq<Token>)

  function Prepend(prefix: seq<Token>, st: Step): Step {
    Step(st.outcome, st.next, prefix + st.emitted)
  }

  /** The character under the cursor; at the end it is the terminator. */
  function CharAt(s: string, i: nat): (c: char)
    requires i <= |s|
    ensures i < |s| ==> c == s[i]
    ensures i == |s| ==> Lexer(c) == TsEos
  {
    if i < |s| then s[i] else EndOfString
  }

  /** `peek`: not at the end and the current character is classified as `t`. */
  predicate PeekAt(s: string, i: nat, t: TerminalSymbol)
    ensures PeekAt(s, i, t) ==> i < |s|
  {
    i < |s| && Matches(s[i], t)
  }

  /** Cursor after `accept(t)`. */
  function AcceptAt(s: string, i: nat, t: TerminalSymbol): (j: nat)
    ensures i <= j <= i + 1
    ensures j == i + 1 ==> i < |s|
  {
    if PeekAt(s, i, t) then i + 1 else i
  }

  /** `peek` and `accept` test the classifier: the cursor is on a character
      and `lexer` maps it to `t`; only then does `accept` advance. */
  lemma AcceptAtClassifies(s: string, i: nat, t: TerminalSymbol)
    ensures PeekAt(s, i, t) <==> i < |s| && Lexer(s[i]) == t
    ensures AcceptAt(s, i, t) == i + 1 <==> i < |s| && Lexer(s[i]) == t
    ensures AcceptAt(s, i, t) == i <==> !(i < |s| && Lexer(s[i]) == t)
  {
  }

  /** The text between two cursor positions, `std::string(begin, end)` of
      two iterators. It is the slice `s[lo..hi]` (lemma SegmentIsSlice),
      written again as a character-by-character copy so that proofs about
      the literal can unfold it one position at a time. */
  function Segment(s: string, lo: nat, hi: nat): (r: string)
    requires lo <= hi <= |s|
    ensures |r| == hi - lo
    decreases hi - lo
  {
    if lo == hi then [] else [s[lo]] + Segment(s, lo + 1, hi)
  }

  /** The segment is the slice of the text between the two positions. */
  lemma {:induction false} SegmentIsSlice(s: string, lo: nat, hi: nat)
    requires lo <= hi <= |s|
    ensures Segment(s, lo, hi) == s[lo..hi]
    decreases hi - lo
  {
    if lo < hi {
      SegmentIsSlice(s, lo + 1, hi);
    }
  }

  /** Cursor after `skip_ws`: the first position at or after `i` that is the
      end or holds neither a space nor a tab. */
  function SkipWs(s: string, i: nat): (j: nat)
    requires i <= |s|
    ensures i <= j <= |s|
    ensures j == |s| || !IsBlank(s[j])
    decreases |s| - i
  {
    if i < |s| && IsBlank(s[i]) then SkipWs(s, i + 1) else i
  }

  /** Skipping blanks where `skip_ws` stopped does not move the cursor. */
  lemma SkipWsStops(s: string, i: nat)
    requires i <= |s|
    ensures SkipWs(s, SkipWs(s, i)) == SkipWs(s, i)
  {
  }

  /** Cursor after the `while (digit())` loop: the end of the run of digits
      starting at `i`. */
  function DigitsEnd(s: string, i: nat): (j: nat)
    requires i <= |s|
    ensures i <= j <= |s|
    ensures j == |s| || !IsDigit(s[j])
    decreases |s| - i
  {
    if i < |s| && IsDigit(s[i]) then DigitsEnd(s, i + 1) else i
  }

  /** `natural_number`: a nonzero digit and then every following digit, or
      ill-formed at the cursor without consuming anything. */
  function NaturalNumber(s: string, i: nat): (r: Scan)
    requires i <= |s|
    ensures i <= r.next <= |s|
    ensures r.result.code == ParserOk ==> r.result == Ok && i < r.next
    ensures r.result.code != ParserOk ==> r == Scan(ParserResult(IllFormedInteger, i), i)
  {
    if PeekAt(s, i, TsNonZeroDigit) then
      var j := DigitsEnd(s, i + 1);
      Scan(Ok, j)
    else
      Scan(ParserResult(IllFormedInteger, i), i)
  }

  /** `integer`: a `0` under the cursor is accepted WITHOUT consuming it;
      otherwise an optional minus sign and a natural number. */
  function Integer(s: string, i: nat): (r: Scan)
    requires i <= |s|
    ensures i <= r.next <= |s|
    ensures r.result.code == ParserOk ==> r.result == Ok
    ensures r.result.code != ParserOk ==>
      r.result == ParserResult(IllFormedInteger, r.next) && r.next <= i + 1
  {
    if CharAt(s, i) == '0' then Scan(Ok, i)
    else
      NaturalNumber(s, AcceptAt(s, i, TsMinus))
  }

  /** `term`: a parenthesised expression, or an integer literal whose value
      must fit `required_int_type`. */
  function Term(s: string, i: nat): (r: Step)
    requires i <= |s|
    ensures i <= r.next <= |s|
    ensures IsOk(r.outcome) ==> r.outcome == Success
    ensures r.outcome.Returned? ==>
              r.outcome.result.code != UnexpectedEndOfExpression
              && r.outcome.result.code != ExtraneousSymbol
    decreases |s| - i, 0
  {
    var b := SkipWs(s, i);
    if PeekAt(s, b, TsOpeningScope) then Parenthesised(s, b, Expression(s, b + 1))
    else LiteralTerm(s, b)
  }

  /** The `(` branch of `term`, given what the inner expression did: after a
      successful inner expression a `)` must follow. */
  function Parenthesised(s: string, b: nat, inner: Step): (r: Step)
    requires b < |s| && b + 1 <= inner.next <= |s|
    ensures b < r.next <= |s|
  {
    var open := Token("(", OpeningScope);
    if IsOk(inner.outcome) then
      var c := SkipWs(s, inner.next);
      if PeekAt(s, c, TsClosingScope) then
        Step(inner.outcome, c + 1, [open] + inner.emitted + [Token(")", ClosingScope)])
      else
        Step(Returned(ParserResult(MissingClosingParenthesis, c)), c, [open] + inner.emitted)
    else
      Step(inner.outcome, inner.next, [open] + inner.emitted)
  }

  /** The integer branch of `term`: the literal text from `b` to where
      `integer` stopped is converted, and becomes an operand token only when
      its value fits `required_int_type`. */
  function LiteralTerm(s: string, b: nat): (r: Step)
    requires b <= |s|
    ensures b <= r.next <= |s|
    ensures IsOk(r.outcome) ==> r.outcome == Success
    ensures r.outcome.Returned? ==>
              r.outcome.result.code != UnexpectedEndOfExpression
              && r.outcome.result.code != ExtraneousSymbol
  {
    var n := Integer(s, b);
    if n.result.code == ParserOk then
      var literal := Segment(s, b, n.next);
      match Stoll(literal)
      case None => Step(ConversionAbort(b), n.next, [])
      case Some(value) =>
        if RequiredIntMin <= value <= RequiredIntMax then
          Step(Returned(n.result), n.next, [Token(literal, Operand)])
        else
          Step(Returned(ParserResult(IntegerOutOfRange, b)), n.next, [])
    else
      Step(Returned(n.result), n.next, [])
  }

  lemma TermIsParenthesised(s: string, i: nat)
    requires i <= |s| && PeekAt(s, SkipWs(s, i), TsOpeningScope)
    ensures Term(s, i) == Parenthesised(s, SkipWs(s, i), Expression(s, SkipWs(s, i) + 1))
  {
  }

  lemma TermIsLiteral(s: string, i: nat)
    requires i <= |s| && !PeekAt(s, SkipWs(s, i), TsOpeningScope)
    ensures Term(s, i) == LiteralTerm(s, SkipWs(s, i))
  {
  }

  /** `expression`: a term, then the operator/term loop while the term
      succeeded. */
  function Expression(s: string, i: nat): (r: Step)
    requires i <= |s|
    ensures i <= r.next <= |s|
    ensures IsOk(r.outcome) ==> r.outcome == Success
    ensures r.outcome.Returned? ==>
              r.outcome.result.code != UnexpectedEndOfExpression
              && r.outcome.result.code != ExtraneousSymbol
    decreases |s| - i, 2
  {
    var b := SkipWs(s, i);
    var t := Term(s, b);
    if IsOk(t.outcome) then Prepend(t.emitted, ExpressionLoop(s, t.next)) else t
  }

  /** The `while` loop of `expression`, entered after a successful term with
      the cursor at `p`. Each round skips blanks, tries the five operators in
      order, and requires a term after an operator; a failing term is
      re-tagged as a missing term at its own column. */
  function ExpressionLoop(s: string, p: nat): (r: Step)
    requires p <= |s|
    ensures p <= r.next <= |s|
    ensures IsOk(r.outcome) ==> r.outcome == Success
    ensures r.outcome.Returned? ==>
              r.outcome.result.code != UnexpectedEndOfExpression
              && r.outcome.result.code != ExtraneousSymbol
    decreases |s| - p, 1
  {
    if p == |s| then Step(Success, p, [])
    else
      var q := SkipWs(s, p);
      if q < |s| && IsOperatorChar(s[q]) then
        var op := Token([s[q]], Operator);
        var t := Term(s, q + 1);
        if IsOk(t.outcome) then
          Prepend([op] + t.emitted, ExpressionLoop(s, t.next))
        else if t.outcome.Returned? then
          Step(Returned(ParserResult(MissingTerm, t.outcome.result.atCol)), t.next, [op] + t.emitted)
        else
          Step(t.outcome, t.next, [op] + t.emitted)
      else
        Step(Success, q, [])
  }

  /** Without an operator after the blanks the loop ends successfully there. */
  lemma LoopStops(s: string, p: nat)
    requires p < |s|
    requires var q := SkipWs(s, p); !(q < |s| && IsOperatorChar(s[q]))
    ensures ExpressionLoop(s, p) == Step(Success, SkipWs(s, p), [])
  {
  }

  /** An operator followed by a failing term ends the loop with that
      failure: a returned failure is re-tagged as a missing term at the
      column the term failed at, and an abort passes through. */
  lemma LoopFails(s: string, p: nat)
    requires p < |s|
    requires var q := SkipWs(s, p); q < |s| && IsOperatorChar(s[q]) && !IsOk(Term(s, q + 1).outcome)
    ensures var q := SkipWs(s, p); var t := Term(s, q + 1);
      t.outcome.Returned? ==>
        ExpressionLoop(s, p)
        == Step(Returned(ParserResult(MissingTerm, t.outcome.result.atCol)), t.next, [Token([s[q]], Operator)] + t.emitted)
    ensures var q := SkipWs(s, p); var t := Term(s, q + 1);
      t.outcome.ConversionAbort? ==>
        ExpressionLoop(s, p) == Step(t.outcome, t.next, [Token([s[q]], Operator)] + t.emitted)
  {
  }

  /** An operator followed by a successful term continues the loop after it. */
  lemma LoopContinues(s: string, p: nat)
    requires p < |s|
    requires var q := SkipWs(s, p); q < |s| && IsOperatorChar(s[q]) && IsOk(Term(s, q + 1).outcome)
    ensures var q := SkipWs(s, p); var t := Term(s, q + 1);
      ExpressionLoop(s, p) == Prepend([Token([s[q]], Operator)] + t.emitted, ExpressionLoop(s, t.next))
  {
  }

  /** Concatenation of token lists is associative. */
  lemma Regroup(a: seq<Token>, b: seq<Token>, c: seq<Token>)
    ensures a + b + c == a + (b + c)
  {
  }

  /** Prefixing tokens twice is prefixing their concatenation once. */
  lemma PrependTwice(a: seq<Token>, b: seq<Token>, st: Step)
    ensures Prepend(a, Prepend(b, st)) == Prepend(a + b, st)
  {
  }

  /** `parse`: a fresh cursor at 0 and an empty token list; blank input is an
      unexpected end, and after a successful expression only blanks may
      remain. */
  function Parse(s: string): (r: Step)
    ensures r.next <= |s|
    ensures IsOk(r.outcome) ==> r.outcome == Success && r.next == |s|
  {
    var b := SkipWs(s, 0);
    if b == |s| then
      Step(Returned(ParserResult(UnexpectedEndOfExpression, b)), b, [])
    else
      var e := Expression(s, b);
      if IsOk(e.outcome) then
        var c := SkipWs(s, e.next);
        if c < |s| then Step(Returned(ParserResult(ExtraneousSymbol, c)), c, e.emitted)
        else Step(e.outcome, c, e.emitted)
      else e
  }
}
