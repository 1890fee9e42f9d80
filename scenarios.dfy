/** Worked inputs: what `parse` returns, and which tokens it leaves, in the
    characteristic cases of each production. */
module Scenarios {
  import opened Symbols
  import opened Results
  import opened Grammar
  import Properties
  import TokenStream
  import Completeness

  /** A literal of at most four digits after the blanks is one operand. */
  lemma ShortOperand(s: string, i: nat, e: nat)
    requires i <= |s| && SkipWs(s, i) < e <= |s|
    requires IsIntegerLiteral(s[SkipWs(s, i)..e]) && |Unsigned(s[SkipWs(s, i)..e])| <= 4
    requires e == |s| || !IsDigit(s[e])
    ensures Term(s, i) == Step(Success, e, [Token(s[SkipWs(s, i)..e], Operand)])
  {
    var b := SkipWs(s, i);
    assert s[b] == s[b..e][0];
    TermIsLiteral(s, i);
    Properties.IntegerAccepts(s, b, e);
    Properties.LiteralTermCases(s, b);
    Properties.LiteralWidth(s[b..e]);
  }

  /** A single non-zero digit not followed by another digit is one operand. */
  lemma SingleDigit(s: string, i: nat)
    requires i < |s| && '1' <= s[i] <= '9'
    requires i + 1 == |s| || !IsDigit(s[i + 1])
    ensures Term(s, i) == Step(Success, i + 1, [Token([s[i]], Operand)])
  {
    assert SkipWs(s, i) == i;
    assert s[i..i + 1] == [s[i]];
    assert IsIntegerLiteral([s[i]]);
    ShortOperand(s, i, i + 1);
  }

  /** One round of the loop over an operator and a single digit, with no
      blanks around them. */
  lemma OperatorDigit(s: string, p: nat)
    requires p + 1 < |s| && IsOperatorChar(s[p]) && '1' <= s[p + 1] <= '9'
    requires p + 2 == |s| || !IsDigit(s[p + 2])
    ensures ExpressionLoop(s, p) ==
      Prepend([Token([s[p]], Operator), Token([s[p + 1]], Operand)], ExpressionLoop(s, p + 2))
  {
    assert SkipWs(s, p) == p;
    SingleDigit(s, p + 1);
    LoopContinues(s, p);
    assert [Token([s[p]], Operator)] + [Token([s[p + 1]], Operand)]
      == [Token([s[p]], Operator), Token([s[p + 1]], Operand)];
  }

  /** "1+2": two operands around an operator. */
  lemma OnePlusTwo()
    ensures Parse("1+2") == Step(Success, 3, [Token("1", Operand), Token("+", Operator), Token("2", Operand)])
  {
    var s := "1+2";
    SingleDigit(s, 0);
    OperatorDigit(s, 1);
    assert Expression(s, 0) == Step(Success, 3, [Token("1", Operand), Token("+", Operator), Token("2", Operand)]);
  }

  /** "12a": the letter left over is extraneous at column 2. */
  lemma TrailingLetter()
    ensures Parse("12a").outcome == Returned(ParserResult(ExtraneousSymbol, 2))
  {
    var s := "12a";
    assert s[0..2] == "12";
    assert IsIntegerLiteral("12");
    ShortOperand(s, 0, 2);
    LoopStops(s, 2);
  }

  /** "1+2)": the unmatched `)` is extraneous at column 3. */
  lemma UnmatchedClosing()
    ensures Parse("1+2)").outcome == Returned(ParserResult(ExtraneousSymbol, 3))
  {
    var s := "1+2)";
    SingleDigit(s, 0);
    OperatorDigit(s, 1);
    LoopStops(s, 3);
    assert Expression(s, 0) == Step(Success, 3, [Token("1", Operand), Token("+", Operator), Token("2", Operand)]);
  }

  /** Inside "(1+2", the expression after the `(` reads `1+2`. */
  lemma InnerOfUnclosedGroup()
    ensures Expression("(1+2", 1) == Step(Success, 4, [Token("1", Operand), Token("+", Operator), Token("2", Operand)])
  {
    var s := "(1+2";
    SingleDigit(s, 1);
    OperatorDigit(s, 2);
  }

  /** An input that opens a group whose inner expression succeeds and
      runs to the end: the missing `)` is reported at the end of the input,
      after the `(` and the inner tokens were pushed. */
  lemma GroupNotClosed(s: string)
    requires 0 < |s| && s[0] == '('
    requires IsOk(Expression(s, 1).outcome) && Expression(s, 1).next == |s|
    ensures Parse(s) == Step(Returned(ParserResult(MissingClosingParenthesis, |s|)), |s|,
      [Token("(", OpeningScope)] + Expression(s, 1).emitted)
  {
    assert SkipWs(s, 0) == 0 && SkipWs(s, |s|) == |s|;
    TermIsParenthesised(s, 0);
  }

  /** "(1+2": the group is not closed; reported at column 4, after the
      `(` and the inner tokens were pushed. */
  lemma UnclosedGroup()
    ensures Parse("(1+2") == Step(Returned(ParserResult(MissingClosingParenthesis, 4)), 4,
      [Token("(", OpeningScope)] + [Token("1", Operand), Token("+", Operator), Token("2", Operand)])
  {
    InnerOfUnclosedGroup();
    GroupNotClosed("(1+2");
  }

  /** "1+": the term after the operator is missing at column 2. */
  lemma DanglingOperator()
    ensures Parse("1+") == Step(Returned(ParserResult(MissingTerm, 2)), 2,
      [Token("1", Operand), Token("+", Operator)])
  {
    var s := "1+";
    SingleDigit(s, 0);
    TermIsLiteral(s, 2);
    LoopFails(s, 1);
  }

  /** "()": a failing first term is reported unchanged, as an ill-formed
      integer at column 1 (not as a missing term). */
  lemma EmptyGroup()
    ensures Parse("()") == Step(Returned(ParserResult(IllFormedInteger, 1)), 1, [Token("(", OpeningScope)])
  {
    TermIsLiteral("()", 1);
    TermIsParenthesised("()", 0);
  }

  /** "-0": a minus sign before a zero is an ill-formed integer at the
      zero's column. */
  lemma NegativeZero()
    ensures Parse("-0") == Step(Returned(ParserResult(IllFormedInteger, 1)), 1, [])
  {
    TermIsLiteral("-0", 0);
  }

  /** " ": blank input is an unexpected end at column 1. */
  lemma BlankInput()
    ensures Parse(" ") == Step(Returned(ParserResult(UnexpectedEndOfExpression, 1)), 1, [])
  {
  }

  /** "0", and "1 + 0" with the zero after an operator: the zero is never
      consumed, the conversion of the empty text fails, and the parser is
      left at the zero's column. */
  lemma ZeroAborts()
    ensures Parse("0").outcome == ConversionAbort(0)
    ensures Parse("1 + 0").outcome == ConversionAbort(4)
  {
    Properties.ZeroTermAborts("0", 0);
    var s := "1 + 0";
    SingleDigit(s, 0);
    Properties.ZeroTermAborts(s, 3);
    LoopFails(s, 1);
  }

  /** An input that is one integer literal and nothing else: the parser
      pushes it when it fits `required_int_type`, reports it out of range at
      column 0 when it does not, and aborts when it does not even fit
      `input_int_type`. */
  lemma WholeLiteral(s: string)
    requires IsIntegerLiteral(s)
    ensures var v := LiteralValue(s);
      Parse(s) ==
        if !(InputIntMin <= v <= InputIntMax) then Step(ConversionAbort(0), |s|, [])
        else if RequiredIntMin <= v <= RequiredIntMax then Step(Success, |s|, [Token(s, Operand)])
        else Step(Returned(ParserResult(IntegerOutOfRange, 0)), |s|, [])
  {
    assert s[0] == '-' || s[0] == Unsigned(s)[0];
    assert SkipWs(s, 0) == 0;
    assert s[0..|s|] == s;
    TermIsLiteral(s, 0);
    Properties.IntegerAccepts(s, 0, |s|);
    Properties.LiteralTermCases(s, 0);
    var t := Term(s, 0);
    if IsOk(t.outcome) {
      assert t.emitted == [Token(s, Operand)];
      assert ExpressionLoop(s, |s|) == Step(Success, |s|, []);
      assert t.emitted + [] == t.emitted;
    }
  }

  /** "100000": six digits are out of range, at the literal's column. */
  lemma OutOfRange()
    ensures Parse("100000") == Step(Returned(ParserResult(IntegerOutOfRange, 0)), 6, [])
  {
    var s := "100000";
    assert IsIntegerLiteral(s);
    Properties.LiteralWidth(s);
    WholeLiteral(s);
  }

  /** Twenty digits do not even fit `long long`: the conversion fails. */
  lemma TooWide()
    ensures Parse("10000000000000000000").outcome == ConversionAbort(0)
  {
    var s := "10000000000000000000";
    assert IsIntegerLiteral(s);
    Properties.LiteralWidth(s);
    WholeLiteral(s);
  }

  /** A digit from 1 to 9 on its own is an operand within range. */
  lemma DigitOperand(d: char)
    requires '1' <= d <= '9'
    ensures TokenStream.IsOperandLexeme([d])
  {
    assert Unsigned([d]) == [d];
    assert LiteralValue([d]) == DecimalValue([d]);
    assert DecimalValue([d]) == d as int - '0' as int;
  }

  /** The tokens of `(3-4)*5`. */
  function DifferenceTokens(): seq<Token> {
    [Token("(", OpeningScope), Token("3", Operand), Token("-", Operator),
     Token("4", Operand), Token(")", ClosingScope), Token("*", Operator),
     Token("5", Operand)]
  }

  lemma DifferenceWellFormed()
    ensures TokenStream.WellFormed(DifferenceTokens())
  {
    var ts := DifferenceTokens();
    DigitOperand('3');
    DigitOperand('4');
    DigitOperand('5');
    assert TokenStream.Completes(ts[6..], 0, true);
    assert TokenStream.Completes(ts[5..], 0, false);
    assert TokenStream.Completes(ts[4..], 1, false);
    assert TokenStream.Completes(ts[3..], 1, true);
    assert TokenStream.Completes(ts[2..], 1, false);
    assert TokenStream.Completes(ts[1..], 1, true);
  }

  lemma DifferenceSpelling()
    ensures TokenStream.Lexemes(DifferenceTokens()) == "(3-4)*5"
  {
    var ts := DifferenceTokens();
    assert TokenStream.Lexemes(ts[6..]) == "5";
    assert TokenStream.Lexemes(ts[5..]) == "*5";
    assert TokenStream.Lexemes(ts[4..]) == ")*5";
    assert TokenStream.Lexemes(ts[3..]) == "4)*5";
    assert TokenStream.Lexemes(ts[2..]) == "-4)*5";
    assert TokenStream.Lexemes(ts[1..]) == "3-4)*5";
  }

  /** "(3-4)*5": the group is one term, and the parse pushes all seven
      tokens in input order. An instance of `Completeness.ParseIsComplete`. */
  lemma ParenthesisedDifference()
    ensures Parse("(3-4)*5") == Step(Success, 7,
      [Token("(", OpeningScope), Token("3", Operand), Token("-", Operator),
       Token("4", Operand), Token(")", ClosingScope), Token("*", Operator),
       Token("5", Operand)])
  {
    DifferenceWellFormed();
    DifferenceSpelling();
    Completeness.ParseIsComplete(DifferenceTokens());
  }
}
