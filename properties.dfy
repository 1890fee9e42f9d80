/** What the grammar procedures guarantee, proved about the reference
    semantics of module Grammar (and so, through the method contracts of
    `Parsing.Parser`, about the parser object). */
module Properties {
  import opened Symbols
  import opened Results
  import opened Grammar

  /* ---------- cursor primitives ---------- */

  /** Every character `skip_ws` passes over is a space or a tab. */
  lemma {:induction false} SkipWsSkipsBlanks(s: string, i: nat)
    requires i <= |s|
    ensures forall k :: i <= k < SkipWs(s, i) ==> IsBlank(s[k])
    decreases |s| - i
  {
    if i < |s| && IsBlank(s[i]) {
      SkipWsSkipsBlanks(s, i + 1);
    }
  }

  /** Every character the digit loop passes over is a decimal digit. */
  lemma {:induction false} DigitsEndSkipsDigits(s: string, i: nat)
    requires i <= |s|
    ensures forall k :: i <= k < DigitsEnd(s, i) ==> IsDigit(s[k])
    decreases |s| - i
  {
    if i < |s| && IsDigit(s[i]) {
      DigitsEndSkipsDigits(s, i + 1);
    }
  }

  /* ---------- integer literals ---------- */

  /** `integer` at `b`: a `0` is accepted without being consumed; otherwise
      the text consumed is an integer literal that is followed by a
      non-digit, or nothing is consumed but the optional minus sign and the
      result is ill-formed at the column after it. */
  lemma IntegerScan(s: string, b: nat)
    requires b <= |s|
    ensures CharAt(s, b) == '0' ==> Integer(s, b) == Scan(Ok, b)
    ensures var n := Integer(s, b);
      CharAt(s, b) != '0' && n.result.code == ParserOk ==>
        b < n.next && IsIntegerLiteral(s[b..n.next]) && (n.next == |s| || !IsDigit(s[n.next]))
    ensures var n := Integer(s, b);
      n.result.code != ParserOk ==>
        n.next == AcceptAt(s, b, TsMinus) && n.result == ParserResult(IllFormedInteger, n.next)
  {
    var n := Integer(s, b);
    if CharAt(s, b) != '0' && n.result.code == ParserOk {
      var d := AcceptAt(s, b, TsMinus);
      DigitsEndSkipsDigits(s, d + 1);
      var text := s[b..n.next];
      var digits := if |text| > 0 && text[0] == '-' then text[1..] else text;
      assert digits == s[d..n.next];
      assert AllDigits(digits) by {
        forall k | 0 <= k < |digits|
          ensures IsDigit(digits[k])
        {
          assert digits[k] == s[d + k];
        }
      }
    }
  }

  /** The digit loop stops exactly at the end of a run of digits. */
  lemma {:induction false} DigitsEndAt(s: string, i: nat, e: nat)
    requires i <= e <= |s|
    requires forall k :: i <= k < e ==> IsDigit(s[k])
    requires e == |s| || !IsDigit(s[e])
    ensures DigitsEnd(s, i) == e
    decreases e - i
  {
    if i < e {
      DigitsEndAt(s, i + 1, e);
    }
  }

  /** Conversely, `integer` accepts a whole integer literal that is not
      followed by another digit, and stops right after it. */
  lemma IntegerAccepts(s: string, b: nat, e: nat)
    requires b < e <= |s| && IsIntegerLiteral(s[b..e])
    requires e == |s| || !IsDigit(s[e])
    ensures Integer(s, b) == Scan(Ok, e)
  {
    var text := s[b..e];
    var d := AcceptAt(s, b, TsMinus);
    assert Unsigned(text) == s[d..e];
    assert s[d] == Unsigned(text)[0];
    forall k | d + 1 <= k < e
      ensures IsDigit(s[k])
    {
      assert s[k] == Unsigned(text)[k - d];
    }
    DigitsEndAt(s, d + 1, e);
  }

  /** How many digits a literal has decides whether it fits: up to four
      always fit `required_int_type`, six or more never do; up to eighteen
      always fit `input_int_type`, twenty or more never do. */
  lemma LiteralWidth(text: string)
    requires IsIntegerLiteral(text)
    ensures |Unsigned(text)| <= 4 ==> RequiredIntMin <= LiteralValue(text) <= RequiredIntMax
    ensures |Unsigned(text)| >= 6 ==> !(RequiredIntMin <= LiteralValue(text) <= RequiredIntMax)
    ensures |Unsigned(text)| <= 18 ==> InputIntMin <= LiteralValue(text) <= InputIntMax
    ensures |Unsigned(text)| >= 20 ==> !(InputIntMin <= LiteralValue(text) <= InputIntMax)
  {
    var digits := Unsigned(text);
    DecimalValueBounds(digits);
    PowMonotone(|digits|, 4);
    PowMonotone(5, |digits| - 1);
    PowMonotone(|digits|, 18);
    PowMonotone(19, |digits| - 1);
    PowersOfTen();
  }

  /** The powers of ten that separate the widths above. */
  lemma PowersOfTen()
    ensures Pow10(4) == 10000 && Pow10(5) == 100000
    ensures Pow10(18) == 1_000_000_000_000_000_000
    ensures Pow10(19) == 10_000_000_000_000_000_000
  {
  }

  /** Powers of ten grow with the exponent. */
  lemma {:induction false} PowMonotone(m: nat, n: nat)
    ensures m <= n ==> Pow10(m) <= Pow10(n)
    decreases n
  {
    if m < n {
      PowMonotone(m, n - 1);
    }
  }

  /** No character of an accepted literal is a blank. */
  lemma IntegerHasNoBlanks(s: string, b: nat)
    requires b <= |s|
    ensures forall k :: b <= k < Integer(s, b).next ==> !IsBlank(s[k])
  {
    if CharAt(s, b) != '0' {
      var d := AcceptAt(s, b, TsMinus);
      if PeekAt(s, d, TsNonZeroDigit) {
        DigitsEndSkipsDigits(s, d + 1);
      }
    }
  }

  /** The integer branch of `term` at `b`: a literal starting with `0`
      leaves the parser through the failed conversion of the empty text; an
      ill-formed integer is returned as it is; otherwise the token is
      exactly the text of the literal and is pushed only when its value fits
      `required_int_type`, the result being an out-of-range integer at the
      literal's first column when it does not, and an abort when it does
      not even fit `input_int_type`. */
  lemma LiteralTermCases(s: string, b: nat)
    requires b <= |s|
    ensures CharAt(s, b) == '0' ==> LiteralTerm(s, b) == Step(ConversionAbort(b), b, [])
    ensures var n := Integer(s, b);
      n.result.code != ParserOk ==> LiteralTerm(s, b) == Step(Returned(n.result), n.next, [])
    ensures var n := Integer(s, b); var lit := s[b..n.next];
      CharAt(s, b) != '0' && n.result.code == ParserOk ==>
        IsIntegerLiteral(lit)
        && LiteralTerm(s, b) ==
             if !(InputIntMin <= LiteralValue(lit) <= InputIntMax) then
               Step(ConversionAbort(b), n.next, [])
             else if RequiredIntMin <= LiteralValue(lit) <= RequiredIntMax then
               Step(Success, n.next, [Token(lit, Operand)])
             else
               Step(Returned(ParserResult(IntegerOutOfRange, b)), n.next, [])
  {
    var n := Integer(s, b);
    IntegerScan(s, b);
    SegmentIsSlice(s, b, n.next);
    if CharAt(s, b) != '0' && n.result.code == ParserOk {
      StollOfLiteral(s[b..n.next]);
    }
  }

  /** A term whose first non-blank character is `0` aborts there without
      consuming anything or producing a token. */
  lemma ZeroTermAborts(s: string, i: nat)
    requires i <= |s|
    requires SkipWs(s, i) < |s| && s[SkipWs(s, i)] == '0'
    ensures Term(s, i) == Step(ConversionAbort(SkipWs(s, i)), SkipWs(s, i), [])
  {
    TermIsLiteral(s, i);
    LiteralTermCases(s, SkipWs(s, i));
  }

  /* ---------- results ---------- */

  /** Once a first term has succeeded, every failure the rest of
      `expression` reports is a missing term. It comes from an operator at
      some `q`, followed by a term that failed where the loop stopped; the
      reported column is that term's own column. */
  lemma {:induction false} LoopFailureIsMissingTerm(s: string, p: nat)
    requires p <= |s|
    ensures var r := ExpressionLoop(s, p);
      r.outcome.Returned? && !IsOk(r.outcome) ==>
        r.outcome.result.code == MissingTerm
        && exists q :: p <= q < r.next && IsOperatorChar(s[q])
             && var t := Term(s, q + 1);
                t.outcome.Returned? && !IsOk(t.outcome) && t.next == r.next
                && r.outcome.result.atCol == t.outcome.result.atCol
    decreases |s| - p
  {
    if p < |s| {
      var q := SkipWs(s, p);
      if q < |s| && IsOperatorChar(s[q]) {
        var t := Term(s, q + 1);
        if IsOk(t.outcome) {
          LoopContinues(s, p);
          LoopFailureIsMissingTerm(s, t.next);
        } else {
          LoopFails(s, p);
        }
      }
    }
  }

  /** The input holds nothing but spaces and tabs. */
  predicate AllBlank(s: string) {
    forall k :: 0 <= k < |s| ==> IsBlank(s[k])
  }

  /** `parse` reports an unexpected end exactly for a blank input, at the
      column just past it and with no tokens. */
  lemma BlankInputIsUnexpectedEnd(s: string)
    ensures var r := Parse(s);
      (r.outcome.Returned? && r.outcome.result.code == UnexpectedEndOfExpression)
      <==> AllBlank(s)
    ensures AllBlank(s) ==>
      Parse(s) == Step(Returned(ParserResult(UnexpectedEndOfExpression, |s|)), |s|, [])
  {
    SkipWsSkipsBlanks(s, 0);
  }

  /** After a successful expression, `parse` reports an extraneous symbol
      at the first non-blank character left over, if there is one. */
  lemma ExtraneousSymbolAtFirstLeftover(s: string)
    requires SkipWs(s, 0) < |s| && IsOk(Expression(s, SkipWs(s, 0)).outcome)
    ensures var e := Expression(s, SkipWs(s, 0)); var c := SkipWs(s, e.next);
      (forall k :: e.next <= k < c ==> IsBlank(s[k]))
      && (c < |s| ==> !IsBlank(s[c])
                      && Parse(s).outcome == Returned(ParserResult(ExtraneousSymbol, c)))
      && (c == |s| ==> Parse(s).outcome == Success)
  {
    var e := Expression(s, SkipWs(s, 0));
    SkipWsSkipsBlanks(s, e.next);
  }
}
