/** The parser object: the input string, a forward-only cursor into it and
    the append-only token list, updated in place by the grammar procedures.
    Every method is proved to do exactly what the matching function of
    module Grammar describes. */
module Parsing {
  import opened Symbols
  import opened Results
  import Grammar

  class Parser {
    /** The expression being parsed. */
    var expr: string
    /** Index of the current symbol; `|expr|` is the end of input. */
    var pos: nat
    /** Tokens recognised so far, in input order. */
    var tokens: seq<Token>

    ghost predicate Valid()
      reads this
    {
      pos <= |expr|
    }

    constructor ()
      ensures Valid() && expr == [] && pos == 0 && tokens == []
    {
      expr, pos, tokens := [], 0, [];
    }

    /** `end_input`. */
    predicate EndInput()
      reads this
      ensures EndInput() && pos <= |expr| ==> Lexer(Grammar.CharAt(expr, pos)) == TsEos
      ensures EndInput() ==> forall t :: !Grammar.PeekAt(expr, pos, t)
    {
      pos == |expr|
    }

    /** `peek`: never reads past the end. */
    predicate Peek(t: TerminalSymbol)
      reads this
      ensures Peek(t) <==> Grammar.PeekAt(expr, pos, t)
    {
      !EndInput() && pos < |expr| && Lexer(expr[pos]) == t
    }

    /** `next_symbol`: callers only advance a cursor that is not at the end. */
    method NextSymbol()
      requires Valid() && !EndInput()
      modifies this`pos
      ensures Valid() && pos == old(pos) + 1
    {
      pos := pos + 1;
    }

    /** `accept`: consumes the current character exactly when it is a `t`. */
    method Accept(t: TerminalSymbol) returns (accepted: bool)
      requires Valid()
      modifies this`pos
      ensures Valid()
      ensures accepted <==> old(pos) < |expr| && Lexer(expr[old(pos)]) == t
      ensures accepted == Grammar.PeekAt(expr, old(pos), t)
      ensures pos == if accepted then old(pos) + 1 else old(pos)
    {
      if pos < |expr| {
        LexerMatches(expr[pos], t);
      }
      if Peek(t) {
        NextSymbol();
        return true;
      }
      return false;
    }

    /** `skip_ws`: passes over spaces and tabs only. The ghost parameter `s`
        names the text being parsed, so that the contracts of the grammar
        procedures do not depend on the heap. */
    method SkipWs(ghost s: string)
      requires Valid() && expr == s
      modifies this`pos
      ensures Valid()
      ensures pos == Grammar.SkipWs(s, old(pos))
    {
      while !EndInput() && (Lexer(expr[pos]) == TsWs || Lexer(expr[pos]) == TsTab)
        invariant Valid() && old(pos) <= pos
        invariant Grammar.SkipWs(s, pos) == Grammar.SkipWs(s, old(pos))
        decreases |expr| - pos
      {
        LexerMatches(expr[pos], TsWs);
        NextSymbol();
      }
    }

    /** `expect`: skips blanks even when the symbol then does not match. */
    method Expect(ghost s: string, t: TerminalSymbol) returns (accepted: bool)
      requires Valid() && expr == s
      modifies this`pos
      ensures Valid()
      ensures accepted == Grammar.PeekAt(s, Grammar.SkipWs(s, old(pos)), t)
      ensures pos == Grammar.AcceptAt(s, Grammar.SkipWs(s, old(pos)), t)
    {
      SkipWs(s);
      accepted := Accept(t);
    }

    /** `digit_excl_zero`. */
    method DigitExclZero() returns (accepted: bool)
      requires Valid()
      modifies this`pos
      ensures Valid()
      ensures accepted <==> old(pos) < |expr| && '1' <= expr[old(pos)] <= '9'
      ensures pos == if accepted then old(pos) + 1 else old(pos)
    {
      accepted := Accept(TsNonZeroDigit);
    }

    /** `digit`. */
    method Digit() returns (accepted: bool)
      requires Valid()
      modifies this`pos
      ensures Valid()
      ensures accepted <==> old(pos) < |expr| && '0' <= expr[old(pos)] <= '9'
      ensures pos == if accepted then old(pos) + 1 else old(pos)
    {
      accepted := Accept(TsZero);
      if !accepted {
        accepted := Accept(TsNonZeroDigit);
      }
    }

    /** `natural_number`. */
    method NaturalNumber(ghost s: string) returns (r: ParserResult)
      requires Valid() && expr == s
      modifies this`pos
      ensures Valid()
      ensures Grammar.NaturalNumber(s, old(pos)) == Grammar.Scan(r, pos)
    {
      var first := DigitExclZero();
      if first {
        var more := Digit();
        while more
          invariant Valid() && old(pos) < pos
          invariant Grammar.PeekAt(s, old(pos), TsNonZeroDigit)
          invariant more ==> Grammar.DigitsEnd(s, pos) == Grammar.DigitsEnd(s, old(pos) + 1)
          invariant !more ==> pos == Grammar.DigitsEnd(s, old(pos) + 1)
          decreases |expr| - pos, if more then 1 else 0
        {
          more := Digit();
        }
        return Ok;
      }
      return ParserResult(IllFormedInteger, pos);
    }

    /** `integer`: reads the current character without an end check, so at
        the end it sees the terminator. */
    method Integer(ghost s: string) returns (r: ParserResult)
      requires Valid() && expr == s
      modifies this`pos
      ensures Valid()
      ensures Grammar.Integer(s, old(pos)) == Grammar.Scan(r, pos)
    {
      LexerMatches(Grammar.CharAt(expr, pos), TsZero);
      if Lexer(Grammar.CharAt(expr, pos)) == TsZero {
        return Ok;
      }
      var signed := Accept(TsMinus);
      r := NaturalNumber(s);
    }

    /** `term`. */
    method Term(ghost s: string) returns (r: Outcome)
      requires Valid() && expr == s
      modifies this`pos, this`tokens
      ensures Valid()
      ensures pos == Grammar.Term(s, old(pos)).next
      ensures r == Grammar.Term(s, old(pos)).outcome
      ensures tokens == old(tokens) + Grammar.Term(s, old(pos)).emitted
      decreases |expr| - pos, 0
    {
      ghost var i := pos;
      Grammar.SkipWsStops(s, i);
      SkipWs(s);
      var beginToken := pos;
      r := Returned(ParserResult(MissingTerm, pos));
      var scoped := Expect(s, TsOpeningScope);
      if scoped {
        Grammar.TermIsParenthesised(s, i);
        ghost var before := tokens;
        tokens := tokens + [Token("(", OpeningScope)];
        r := Expression(s);
        ghost var inner := Grammar.Expression(s, beginToken + 1);
        Grammar.Regroup(before, [Token("(", OpeningScope)], inner.emitted);
        if IsOk(r) {
          var closed := Expect(s, TsClosingScope);
          if !closed {
            return Returned(ParserResult(MissingClosingParenthesis, pos));
          }
          tokens := tokens + [Token(")", ClosingScope)];
          Grammar.Regroup(before, [Token("(", OpeningScope)] + inner.emitted, [Token(")", ClosingScope)]);
        }
      } else {
        Grammar.TermIsLiteral(s, i);
        var res := Integer(s);
        r := Returned(res);
        if res.code == ParserOk {
          var num := expr[beginToken..pos];
          Grammar.SegmentIsSlice(s, beginToken, pos);
          match Stoll(num)
          case None =>
            return ConversionAbort(beginToken);
          case Some(value) =>
            if RequiredIntMin <= value <= RequiredIntMax {
              tokens := tokens + [Token(num, Operand)];
            } else {
              r := Returned(ParserResult(IntegerOutOfRange, beginToken));
            }
        }
      }
    }

    /** The operator cascade of `expression`'s loop: `expect` each of the
        five operators in turn, and report the glyph of the one found. */
    method ExpectOperator(ghost s: string) returns (accepted: bool, glyph: string)
      requires Valid() && expr == s
      modifies this`pos
      ensures Valid()
      ensures var q := Grammar.SkipWs(s, old(pos));
        accepted == (q < |s| && IsOperatorChar(s[q]))
        && pos == (if accepted then q + 1 else q)
        && (accepted ==> glyph == [s[q]])
    {
      ghost var q := Grammar.SkipWs(s, pos);
      Grammar.SkipWsStops(s, pos);
      accepted := Expect(s, TsPlus);
      if accepted {
        return true, "+";
      }
      accepted := Expect(s, TsMinus);
      if accepted {
        return true, "-";
      }
      accepted := Expect(s, TsExpo);
      if accepted {
        return true, "^";
      }
      accepted := Expect(s, TsMult);
      if accepted {
        return true, "*";
      }
      accepted := Expect(s, TsDiv);
      if accepted {
        return true, "/";
      }
      return false, "";
    }

    /** One round of `expression`'s loop: an operator and then a term after
        it. `more` is set when both were found and the loop goes on; otherwise
        the loop ends with `r`, which is a success when no operator followed
        and the failing term re-tagged as a missing term otherwise. */
    method ExpressionRound(ghost s: string) returns (r: Outcome, more: bool, ghost round: seq<Token>)
      requires Valid() && expr == s && pos < |expr|
      modifies this`pos, this`tokens
      ensures Valid()
      ensures tokens == old(tokens) + round
      ensures more ==> r == Success && old(pos) < pos
      ensures more ==> Grammar.ExpressionLoop(s, old(pos)) == Grammar.Prepend(round, Grammar.ExpressionLoop(s, pos))
      ensures !more ==> Grammar.ExpressionLoop(s, old(pos)) == Grammar.Step(r, pos, round)
      decreases |expr| - pos, 1
    {
      ghost var p, q := pos, Grammar.SkipWs(s, pos);
      var accepted, glyph := ExpectOperator(s);
      if !accepted {
        Grammar.LoopStops(s, p);
        return Success, false, [];
      }
      var op := Token(glyph, Operator);
      tokens := tokens + [op];
      r := Term(s);
      ghost var t := Grammar.Term(s, q + 1);
      round := [op] + t.emitted;
      Grammar.Regroup(old(tokens), [op], t.emitted);
      if !IsOk(r) {
        Grammar.LoopFails(s, p);
        if r.Returned? {
          r := Returned(ParserResult(MissingTerm, r.result.atCol));
        }
        return r, false, round;
      }
      Grammar.LoopContinues(s, p);
      more := true;
    }

    /** `expression`. */
    method Expression(ghost s: string) returns (r: Outcome)
      requires Valid() && expr == s
      modifies this`pos, this`tokens
      ensures Valid()
      ensures pos == Grammar.Expression(s, old(pos)).next
      ensures r == Grammar.Expression(s, old(pos)).outcome
      ensures tokens == old(tokens) + Grammar.Expression(s, old(pos)).emitted
      decreases |expr| - pos, 2
    {
      SkipWs(s);
      ghost var b := pos;
      r := Term(s);
      ghost var done := Grammar.Term(s, b).emitted;
      while IsOk(r) && !EndInput()
        invariant Valid() && old(pos) <= pos
        invariant tokens == old(tokens) + done
        invariant IsOk(r) ==> r == Success
        invariant IsOk(r) ==>
          Grammar.Expression(s, old(pos)) == Grammar.Prepend(done, Grammar.ExpressionLoop(s, pos))
        invariant !IsOk(r) ==> Grammar.Expression(s, old(pos)) == Grammar.Step(r, pos, done)
        decreases |expr| - pos
      {
        ghost var p := pos;
        var more;
        ghost var round;
        r, more, round := ExpressionRound(s);
        Grammar.Regroup(old(tokens), done, round);
        Grammar.PrependTwice(done, round, Grammar.ExpressionLoop(s, pos));
        done := done + round;
        if !more {
          return;
        }
      }
      if IsOk(r) {
        assert Grammar.ExpressionLoop(s, pos) == Grammar.Step(Success, pos, []);
        assert done + [] == done;
      }
    }

    /** `parse`: the entry point; resets all state first. */
    method Parse(e: string) returns (r: Outcome)
      modifies this
      ensures Valid() && expr == e
      ensures pos == Grammar.Parse(e).next
      ensures r == Grammar.Parse(e).outcome
      ensures tokens == Grammar.Parse(e).emitted
    {
      expr := e;
      pos := 0;
      tokens := [];
      SkipWs(e);
      if EndInput() {
        return Returned(ParserResult(UnexpectedEndOfExpression, pos));
      }
      r := Expression(e);
      if IsOk(r) {
        SkipWs(e);
        if !EndInput() {
          return Returned(ParserResult(ExtraneousSymbol, pos));
        }
      }
    }

    /** `get_tokens`: the tokens of the last parse. */
    method GetTokens() returns (list: seq<Token>)
      ensures list == tokens
    {
      list := tokens;
    }
  }

  /** Parsing the same input twice on one parser gives the same result and
      the same tokens: nothing carries over from one call to the next. */
  method ParseIsIdempotent(p: Parser, e: string)
    returns (r1: Outcome, r2: Outcome, first: seq<Token>, second: seq<Token>)
    modifies p
    ensures r1 == r2 == Grammar.Parse(e).outcome
    ensures first == second == Grammar.Parse(e).emitted
    ensures p.tokens == Grammar.Parse(e).emitted
  {
    r1 := p.Parse(e);
    first := p.GetTokens();
    r2 := p.Parse(e);
    second := p.GetTokens();
  }
}
