/** The converse of `TokenStream.ParseIsSound`: every well-formed token list,
    written out without blanks, is parsed successfully into exactly those
    tokens. The proof walks the token list the way the recursive descent
    walks the text: `TermEnd`, `ExprEnd` and `LoopEnd` say where each
    production ends in the token list, and the lemmas show that the grammar
    procedures stop at the matching column and emit that stretch of tokens. */
module Completeness {
  import opened Symbols
  import opened Results
  import opened Grammar
  import opened TokenStream
  import Properties

  /* ---------- where each production ends in a token list ---------- */

  /** Index after the term starting at token `k`: one operand, or a `(`,
      an expression and the token closing it. */
  function TermEnd(all: seq<Token>, k: nat): (e: nat)
    requires k <= |all|
    ensures k <= e <= |all|
    ensures k < |all| ==> k < e
    decreases |all| - k, 0
  {
    if k == |all| then k
    else if all[k].kind == OpeningScope then
      var e := ExprEnd(all, k + 1);
      if e < |all| then e + 1 else e
    else k + 1
  }

  /** Index after the expression starting at token `k`: a term, then the
      operator/term rounds. */
  function ExprEnd(all: seq<Token>, k: nat): (e: nat)
    requires k <= |all|
    ensures k <= e <= |all|
    decreases |all| - k, 2
  {
    LoopEnd(all, TermEnd(all, k))
  }

  /** Index after the rounds starting at token `k`: as long as an operator
      comes next, it and the term after it. */
  function LoopEnd(all: seq<Token>, k: nat): (e: nat)
    requires k <= |all|
    ensures k <= e <= |all|
    decreases |all| - k, 1
  {
    if k < |all| && all[k].kind == Operator then LoopEnd(all, TermEnd(all, k + 1)) else k
  }

  /* ---------- where each token is written ---------- */

  /** The column where token `k` starts when the tokens are written out
      without blanks: the length of the lexemes before it. */
  function Column(all: seq<Token>, k: nat): (c: nat)
    requires k <= |all|
    ensures c <= |Lexemes(all)|
  {
    LexemesAppend(all[..k], all[k..]);
    assert all[..k] + all[k..] == all;
    |Lexemes(all[..k])|
  }

  /** Token `k` is written from its column to the next token's. */
  lemma ColumnStep(all: seq<Token>, k: nat)
    requires k < |all|
    ensures Column(all, k + 1) == Column(all, k) + |all[k].lexeme|
    ensures Lexemes(all)[Column(all, k)..Column(all, k + 1)] == all[k].lexeme
  {
    var before := all[..k];
    assert all[..k + 1] == before + [all[k]];
    assert [all[k]][1..] == [];
    LexemesAppend(before, [all[k]]);
    assert all == all[..k + 1] + all[k + 1..];
    LexemesAppend(all[..k + 1], all[k + 1..]);
  }

  /** After the last token the column is the end of the text. */
  lemma ColumnEnd(all: seq<Token>)
    ensures Column(all, |all|) == |Lexemes(all)|
  {
    assert all[..|all|] == all;
  }

  /** A token whose lexeme is one character: that character is under the
      cursor, and it is not a blank. */
  lemma CharAtColumn(s: string, all: seq<Token>, k: nat)
    requires s == Lexemes(all) && k < |all|
    requires |all[k].lexeme| == 1 && !IsBlank(all[k].lexeme[0])
    ensures Column(all, k + 1) == Column(all, k) + 1
    ensures Column(all, k) < |s| && s[Column(all, k)] == all[k].lexeme[0]
    ensures SkipWs(s, Column(all, k)) == Column(all, k)
  {
    ColumnStep(all, k);
    assert s[Column(all, k)] == s[Column(all, k)..Column(all, k + 1)][0];
  }

  /** After a term the next token, if any, is a `)` or an operator: its
      character is not a digit. */
  lemma NotFollowedByDigit(s: string, all: seq<Token>, k: nat, depth: nat)
    requires s == Lexemes(all) && k <= |all| && Completes(all[k..], depth, false)
    ensures Column(all, k) == |s| || !IsDigit(s[Column(all, k)])
  {
    if k == |all| {
      ColumnEnd(all);
    } else {
      assert all[k..][0] == all[k];
      CharAtColumn(s, all, k);
    }
  }

  /** Three adjacent stretches of a token list make one stretch. */
  lemma Stretch(all: seq<Token>, a: nat, b: nat, c: nat)
    requires a <= b <= c <= |all|
    ensures all[a..b] + all[b..c] == all[a..c]
  {
  }

  /* ---------- the productions ---------- */

  /** The tokens of a term, written from column `Column(all, k)`, are
      parsed as that term: it succeeds, stops at the column of the token
      after it, and emits exactly its tokens. */
  lemma {:induction false} TermComplete(s: string, all: seq<Token>, k: nat, depth: nat)
    requires s == Lexemes(all) && k <= |all| && Completes(all[k..], depth, true)
    ensures var e := TermEnd(all, k);
      Completes(all[e..], depth, false)
      && SkipWs(s, Column(all, k)) == Column(all, k)
      && Term(s, Column(all, k)) == Step(Success, Column(all, e), all[k..e])
    decreases |all| - k, 1
  {
    assert all[k..][0] == all[k];
    assert all[k..][1..] == all[k + 1..];
    if all[k].kind == OpeningScope {
      GroupComplete(s, all, k, depth);
    } else {
      LiteralComplete(s, all, k, depth);
    }
  }

  /** The `(` branch of `TermComplete`: the inner expression stops at the
      `)` that closes it, which is then accepted. */
  lemma {:induction false} GroupComplete(s: string, all: seq<Token>, k: nat, depth: nat)
    requires s == Lexemes(all) && k < |all| && all[k] == Token("(", OpeningScope)
    requires Completes(all[k + 1..], depth + 1, true)
    ensures var e := TermEnd(all, k);
      Completes(all[e..], depth, false)
      && SkipWs(s, Column(all, k)) == Column(all, k)
      && Term(s, Column(all, k)) == Step(Success, Column(all, e), all[k..e])
    decreases |all| - k, 0
  {
    CharAtColumn(s, all, k);
    ExprStops(s, all, k + 1, depth + 1);
    GroupEnd(s, all, k, depth);
    InnerText(s, all, k, depth);
    GroupText(s, all, k);
  }

  /** Where the inner expression of a group stops in the token list: at the
      end, or at a `)`, with what follows completing its scope. */
  lemma {:induction false} ExprStops(s: string, all: seq<Token>, j: nat, depth: nat)
    requires s == Lexemes(all) && j <= |all| && Completes(all[j..], depth, true)
    ensures var e := ExprEnd(all, j);
      Completes(all[e..], depth, false) && (e < |all| ==> all[e].kind == ClosingScope)
    decreases |all| - j, 4
  {
    ExprComplete(s, all, j, depth);
  }

  /** The token that ends the inner expression of a group is the `)` that
      closes it, written in the column after the expression; the group ends
      after it, and what follows completes the outer scope. */
  lemma GroupEnd(s: string, all: seq<Token>, k: nat, depth: nat)
    requires s == Lexemes(all) && k < |all| && all[k] == Token("(", OpeningScope)
    requires var e := ExprEnd(all, k + 1);
      Completes(all[e..], depth + 1, false) && (e < |all| ==> all[e].kind == ClosingScope)
    ensures var e := ExprEnd(all, k + 1);
      e < |all| && all[e] == Token(")", ClosingScope) && TermEnd(all, k) == e + 1
      && Completes(all[TermEnd(all, k)..], depth, false)
      && Column(all, e) < |s| && s[Column(all, e)] == ')' && Column(all, e + 1) == Column(all, e) + 1
  {
    var e := ExprEnd(all, k + 1);
    CloseStep(all, e, depth);
    CharAtColumn(s, all, e);
  }

  /** The text of a group: once its inner expression is known to stop on
      its `)`, the `(` branch of `term` emits the group's tokens and stops
      after that `)`. */
  lemma GroupText(s: string, all: seq<Token>, k: nat)
    requires k < |all| && all[k] == Token("(", OpeningScope)
    requires Column(all, k) < |s| && s[Column(all, k)] == '('
    requires Column(all, k + 1) == Column(all, k) + 1 && SkipWs(s, Column(all, k)) == Column(all, k)
    requires var e := ExprEnd(all, k + 1);
      e < |all| && all[e] == Token(")", ClosingScope) && TermEnd(all, k) == e + 1
      && Column(all, e) < |s| && s[Column(all, e)] == ')' && Column(all, e + 1) == Column(all, e) + 1
    requires var e := ExprEnd(all, k + 1);
      Expression(s, Column(all, k) + 1) == Step(Success, Column(all, e), all[k + 1..e])
    ensures var e := TermEnd(all, k);
      Term(s, Column(all, k)) == Step(Success, Column(all, e), all[k..e])
  {
    var e := ExprEnd(all, k + 1);
    var i := Column(all, k);
    var j := Column(all, e);
    GroupTerm(s, i, j, all, k, e);
    assert Column(all, TermEnd(all, k)) == j + 1 && all[k..TermEnd(all, k)] == all[k..e + 1];
  }

  /** The text of a group's inner expression, from the column after its
      `(`: `expression` succeeds there, stops at the column of the token
      after the expression and emits exactly its tokens. */
  lemma {:induction false} InnerText(s: string, all: seq<Token>, k: nat, depth: nat)
    requires s == Lexemes(all) && k < |all| && Completes(all[k + 1..], depth + 1, true)
    requires Column(all, k + 1) == Column(all, k) + 1
    ensures var e := ExprEnd(all, k + 1);
      Expression(s, Column(all, k) + 1) == Step(Success, Column(all, e), all[k + 1..e])
    decreases |all| - k - 1, 4
  {
    ExprComplete(s, all, k + 1, depth + 1);
  }

  /** A group whose tokens are `all[k..e + 1]`, found in the text from `i`
      to its `)` at `j`, is parsed as one term emitting those tokens. */
  lemma GroupTerm(s: string, i: nat, j: nat, all: seq<Token>, k: nat, e: nat)
    requires k < e < |all| && all[k] == Token("(", OpeningScope) && all[e] == Token(")", ClosingScope)
    requires i < j < |s| && s[i] == '(' && s[j] == ')' && SkipWs(s, i) == i
    requires Expression(s, i + 1) == Step(Success, j, all[k + 1..e])
    ensures Term(s, i) == Step(Success, j + 1, all[k..e + 1])
  {
    GroupStep(s, i, j, all[k + 1..e]);
    GroupTokens(all, k, e);
  }

  /** A group in the text: `(` under the cursor, an inner expression that
      succeeds and stops on `)`, which is accepted. */
  lemma GroupStep(s: string, i: nat, j: nat, inner: seq<Token>)
    requires i < j < |s| && s[i] == '(' && s[j] == ')' && SkipWs(s, i) == i
    requires Expression(s, i + 1) == Step(Success, j, inner)
    ensures Term(s, i)
      == Step(Success, j + 1, [Token("(", OpeningScope)] + inner + [Token(")", ClosingScope)])
  {
    TermIsParenthesised(s, i);
    ParenthesisedCloses(s, i, Expression(s, i + 1));
  }

  /** The token that ends an inner expression one scope deep is its `)`,
      and what follows completes the outer scope. */
  lemma CloseStep(all: seq<Token>, e: nat, depth: nat)
    requires e <= |all| && Completes(all[e..], depth + 1, false)
    requires e < |all| ==> all[e].kind == ClosingScope
    ensures e < |all| && all[e] == Token(")", ClosingScope)
    ensures Completes(all[e + 1..], depth, false)
  {
    assert all[e..][0] == all[e];
    assert all[e..][1..] == all[e + 1..];
  }

  /** A group's tokens: its `(`, the inner tokens, its `)`. */
  lemma GroupTokens(all: seq<Token>, k: nat, e: nat)
    requires k < e < |all|
    ensures all[k..e + 1] == [all[k]] + all[k + 1..e] + [all[e]]
  {
    Stretch(all, k, k + 1, e);
    Stretch(all, k, e, e + 1);
    assert all[k..k + 1] == [all[k]];
    assert all[e..e + 1] == [all[e]];
  }

  /** The `(` branch over a successful inner expression followed by `)`. */
  lemma ParenthesisedCloses(s: string, b: nat, inner: Step)
    requires b < |s| && b + 1 <= inner.next < |s| && s[inner.next] == ')'
    requires inner.outcome == Success
    ensures Parenthesised(s, b, inner)
      == Step(Success, inner.next + 1, [Token("(", OpeningScope)] + inner.emitted + [Token(")", ClosingScope)])
  {
    assert SkipWs(s, inner.next) == inner.next;
  }

  /** The operand branch of `TermComplete`. */
  lemma LiteralComplete(s: string, all: seq<Token>, k: nat, depth: nat)
    requires s == Lexemes(all) && k < |all| && all[k].kind == Operand
    requires IsOperandLexeme(all[k].lexeme) && Completes(all[k + 1..], depth, false)
    ensures SkipWs(s, Column(all, k)) == Column(all, k)
      && Term(s, Column(all, k)) == Step(Success, Column(all, k + 1), all[k..k + 1])
  {
    ColumnStep(all, k);
    NotFollowedByDigit(s, all, k + 1, depth);
    OperandTerm(s, Column(all, k), Column(all, k + 1));
    assert all[k..k + 1] == [all[k]];
  }

  /** An operand lexeme in the text, not followed by a digit, is a term on
      its own: the cursor is already on it, and it is pushed whole. */
  lemma OperandTerm(s: string, i: nat, j: nat)
    requires i <= j <= |s| && IsOperandLexeme(s[i..j])
    requires j == |s| || !IsDigit(s[j])
    ensures SkipWs(s, i) == i
    ensures Term(s, i) == Step(Success, j, [Token(s[i..j], Operand)])
  {
    var x := s[i..j];
    assert s[i] == x[0];
    assert x[0] == '-' || x[0] == Unsigned(x)[0];
    assert SkipWs(s, i) == i;
    TermIsLiteral(s, i);
    Properties.IntegerAccepts(s, i, j);
    Properties.LiteralTermCases(s, i);
  }

  /** The tokens of an expression are parsed as that expression; it stops
      at the end of the tokens or at the `)` that closes its scope. */
  lemma {:induction false} ExprComplete(s: string, all: seq<Token>, k: nat, depth: nat)
    requires s == Lexemes(all) && k <= |all| && Completes(all[k..], depth, true)
    ensures var e := ExprEnd(all, k);
      Completes(all[e..], depth, false)
      && (e < |all| ==> all[e].kind == ClosingScope)
      && SkipWs(s, Column(all, k)) == Column(all, k)
      && Expression(s, Column(all, k)) == Step(Success, Column(all, e), all[k..e])
    decreases |all| - k, 3
  {
    var t := TermEnd(all, k);
    TermComplete(s, all, k, depth);
    LoopComplete(s, all, t, depth);
    Stretch(all, k, t, ExprEnd(all, k));
  }

  /** The operator/term rounds are parsed as the loop of `expression`. */
  lemma {:induction false} LoopComplete(s: string, all: seq<Token>, k: nat, depth: nat)
    requires s == Lexemes(all) && k <= |all| && Completes(all[k..], depth, false)
    ensures var e := LoopEnd(all, k);
      Completes(all[e..], depth, false)
      && (e < |all| ==> all[e].kind == ClosingScope)
      && ExpressionLoop(s, Column(all, k)) == Step(Success, Column(all, e), all[k..e])
    decreases |all| - k, 2
  {
    if k == |all| {
      ColumnEnd(all);
    } else if all[k].kind == Operator {
      RoundComplete(s, all, k, depth);
    } else {
      assert all[k..][0] == all[k];
      CharAtColumn(s, all, k);
      LoopStops(s, Column(all, k));
    }
  }

  /** The operator branch of `LoopComplete`: one round, then the rest. */
  lemma {:induction false} RoundComplete(s: string, all: seq<Token>, k: nat, depth: nat)
    requires s == Lexemes(all) && k < |all| && all[k].kind == Operator
    requires Completes(all[k..], depth, false)
    ensures var e := LoopEnd(all, k);
      Completes(all[e..], depth, false)
      && (e < |all| ==> all[e].kind == ClosingScope)
      && ExpressionLoop(s, Column(all, k)) == Step(Success, Column(all, e), all[k..e])
    decreases |all| - k, 1
  {
    var p := Column(all, k);
    assert all[k..][0] == all[k];
    assert all[k..][1..] == all[k + 1..];
    CharAtColumn(s, all, k);
    TermComplete(s, all, k + 1, depth);
    var t := TermEnd(all, k + 1);
    LoopComplete(s, all, t, depth);
    var e := LoopEnd(all, t);
    assert all[k] == Token([s[p]], Operator);
    RoundStep(s, p);
    RoundTokens(all, k, t, e);
  }

  /** One round of the loop in the text: an operator under the cursor, a
      term after it, and the rest of the loop after the term. */
  lemma RoundStep(s: string, p: nat)
    requires p < |s| && SkipWs(s, p) == p && IsOperatorChar(s[p])
    requires Term(s, p + 1).outcome == Success
    ensures var t := Term(s, p + 1);
      ExpressionLoop(s, p) == Prepend([Token([s[p]], Operator)] + t.emitted, ExpressionLoop(s, t.next))
  {
    LoopContinues(s, p);
  }

  /** The tokens of one round: the operator, the term's, the rest's. */
  lemma RoundTokens(all: seq<Token>, k: nat, t: nat, e: nat)
    requires k < t <= e <= |all|
    ensures all[k..e] == [all[k]] + all[k + 1..t] + all[t..e]
  {
    Stretch(all, k, k + 1, t);
    Stretch(all, k, t, e);
    assert all[k..k + 1] == [all[k]];
  }

  /* ---------- the parse ---------- */

  /** The expression over a whole well-formed token list, written out
      without blanks, consumes all of the text and emits every token. */
  lemma WholeExpression(ts: seq<Token>)
    requires WellFormed(ts)
    ensures var s := Lexemes(ts);
      0 < |s| && SkipWs(s, 0) == 0 && Expression(s, 0) == Step(Success, |s|, ts)
  {
    var s := Lexemes(ts);
    assert ts[..0] == [] && ts[0..] == ts;
    ExprComplete(s, ts, 0, 0);
    var e := ExprEnd(ts, 0);
    assert e == |ts|;
    ColumnEnd(ts);
    ColumnStep(ts, 0);
    assert |ts[0].lexeme| > 0;
    assert ts[0..|ts|] == ts;
  }

  /** A well-formed token list, written out without blanks, is parsed
      successfully into exactly that token list. */
  lemma ParseIsComplete(ts: seq<Token>)
    requires WellFormed(ts)
    ensures Parse(Lexemes(ts)) == Step(Success, |Lexemes(ts)|, ts)
  {
    WholeExpression(ts);
    assert SkipWs(Lexemes(ts), |Lexemes(ts)|) == |Lexemes(ts)|;
  }
}
