/** The token list a successful parse leaves behind: it spells the input
    with its blanks removed, and it is a well-formed expression — operands
    and parenthesised groups alternating with operators, scopes balanced,
    and every operand a literal within `required_int_type`. */
module TokenStream {
  import opened Symbols
  import opened Results
  import opened Grammar
  import Properties

  /* ---------- what the tokens spell ---------- */

  /** The input from `lo` to `hi` with every space and tab removed. */
  function NonBlank(s: string, lo: nat, hi: nat): (r: string)
    requires lo <= hi <= |s|
    ensures |r| <= hi - lo
    decreases hi - lo
  {
    if lo == hi then []
    else (if IsBlank(s[lo]) then [] else [s[lo]]) + NonBlank(s, lo + 1, hi)
  }

  /** The lexemes of a token list, concatenated. */
  function Lexemes(ts: seq<Token>): (r: string)
    ensures ts == [] ==> r == []
  {
    if ts == [] then [] else ts[0].lexeme + Lexemes(ts[1..])
  }

  lemma {:induction false} NonBlankSplit(s: string, i: nat, j: nat, k: nat)
    requires i <= j <= k <= |s|
    ensures NonBlank(s, i, k) == NonBlank(s, i, j) + NonBlank(s, j, k)
    decreases j - i
  {
    if i < j {
      NonBlankSplit(s, i + 1, j, k);
    }
  }

  /** A stretch of blanks contributes nothing. */
  lemma {:induction false} NonBlankOfBlanks(s: string, i: nat, j: nat)
    requires i <= j <= |s|
    requires forall k :: i <= k < j ==> IsBlank(s[k])
    ensures NonBlank(s, i, j) == []
    decreases j - i
  {
    if i < j {
      NonBlankOfBlanks(s, i + 1, j);
    }
  }

  /** A stretch without blanks contributes all of itself. */
  lemma {:induction false} NonBlankOfSolid(s: string, i: nat, j: nat)
    requires i <= j <= |s|
    requires forall k :: i <= k < j ==> !IsBlank(s[k])
    ensures NonBlank(s, i, j) == Segment(s, i, j)
    decreases j - i
  {
    if i < j {
      NonBlankOfSolid(s, i + 1, j);
    }
  }

  lemma {:induction false} LexemesAppend(a: seq<Token>, b: seq<Token>)
    ensures Lexemes(a + b) == Lexemes(a) + Lexemes(b)
    decreases |a|
  {
    if a != [] {
      assert (a + b)[0] == a[0];
      assert (a + b)[1..] == a[1..] + b;
      LexemesAppend(a[1..], b);
    } else {
      assert a + b == b;
    }
  }

  /** Two token lists spelling adjacent stretches spell their union. */
  lemma Glue(s: string, a: seq<Token>, b: seq<Token>, i: nat, j: nat, k: nat)
    requires i <= j <= k <= |s|
    requires Lexemes(a) == NonBlank(s, i, j) && Lexemes(b) == NonBlank(s, j, k)
    ensures Lexemes(a + b) == NonBlank(s, i, k)
  {
    LexemesAppend(a, b);
    NonBlankSplit(s, i, j, k);
  }

  /** A one-character token spells the character it was read from. */
  lemma GlueOne(s: string, t: Token, i: nat)
    requires i < |s| && !IsBlank(s[i]) && t.lexeme == [s[i]]
    ensures Lexemes([t]) == NonBlank(s, i, i + 1)
  {
    assert [t][1..] == [];
  }

  /** Blanks skipped before a stretch do not change what it spells. */
  lemma GlueBlanks(s: string, a: seq<Token>, i: nat, k: nat)
    requires i <= |s| && SkipWs(s, i) <= k <= |s|
    requires Lexemes(a) == NonBlank(s, SkipWs(s, i), k)
    ensures Lexemes(a) == NonBlank(s, i, k)
  {
    Properties.SkipWsSkipsBlanks(s, i);
    NonBlankOfBlanks(s, i, SkipWs(s, i));
    NonBlankSplit(s, i, SkipWs(s, i), k);
  }

  /** The `(` branch: `(`, the inner expression's tokens, `)`. */
  lemma ParenthesisedSpells(s: string, b: nat, inner: Step)
    requires b < |s| && s[b] == '(' && b + 1 <= inner.next <= |s|
    requires IsOk(Parenthesised(s, b, inner).outcome)
    requires Lexemes(inner.emitted) == NonBlank(s, b + 1, inner.next)
    ensures Lexemes(Parenthesised(s, b, inner).emitted) == NonBlank(s, b, Parenthesised(s, b, inner).next)
  {
    var c := SkipWs(s, inner.next);
    var open, close := Token("(", OpeningScope), Token(")", ClosingScope);
    GlueOne(s, open, b);
    Glue(s, [open], inner.emitted, b, b + 1, inner.next);
    GlueOne(s, close, c);
    GlueBlanks(s, [close], inner.next, c + 1);
    Glue(s, [open] + inner.emitted, [close], b, inner.next, c + 1);
  }

  /** The integer branch: the operand's lexeme is the literal it was read
      from, which holds no blanks. */
  lemma LiteralSpells(s: string, b: nat)
    requires b <= |s| && IsOk(LiteralTerm(s, b).outcome)
    ensures Lexemes(LiteralTerm(s, b).emitted) == NonBlank(s, b, LiteralTerm(s, b).next)
  {
    Properties.LiteralTermCases(s, b);
    var n := Integer(s, b);
    Properties.IntegerHasNoBlanks(s, b);
    NonBlankOfSolid(s, b, n.next);
    SegmentIsSlice(s, b, n.next);
    assert [Token(s[b..n.next], Operand)][1..] == [];
  }

  /** A successful term's tokens spell what it consumed, blanks removed. */
  lemma {:induction false} TermSpells(s: string, i: nat)
    requires i <= |s| && IsOk(Term(s, i).outcome)
    ensures Lexemes(Term(s, i).emitted) == NonBlank(s, i, Term(s, i).next)
    decreases |s| - i, 0
  {
    var b := SkipWs(s, i);
    var r := Term(s, i);
    if PeekAt(s, b, TsOpeningScope) {
      TermIsParenthesised(s, i);
      ExpressionSpells(s, b + 1);
      ParenthesisedSpells(s, b, Expression(s, b + 1));
      assert Lexemes(r.emitted) == NonBlank(s, b, r.next);
    } else {
      TermIsLiteral(s, i);
      LiteralSpells(s, b);
      assert Lexemes(r.emitted) == NonBlank(s, b, r.next);
    }
    GlueBlanks(s, r.emitted, i, r.next);
  }

  /** A successful expression's tokens spell what it consumed. */
  lemma {:induction false} ExpressionSpells(s: string, i: nat)
    requires i <= |s| && IsOk(Expression(s, i).outcome)
    ensures Lexemes(Expression(s, i).emitted) == NonBlank(s, i, Expression(s, i).next)
    decreases |s| - i, 2
  {
    var b := SkipWs(s, i);
    var t := Term(s, b);
    TermSpells(s, b);
    var rest := ExpressionLoop(s, t.next);
    LoopSpells(s, t.next);
    Glue(s, t.emitted, rest.emitted, b, t.next, rest.next);
    GlueBlanks(s, t.emitted + rest.emitted, i, rest.next);
  }

  /** The tokens of a loop that ends successfully spell what it consumed. */
  lemma {:induction false} LoopSpells(s: string, p: nat)
    requires p <= |s| && IsOk(ExpressionLoop(s, p).outcome)
    ensures Lexemes(ExpressionLoop(s, p).emitted) == NonBlank(s, p, ExpressionLoop(s, p).next)
    decreases |s| - p, 1
  {
    if p < |s| {
      var q := SkipWs(s, p);
      if q < |s| && IsOperatorChar(s[q]) {
        var t := Term(s, q + 1);
        var op := Token([s[q]], Operator);
        if IsOk(t.outcome) {
          LoopContinues(s, p);
          var rest := ExpressionLoop(s, t.next);
          GlueOne(s, op, q);
          TermSpells(s, q + 1);
          Glue(s, [op], t.emitted, q, q + 1, t.next);
          LoopSpells(s, t.next);
          Glue(s, [op] + t.emitted, rest.emitted, q, t.next, rest.next);
          GlueBlanks(s, [op] + t.emitted + rest.emitted, p, rest.next);
        } else {
          LoopFails(s, p);
        }
      } else {
        LoopStops(s, p);
        GlueBlanks(s, [], p, SkipWs(s, p));
      }
    }
  }

  /* ---------- the shape of the token list ---------- */

  /** An operand the parser may push: an integer literal whose value fits
      `required_int_type`. */
  predicate IsOperandLexeme(x: string) {
    IsIntegerLiteral(x) && RequiredIntMin <= LiteralValue(x) <= RequiredIntMax
  }

  /** Whether token `t` may come next with `depth` scopes open, where a
      term is due exactly when `wantTerm` holds: an operand or `(` where a
      term is due, an operator or `)` after one, never a `)` with no scope
      open. */
  predicate Admits(t: Token, depth: nat, wantTerm: bool) {
    match t.kind
    case Operand => wantTerm && IsOperandLexeme(t.lexeme)
    case OpeningScope => wantTerm && t.lexeme == "("
    case ClosingScope => !wantTerm && depth > 0 && t.lexeme == ")"
    case Operator => !wantTerm && |t.lexeme| == 1 && IsOperatorChar(t.lexeme[0])
  }

  /** The number of scopes open after `t`. */
  function DepthAfter(t: Token, depth: nat): nat {
    match t.kind
    case OpeningScope => depth + 1
    case ClosingScope => if depth > 0 then depth - 1 else 0
    case _ => depth
  }

  /** A term is due after an operator or a `(`. */
  predicate TermDueAfter(t: Token) {
    t.kind == Operator || t.kind == OpeningScope
  }

  /** `ts` completes a well-formed expression from a state in which `depth`
      scopes are open and, when `wantTerm` holds, a term must come next:
      each token is admitted in the state the tokens before it leave, and
      nothing is open or due at the end. */
  predicate Completes(ts: seq<Token>, depth: nat, wantTerm: bool)
    decreases |ts|
  {
    if ts == [] then !wantTerm && depth == 0
    else
      Admits(ts[0], depth, wantTerm)
      && Completes(ts[1..], DepthAfter(ts[0], depth), TermDueAfter(ts[0]))
  }

  /** A token list that is a whole well-formed expression. */
  predicate WellFormed(ts: seq<Token>) {
    Completes(ts, 0, true)
  }

  /** One token in front of a list takes one step of `Completes`. */
  lemma Cons(t: Token, rest: seq<Token>)
    ensures ([t] + rest)[0] == t && ([t] + rest)[1..] == rest
  {
  }

  /** A `)` after a term closes one open scope. */
  lemma CloseCompletes(rest: seq<Token>, depth: nat)
    requires Completes(rest, depth, false)
    ensures Completes([Token(")", ClosingScope)] + rest, depth + 1, false)
  {
    Cons(Token(")", ClosingScope), rest);
  }

  /** An operator, then the tokens of a term, then the tokens after it:
      the operator is due after a term and the term after the operator. */
  lemma OperatorCompletes(op: Token, term: seq<Token>, after: seq<Token>, depth: nat)
    requires op.kind == Operator && |op.lexeme| == 1 && IsOperatorChar(op.lexeme[0])
    requires Completes(term + after, depth, true)
    ensures Completes([op] + term + after, depth, false)
  {
    Cons(op, term + after);
    assert [op] + term + after == [op] + (term + after);
  }

  /** Nothing emitted leaves the state as it is. */
  lemma NothingCompletes(rest: seq<Token>, depth: nat, wantTerm: bool)
    requires Completes(rest, depth, wantTerm)
    ensures Completes([] + rest, depth, wantTerm)
  {
    assert [] + rest == rest;
  }

  /** The `(` branch yields a group: `(`, the inner expression's tokens
      (which complete the state one scope deeper once `)` follows), `)`. */
  lemma ParenthesisedWellFormed(s: string, b: nat, inner: Step, rest: seq<Token>, depth: nat)
    requires b < |s| && b + 1 <= inner.next <= |s|
    requires IsOk(Parenthesised(s, b, inner).outcome)
    requires Completes(inner.emitted + ([Token(")", ClosingScope)] + rest), depth + 1, true)
    ensures Completes(Parenthesised(s, b, inner).emitted + rest, depth, true)
  {
    var open, close := Token("(", OpeningScope), Token(")", ClosingScope);
    Cons(open, inner.emitted + ([close] + rest));
    assert [open] + inner.emitted + [close] + rest == [open] + (inner.emitted + ([close] + rest));
  }

  /** The integer branch yields one operand within `required_int_type`. */
  lemma LiteralWellFormed(s: string, b: nat, rest: seq<Token>, depth: nat)
    requires b <= |s| && IsOk(LiteralTerm(s, b).outcome)
    requires Completes(rest, depth, false)
    ensures Completes(LiteralTerm(s, b).emitted + rest, depth, true)
  {
    Properties.LiteralTermCases(s, b);
    var n := Integer(s, b);
    Cons(Token(s[b..n.next], Operand), rest);
  }

  /** The tokens of a successful term, followed by anything that completes
      the state after a term, complete the state before it. */
  lemma {:induction false} TermWellFormed(s: string, i: nat, rest: seq<Token>, depth: nat)
    requires i <= |s| && IsOk(Term(s, i).outcome)
    requires Completes(rest, depth, false)
    ensures Completes(Term(s, i).emitted + rest, depth, true)
    decreases |s| - i, 0
  {
    var b := SkipWs(s, i);
    if PeekAt(s, b, TsOpeningScope) {
      TermIsParenthesised(s, i);
      CloseCompletes(rest, depth);
      ExpressionWellFormed(s, b + 1, [Token(")", ClosingScope)] + rest, depth + 1);
      ParenthesisedWellFormed(s, b, Expression(s, b + 1), rest, depth);
    } else {
      TermIsLiteral(s, i);
      LiteralWellFormed(s, b, rest, depth);
    }
  }

  /** Likewise for a successful expression. */
  lemma {:induction false} ExpressionWellFormed(s: string, i: nat, rest: seq<Token>, depth: nat)
    requires i <= |s| && IsOk(Expression(s, i).outcome)
    requires Completes(rest, depth, false)
    ensures Completes(Expression(s, i).emitted + rest, depth, true)
    decreases |s| - i, 2
  {
    var b := SkipWs(s, i);
    var t := Term(s, b);
    var loop := ExpressionLoop(s, t.next);
    LoopWellFormed(s, t.next, rest, depth);
    TermWellFormed(s, b, loop.emitted + rest, depth);
    Regroup(t.emitted, loop.emitted, rest);
  }

  /** The rounds of a loop that ends successfully leave the state after a
      term as they found it. */
  lemma {:induction false} LoopWellFormed(s: string, p: nat, rest: seq<Token>, depth: nat)
    requires p <= |s| && IsOk(ExpressionLoop(s, p).outcome)
    requires Completes(rest, depth, false)
    ensures Completes(ExpressionLoop(s, p).emitted + rest, depth, false)
    decreases |s| - p, 1
  {
    if p < |s| {
      var q := SkipWs(s, p);
      if q < |s| && IsOperatorChar(s[q]) {
        if IsOk(Term(s, q + 1).outcome) {
          RoundWellFormed(s, p, rest, depth);
        } else {
          LoopFails(s, p);
        }
      } else {
        LoopStops(s, p);
        NothingCompletes(rest, depth, false);
      }
    } else {
      NothingCompletes(rest, depth, false);
    }
  }

  /** One round of the loop: an operator, a successful term, then the rest
      of the loop. */
  lemma {:induction false} RoundWellFormed(s: string, p: nat, rest: seq<Token>, depth: nat)
    requires p < |s|
    requires var q := SkipWs(s, p); q < |s| && IsOperatorChar(s[q]) && IsOk(Term(s, q + 1).outcome)
    requires IsOk(ExpressionLoop(s, p).outcome)
    requires Completes(rest, depth, false)
    ensures Completes(ExpressionLoop(s, p).emitted + rest, depth, false)
    decreases |s| - p, 0
  {
    var q := SkipWs(s, p);
    var t := Term(s, q + 1);
    var op := Token([s[q]], Operator);
    LoopContinues(s, p);
    var loop := ExpressionLoop(s, t.next);
    LoopWellFormed(s, t.next, rest, depth);
    TermWellFormed(s, q + 1, loop.emitted + rest, depth);
    OperatorCompletes(op, t.emitted, loop.emitted + rest, depth);
    Regroup([op] + t.emitted, loop.emitted, rest);
  }

  /* ---------- the parse ---------- */

  /** A successful parse leaves a well-formed token list that spells the
      whole input with its blanks removed: every non-blank character was
      consumed, into exactly one token. */
  lemma ParseIsSound(s: string)
    requires IsOk(Parse(s).outcome)
    ensures WellFormed(Parse(s).emitted)
    ensures Lexemes(Parse(s).emitted) == NonBlank(s, 0, |s|)
  {
    var b := SkipWs(s, 0);
    var e := Expression(s, b);
    ExpressionWellFormed(s, b, [], 0);
    assert e.emitted + [] == e.emitted;
    ExpressionSpells(s, b);
    GlueBlanks(s, e.emitted, 0, e.next);
    Properties.SkipWsSkipsBlanks(s, e.next);
    NonBlankOfBlanks(s, e.next, |s|);
    NonBlankSplit(s, 0, e.next, |s|);
  }
}
