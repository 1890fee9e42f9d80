# bares: a model of the recursive-descent expression parser

This project models the parser of the `bares` repository, found in
`parser/src/parser.cpp`. The parser checks an arithmetic expression character
by character against a small grammar and collects a list of tokens as it
goes:

    expression     := term { ("+"|"-"|"^"|"*"|"/") term }
    term           := "(" expression ")" | integer
    integer        := "0" | ["-"] natural_number
    natural_number := nonzero_digit { digit }

Every operand must fit `required_int_type`. Errors are reported as a
`ParserResult`: one of seven codes plus a 0-based column.

The model has four layers.

- **`Symbols`** (`symbols.dfy`) covers the character classifier `lexer` and
  its display map `token_str`.
- **`Results`** (`results.dfy`) covers tokens, result codes, the two integer
  widths and `std::stoll`, the decimal conversion the parser calls. `stoll`
  is modelled as a function that either fails or yields the value.
- **`Grammar`** (`grammar.dfy`) gives reference semantics. Each grammar
  procedure (`skip_ws`, `natural_number`, `integer`, `term`, `expression`
  and its loop, `parse`) is a function of the input and a cursor index. It
  returns where the cursor ends, the result, and the tokens it appended.
- **`Parsing.Parser`** (`parser.dfy`) is the parser object itself.
  - Its state is the fields `expr`, `pos` and `tokens`; the C++ iterator
    becomes an index.
  - Each method has the loop or branch structure of its C++ counterpart.
  - Each method is proved to leave the cursor, the result and the token
    list exactly as the matching `Grammar` function says.

Properties of the reference semantics are proved in four modules:

- **`Properties`**: cursor primitives, integer literals, and the reported
  errors with their columns.
- **`TokenStream`**: a successful parse leaves a well-formed token list
  that spells the input with its blanks removed.
- **`Completeness`**: the converse. Every well-formed token list, written
  out without blanks, is parsed successfully into exactly that list.
- **`Scenarios`**: worked inputs for each error kind.

The code's behaviour is reproduced as written, including these quirks:

- **A `0` is never consumed.** When `integer` sees a `0`, it succeeds
  without advancing the cursor. `term` then hands the empty text to
  `std::stoll`, which throws, so `"0"`, `"1 + 0"` and `"01"` never return a
  `ParserResult`. The model's `Outcome` records this abort as
  `ConversionAbort(col)`, with `col` the column of the zero.
- **A read at the end of the input.** `integer` classifies
  `*it_curr_symb` without an end check. At the end that dereferences
  `expr.end()`, which C++ leaves undefined. The model assumes the `'\0'`
  terminator that `std::string` stores there, which `lexer` maps to
  `TS_EOS` and never to the zero symbol.
- **Other conversion failures.** A literal whose value is beyond
  `long long` also makes `std::stoll` throw. A value inside `long long` but
  outside `short` is reported as `INTEGER_OUT_OF_RANGE` at the literal's
  first column.
- **Failures after an operator.** A failing term after an operator is
  re-tagged `MISSING_TERM` at the column where it failed. A failing first
  term is passed through unchanged: `"()"` and `"-0"` are ill-formed
  integers at column 1.

Under the grammar above, a bare `"0"` is a complete integer operand,
and `"01"` is that operand followed by an extraneous `1` at column 1. As the
code is written, both abort in the conversion as described above, because
the zero branch consumes nothing. The model follows the code.

## Model

| member | source | states |
|---|---|---|
| Symbols.Lexer | parser/src/parser.cpp:6-32 | each of the thirteen terminal symbols is returned exactly for its own characters (`'\0'` is `TS_EOS`); every other character is `TS_INVALID` |
| Symbols.LexerMatches | parser/src/parser.cpp:6-32 | classifying a character as `t` is the same as the character test for `t`; blanks, digits and operator glyphs are exactly the characters classified as such |
| Symbols.TokenStr | parser/src/parser.cpp:36-50 | `"X"` is returned exactly for the symbols without a glyph; any other result is one character that classifies back to the symbol |
| Symbols.GlyphRoundTrip | parser/src/parser.cpp:36-50 | for the seven displayable characters, `token_str(lexer(c))` is `c` itself |
| Parsing.Parser.NextSymbol | parser/src/parser.cpp:53-57 | the cursor moves forward by exactly one character |
| Parsing.Parser.Accept | parser/src/parser.cpp:60-80 | the current character is consumed exactly when the cursor is not at the end and the character classifies as `t` (`peek`); otherwise nothing moves |
| Parsing.Parser.SkipWs | parser/src/parser.cpp:93-104 | the loop leaves the cursor at the first position at or after the start that is the end or holds neither a space nor a tab |
| Grammar.CharAt | parser/src/parser.cpp:268 | the character under the cursor is the text's character there; at the end it is the terminator, classified as `TS_EOS` |
| Grammar.PeekAt | parser/src/parser.cpp:60-66 | `peek` holds only when the cursor is not at the end |
| Grammar.AcceptAt | parser/src/parser.cpp:69-80 | `accept` moves the cursor by at most one character, and only when it is not at the end |
| Grammar.AcceptAtClassifies | parser/src/parser.cpp:60-80 | `peek` holds, and `accept` advances, exactly when the cursor is on a character that `lexer` maps to `t`; otherwise `accept` leaves the cursor in place |
| Parsing.Parser.Peek | parser/src/parser.cpp:60-66 | the method's answer is exactly `Grammar.PeekAt` on the parser's state |
| Parsing.Parser.EndInput | parser/src/parser.cpp:107-112 | at the end no terminal symbol is peeked, and the character read there is the terminator |
| Grammar.Segment | parser/src/parser.cpp:239-244 | the text between two iterators has exactly as many characters as lie between them |
| Grammar.SegmentIsSlice | parser/src/parser.cpp:239-244 | that text is the slice of the input between the two positions |
| Grammar.DigitsEnd | parser/src/parser.cpp:282 | the digit loop never moves back and stops at the end or at a non-digit |
| Grammar.Integer | parser/src/parser.cpp:265-276 | success is the default result; a failure is an ill-formed integer at the cursor where it stopped, after consuming at most the minus sign |
| Grammar.SkipWs | parser/src/parser.cpp:93-104 | the cursor after skipping blanks never moves back and stops at the end or at a non-blank |
| Properties.SkipWsSkipsBlanks | parser/src/parser.cpp:98-103 | every character passed over is a space or a tab |
| Parsing.Parser.Expect | parser/src/parser.cpp:83-89 | blanks are skipped even when the symbol then does not match; the result says whether the first non-blank is `t`, and only then is it consumed |
| Parsing.Parser.DigitExclZero | parser/src/parser.cpp:291-294 | a character `1`-`9` under the cursor is consumed and reported; anything else is left in place |
| Parsing.Parser.Digit | parser/src/parser.cpp:296-300 | a character `0`-`9` under the cursor is consumed and reported; anything else is left in place |
| Parsing.Parser.NaturalNumber | parser/src/parser.cpp:278-289 | the digit loop is proved to stop at the end of the run of digits after a nonzero digit; the result and cursor are those of `Grammar.NaturalNumber` |
| Grammar.NaturalNumber | parser/src/parser.cpp:278-289 | success consumes at least one character and returns the default result; failure is ill-formed at the cursor and consumes nothing |
| Parsing.Parser.Integer | parser/src/parser.cpp:265-276 | result and cursor are those of `Grammar.Integer`: a `0` succeeds in place; otherwise an optional minus sign, then a natural number |
| Properties.IntegerScan | parser/src/parser.cpp:265-289 | a `0` succeeds without consuming; a success elsewhere consumes an integer literal not followed by another digit; a failure consumes at most the minus sign and is ill-formed at the column after it |
| Properties.IntegerAccepts | parser/src/parser.cpp:265-289 | conversely, a whole integer literal not followed by a digit is accepted and the cursor stops right after it |
| Properties.DigitsEndSkipsDigits | parser/src/parser.cpp:282 | every character the digit loop passes over is a digit |
| Properties.DigitsEndAt | parser/src/parser.cpp:282 | the digit loop stops exactly at the first non-digit |
| Properties.IntegerHasNoBlanks | parser/src/parser.cpp:265-289 | nothing `integer` consumes is a blank |
| Results.Stoll | parser/src/parser.cpp:247 | the conversion yields a value only within `long long`, and fails on the empty text |
| Results.StollOfLiteral | parser/src/parser.cpp:247 | on an integer literal the conversion yields exactly the literal's value, or fails when that value is beyond `long long` |
| Results.DecimalValueBounds | parser/src/parser.cpp:247 | `n` digits denote a number below `10^n`, and at least `10^(n-1)` when the first digit is not `0` |
| Properties.LiteralWidth | parser/src/parser.cpp:247-249 | literals of up to 4 digits fit `short` and those of 6 or more do not; up to 18 digits fit `long long` and 20 or more do not |
| Parsing.Parser.Term | parser/src/parser.cpp:215-263 | cursor, outcome and appended tokens are those of `Grammar.Term`, in both the `(` branch and the integer branch |
| Grammar.Term | parser/src/parser.cpp:215-263 | the cursor never moves back; success is the default result; a term never reports an unexpected end or an extraneous symbol |
| Grammar.Parenthesised | parser/src/parser.cpp:222-234 | the `(` branch always consumes the `(` and never runs past the input |
| Grammar.LiteralTerm | parser/src/parser.cpp:236-258 | the integer branch never moves back; success is the default result; it never reports an unexpected end or an extraneous symbol |
| Properties.LiteralTermCases | parser/src/parser.cpp:236-258 | a `0` aborts at its column having consumed nothing; an ill-formed integer is returned as is; otherwise the token is exactly the literal's text, pushed only when its value fits `short`, out of range at the literal's first column when it does not, and an abort when it does not fit `long long` |
| Properties.ZeroTermAborts | parser/src/parser.cpp:236-247 | a term whose first non-blank is `0` aborts there, consuming nothing and pushing nothing |
| Parsing.Parser.ExpectOperator | parser/src/parser.cpp:161-194 | after the blanks, an operator is found exactly when the next character is one of the five glyphs; it is consumed and its glyph returned, and otherwise only blanks are consumed |
| Parsing.Parser.ExpressionRound | parser/src/parser.cpp:161-208 | one loop round appends the operator and the term's tokens; the loop continues only after a successful term, and otherwise ends exactly as `Grammar.ExpressionLoop` does |
| Parsing.Parser.Expression | parser/src/parser.cpp:142-213 | cursor, outcome and appended tokens are those of `Grammar.Expression`; the loop invariant ties the tokens so far to the remaining loop |
| Grammar.Expression | parser/src/parser.cpp:142-213 | the cursor never moves back; success is the default result; an expression never reports an unexpected end or an extraneous symbol |
| Grammar.ExpressionLoop | parser/src/parser.cpp:150-210 | the same bounds and result codes for the operator/term loop |
| Properties.LoopFailureIsMissingTerm | parser/src/parser.cpp:200-207 | every failure the loop returns is a missing term; it follows an operator, and it keeps the cursor and the column of the term that failed after that operator |
| Parsing.Parser.Parse | parser/src/parser.cpp:310-349 | the state is reset; the outcome, final cursor and token list are those of `Grammar.Parse` |
| Grammar.Parse | parser/src/parser.cpp:310-349 | `parse` succeeds only when the whole input was consumed |
| Parsing.ParseIsIdempotent | parser/src/parser.cpp:313-316 | parsing the same text twice gives the same result both times, and the tokens read back after each parse are the same list, that of `Grammar.Parse`, because each parse resets the state |
| Parsing.Parser.GetTokens | parser/src/parser.cpp:353-357 | the list returned is the token list of the last parse |
| Properties.BlankInputIsUnexpectedEnd | parser/src/parser.cpp:321-326 | an unexpected end is reported exactly when the input is all blanks, at the column just past it, with no tokens |
| Properties.ExtraneousSymbolAtFirstLeftover | parser/src/parser.cpp:333-348 | after a successful expression only blanks are skipped; an extraneous symbol is reported at the first non-blank left over, and success only when nothing is left |
| TokenStream.TermSpells | parser/src/parser.cpp:215-263 | the tokens of a successful term spell exactly what it consumed, without blanks |
| TokenStream.ExpressionSpells | parser/src/parser.cpp:142-213 | likewise for a successful expression |
| TokenStream.LoopSpells | parser/src/parser.cpp:150-210 | likewise for a loop that ends successfully |
| TokenStream.ParenthesisedSpells | parser/src/parser.cpp:222-234 | the `(` branch spells `(`, the inner expression and `)` |
| TokenStream.LiteralSpells | parser/src/parser.cpp:236-258 | the operand's lexeme is exactly the literal text consumed |
| TokenStream.TermWellFormed | parser/src/parser.cpp:215-263 | a successful term's tokens are a term of the token grammar: one operand within `short`, or a balanced group |
| TokenStream.ParenthesisedWellFormed | parser/src/parser.cpp:222-234 | the `(` branch opens a scope that its `)` closes |
| TokenStream.LiteralWellFormed | parser/src/parser.cpp:236-258 | the integer branch pushes one operand whose value fits `short` |
| TokenStream.ExpressionWellFormed | parser/src/parser.cpp:142-213 | a successful expression's tokens alternate terms and operators, starting and ending with a term |
| TokenStream.LoopWellFormed | parser/src/parser.cpp:150-210 | every round of a successful loop is an operator followed by a term |
| TokenStream.RoundWellFormed | parser/src/parser.cpp:161-209 | one round: an operator glyph followed by a well-formed term |
| TokenStream.ParseIsSound | parser/src/parser.cpp:310-349 | a successful parse leaves a well-formed token list: terms and operators alternate, scopes balance, every operand fits `short`, and the lexemes concatenate to the input without its blanks |
| Completeness.TermEnd | parser/src/parser.cpp:215-263 | the term starting at a token ends at or after it, within the list, and strictly after it when there is a token; a proof device for `Completeness.ParseIsComplete`, not something the parser computes |
| Completeness.ExprEnd | parser/src/parser.cpp:142-213 | the expression starting at a token ends within the list, not before it; a proof device for `Completeness.ParseIsComplete`, not something the parser computes |
| Completeness.LoopEnd | parser/src/parser.cpp:150-210 | the operator/term rounds starting at a token end within the list, not before it; a proof device for `Completeness.ParseIsComplete`, not something the parser computes |
| Completeness.Column | parser/src/parser.cpp:220 | a token's column, counted from the start of the text, lies within the text; a proof device for `Completeness.ParseIsComplete`, not something the parser computes |
| Completeness.ColumnStep | parser/src/parser.cpp:220 | a token occupies the text from its column to the next token's, and is spelled there by its lexeme; a proof device for `Completeness.ParseIsComplete`, not something the parser computes |
| Completeness.TermComplete | parser/src/parser.cpp:215-263 | the tokens of a term, written out, are parsed as that term: `term` succeeds at the column after them, emits exactly them, and leaves a token list that still completes |
| Completeness.GroupComplete | parser/src/parser.cpp:222-234 | for a group: the `(` is accepted, the inner expression stops on the `)` that closes it, the `)` is accepted, and the group's tokens are emitted |
| Completeness.ExprStops | parser/src/parser.cpp:226-229 | in the token list, the inner expression of a group stops at the end or at a `)`, and what follows completes its scope; a proof device for `Completeness.ParseIsComplete` |
| Completeness.GroupEnd | parser/src/parser.cpp:229-233 | the token that ends a group's inner expression is its `)`, written in the column after the expression; the group ends after it, and what follows completes the outer scope; a proof device for `Completeness.ParseIsComplete`, not something the parser computes |
| Completeness.InnerText | parser/src/parser.cpp:226 | inside a group, `expression` started right after the `(` succeeds, stops at the column of the token after the inner expression, and emits exactly the inner tokens |
| Completeness.GroupText | parser/src/parser.cpp:222-234 | once the inner expression stops on the group's `)`, the `(` branch of `term` succeeds right after that `)` and emits exactly the group's tokens |
| Completeness.LiteralComplete | parser/src/parser.cpp:236-258 | for an operand: the literal is consumed whole and pushed as exactly that token |
| Completeness.ExprComplete | parser/src/parser.cpp:142-213 | the tokens of an expression, written out, are parsed as that expression, which stops at the end or at the `)` closing its scope |
| Completeness.LoopComplete | parser/src/parser.cpp:150-210 | the operator/term rounds are parsed as the loop, which stops at the end or at a `)` |
| Completeness.RoundComplete | parser/src/parser.cpp:161-209 | one round: the operator glyph is accepted and pushed, then the term, then the rest of the loop |
| Completeness.WholeExpression | parser/src/parser.cpp:142-213 | over a whole well-formed token list the expression consumes the entire text and emits every token |
| Completeness.ParseIsComplete | parser/src/parser.cpp:310-349 | a well-formed token list, written out without blanks, is parsed successfully to its end into exactly that list: the converse of `TokenStream.ParseIsSound` |
| Scenarios.OnePlusTwo | parser/src/parser.cpp:142-213 | `"1+2"` succeeds with tokens `1`, `+`, `2` |
| Scenarios.TrailingLetter | parser/src/parser.cpp:340-345 | `"12a"` is an extraneous symbol at column 2 |
| Scenarios.UnmatchedClosing | parser/src/parser.cpp:340-345 | `"1+2)"` is an extraneous symbol at column 3 |
| Scenarios.GroupNotClosed | parser/src/parser.cpp:228-230 | a group whose inner expression runs to the end is a missing `)` at the end of the input, with `(` and the inner tokens pushed |
| Scenarios.UnclosedGroup | parser/src/parser.cpp:228-230 | `"(1+2"` is a missing `)` at column 4, with `(`, `1`, `+`, `2` pushed |
| Scenarios.DanglingOperator | parser/src/parser.cpp:200-207 | `"1+"` is a missing term at column 2, with `1` and `+` pushed |
| Scenarios.EmptyGroup | parser/src/parser.cpp:222-234 | `"()"` is an ill-formed integer at column 1, not a missing term, with `(` pushed |
| Scenarios.NegativeZero | parser/src/parser.cpp:273-288 | `"-0"` is an ill-formed integer at column 1 |
| Scenarios.BlankInput | parser/src/parser.cpp:321-326 | `" "` is an unexpected end at column 1 |
| Scenarios.ZeroAborts | parser/src/parser.cpp:268-271 | `"0"` aborts at column 0 and `"1 + 0"` at column 4 |
| Scenarios.WholeLiteral | parser/src/parser.cpp:236-258 | an input that is one literal is pushed when it fits `short`, out of range at column 0 when it fits only `long long`, and an abort otherwise |
| Scenarios.OutOfRange | parser/src/parser.cpp:254-256 | `"100000"` is out of range at column 0 |
| Scenarios.ParenthesisedDifference | parser/src/parser.cpp:222-234 | `"(3-4)*5"` succeeds with its seven tokens in input order, the group being one term |
| Scenarios.TooWide | parser/src/parser.cpp:247 | a twenty-digit literal aborts the conversion |

## Left out

- The debugging output of `parse` (parser/src/parser.cpp:336-339 and 342) writes to standard output and does not affect the result, so it is not modelled.
- `str_to_int` (parser/src/parser.cpp:115-129) is never called by the parser and is not modelled.
- `parser/include/parser.h` is not part of this model. The model assumes the following from it:
  - `required_int_type` is a 16-bit `short`;
  - `input_int_type` is `long long`;
  - `ParserResult(code)` defaults its column to 0.
- Results.Stoll: `std::stoll` is modelled only on the texts the parser passes it: an optional minus sign and then digits. Leading whitespace, a `+` sign, other bases and the locale are not modelled, since those texts never contain them.
- C++ exceptions are not modelled as control flow. The exception `std::stoll` throws leaves `parse` without a `ParserResult`; the model reports it as the outcome `ConversionAbort` and keeps the parser state at the moment of the throw.
- The iterator `it_curr_symb` is an index into the string, so iterator validity and ownership are not modelled. `get_tokens` returns a copy, and a Dafny sequence is a value.
- Parsing.Parser.NextSymbol requires that the cursor is not at the end. Every caller in the source checks `peek` first, and advancing past the end is undefined in C++.
- The methods of `Parsing.Parser` take the input as a ghost parameter `s` equal to `expr`. This lets their contracts name the reference functions without reading the heap; it adds nothing to the run-time state.
- Completeness.ParseIsComplete: it covers token lists written out with no blanks between tokens. Texts with blanks between the tokens are covered only by the other direction, `TokenStream.ParseIsSound`.
- `ExpectOperator` and `ExpressionRound` are the operator cascade and one round of the loop body of `expression`, factored out as methods. The branches, the order of the five `expect` calls and the token pushes are unchanged.
- The constructor of `Parser` is declared in the header, which is not part of this model. The model's constructor starts from an empty input.
