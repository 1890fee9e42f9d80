/** Tokens, parse results, the two integer widths and the decimal conversion
    (`std::stoll`) the parser relies on. */
module Results {
  import opened Symbols

  datatype Option<T> = None | Some(value: T)

  /** Kind of a recognised lexical unit. */
  datatype TokenKind = Operand | Operator | OpeningScope | ClosingScope

  /** A recognised lexical unit: the exact text matched and its kind. */
  datatype Token = Token(lexeme: string, kind: TokenKind)

  /** The seven result kinds of `ParserResult`. */
  datatype ResultCode =
    | ParserOk
    | UnexpectedEndOfExpression
    | IllFormedInteger
    | MissingTerm
    | ExtraneousSymbol
    | MissingClosingParenthesis
    | IntegerOutOfRange

  /** A result kind and the 0-based column where it was detected. */
  datatype ParserResult = ParserResult(code: ResultCode, atCol: nat)

  /** `ParserResult(PARSER_OK)`: the column defaults to 0. */
  const Ok: ParserResult := ParserResult(ParserOk, 0)

  /** How a grammar procedure ends: it returns a result, or `std::stoll`
      throws on the literal starting at column `at` and the exception
      leaves the parser. */
  datatype Outcome = Returned(result: ParserResult) | ConversionAbort(at: nat)

  const Success: Outcome := Returned(Ok)

  predicate IsOk(o: Outcome) {
    o.Returned? && o.result.code == ParserOk
  }

  /** Bounds of `required_int_type` (a 16-bit signed `short`). */
  const RequiredIntMin: int := -0x8000
  const RequiredIntMax: int := 0x7FFF

  /** Bounds of `input_int_type` (a 64-bit signed `long long`), the range
      `std::stoll` can return. */
  const InputIntMin: int := -0x8000_0000_0000_0000
  const InputIntMax: int := 0x7FFF_FFFF_FFFF_FFFF

  predicate AllDigits(d: string) {
    forall k :: 0 <= k < |d| ==> IsDigit(d[k])
  }

  /** The number a string of decimal digits denotes, read most significant
      digit first; meaningful on digits only (see `AllDigits`). */
  function DecimalValue(d: string): int
  {
    if d == [] then 0
    else 10 * DecimalValue(d[..|d| - 1]) + (d[|d| - 1] as int - '0' as int)
  }

  /** The longest run of decimal digits at the start of `s`. */
  function DigitPrefix(s: string): (p: string)
    ensures |p| <= |s|
  {
    if s != [] && IsDigit(s[0]) then [s[0]] + DigitPrefix(s[1..]) else []
  }

  /** `std::stoll` on the strings the parser hands it: an optional minus
      sign, then the longest run of digits. No digits at all
      (invalid_argument) or a value outside `long long` (out_of_range) is a
      failure. */
  function Stoll(text: string): (r: Option<int>)
    ensures r.Some? ==> InputIntMin <= r.value <= InputIntMax
    ensures text == [] ==> r == None
  {
    var negative := |text| > 0 && text[0] == '-';
    var digits := DigitPrefix(if negative then text[1..] else text);
    if digits == [] then None
    else
      var magnitude: int := DecimalValue(digits);
      var value: int := if negative then -magnitude else magnitude;
      if InputIntMin <= value <= InputIntMax then Some(value) else None
  }

  /** The text of an integer literal as `integer` and `natural_number`
      accept it: an optional minus sign, a nonzero digit, then digits. */
  predicate IsIntegerLiteral(text: string) {
    var digits := Unsigned(text);
    |digits| > 0 && '1' <= digits[0] <= '9' && AllDigits(digits)
  }

  /** The text without its leading minus sign, if it has one. */
  function Unsigned(text: string): (r: string)
    ensures |text| > 0 && text[0] == '-' ==> |r| == |text| - 1 && r == text[1..]
    ensures !(|text| > 0 && text[0] == '-') ==> r == text
  {
    if |text| > 0 && text[0] == '-' then text[1..] else text
  }

  /** The signed value of an integer literal. */
  function LiteralValue(text: string): int
    requires IsIntegerLiteral(text)
  {
    if text[0] == '-' then 0 - DecimalValue(text[1..]) else DecimalValue(text)
  }

  /** Ten to the power `n`. */
  function Pow10(n: nat): (r: nat)
    ensures r >= 1
  {
    if n == 0 then 1 else 10 * Pow10(n - 1)
  }

  /** A string of `n` digits denotes a number below `10^n`, and one of at
      least `10^(n-1)` when it does not start with `0`. */
  lemma {:induction false} DecimalValueBounds(d: string)
    requires AllDigits(d)
    ensures 0 <= DecimalValue(d) < Pow10(|d|)
    ensures |d| > 0 && d[0] != '0' ==> Pow10(|d| - 1) <= DecimalValue(d)
    decreases |d|
  {
    if d != [] {
      var init := d[..|d| - 1];
      assert AllDigits(init) by {
        forall k | 0 <= k < |init|
          ensures IsDigit(init[k])
        {
          assert init[k] == d[k];
        }
      }
      DecimalValueBounds(init);
      if |d| > 1 {
        assert init[0] == d[0];
      }
    }
  }

  /** On a digit-only string the conversion reads every digit. */
  lemma {:induction false} DigitPrefixOfDigits(d: string)
    requires AllDigits(d)
    ensures DigitPrefix(d) == d
  {
    if d != [] {
      DigitPrefixOfDigits(d[1..]);
    }
  }

  /** On a literal, `Stoll` yields exactly its value, or fails when the
      value is beyond `long long`. */
  lemma StollOfLiteral(text: string)
    requires IsIntegerLiteral(text)
    ensures Stoll(text) == if InputIntMin <= LiteralValue(text) <= InputIntMax
                           then Some(LiteralValue(text)) else None
  {
    if text[0] == '-' {
      DigitPrefixOfDigits(text[1..]);
    } else {
      DigitPrefixOfDigits(text);
    }
  }
}
