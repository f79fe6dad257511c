/** What calc promises: where it splits its input, which inputs each
    failure answers, that its answers are the arithmetic of the operands
    written back in their own notation, and that it accepts every
    well-formed expression. */
module CalculatorProofs {
  import opened Errors
  import opened Operations
  import opened RomanNumeral
  import opened RomanRoundTrip
  import opened Calculator

  // ----- String.trim

  /** A string with no blank at either end is its own trim. */
  lemma TrimUnblanked(s: string)
    requires s == [] || (!IsBlank(s[0]) && !IsBlank(s[|s| - 1]))
    ensures Trim(s) == s
  {
    assert TrimStart(s) == s;
  }

  /** Trimming twice is trimming once. */
  lemma TrimIdempotent(s: string)
    ensures Trim(Trim(s)) == Trim(s)
  {
    var t := TrimStart(s);
    var r := TrimEnd(t);
    if r != [] {
      assert r[0] == t[0];
    }
    TrimUnblanked(r);
  }

  /** String.trim's result is no longer than s, starts and ends with a
      non-blank when it is not empty, and is empty exactly when every
      character of s is a blank. */
  lemma TrimShape(s: string)
    ensures |Trim(s)| <= |s|
    ensures Trim(s) == [] || (!IsBlank(Trim(s)[0]) && !IsBlank(Trim(s)[|Trim(s)| - 1]))
    ensures Trim(s) == [] <==> forall i | 0 <= i < |s| :: IsBlank(s[i])
  {
    assert Trim(s) != [] ==> Trim(s)[0] == TrimStart(s)[0];
  }

  // ----- Decimal numbers

  /** A digit string of value 0 starts with the digit 0. */
  lemma {:induction false} ZeroValueLeadingZero(s: string)
    requires IsArabic(s) && DigitsValue(s) == 0
    ensures s[0] == '0'
  {
    var p := s[..|s| - 1];
    if |p| > 0 {
      ZeroValueLeadingZero(p);
      assert p[0] == s[0];
    }
  }

  /** String.valueOf writes back every digit string without leading zeros
      that Integer.parseInt reads. */
  lemma {:induction false} DecimalCanonical(s: string)
    requires IsArabic(s) && (s[0] != '0' || s == "0")
    ensures NatToDecimal(DigitsValue(s)) == s
  {
    var p, c := s[..|s| - 1], s[|s| - 1];
    assert s == p + [c];
    var d := DecimalDigit(c);
    assert DigitChar(d) == c;
    if p == [] {
      assert DigitsValue(s) == d;
    } else {
      var v := DigitsValue(p);
      assert p[0] == s[0];
      if v == 0 {
        ZeroValueLeadingZero(p);
      }
      DecimalCanonical(p);
      DigitsValueSnoc(p, c);
      DivModUnique(10 * v + d, 10, v, d);
    }
  }

  /** Integer.parseInt accepts every int that String.valueOf writes. */
  lemma ParseIntRoundTrip(n: nat)
    requires n <= MaxInt
    ensures ParseInt(NatToDecimal(n)) == Ok(n)
  {
    DecimalRoundTrip(n);
  }

  // ----- The operator scan

  /** The first operator of a followed by c followed by b is c when a has none. */
  lemma FirstOperatorAfter(a: string, c: char, b: string)
    requires forall i | 0 <= i < |a| :: !IsOperatorSymbol(a[i])
    requires IsOperatorSymbol(c)
    ensures FirstOperator(a + [c] + b) == |a|
  {
    var s := a + [c] + b;
    assert s[|a|] == c;
    FirstOperatorIsUnique(s, |a|);
  }

  /** calc rejects an input as having no expression exactly when its trimmed
      text contains none of + - * /. */
  lemma NoOperatorRejected(input: string)
    ensures (Evaluate(input) == Err(InvalidExpression)
      <==> forall i | 0 <= i < |Trim(input)| :: !IsOperatorSymbol(Trim(input)[i]))
  {
    var k := FirstOperator(Trim(input));
    if k >= 0 {
      EvaluateExpressionErrors(Parse(input).value);
    }
  }

  /** Past the split, calc fails only on the operands or the Roman result,
      never with an unknown operator or a non-positive Roman value. */
  lemma EvaluateExpressionErrors(e: Expression)
    requires IsOperatorSymbol(e.operator)
    ensures EvaluateExpression(e).Err? ==>
      EvaluateExpression(e).error in {MixedOrInvalidFormat, InvalidRomanNumeral, InvalidNumber, OutOfRange, ResultBelowOne}
  {
  }

  /** The failures Operation.fromChar and toRoman could raise never surface from calc. */
  lemma EvaluateNeverUnknownOrNonPositive(input: string)
    ensures Evaluate(input).Err? ==>
      Evaluate(input).error != UnknownOperator && Evaluate(input).error != NonPositive
  {
    if Parse(input).Ok? {
      EvaluateExpressionErrors(Parse(input).value);
    }
  }

  /** Once split, the input is refused for its format exactly when its two
      sides are neither both Roman letters nor both digits. */
  lemma FormatRule(input: string)
    requires Parse(input).Ok?
    ensures Evaluate(input) == Err(MixedOrInvalidFormat) <==>
      !SameNotation(Parse(input).value.left, Parse(input).value.right)
  {
  }

  // ----- Answers

  /** In Roman mode an answer is a well-formed numeral worth the operation
      applied to two well-formed operands of 1..10. */
  lemma RomanAnswer(input: string)
    requires Parse(input).Ok? && Evaluate(input).Ok?
    requires IsRoman(Parse(input).value.left) && IsRoman(Parse(input).value.right)
    ensures var e := Parse(input).value;
      var out := Evaluate(input).value;
      && IsValidRoman(e.left) && IsValidRoman(e.right)
      && InRange(PositionalValue(e.left)) && InRange(PositionalValue(e.right))
      && out != [] && IsValidRoman(out) && IsLetters(out)
      && PositionalValue(out) == Apply(Lookup(e.operator).value, PositionalValue(e.left), PositionalValue(e.right))
  {
    var e := Parse(input).value;
    var operands := ReadOperands(e.left, e.right).value;
    var x := Apply(Lookup(e.operator).value, operands.first, operands.second);
    assert 1 <= x <= 100 by {
      ApplyBounds(Lookup(e.operator).value, operands.first, operands.second);
    }
    RoundTrip(x);
  }

  /** In Arabic mode an answer is the decimal, signed when negative, of the
      operation applied to two operands of 1..10. */
  lemma ArabicAnswer(input: string)
    requires Parse(input).Ok? && Evaluate(input).Ok?
    requires !(IsRoman(Parse(input).value.left) && IsRoman(Parse(input).value.right))
    ensures var e := Parse(input).value;
      var out := Evaluate(input).value;
      && IsArabic(e.left) && IsArabic(e.right)
      && InRange(DigitsValue(e.left)) && InRange(DigitsValue(e.right))
      && var x := Apply(Lookup(e.operator).value, DigitsValue(e.left), DigitsValue(e.right));
      && -9 <= x <= 100
      && (x >= 0 ==> IsArabic(out) && DigitsValue(out) == x)
      && (x < 0 ==> |out| > 1 && out[0] == '-' && IsArabic(out[1..]) && DigitsValue(out[1..]) == -x)
      && out == ToDecimal(x)
  {
    var e := Parse(input).value;
    ApplyBounds(Lookup(e.operator).value, DigitsValue(e.left), DigitsValue(e.right));
  }

  /** On operands of 1..10 the four operations stay within -9..100, and only
      subtraction and division can fall below 1. */
  lemma ApplyBounds(op: Operation, a: int, b: int)
    requires InRange(a) && InRange(b)
    ensures -9 <= Apply(op, a, b) <= 100
    ensures (op.Addition? || op.Multiplication?) ==> Apply(op, a, b) >= 1
  {
    match op
    case Multiplication =>
      MulMono(a, 10, b);
      MulMono(1, a, b);
    case Division =>
      TruncDivNonNegative(a, b);
      QuotientBounds(a, b);
    case _ =>
  }

  /** A quotient of naturals lies between zero and the dividend. */
  lemma QuotientBounds(a: nat, b: int)
    requires b > 0
    ensures 0 <= a / b <= a
  {
    var q := a / b;
    assert q >= 0;
    MulMono(1, b, q);
  }

  /** The Roman operands calc accepts are exactly toRoman's renderings of 1..10. */
  lemma RomanOperandAccepted(s: string)
    ensures (IsRoman(s) && IsValidRoman(s) && InRange(PositionalValue(s))
      <==> exists k | 1 <= k <= 10 :: Encode(k) == Ok(s))
  {
    if IsRoman(s) && IsValidRoman(s) && InRange(PositionalValue(s)) {
      DecodeRoundTrip(s);
      var k := PositionalValue(s);
      assert Encode(k) == Ok(s);
    }
    if k :| 1 <= k <= 10 && Encode(k) == Ok(s) {
      RoundTrip(k);
    }
  }

  // ----- Completeness

  /** No Roman letter is an operator or a blank. */
  lemma LettersUnblanked(s: string)
    requires IsLetters(s)
    ensures forall i | 0 <= i < |s| :: !IsOperatorSymbol(s[i]) && !IsBlank(s[i])
  {
    forall i | 0 <= i < |s|
      ensures !IsOperatorSymbol(s[i]) && !IsBlank(s[i])
    {
      assert s[i] in SymbolValues;
    }
  }

  /** No digit is an operator, a blank or a Roman letter. */
  lemma DigitsUnblanked(s: string)
    requires IsArabic(s)
    ensures forall i | 0 <= i < |s| :: !IsOperatorSymbol(s[i]) && !IsBlank(s[i])
    ensures !IsRoman(s)
  {
    assert s[0] !in SymbolValues;
  }

  /** Splitting a + [symbol] + b at the symbol, when a has no operator and
      the line has no blank at either end, gives a and b with their own
      blanks trimmed. */
  lemma ParseTrimsOperands(a: string, symbol: char, b: string)
    requires |a| > 0 && |b| > 0 && IsOperatorSymbol(symbol)
    requires forall i | 0 <= i < |a| :: !IsOperatorSymbol(a[i])
    requires !IsBlank(a[0]) && !IsBlank(b[|b| - 1])
    ensures Parse(a + [symbol] + b) == Ok(Expression(Trim(a), symbol, Trim(b)))
  {
    var s := a + [symbol] + b;
    assert s[0] == a[0] && s[|s| - 1] == b[|b| - 1];
    TrimUnblanked(s);
    FirstOperatorAfter(a, symbol, b);
    assert s[..|a|] == a && s[|a|] == symbol && s[|a| + 1..] == b;
    ParseSplit(s, |a|);
  }

  /** The same split for operands without blanks gives a and b themselves. */
  lemma ParseJoined(a: string, symbol: char, b: string)
    requires |a| > 0 && |b| > 0 && IsOperatorSymbol(symbol)
    requires forall i | 0 <= i < |a| :: !IsOperatorSymbol(a[i]) && !IsBlank(a[i])
    requires forall i | 0 <= i < |b| :: !IsBlank(b[i])
    ensures Parse(a + [symbol] + b) == Ok(Expression(a, symbol, b))
  {
    ParseTrimsOperands(a, symbol, b);
    TrimUnblanked(a);
    TrimUnblanked(b);
  }

  /** An untrimmable input whose first operator is at k splits there. */
  lemma ParseSplit(s: string, k: int)
    requires Trim(s) == s && 0 <= k < |s| && FirstOperator(s) == k
    ensures Parse(s) == Ok(Expression(Trim(s[..k]), s[k], Trim(s[k + 1..])))
  {
  }

  /** Two decimal strings of values 1..10 are read as Arabic operands. */
  lemma ReadArabic(a: string, b: string)
    requires IsArabic(a) && IsArabic(b) && !IsRoman(a)
    requires InRange(DigitsValue(a)) && InRange(DigitsValue(b))
    ensures ReadOperands(a, b) == Ok(Operands(false, DigitsValue(a), DigitsValue(b)))
  {
  }

  /** Two well-formed numerals of values 1..10 are read as Roman operands. */
  lemma ReadRoman(a: string, b: string)
    requires IsRoman(a) && IsRoman(b) && IsValidRoman(a) && IsValidRoman(b)
    requires InRange(PositionalValue(a)) && InRange(PositionalValue(b))
    ensures ReadOperands(a, b) == Ok(Operands(true, PositionalValue(a), PositionalValue(b)))
  {
  }

  /** calc evaluates every expression of two decimal numbers of 1..10. */
  lemma ArabicAccepted(op: Operation, n1: int, n2: int)
    requires InRange(n1) && InRange(n2)
    ensures Evaluate(NatToDecimal(n1) + [op.Symbol()] + NatToDecimal(n2)) == Ok(ToDecimal(Apply(op, n1, n2)))
  {
    var a, b := NatToDecimal(n1), NatToDecimal(n2);
    var e := Expression(a, op.Symbol(), b);
    assert Parse(a + [op.Symbol()] + b) == Ok(e) by {
      DigitsUnblanked(a);
      DigitsUnblanked(b);
      ParseJoined(a, op.Symbol(), b);
    }
    EvaluateParsed(a + [op.Symbol()] + b, e);
    assert ReadOperands(a, b) == Ok(Operands(false, n1, n2)) by {
      DecimalRoundTrip(n1);
      DecimalRoundTrip(n2);
      DigitsUnblanked(a);
      ReadArabic(a, b);
    }
    LookupSymbol(op);
    EvaluateRead(e, Operands(false, n1, n2), op);
  }

  /** calc evaluates every expression of two Roman numerals of I..X, and
      answers in Roman whenever the result is at least 1. */
  lemma RomanAccepted(op: Operation, n1: int, n2: int)
    requires InRange(n1) && InRange(n2)
    ensures var x := Apply(op, n1, n2);
      Evaluate(Encode(n1).value + [op.Symbol()] + Encode(n2).value)
        == if x < 1 then Err(ResultBelowOne) else Encode(x)
  {
    RoundTrip(n1);
    RoundTrip(n2);
    var a, b := Encode(n1).value, Encode(n2).value;
    var e := Expression(a, op.Symbol(), b);
    assert Parse(a + [op.Symbol()] + b) == Ok(e) by {
      LettersUnblanked(a);
      LettersUnblanked(b);
      ParseJoined(a, op.Symbol(), b);
    }
    EvaluateParsed(a + [op.Symbol()] + b, e);
    assert ReadOperands(a, b) == Ok(Operands(true, n1, n2)) by {
      ReadRoman(a, b);
    }
    LookupSymbol(op);
    EvaluateRead(e, Operands(true, n1, n2), op);
  }

  // ----- Refusals

  /** Blanks around the whole line never change calc's answer. */
  lemma OuterBlanksIgnored(input: string)
    ensures Evaluate(Trim(input)) == Evaluate(input)
  {
    TrimIdempotent(input);
  }

  /** Operands that calc reads as neither both Roman nor both Arabic are refused
      for their format. */
  lemma MixedRefused(a: string, symbol: char, b: string)
    requires |a| > 0 && |b| > 0 && IsOperatorSymbol(symbol)
    requires forall i | 0 <= i < |a| :: !IsOperatorSymbol(a[i]) && !IsBlank(a[i])
    requires forall i | 0 <= i < |b| :: !IsBlank(b[i])
    requires !SameNotation(a, b)
    ensures Evaluate(a + [symbol] + b) == Err(MixedOrInvalidFormat)
  {
    ParseJoined(a, symbol, b);
  }

  /** An empty operand is neither Roman nor Arabic, so its expression is
      refused for its format. */
  lemma EmptyOperandRefused(left: string, right: string)
    requires left == [] || right == []
    ensures ReadOperands(left, right) == Err(MixedOrInvalidFormat)
  {
    assert !SameNotation(left, right);
  }

  /** A line that starts with an operator has an empty left operand and is
      refused for its format; a leading minus sign is read this way. */
  lemma LeadingOperatorRefused(input: string)
    requires |input| > 0 && IsOperatorSymbol(input[0]) && !IsBlank(input[|input| - 1])
    ensures Evaluate(input) == Err(MixedOrInvalidFormat)
  {
    var e := LeadingOperatorParse(input);
    EmptyOperandEvaluated(input, e);
  }

  lemma LeadingOperatorParse(input: string) returns (e: Expression)
    requires |input| > 0 && IsOperatorSymbol(input[0]) && !IsBlank(input[|input| - 1])
    ensures Parse(input) == Ok(e) && e.left == []
  {
    TrimUnblanked(input);
    assert FirstOperator(input) == 0;
    ParseSplit(input, 0);
    assert input[..0] == [] && Trim([]) == [];
    e := Expression([], input[0], Trim(input[1..]));
  }

  lemma EmptyOperandEvaluated(input: string, e: Expression)
    requires Parse(input) == Ok(e) && (e.left == [] || e.right == [])
    ensures Evaluate(input) == Err(MixedOrInvalidFormat)
  {
    EmptyOperandRefused(e.left, e.right);
    RefusedOperands(input, e, MixedOrInvalidFormat);
  }

  /** Well-formed Roman operands whose values are not both in 1..10 are refused. */
  lemma RomanOutOfRangeRefused(a: string, symbol: char, b: string)
    requires IsOperatorSymbol(symbol) && IsRoman(a) && IsRoman(b)
    requires IsValidRoman(a) && IsValidRoman(b)
    requires !(InRange(PositionalValue(a)) && InRange(PositionalValue(b)))
    ensures Evaluate(a + [symbol] + b) == Err(OutOfRange)
  {
    LettersUnblanked(a);
    LettersUnblanked(b);
    ParseJoined(a, symbol, b);
  }

  /** Roman operands of which one breaks the numeral grammar are refused. */
  lemma RomanMalformedRefused(a: string, symbol: char, b: string)
    requires IsOperatorSymbol(symbol) && IsRoman(a) && IsRoman(b)
    requires !(IsValidRoman(a) && IsValidRoman(b))
    ensures Evaluate(a + [symbol] + b) == Err(InvalidRomanNumeral)
  {
    LettersUnblanked(a);
    LettersUnblanked(b);
    ParseJoined(a, symbol, b);
  }

  /** Decimal operands that fit in an int but are not both in 1..10 are refused. */
  lemma ArabicOutOfRangeRefused(a: string, symbol: char, b: string)
    requires IsOperatorSymbol(symbol) && IsArabic(a) && IsArabic(b)
    requires DigitsValue(a) <= MaxInt && DigitsValue(b) <= MaxInt
    requires !(InRange(DigitsValue(a)) && InRange(DigitsValue(b)))
    ensures Evaluate(a + [symbol] + b) == Err(OutOfRange)
  {
    DigitsUnblanked(a);
    DigitsUnblanked(b);
    ParseJoined(a, symbol, b);
    assert ParseInt(a) == Ok(DigitsValue(a)) && ParseInt(b) == Ok(DigitsValue(b));
    assert ReadOperands(a, b) == Err(OutOfRange);
    RefusedOperands(a + [symbol] + b, Expression(a, symbol, b), OutOfRange);
  }

  /** A decimal operand beyond Integer.MAX_VALUE is refused by Integer.parseInt. */
  lemma ArabicOverflowRefused(a: string, symbol: char, b: string)
    requires IsOperatorSymbol(symbol) && IsArabic(a) && IsArabic(b)
    requires DigitsValue(a) > MaxInt || DigitsValue(b) > MaxInt
    ensures Evaluate(a + [symbol] + b) == Err(InvalidNumber)
  {
    DigitsUnblanked(a);
    DigitsUnblanked(b);
    ParseJoined(a, symbol, b);
  }
}
