/** calc on particular input lines: one answer of each kind. */
module CalculatorExamples {
  import opened Errors
  import opened Operations
  import opened RomanNumeral
  import opened RomanProofs
  import opened RomanRoundTrip
  import opened Calculator
  import opened CalculatorProofs

  /** RomanAccepted for operands and an answer named by their numerals. */
  lemma RomanAnswerOf(op: Operation, n1: int, n2: int, left: string, right: string, answer: string)
    requires InRange(n1) && InRange(n2)
    requires Encode(n1) == Ok(left) && Encode(n2) == Ok(right)
    requires Apply(op, n1, n2) >= 1 && Encode(Apply(op, n1, n2)) == Ok(answer)
    ensures Evaluate(left + [op.Symbol()] + right) == Ok(answer)
  {
    RomanAccepted(op, n1, n2);
  }

  /** An Arabic expression of operands in range is answered in decimal. */
  lemma ArabicAnswerOf(input: string, e: Expression, op: Operation, answer: string)
    requires Parse(input) == Ok(e) && Lookup(e.operator) == Ok(op)
    requires IsArabic(e.left) && IsArabic(e.right) && !IsRoman(e.left)
    requires InRange(DigitsValue(e.left)) && InRange(DigitsValue(e.right))
    requires ToDecimal(Apply(op, DigitsValue(e.left), DigitsValue(e.right))) == answer
    ensures Evaluate(input) == Ok(answer)
  {
    ReadArabic(e.left, e.right);
    EvaluateRead(e, Operands(false, DigitsValue(e.left), DigitsValue(e.right)), op);
  }

  /** 3+4 is 7. */
  lemma AddArabic()
    ensures Evaluate("3+4") == Ok("7")
  {
    assert NatToDecimal(3) + ['+'] + NatToDecimal(4) == "3+4";
    assert ToDecimal(Apply(Addition, 3, 4)) == "7";
    ArabicAccepted(Addition, 3, 4);
  }

  /** 1-10 is -9: Arabic answers may be negative. */
  lemma SubtractArabicBelowZero()
    ensures Evaluate("1-10") == Ok("-9")
  {
    assert NatToDecimal(1) + ['-'] + NatToDecimal(10) == "1-10";
    assert ToDecimal(Apply(Subtraction, 1, 10)) == "-9";
    ArabicAccepted(Subtraction, 1, 10);
  }

  /** 7/2 is 3: the quotient is truncated. */
  lemma DivideArabic()
    ensures Evaluate("7/2") == Ok("3")
  {
    assert NatToDecimal(7) + ['/'] + NatToDecimal(2) == "7/2";
    TruncDivNonNegative(7, 2);
    assert ToDecimal(Apply(Division, 7, 2)) == "3";
    ArabicAccepted(Division, 7, 2);
  }

  /** 10/2 is 5. */
  lemma DivideArabicEvenly()
    ensures Evaluate("10/2") == Ok("5")
  {
    assert NatToDecimal(10) + ['/'] + NatToDecimal(2) == "10/2";
    TruncDivNonNegative(10, 2);
    assert ToDecimal(Apply(Division, 10, 2)) == "5";
    ArabicAccepted(Division, 10, 2);
  }

  /** X-I is IX. */
  lemma SubtractRoman()
    ensures Evaluate("X-I") == Ok("IX")
  {
    EncodeFromDigits(0, 0, 1, 0);
    assert Numeral(0, 0, 1, 0) == "X";
    EncodeFromDigits(0, 0, 0, 1);
    assert Numeral(0, 0, 0, 1) == "I";
    EncodeFromDigits(0, 0, 0, 9);
    assert Numeral(0, 0, 0, 9) == "IX";
    assert "X" + ['-'] + "I" == "X-I";
    RomanAnswerOf(Subtraction, 10, 1, "X", "I", "IX");
  }

  /** V*II is X. */
  lemma MultiplyRoman()
    ensures Evaluate("V*II") == Ok("X")
  {
    EncodeFromDigits(0, 0, 0, 5);
    assert Numeral(0, 0, 0, 5) == "V";
    EncodeFromDigits(0, 0, 0, 2);
    assert Numeral(0, 0, 0, 2) == "II";
    EncodeFromDigits(0, 0, 1, 0);
    assert Numeral(0, 0, 1, 0) == "X";
    assert "V" + ['*'] + "II" == "V*II";
    RomanAnswerOf(Multiplication, 5, 2, "V", "II", "X");
  }

  /** I-I has no Roman answer. */
  lemma RomanBelowOne()
    ensures Evaluate("I-I") == Err(ResultBelowOne)
  {
    EncodeFromDigits(0, 0, 0, 1);
    assert Numeral(0, 0, 0, 1) == "I";
    assert Encode(1).value + ['-'] + Encode(1).value == "I-I";
    assert Apply(Subtraction, 1, 1) == 0;
    RomanAccepted(Subtraction, 1, 1);
  }

  /** 0+1 is refused: 0 is outside 1..10. */
  lemma ArabicOutOfRange()
    ensures Evaluate("0+1") == Err(OutOfRange)
  {
    assert "0" + ['+'] + "1" == "0+1";
    assert IsArabic("0") && IsArabic("1");
    assert DigitsValue("0") == 0 && DigitsValue("1") == 1;
    ArabicOutOfRangeRefused("0", '+', "1");
  }

  /** The decimal digits of Integer.MAX_VALUE + 1, followed by +1, are
      refused by Integer.parseInt. */
  lemma ArabicOverflow()
    ensures Evaluate(NatToDecimal(MaxInt + 1) + "+1") == Err(InvalidNumber)
  {
    var a := NatToDecimal(MaxInt + 1);
    DecimalRoundTrip(MaxInt + 1);
    assert a + "+1" == a + ['+'] + "1";
    ArabicOverflowRefused(a, '+', "1");
  }

  /** XI is a well-formed numeral worth 11, and I one worth 1. */
  lemma ElevenIsValidNumeral()
    ensures IsRoman("XI") && IsRoman("I")
    ensures IsValidRoman("XI") && IsValidRoman("I")
    ensures PositionalValue("XI") == 11
  {
    assert Numeral(0, 0, 1, 1) == "XI" && Numeral(0, 0, 0, 1) == "I";
    NumeralValue(0, 0, 1, 1);
    NumeralIsValid(0, 0, 1, 1);
    NumeralIsValid(0, 0, 0, 1);
  }

  /** XI+I is refused: XI is a numeral, but worth 11. */
  lemma RomanOutOfRange()
    ensures Evaluate("XI+I") == Err(OutOfRange)
  {
    assert "XI" + ['+'] + "I" == "XI+I";
    ElevenIsValidNumeral();
    RomanOutOfRangeRefused("XI", '+', "I");
  }

  /** IIII+I is refused: IIII is not a numeral. */
  lemma RomanMalformed()
    ensures Evaluate("IIII+I") == Err(InvalidRomanNumeral)
  {
    assert "IIII" + ['+'] + "I" == "IIII+I";
    GrammarRejectsRepeat();
    assert IsRoman("IIII") && IsRoman("I");
    RomanMalformedRefused("IIII", '+', "I");
  }

  /** I+3 is refused: the operands mix the two notations. */
  lemma MixedNotations()
    ensures Evaluate("I+3") == Err(MixedOrInvalidFormat)
  {
    assert "I" + ['+'] + "3" == "I+3";
    assert !SameNotation("I", "3") by {
      assert "3"[0] !in SymbolValues && !IsDigit("I"[0]);
    }
    MixedRefused("I", '+', "3");
  }

  /** abc+def is refused: neither operand is Roman or Arabic. */
  lemma NeitherNotation()
    ensures Evaluate("abc+def") == Err(MixedOrInvalidFormat)
  {
    assert "abc" + ['+'] + "def" == "abc+def";
    assert !SameNotation("abc", "def") by {
      assert "abc"[0] !in SymbolValues && !IsDigit("abc"[0]);
    }
    MixedRefused("abc", '+', "def");
  }

  /** -5+3 is refused: the minus sign is taken as the operator, which leaves
      an empty left operand. */
  lemma LeadingMinus()
    ensures Evaluate("-5+3") == Err(MixedOrInvalidFormat)
  {
    LeadingOperatorRefused("-5+3");
  }

  /** A line without + - * / is no expression. */
  lemma NoOperator()
    ensures Evaluate("XV") == Err(InvalidExpression)
  {
    assert forall i | 0 <= i < |Trim("XV")| :: !IsOperatorSymbol(Trim("XV")[i]) by {
      TrimUnblanked("XV");
    }
    NoOperatorRejected("XV");
  }
}
