/** Main.calc: trims the input, splits it at its first operator character,
    checks that both operands are Roman numerals or both decimal numbers in
    1..10, applies the operation and answers in the operands' notation. */
module Calculator {
  import opened Errors
  import opened Operations
  import opened RomanNumeral

  /** The characters String.trim removes: code points up to the space. */
  predicate IsBlank(c: char) {
    c <= ' '
  }

  /** s without its leading blanks. */
  function TrimStart(s: string): (r: string)
    ensures |r| <= |s| && r == s[|s| - |r|..]
    ensures forall i | 0 <= i < |s| - |r| :: IsBlank(s[i])
    ensures r == [] || !IsBlank(r[0])
  {
    if s != [] && IsBlank(s[0]) then TrimStart(s[1..]) else s
  }

  /** s without its trailing blanks. */
  function TrimEnd(s: string): (r: string)
    ensures |r| <= |s| && r == s[..|r|]
    ensures forall i | |r| <= i < |s| :: IsBlank(s[i])
    ensures r == [] || !IsBlank(r[|r| - 1])
  {
    if s != [] && IsBlank(s[|s| - 1]) then TrimEnd(s[..|s| - 1]) else s
  }

  /** String.trim: s without its leading and trailing blanks. */
  function Trim(s: string): string {
    TrimEnd(TrimStart(s))
  }

  /** isRoman: one or more of the letters IVXLCDM. */
  predicate IsRoman(s: string) {
    |s| > 0 && IsLetters(s)
  }

  predicate IsDigit(c: char) {
    '0' <= c <= '9'
  }

  /** isArabic: one or more of the digits 0-9. */
  predicate IsArabic(s: string) {
    |s| > 0 && forall i | 0 <= i < |s| :: IsDigit(s[i])
  }

  function DecimalDigit(c: char): nat
    requires IsDigit(c)
  {
    c as int - '0' as int
  }

  /** The value of a string of decimal digits, leading zeros allowed. */
  function DigitsValue(s: string): nat
    requires forall i | 0 <= i < |s| :: IsDigit(s[i])
  {
    if s == [] then 0 else 10 * DigitsValue(s[..|s| - 1]) + DecimalDigit(s[|s| - 1])
  }

  /** Integer.MAX_VALUE. */
  const MaxInt: int := 0x7fff_ffff

  /** Integer.parseInt on a string isArabic accepts: its value, or a failure
      when that value does not fit in an int. */
  function ParseInt(s: string): (r: Result<int>)
    requires IsArabic(s)
    ensures r.Ok? <==> DigitsValue(s) <= MaxInt
    ensures r.Ok? ==> r.value == DigitsValue(s) && 0 <= r.value <= MaxInt
    ensures r.Err? ==> r.error == InvalidNumber
  {
    var n := DigitsValue(s);
    if n > MaxInt then Err(InvalidNumber) else Ok(n)
  }

  function DigitChar(d: nat): char
    requires d <= 9
  {
    ('0' as int + d) as char
  }

  /** The decimal digits of n, without leading zeros. */
  function NatToDecimal(n: nat): (r: string)
    ensures IsArabic(r)
    ensures r[0] != '0' || r == "0"
  {
    if n < 10 then [DigitChar(n)] else NatToDecimal(n / 10) + [DigitChar(n % 10)]
  }

  lemma DigitsValueSnoc(p: string, c: char)
    requires forall i | 0 <= i < |p| :: IsDigit(p[i])
    requires IsDigit(c)
    ensures forall i | 0 <= i < |p + [c]| :: IsDigit((p + [c])[i])
    ensures DigitsValue(p + [c]) == 10 * DigitsValue(p) + DecimalDigit(c)
  {
    assert (p + [c])[..|p|] == p;
  }

  /** Integer.parseInt reads back what String.valueOf writes. */
  lemma {:induction false} DecimalRoundTrip(n: nat)
    ensures DigitsValue(NatToDecimal(n)) == n
  {
    if n < 10 {
      assert [DigitChar(n)][..0] == [];
    } else {
      DecimalRoundTrip(n / 10);
      DigitsValueSnoc(NatToDecimal(n / 10), DigitChar(n % 10));
    }
  }

  /** String.valueOf(int): a minus sign for negative numbers, then the
      digits, which read back as the number's magnitude. */
  function ToDecimal(x: int): (r: string)
    ensures x >= 0 ==> IsArabic(r) && DigitsValue(r) == x && (r[0] != '0' || r == "0")
    ensures x < 0 ==> |r| > 1 && r[0] == '-' && IsArabic(r[1..]) && DigitsValue(r[1..]) == -x && r[1] != '0'
  {
    if x < 0 then
      DecimalRoundTrip(-x);
      assert ("-" + NatToDecimal(-x))[1..] == NatToDecimal(-x);
      "-" + NatToDecimal(-x)
    else
      DecimalRoundTrip(x);
      NatToDecimal(x)
  }

  /** The index of the first operator character of s, or -1 when it has none. */
  function FirstOperator(s: string): (k: int)
    ensures -1 <= k < |s|
    ensures k >= 0 ==> IsOperatorSymbol(s[k])
    ensures forall j | 0 <= j < |s| && (k < 0 || j < k) :: !IsOperatorSymbol(s[j])
  {
    if s == [] then -1
    else if IsOperatorSymbol(s[0]) then 0
    else
      var k := FirstOperator(s[1..]);
      if k < 0 then -1 else k + 1
  }

  /** calc's operator scan: walks the characters and stops at the first of + - * /. */
  method FindOperator(chars: array<char>) returns (opIndex: int)
    ensures opIndex == FirstOperator(chars[..])
  {
    opIndex := -1;
    var i := 0;
    while i < chars.Length
      invariant 0 <= i <= chars.Length
      invariant opIndex == -1
      invariant forall j | 0 <= j < i :: !IsOperatorSymbol(chars[j])
      decreases chars.Length - i
    {
      if IsOperatorSymbol(chars[i]) {
        opIndex := i;
        break;
      }
      i := i + 1;
    }
    FirstOperatorIsUnique(chars[..], opIndex);
  }

  /** FirstOperator's contract determines its result. */
  lemma FirstOperatorIsUnique(s: string, k: int)
    requires -1 <= k < |s|
    requires k >= 0 ==> IsOperatorSymbol(s[k])
    requires forall j | 0 <= j < |s| && (k < 0 || j < k) :: !IsOperatorSymbol(s[j])
    ensures k == FirstOperator(s)
  {
  }

  /** An input split at its operator: both sides trimmed. */
  datatype Expression = Expression(left: string, operator: char, right: string)

  /** The front half of calc: trim, find the first operator, split and trim
      both sides; without an operator the input is rejected. */
  function Parse(input: string): (r: Result<Expression>)
    ensures r.Err? <==> FirstOperator(Trim(input)) < 0
    ensures r.Err? ==> r.error == InvalidExpression
    ensures r.Ok? ==> IsOperatorSymbol(r.value.operator)
  {
    var s := Trim(input);
    var k := FirstOperator(s);
    if k < 0 then Err(InvalidExpression)
    else Ok(Expression(Trim(s[..k]), s[k], Trim(s[k + 1..])))
  }

  /** The operand range both notations must respect. */
  predicate InRange(n: int) {
    1 <= n <= 10
  }

  /** Both operands Roman letters, or both digits: calc's isRoman || isArabic. */
  predicate SameNotation(left: string, right: string) {
    (IsRoman(left) && IsRoman(right)) || (IsArabic(left) && IsArabic(right))
  }

  /** Which notation the operands are in, and their values. */
  datatype Operands = Operands(roman: bool, first: int, second: int)

  /** calc's operand checks, in its order: the notation, then Roman grammar
      or Integer.parseInt, then the range of both values. */
  function ReadOperands(left: string, right: string): (r: Result<Operands>)
    ensures r == Err(MixedOrInvalidFormat) <==> !SameNotation(left, right)
    ensures r.Err? ==> r.error in {MixedOrInvalidFormat, InvalidRomanNumeral, InvalidNumber, OutOfRange}
    ensures r.Ok? ==> InRange(r.value.first) && InRange(r.value.second)
    ensures r.Ok? ==> (r.value.roman <==> IsRoman(left) && IsRoman(right))
    ensures r.Ok? && r.value.roman ==>
      && IsValidRoman(left) && IsValidRoman(right)
      && r.value.first == PositionalValue(left) && r.value.second == PositionalValue(right)
    ensures r.Ok? && !r.value.roman ==>
      && IsArabic(left) && IsArabic(right)
      && r.value.first == DigitsValue(left) && r.value.second == DigitsValue(right)
  {
    var isRoman := IsRoman(left) && IsRoman(right);
    var isArabic := IsArabic(left) && IsArabic(right);
    if !(isRoman || isArabic) then Err(MixedOrInvalidFormat)
    else if isRoman then
      if !IsValidRoman(left) || !IsValidRoman(right) then Err(InvalidRomanNumeral)
      else
        var num1, num2 := PositionalValue(left), PositionalValue(right);
        if !InRange(num1) || !InRange(num2) then Err(OutOfRange)
        else Ok(Operands(true, num1, num2))
    else
      match ParseInt(left)
      case Err(e) => Err(e)
      case Ok(num1) =>
        match ParseInt(right)
        case Err(e) => Err(e)
        case Ok(num2) =>
          if !InRange(num1) || !InRange(num2) then Err(OutOfRange)
          else Ok(Operands(false, num1, num2))
  }

  /** The back half of calc: read the operands, apply the operation and
      write the result in the operands' notation. */
  function EvaluateExpression(e: Expression): Result<string> {
    match ReadOperands(e.left, e.right)
    case Err(err) => Err(err)
    case Ok(operands) =>
      match Lookup(e.operator)
      case Err(err) => Err(err)
      case Ok(op) =>
        Answer(operands.roman, Apply(op, operands.first, operands.second))
  }

  /** calc's last step: a Roman answer needs a result of at least 1 and is
      written by toRoman; an Arabic one is written by String.valueOf. */
  function Answer(roman: bool, result: int): (r: Result<string>)
    ensures r.Err? <==> roman && result < 1
    ensures r.Err? ==> r.error == ResultBelowOne
    ensures r.Ok? && roman ==> Encode(result) == r
  {
    if roman then
      if result < 1 then Err(ResultBelowOne) else Encode(result)
    else
      Ok(ToDecimal(result))
  }

  /** What calc answers for an input line. */
  function Evaluate(input: string): Result<string> {
    match Parse(input)
    case Err(err) => Err(err)
    case Ok(e) => EvaluateExpression(e)
  }

  /** Parse once the first operator of the trimmed line is found at k. */
  lemma ParseAt(input: string, k: int)
    requires 0 <= k == FirstOperator(Trim(input))
    ensures var s := Trim(input);
      Parse(input) == Ok(Expression(Trim(s[..k]), s[k], Trim(s[k + 1..])))
  {
  }

  /** Evaluation of a split input goes on with its expression. */
  lemma EvaluateParsed(input: string, e: Expression)
    requires Parse(input) == Ok(e)
    ensures Evaluate(input) == EvaluateExpression(e)
  {
  }

  /** Evaluation of an expression whose operands and operator are read. */
  lemma EvaluateRead(e: Expression, operands: Operands, op: Operation)
    requires ReadOperands(e.left, e.right) == Ok(operands) && Lookup(e.operator) == Ok(op)
    requires op.Division? ==> operands.second != 0
    ensures EvaluateExpression(e) == Answer(operands.roman, Apply(op, operands.first, operands.second))
  {
  }

  /** An expression whose operands calc refuses is refused for that reason. */
  lemma RefusedOperands(input: string, e: Expression, err: Error)
    requires Parse(input) == Ok(e) && ReadOperands(e.left, e.right) == Err(err)
    ensures Evaluate(input) == Err(err)
  {
  }

  /** Main.calc, step by step. */
  method Calc(input: string) returns (r: Result<string>)
    ensures r == Evaluate(input)
  {
    var trimmed := Trim(input);
    var chars := ToCharArray(trimmed);
    var opIndex := FindOperator(chars);
    if opIndex == -1 {
      return Err(InvalidExpression);
    }
    var left := Trim(trimmed[..opIndex]);
    var right := Trim(trimmed[opIndex + 1..]);
    var operation := chars[opIndex];
    var e := Expression(left, operation, right);
    ParseAt(input, opIndex);
    EvaluateParsed(input, e);
    r := CalcExpression(e);
  }

  /** String.toCharArray: a fresh array holding the characters of s. */
  method ToCharArray(s: string) returns (chars: array<char>)
    ensures fresh(chars) && chars[..] == s
  {
    chars := new char[|s|](i requires 0 <= i < |s| => s[i]);
  }

  /** The rest of calc once the line is split: read the operands, switch
      over fromChar of the operator, write the answer. */
  method CalcExpression(e: Expression) returns (r: Result<string>)
    ensures r == EvaluateExpression(e)
  {
    var operands := ReadOperandValues(e.left, e.right);
    if operands.Err? {
      return Err(operands.error);
    }
    var result := Calculate(e.operator, operands.value.first, operands.value.second);
    if result.Err? {
      return Err(result.error);
    }
    EvaluateRead(e, operands.value, Lookup(e.operator).value);
    r := WriteAnswer(operands.value.roman, result.value);
  }

  /** calc's last step: toRoman for a Roman result of at least 1, String.valueOf
      for an Arabic one. */
  method WriteAnswer(roman: bool, result: int) returns (r: Result<string>)
    ensures r == Answer(roman, result)
  {
    if roman {
      if result < 1 {
        return Err(ResultBelowOne);
      }
      r := ToRoman(result);
    } else {
      r := Ok(ToDecimal(result));
    }
  }

  /** calc's operand checks as the source performs them: the notation test,
      then isValidRoman and toInt or Integer.parseInt, then the range test. */
  method ReadOperandValues(left: string, right: string) returns (r: Result<Operands>)
    ensures r == ReadOperands(left, right)
  {
    var isRoman := IsRoman(left) && IsRoman(right);
    var isArabic := IsArabic(left) && IsArabic(right);
    if !(isRoman || isArabic) {
      return Err(MixedOrInvalidFormat);
    }
    var num1, num2;
    if isRoman {
      if !IsValidRoman(left) || !IsValidRoman(right) {
        return Err(InvalidRomanNumeral);
      }
      num1 := ToInt(left);
      num2 := ToInt(right);
    } else {
      var parsed1 := ParseInt(left);
      if parsed1.Err? {
        return Err(parsed1.error);
      }
      var parsed2 := ParseInt(right);
      if parsed2.Err? {
        return Err(parsed2.error);
      }
      num1, num2 := parsed1.value, parsed2.value;
    }
    if num1 < 1 || num1 > 10 || num2 < 1 || num2 > 10 {
      return Err(OutOfRange);
    }
    return Ok(Operands(isRoman, num1, num2));
  }

  /** calc's switch over Operation.fromChar of the operator character. */
  method Calculate(operation: char, num1: int, num2: int) returns (r: Result<int>)
    requires num2 != 0
    ensures r.Ok? <==> IsOperatorSymbol(operation)
    ensures r.Ok? ==> r.value == Apply(Lookup(operation).value, num1, num2)
    ensures r.Err? ==> r.error == UnknownOperator
  {
    var op := FromChar(operation);
    match op {
      case Err(err) =>
        return Err(err);
      case Ok(Addition) =>
        return Ok(num1 + num2);
      case Ok(Subtraction) =>
        return Ok(num1 - num2);
      case Ok(Multiplication) =>
        return Ok(num1 * num2);
      case Ok(Division) =>
        return Ok(TruncDiv(num1, num2));
    }
  }
}
