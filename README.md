# calc: a Roman and Arabic numeral calculator, in Dafny

The calculator reads one binary expression such as `3+4`, `X-I` or ` 7 / 2 `.
Its two operands are both Arabic (decimal digits) or both Roman (letters
IVXLCDM) and each must lie in 1..10. It answers with the result, written in the
operands' notation. This project models its core, all in `srs/Main.java`:

- the `Operation` enum and its lookup `fromChar`;
- the `RomanNumeral` class: the two lookup tables, the positional decoder
  `toInt`, the greedy encoder `toRoman` and the grammar check `isValidRoman`;
- `Main.calc` with its helpers `isRoman` and `isArabic`.

The layout follows the source:

| file | module | models |
|---|---|---|
| `errors.dfy` | `Errors` | each `IllegalArgumentException` (and parseInt's `NumberFormatException`) as a variant of `Error`; `Result` |
| `operation.dfy` | `Operations` | the enum, `fromChar` as a loop over `values()`, Java's truncating `int` division |
| `roman.dfy` | `RomanNumeral` | the tables, `toInt` and `toRoman` as loops, the grammar as recursive predicates |
| `roman_proofs.dfy` | `RomanProofs` | `toInt` agrees with the textbook subtractive reading; the value of a canonical numeral |
| `roman_round_trip.dfy` | `RomanRoundTrip` | `toRoman` and `toInt` are inverse on 1..4999; `isValidRoman` accepts exactly `toRoman`'s outputs there, plus the empty string |
| `calculator.dfy` | `Calculator` | `String.trim`, the operator scan over a `char[]`, `isRoman`, `isArabic`, `Integer.parseInt`, `String.valueOf`, and `calc` as a method proved equal to the function `Evaluate` |
| `calculator_proofs.dfy` | `CalculatorProofs` | which inputs `calc` accepts, what it answers, and which error each bad input gets |
| `calculator_examples.dfy` | `CalculatorExamples` | `calc` on particular lines |

The imperative parts of the source are Dafny methods with loop invariants:
`fromChar`, `toInt`, `toRoman`'s nested loops, `calc`'s operator scan and
`calc` itself. Each is proved equal to a function, and the properties are proved
about those functions: `Lookup`, `PositionalValue`, `Encode`/`Greedy`,
`FirstOperator` and `Evaluate`. Regular expressions become predicates:
`[IVXLCDM]+` is `IsRoman`, `\d+` is `IsArabic`. The anchored numeral pattern is
`IsValidRoman`, which holds when the string splits into four consecutive pieces
matching `M{0,4}`, `(CM|CD|D?C{0,3})`, `(XC|XL|L?X{0,3})` and `(IX|IV|V?I{0,3})`.
`int` is unbounded here. Where Java's 32-bit `int` matters, the model says so
explicitly: `Integer.parseInt` refuses values above `Integer.MAX_VALUE`, and
`/` truncates toward zero. Before the range test an operand is at most 4999
(Roman; `toInt` of `MMMM` is already 4000) or `Integer.MAX_VALUE` (Arabic), and
no arithmetic is done on it. After the range test every result lies in -9..100
(`CalculatorProofs.ApplyBounds`), so no `int` arithmetic in calc can overflow.

Two facts about `isValidRoman` that are easy to miss:
- `isValidRoman("")` is true, because every part of the pattern can match
  nothing. calc still refuses an empty operand, because `isRoman` needs at
  least one letter.
- `isValidRoman` accepts every canonical numeral of 1..4999, not only I..X.
  The range test is what limits Roman operands to I..X.

## Model

| member | source | states |
|---|---|---|
| Operations.Lookup | srs/Main.java:6-24 | an operation is found exactly for + - * /, it carries the symbol asked for, and any other character fails with UnknownOperator |
| Operations.LookupSymbol | srs/Main.java:7-13 | each constant is found again from its own symbol, so the four symbols are distinct |
| Operations.FromChar | srs/Main.java:16-23 | the scan over values() returns what Lookup specifies |
| Operations.TruncDiv | srs/Main.java:161 | Java's int quotient: the remainder a - b*q is smaller than b in magnitude, and is zero or has the sign of a |
| Operations.TruncDivNonNegative | srs/Main.java:161 | for a non-negative dividend and a positive divisor the truncated quotient is the Euclidean one |
| Operations.Apply | srs/Main.java:157-163 | the switch's arms, with truncating division; ApplyBounds keeps every result for operands of 1..10 in -9..100 |
| RomanNumeral.TableEntriesInIntToRoman | srs/Main.java:44-56 | every pair of the descending key list is an entry of intToRoman |
| RomanNumeral.TableCoversIntToRoman | srs/Main.java:44-56 | every key of intToRoman occurs in the list |
| RomanNumeral.TableDescending | srs/Main.java:82 | the list's keys strictly descend, the order of the sorted key array |
| RomanNumeral.ToInt | srs/Main.java:60-72 | the loop's sum equals the sum over all positions of the letter's value, less twice the previous letter's value where that one is smaller |
| RomanNumeral.ToRoman | srs/Main.java:75-92 | fails with NonPositive for number <= 0; otherwise returns the greedy concatenation of symbol groups over the descending keys |
| RomanNumeral.GreedyLetters | srs/Main.java:80-91 | the greedy pass writes only letters drawn from the symbol groups of the keys it visits |
| RomanNumeral.Encode | srs/Main.java:75-92 | toRoman fails, with NonPositive, exactly for number <= 0, and otherwise answers a string of Roman letters; its value and round trip are EncodeValue, RoundTrip and EncodeValidUpTo4999 |
| RomanNumeral.IsValidRoman | srs/Main.java:95-97 | the anchored pattern as a split into four pieces; what it accepts is pinned down by ValidIsNumeral and NumeralIsValid (exactly the canonical renderings with at most four M), DecodeRoundTrip and EncodeValidUpTo4999 |
| RomanProofs.SubtractiveSnoc | srs/Main.java:64-68 | appending a letter to a numeral changes its textbook value by exactly toInt's contribution for that position |
| RomanProofs.PositionalIsSubtractive | srs/Main.java:60-72 | on every string of Roman letters, toInt's subtract-twice correction equals the textbook reading where a letter counts negatively when a larger one follows |
| RomanProofs.ValueConcat | srs/Main.java:60-72 | values add across a boundary where the letters do not increase |
| RomanProofs.AtMostIsRep | srs/Main.java:96 | `c{0,k}` matches exactly the runs of at most k copies of c |
| RomanProofs.RepValue | srs/Main.java:60-72 | a run of k copies of a letter is worth k times its value |
| RomanProofs.DigitInGroup | srs/Main.java:96 | the canonical rendering of each decimal digit matches its part of the pattern |
| RomanProofs.GroupIsDigit | srs/Main.java:96 | each string a part of the pattern matches is the canonical rendering of exactly one digit |
| RomanProofs.DigitValue | srs/Main.java:60-72 | the rendering of digit d is worth d units |
| RomanProofs.DigitLetters | srs/Main.java:96 | a digit's rendering uses only the letters for one, five and ten units |
| RomanProofs.JoinValue | srs/Main.java:60-72 | joining larger-letter and smaller-letter renderings adds their values |
| RomanProofs.NumeralValue | srs/Main.java:60-72 | the rendering with a thousands, h hundreds, t tens and u units is worth 1000a + 100h + 10t + u |
| RomanRoundTrip.ThousandsRun | srs/Main.java:85-90 | toRoman writes one M per full thousand before moving to the next key |
| RomanRoundTrip.OnesRun | srs/Main.java:85-90 | the loop on a unit key writes one copy of its letter per unit |
| RomanRoundTrip.DecadeRun | srs/Main.java:85-90 | over the keys 9u, 5u, 4u and u, toRoman writes exactly the canonical rendering of the digit |
| RomanRoundTrip.DecadeNine | srs/Main.java:85-90 | digit 9 is written as one-ten |
| RomanRoundTrip.DecadeFive | srs/Main.java:85-90 | digits 5..8 are written as five followed by ones |
| RomanRoundTrip.DecadeFour | srs/Main.java:85-90 | digit 4 is written as one-five |
| RomanRoundTrip.DecadeLow | srs/Main.java:85-90 | digits 0..3 are written as that many ones |
| RomanRoundTrip.TableDecades | srs/Main.java:44-56 | the key list starts with (1000, M) and holds the 9-5-4-1 decades for hundreds, tens and units |
| RomanRoundTrip.EncodeDigits | srs/Main.java:75-92 | toRoman's output is the thousands as M's followed by the canonical hundreds, tens and units digits |
| RomanRoundTrip.EncodeFromDigits | srs/Main.java:75-92 | toRoman of a positive number spelled by its digits is the rendering of those digits |
| RomanRoundTrip.ValidIsNumeral | srs/Main.java:95-97 | every string isValidRoman accepts is the rendering of at most four thousands and three digits |
| RomanRoundTrip.SplitIsNumeral | srs/Main.java:95-97 | any split matching the pattern is read as such a rendering |
| RomanRoundTrip.NumeralIsValid | srs/Main.java:95-97 | every such rendering is accepted by isValidRoman |
| RomanRoundTrip.RoundTrip | srs/Main.java:60-97 | for 1 <= n <= 4999, toRoman(n) is accepted by isValidRoman and toInt reads back n |
| RomanRoundTrip.EncodeValue | srs/Main.java:60-92 | for every n >= 1, not only up to 4999, toInt reads toRoman(n) back as n: the greedy pass uses the whole number up |
| RomanRoundTrip.DecodeRoundTrip | srs/Main.java:60-97 | a string accepted by isValidRoman is worth 0..4999, is worth 0 exactly when empty, and otherwise toRoman writes it back unchanged |
| RomanRoundTrip.EncodeValidUpTo4999 | srs/Main.java:75-97 | for n >= 1, isValidRoman(toRoman(n)) holds if and only if n <= 4999 |
| RomanRoundTrip.NonCanonicalRejected | srs/Main.java:95-97 | a non-empty string of letters that toRoman would not write for its own value is rejected |
| RomanRoundTrip.DecodeExamples | srs/Main.java:60-72 | toInt reads IV as 4, IX as 9 and X as 10 |
| RomanRoundTrip.GrammarAcceptsEmpty | srs/Main.java:96 | the pattern accepts the empty string |
| RomanRoundTrip.GrammarAcceptsLargest | srs/Main.java:96 | the pattern accepts MMMMCMXCIX |
| RomanRoundTrip.GrammarRejectsRepeat | srs/Main.java:96 | the pattern rejects IIII |
| RomanRoundTrip.GrammarRejectsFiveSubtracted | srs/Main.java:96 | the pattern rejects VX |
| RomanRoundTrip.GrammarRejectsWideSubtraction | srs/Main.java:96 | the pattern rejects IC |
| RomanRoundTrip.GrammarRejectsOutsideAlphabetAndRange | srs/Main.java:96 | the pattern rejects lower-case iv and five M's |
| Calculator.TrimStart | srs/Main.java:104 | removes exactly a prefix of characters <= ' ', leaving a string that is empty or starts with a non-blank |
| Calculator.TrimEnd | srs/Main.java:104 | removes exactly a suffix of characters <= ' ', leaving a string that is empty or ends with a non-blank |
| Calculator.Trim | srs/Main.java:104 | String.trim, TrimEnd after TrimStart; TrimStart and TrimEnd say what is cut, TrimShape and TrimIdempotent what is left |
| Calculator.IsRoman | srs/Main.java:177-179 | `[IVXLCDM]+`: one or more Roman letters; LettersUnblanked and DigitsUnblanked show the two notations are disjoint and free of operators and blanks |
| Calculator.IsArabic | srs/Main.java:182-184 | `\d+`: one or more decimal digits; ParseInt and ParseIntRoundTrip read them, DigitsUnblanked separates them from Roman letters |
| Calculator.ParseInt | srs/Main.java:147-148 | on a digit string, succeeds exactly when its value is at most Integer.MAX_VALUE, with that value, and fails with InvalidNumber otherwise |
| Calculator.NatToDecimal | srs/Main.java:172 | writes a digit string without a leading zero |
| Calculator.ToDecimal | srs/Main.java:172 | String.valueOf(int): a non-negative x is written as digits worth x, a negative one as a minus sign followed by digits worth -x, in both cases without a leading zero (only 0 itself is written "0") |
| Calculator.FirstOperator | srs/Main.java:108-115 | -1 when there is no operator character, else the index of one with none before it |
| Calculator.FindOperator | srs/Main.java:105-115 | the scan over the char array returns FirstOperator of its contents |
| Calculator.FirstOperatorIsUnique | srs/Main.java:108-115 | FirstOperator's contract determines its result |
| Calculator.Parse | srs/Main.java:104-124 | fails with InvalidExpression exactly when the trimmed line has no operator; otherwise the split's operator is one of + - * / |
| Calculator.ParseAt | srs/Main.java:117-124 | once the first operator is found at k, the operands are the trimmed text before and after k |
| Calculator.ReadOperands | srs/Main.java:126-152 | fails with MixedOrInvalidFormat exactly when the operands are not both Roman or both Arabic; every other failure is InvalidRomanNumeral, InvalidNumber or OutOfRange; on success both values are in 1..10, Roman mode is chosen exactly when both are Roman, and the values are toInt of well-formed numerals or the decimal values |
| Calculator.Answer | srs/Main.java:165-173 | fails, with ResultBelowOne, exactly for a Roman result below 1; a Roman answer is toRoman's |
| Calculator.Calc | srs/Main.java:103-174 | the step-by-step calc (trim, toCharArray, scan, split, then CalcExpression) answers Evaluate for every input line |
| Calculator.ToCharArray | srs/Main.java:105 | String.toCharArray: a fresh array holding exactly the characters of the trimmed line |
| Calculator.CalcExpression | srs/Main.java:126-173 | reading the operands, the switch and the answer, step by step, give EvaluateExpression of the split line |
| Calculator.Evaluate | srs/Main.java:103-174 | what calc answers for a line; Calc is proved equal to it, and its properties are NoOperatorRejected, FormatRule, EvaluateExpressionErrors, EvaluateNeverUnknownOrNonPositive, RomanAnswer, ArabicAnswer, RomanAccepted, ArabicAccepted and the refusal lemmas |
| Calculator.ReadOperandValues | srs/Main.java:127-152 | the checks in calc's order, calling toInt and parseInt, give ReadOperands |
| Calculator.WriteAnswer | srs/Main.java:165-172 | the step-by-step answer equals Answer: ResultBelowOne for a Roman result below 1, toRoman's output for other Roman results, String.valueOf otherwise |
| Calculator.Calculate | srs/Main.java:157-163 | the switch over fromChar succeeds exactly for the four symbols, with the operation's result, and fails with UnknownOperator otherwise |
| CalculatorProofs.TrimUnblanked | srs/Main.java:104 | a string with no blank at either end is its own trim |
| CalculatorProofs.TrimIdempotent | srs/Main.java:104 | trimming twice is trimming once |
| CalculatorProofs.TrimShape | srs/Main.java:104 | the trimmed string is no longer than the input, starts and ends with a non-blank unless empty, and is empty exactly when every character is a blank |
| Calculator.DigitsValueSnoc | srs/Main.java:147-148 | appending a digit multiplies the value by ten and adds the digit |
| Calculator.DecimalRoundTrip | srs/Main.java:172 | reading back what String.valueOf writes gives the number |
| CalculatorProofs.ZeroValueLeadingZero | srs/Main.java:147-148 | a digit string worth 0 starts with 0 |
| CalculatorProofs.DecimalCanonical | srs/Main.java:172 | a digit string without leading zeros is written back unchanged from its value |
| CalculatorProofs.ParseIntRoundTrip | srs/Main.java:147-148 | parseInt accepts every non-negative int String.valueOf writes, with its value |
| CalculatorProofs.FirstOperatorAfter | srs/Main.java:108-115 | the scan stops at the first operator after operator-free text |
| CalculatorProofs.NoOperatorRejected | srs/Main.java:117-119 | calc fails with InvalidExpression if and only if the trimmed line has no operator character |
| CalculatorProofs.EvaluateExpressionErrors | srs/Main.java:126-173 | after the split, the only failures are MixedOrInvalidFormat, InvalidRomanNumeral, InvalidNumber, OutOfRange and ResultBelowOne |
| CalculatorProofs.EvaluateNeverUnknownOrNonPositive | srs/Main.java:157-170 | calc never fails with UnknownOperator or with toRoman's NonPositive: both throws are unreachable |
| CalculatorProofs.FormatRule | srs/Main.java:127-132 | after the split, calc fails with MixedOrInvalidFormat if and only if the operands are not both Roman or both Arabic |
| CalculatorProofs.RomanAnswer | srs/Main.java:137-170 | a Roman answer is a well-formed numeral whose value is the operation applied to the values of two well-formed operands in 1..10 |
| CalculatorProofs.ArabicAnswer | srs/Main.java:146-172 | an Arabic answer is exactly String.valueOf of the operation applied to two operands in 1..10: digits without a leading zero, with a minus sign when negative, of a result in -9..100 |
| CalculatorProofs.ApplyBounds | srs/Main.java:157-163 | on operands in 1..10 each operation's result is in -9..100, and addition and multiplication give at least 1 |
| CalculatorProofs.RomanOperandAccepted | srs/Main.java:137-145 | a Roman operand passes calc's checks if and only if it is toRoman(k) for some k in 1..10 |
| CalculatorProofs.LettersUnblanked | srs/Main.java:177-179 | a Roman operand has no operator or blank character |
| CalculatorProofs.DigitsUnblanked | srs/Main.java:182-184 | an Arabic operand has no operator or blank character and is not Roman |
| CalculatorProofs.ParseTrimsOperands | srs/Main.java:104-124 | text free of operators, then an operator, then text, splits at that operator into the two trimmed sides |
| CalculatorProofs.ParseJoined | srs/Main.java:104-124 | two operands without blanks joined by an operator split back into themselves |
| CalculatorProofs.ReadArabic | srs/Main.java:146-152 | two decimal operands of 1..10 are read as Arabic with their values |
| CalculatorProofs.ReadRoman | srs/Main.java:137-145 | two well-formed numerals of 1..10 are read as Roman with their values |
| CalculatorProofs.ArabicAccepted | srs/Main.java:103-174 | every expression of two decimal numbers of 1..10 is answered with the decimal of the result |
| CalculatorProofs.RomanAccepted | srs/Main.java:103-174 | every expression of two numerals of I..X is answered with toRoman of the result, or ResultBelowOne when it is below 1 |
| CalculatorProofs.OuterBlanksIgnored | srs/Main.java:104 | blanks around the whole line never change the answer |
| CalculatorProofs.MixedRefused | srs/Main.java:127-132 | operands that are not both Roman or both Arabic are refused with MixedOrInvalidFormat |
| CalculatorProofs.EmptyOperandRefused | srs/Main.java:127-132 | an empty operand is refused with MixedOrInvalidFormat |
| CalculatorProofs.LeadingOperatorRefused | srs/Main.java:110-132 | a line starting with an operator, such as a leading minus sign, has an empty left operand and is refused with MixedOrInvalidFormat |
| CalculatorProofs.LeadingOperatorParse | srs/Main.java:110-124 | a line starting with an operator splits with an empty left side |
| CalculatorProofs.EmptyOperandEvaluated | srs/Main.java:127-132 | a split with an empty side is refused with MixedOrInvalidFormat |
| CalculatorProofs.RomanOutOfRangeRefused | srs/Main.java:143-145 | well-formed Roman operands not both worth 1..10 are refused with OutOfRange |
| CalculatorProofs.RomanMalformedRefused | srs/Main.java:138-140 | Roman operands of which one breaks the grammar are refused with InvalidRomanNumeral |
| CalculatorProofs.ArabicOutOfRangeRefused | srs/Main.java:149-151 | decimal operands that fit in an int but are not both in 1..10 are refused with OutOfRange |
| CalculatorProofs.ArabicOverflowRefused | srs/Main.java:147-148 | a decimal operand above Integer.MAX_VALUE is refused with InvalidNumber |
| CalculatorExamples.AddArabic | srs/Main.java:158-172 | 3+4 is 7 |
| CalculatorExamples.SubtractArabicBelowZero | srs/Main.java:159-172 | 1-10 is -9 |
| CalculatorExamples.DivideArabic | srs/Main.java:161 | 7/2 is 3 |
| CalculatorExamples.DivideArabicEvenly | srs/Main.java:161 | 10/2 is 5 |
| CalculatorExamples.SubtractRoman | srs/Main.java:159-170 | X-I is IX |
| CalculatorExamples.MultiplyRoman | srs/Main.java:160-170 | V*II is X |
| CalculatorExamples.RomanBelowOne | srs/Main.java:167-169 | I-I fails with ResultBelowOne |
| CalculatorExamples.ArabicOutOfRange | srs/Main.java:149-151 | 0+1 fails with OutOfRange |
| CalculatorExamples.ArabicOverflow | srs/Main.java:147 | Integer.MAX_VALUE + 1 followed by +1 fails with InvalidNumber |
| CalculatorExamples.RomanOutOfRange | srs/Main.java:143-145 | XI+I fails with OutOfRange |
| CalculatorExamples.RomanMalformed | srs/Main.java:138-140 | IIII+I fails with InvalidRomanNumeral |
| CalculatorExamples.MixedNotations | srs/Main.java:130-132 | I+3 fails with MixedOrInvalidFormat |
| CalculatorExamples.NeitherNotation | srs/Main.java:130-132 | abc+def fails with MixedOrInvalidFormat |
| CalculatorExamples.LeadingMinus | srs/Main.java:110-132 | -5+3 fails with MixedOrInvalidFormat |
| CalculatorExamples.NoOperator | srs/Main.java:117-119 | XV fails with InvalidExpression |

## Left out

- `Main.main` (srs/Main.java:187-198): it reads from the console with a `Scanner` and prints the answer or the exception's message. Console I/O is not modelled.
- The message texts of the exceptions. Each throw is one `Error` variant. calc's two range messages are both `OutOfRange`. `Integer.parseInt`'s `NumberFormatException` is `InvalidNumber`.
- `HashMap` internals, and the stream that sorts the key set (srs/Main.java:82). The table is a constant list of 13 pairs. The lemmas prove it holds the same entries as `intToRoman`, in descending order.
- Java's regular-expression engine. The three patterns are hand-written predicates with the same acceptance.
- `RomanNumeral.ToInt`: requires every character to be a Roman letter. In Java, any other character makes `romanToInt.get` return null and the unboxing throws `NullPointerException`. calc only calls `toInt` after `isRoman`, so this never happens there.
- `RomanNumeral.ToInt`: does not model 32-bit wrap-around of `result`. It would need a string of over two million M's, far outside what calc passes (`isValidRoman` allows at most 4999).
- `Calculator.ParseInt`: does not model a sign character. `Integer.parseInt` accepts a leading + or -, but calc only calls it on strings that `isArabic` accepts, which have none.
- `Operations.Apply`: does not model `int` overflow. With both operands in 1..10, every result is in -9..100.
- The switch's `default` branch (srs/Main.java:162). `Calculate` matches over the four constants, which is exhaustive, so the branch has no counterpart. `fromChar`'s own throw for an unknown symbol is kept: `CalcExpression` passes it on as `UnknownOperator`, and `EvaluateNeverUnknownOrNonPositive` shows that calc never reaches it.
- `String.trim` is modelled on Dafny's `char`. It strips every character up to and including U+0020, as Java does; surrogate pairs and other Unicode details are not modelled.
