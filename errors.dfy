/** Failures of the calculator. Every failure in the source is an
    IllegalArgumentException (NumberFormatException is one); the variant
    records which check raised it. */
module Errors {

  datatype Error =
    | UnknownOperator      // Operation.fromChar: no constant carries the symbol
    | NonPositive          // toRoman: the number is not greater than 0
    | InvalidExpression    // calc: no operator character in the input
    | MixedOrInvalidFormat // calc: operands are neither both Roman nor both Arabic
    | InvalidRomanNumeral  // calc: a Roman operand fails the numeral grammar
    | InvalidNumber        // calc: Integer.parseInt overflows
    | OutOfRange           // calc: an operand lies outside 1..10
    | ResultBelowOne       // calc: a Roman-mode result is below 1

  datatype Result<T> = Ok(value: T) | Err(error: Error)
}
