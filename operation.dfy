/** The Operation enum: four arithmetic operations, each tagged with its symbol. */
module Operations {
  import opened Errors

  datatype Operation = Addition | Subtraction | Multiplication | Division {
    /** The symbol the enum constant is constructed with. */
    function Symbol(): char {
      match this
      case Addition => '+'
      case Subtraction => '-'
      case Multiplication => '*'
      case Division => '/'
    }
  }

  /** Operation.values(), in declaration order. */
  const Values: seq<Operation> := [Addition, Subtraction, Multiplication, Division]

  predicate IsOperatorSymbol(c: char) {
    c == '+' || c == '-' || c == '*' || c == '/'
  }

  /** What fromChar answers for a symbol: the constant carrying it, or UnknownOperator. */
  function Lookup(symbol: char): (r: Result<Operation>)
    ensures r.Ok? <==> IsOperatorSymbol(symbol)
    ensures r.Ok? ==> r.value.Symbol() == symbol
    ensures r.Err? ==> r.error == UnknownOperator
  {
    if symbol == '+' then Ok(Addition)
    else if symbol == '-' then Ok(Subtraction)
    else if symbol == '*' then Ok(Multiplication)
    else if symbol == '/' then Ok(Division)
    else Err(UnknownOperator)
  }

  /** Every constant is found again from its own symbol, so no two constants share one. */
  lemma LookupSymbol(op: Operation)
    ensures Lookup(op.Symbol()) == Ok(op)
  {
  }

  /** Operation.fromChar: scans values() for the first constant whose symbol matches. */
  method FromChar(symbol: char) returns (r: Result<Operation>)
    ensures r == Lookup(symbol)
  {
    for i := 0 to |Values|
      invariant forall j | 0 <= j < i :: Values[j].Symbol() != symbol
    {
      if Values[i].Symbol() == symbol {
        return Ok(Values[i]);
      }
    }
    assert Values[0].Symbol() != symbol && Values[1].Symbol() != symbol;
    assert Values[2].Symbol() != symbol && Values[3].Symbol() != symbol;
    return Err(UnknownOperator);
  }

  function Abs(x: int): nat {
    if x < 0 then -x else x
  }

  /** Java's int division: the quotient is truncated toward zero, so the
      remainder a - b * q is zero or has the sign of a, and is smaller than b
      in magnitude (Euclidean `/` differs when a < 0). */
  function TruncDiv(a: int, b: int): (q: int)
    requires b != 0
    ensures Abs(a - b * q) < Abs(b)
    ensures a - b * q == 0 || (a - b * q < 0 <==> a < 0)
  {
    var p, d := Abs(a), Abs(b);
    var q0, m := p / d, p % d;
    assert p == d * q0 + m && 0 <= m < d;
    var q := if (a < 0) == (b < 0) then q0 else -q0;
    MulSigns(d, q0);
    assert b * q == if a < 0 then -(d * q0) else d * q0;
    q
  }

  /** Negating a factor negates the product. */
  lemma MulSigns(x: int, y: int)
    ensures (-x) * y == -(x * y) && x * (-y) == -(x * y) && (-x) * (-y) == x * y
  {
  }

  /** On a non-negative dividend and a positive divisor, truncation and
      Dafny's Euclidean division agree. */
  lemma TruncDivNonNegative(a: int, b: int)
    requires a >= 0 && b > 0
    ensures TruncDiv(a, b) == a / b
  {
  }

  /** The arm of calc's switch selected by op. */
  function Apply(op: Operation, a: int, b: int): int
    requires op.Division? ==> b != 0
  {
    match op
    case Addition => a + b
    case Subtraction => a - b
    case Multiplication => a * b
    case Division => TruncDiv(a, b)
  }
}
