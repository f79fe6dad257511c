/** toInt against the textbook reading of Roman numerals: the two agree on
    every string of letters. Also the canonical rendering of a number by its
    decimal digits, which parts of the numeral pattern each digit matches,
    and what the rendering is worth. */
module RomanProofs {
  import opened RomanNumeral

  /** The textbook reading: a letter counts negatively exactly when the
      letter right after it is larger, and positively otherwise. */
  function SubtractiveValue(s: string): int
    requires IsLetters(s)
  {
    if s == [] then 0
    else
      (if |s| > 1 && SymbolValues[s[0]] < SymbolValues[s[1]] then -SymbolValues[s[0]] else SymbolValues[s[0]])
      + SubtractiveValue(s[1..])
  }

  /** Appending one letter adds its value, and flips the sign of the former
      last letter when that one is smaller. */
  lemma {:induction false} SubtractiveSnoc(s: string, c: char)
    requires IsLetters(s) && c in SymbolValues
    ensures IsLetters(s + [c])
    ensures SubtractiveValue(s + [c]) == SubtractiveValue(s) + SymbolValues[c]
      - (if |s| > 0 && SymbolValues[s[|s| - 1]] < SymbolValues[c] then 2 * SymbolValues[s[|s| - 1]] else 0)
  {
    if |s| == 0 {
      assert s + [c] == [c];
    } else if |s| == 1 {
      assert (s + [c])[1..] == [c] && [c][1..] == [] && s[1..] == [];
    } else {
      assert (s + [c])[1..] == s[1..] + [c];
      SubtractiveSnoc(s[1..], c);
    }
  }

  /** toInt's subtract-twice correction yields the textbook value on every
      string of Roman letters, well-formed or not ("IIV" gives 5 both ways). */
  lemma {:induction false} PositionalIsSubtractive(s: string)
    requires IsLetters(s)
    ensures PositionalValue(s) == SubtractiveValue(s)
  {
    if s != [] {
      var p := s[..|s| - 1];
      PositionalIsSubtractive(p);
      SubtractiveSnoc(p, s[|s| - 1]);
      assert p + [s[|s| - 1]] == s;
    }
  }

  /** No letter of b is larger than any letter of a. */
  predicate Dominates(a: string, b: string)
    requires IsLetters(a) && IsLetters(b)
  {
    forall i, j | 0 <= i < |a| && 0 <= j < |b| :: SymbolValues[a[i]] >= SymbolValues[b[j]]
  }

  /** Values add up across a boundary where the letters do not increase. */
  lemma {:induction false} ValueConcat(a: string, b: string)
    requires IsLetters(a) && IsLetters(b) && Dominates(a, b)
    ensures IsLetters(a + b)
    ensures SubtractiveValue(a + b) == SubtractiveValue(a) + SubtractiveValue(b)
  {
    if a == [] {
      assert a + b == b;
    } else {
      assert (a + b)[1..] == a[1..] + b;
      ValueConcat(a[1..], b);
      if |a| == 1 && |b| > 0 {
        assert (a + b)[1] == b[0];
      }
    }
  }

  /** k copies of c. */
  function Rep(c: char, k: nat): (r: string)
    ensures |r| == k
  {
    if k == 0 then [] else [c] + Rep(c, k - 1)
  }

  lemma {:induction false} RepAt(c: char, k: nat, i: nat)
    requires i < k
    ensures Rep(c, k)[i] == c
  {
    if i > 0 {
      RepAt(c, k - 1, i - 1);
    }
  }

  /** c{0,k} accepts exactly the strings of at most k copies of c. */
  lemma {:induction false} AtMostIsRep(p: string, c: char, k: nat)
    ensures AtMost(p, c, k) <==> |p| <= k && p == Rep(c, |p|)
  {
    if p != [] && k > 0 {
      AtMostIsRep(p[1..], c, k - 1);
      assert p == [p[0]] + p[1..];
    }
  }

  lemma {:induction false} RepValue(c: char, k: nat)
    requires c in SymbolValues
    ensures IsLetters(Rep(c, k)) && SubtractiveValue(Rep(c, k)) == k * SymbolValues[c]
  {
    if k > 0 {
      RepValue(c, k - 1);
      var r := Rep(c, k);
      assert r[1..] == Rep(c, k - 1);
      if k > 1 {
        RepAt(c, k - 1, 0);
      }
    }
  }

  /** The canonical rendering of the decimal digit d in one position of the
      grammar, given the letters for one, five and ten units of it. */
  function Digit(d: nat, one: char, five: char, ten: char): string
    requires d <= 9
  {
    if d == 9 then [one, ten]
    else if d >= 5 then [five] + Rep(one, d - 5)
    else if d == 4 then [one, five]
    else Rep(one, d)
  }

  /** The digit a group of the grammar stands for. */
  function DigitOf(p: string, one: char, five: char, ten: char): nat {
    if p == [one, ten] then 9
    else if p == [one, five] then 4
    else if |p| > 0 && p[0] == five then 5 + |p| - 1
    else |p|
  }

  /** Each digit's rendering matches the group's pattern. */
  lemma DigitInGroup(d: nat, one: char, five: char, ten: char)
    requires d <= 9
    ensures Group(Digit(d, one, five, ten), one, five, ten)
  {
    var p := Digit(d, one, five, ten);
    if d == 9 || d == 4 {
    } else if d >= 5 {
      AtMostIsRep(p[1..], one, 3);
      assert p[1..] == Rep(one, d - 5);
    } else {
      AtMostIsRep(p, one, 3);
    }
  }

  /** Each string the group's pattern accepts is the rendering of one digit. */
  lemma GroupIsDigit(p: string, one: char, five: char, ten: char)
    requires one != five && one != ten
    requires Group(p, one, five, ten)
    ensures DigitOf(p, one, five, ten) <= 9
    ensures Digit(DigitOf(p, one, five, ten), one, five, ten) == p
  {
    AtMostIsRep(p, one, 3);
    if p == [one, ten] || p == [one, five] {
    } else if |p| > 0 && p[0] == five {
      AtMostIsRep(p[1..], one, 3);
      assert p == [five] + p[1..];
    } else {
      assert AtMost(p, one, 3);
    }
  }

  /** A rendered digit is worth d units, given the letters' values. */
  lemma DigitValue(d: nat, one: char, five: char, ten: char, unit: int)
    requires d <= 9
    requires one in SymbolValues && five in SymbolValues && ten in SymbolValues
    requires 0 < unit == SymbolValues[one]
    requires SymbolValues[five] == 5 * unit && SymbolValues[ten] == 10 * unit
    ensures IsLetters(Digit(d, one, five, ten))
    ensures SubtractiveValue(Digit(d, one, five, ten)) == d * unit
  {
    var p := Digit(d, one, five, ten);
    if d == 9 || d == 4 {
      var q := if d == 9 then ten else five;
      assert p == [one, q] && p[1..] == [q] && [q][1..] == [];
      assert SubtractiveValue([q]) == SymbolValues[q];
    } else if d >= 5 {
      RepValue(one, d - 5);
      assert p[1..] == Rep(one, d - 5);
      if d > 5 {
        RepAt(one, d - 5, 0);
      }
    } else {
      RepValue(one, d);
    }
  }

  /** The rendering of a number with a thousands, h hundreds, t tens and u units. */
  function Numeral(a: nat, h: nat, t: nat, u: nat): string
    requires h <= 9 && t <= 9 && u <= 9
  {
    Rep('M', a) + Digit(h, 'C', 'D', 'M') + Digit(t, 'X', 'L', 'C') + Digit(u, 'I', 'V', 'X')
  }

  /** Every letter of s is worth between lo and hi. */
  predicate Within(s: string, lo: int, hi: int) {
    IsLetters(s) && forall i | 0 <= i < |s| :: lo <= SymbolValues[s[i]] <= hi
  }

  lemma WithinConcat(a: string, b: string, lo: int, hi: int)
    requires Within(a, lo, hi) && Within(b, lo, hi)
    ensures Within(a + b, lo, hi)
  {
    assert forall i | 0 <= i < |a + b| :: (a + b)[i] == if i < |a| then a[i] else b[i - |a|];
  }

  lemma WithinDominates(a: string, b: string, lo: int, k: int, hi: int)
    requires Within(a, k, hi) && Within(b, lo, k)
    ensures Dominates(a, b)
  {
  }

  lemma DigitLetters(d: nat, one: char, five: char, ten: char)
    requires d <= 9 && one in SymbolValues && five in SymbolValues && ten in SymbolValues
    requires SymbolValues[one] <= SymbolValues[five] <= SymbolValues[ten]
    ensures Within(Digit(d, one, five, ten), SymbolValues[one], SymbolValues[ten])
  {
    var p := Digit(d, one, five, ten);
    forall i | 0 <= i < |p|
      ensures p[i] == one || p[i] == five || p[i] == ten
    {
      if d < 4 {
        RepAt(one, d, i);
      } else if 5 <= d < 9 && i > 0 {
        assert p[i] == Rep(one, d - 5)[i - 1];
        RepAt(one, d - 5, i - 1);
      }
    }
  }

  /** Joining a string of larger letters to one of smaller letters adds the values. */
  lemma JoinValue(a: string, b: string, lo: int, k: int, hi: int)
    requires Within(a, k, hi) && Within(b, lo, k) && lo <= k <= hi
    ensures Within(a + b, lo, hi)
    ensures SubtractiveValue(a + b) == SubtractiveValue(a) + SubtractiveValue(b)
  {
    WithinDominates(a, b, lo, k, hi);
    ValueConcat(a, b);
    assert Within(a, lo, hi);
    WithinConcat(a, b, lo, hi);
  }

  lemma NumeralParts(a: nat, h: nat, t: nat, u: nat)
    requires h <= 9 && t <= 9 && u <= 9
    ensures Numeral(a, h, t, u)
      == Rep('M', a) + (Digit(h, 'C', 'D', 'M') + (Digit(t, 'X', 'L', 'C') + Digit(u, 'I', 'V', 'X')))
  {
  }

  /** A numeral's value is the number its digits spell. */
  lemma NumeralValue(a: nat, h: nat, t: nat, u: nat)
    requires h <= 9 && t <= 9 && u <= 9
    ensures IsLetters(Numeral(a, h, t, u))
    ensures PositionalValue(Numeral(a, h, t, u)) == 1000 * a + 100 * h + 10 * t + u
  {
    var m, c, x, i := Rep('M', a), Digit(h, 'C', 'D', 'M'), Digit(t, 'X', 'L', 'C'), Digit(u, 'I', 'V', 'X');
    NumeralParts(a, h, t, u);
    assert Within(m, 1000, 1000) && SubtractiveValue(m) == 1000 * a by {
      RepValue('M', a);
      forall k | 0 <= k < a ensures m[k] == 'M' { RepAt('M', a, k); }
    }
    assert Within(c, 100, 1000) && SubtractiveValue(c) == 100 * h by {
      DigitValue(h, 'C', 'D', 'M', 100);
      DigitLetters(h, 'C', 'D', 'M');
    }
    assert Within(x, 10, 100) && SubtractiveValue(x) == 10 * t by {
      DigitValue(t, 'X', 'L', 'C', 10);
      DigitLetters(t, 'X', 'L', 'C');
    }
    assert Within(i, 1, 10) && SubtractiveValue(i) == u by {
      DigitValue(u, 'I', 'V', 'X', 1);
      DigitLetters(u, 'I', 'V', 'X');
    }
    JoinValue(x, i, 1, 10, 100);
    JoinValue(c, x + i, 1, 100, 1000);
    JoinValue(m, c + (x + i), 1, 1000, 1000);
    PositionalIsSubtractive(Numeral(a, h, t, u));
  }
}
