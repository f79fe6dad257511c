/** toRoman and toInt are inverse on 1..4999, and isValidRoman accepts
    exactly the renderings toRoman produces there, plus the empty string. */
module RomanRoundTrip {
  import opened Errors
  import opened RomanNumeral
  import opened RomanProofs

  type Keys = seq<(Positive, string)>

  /** Over keys starting with (1000, "M"), one M is emitted per full thousand. */
  lemma {:induction false} ThousandsRun(keys: Keys, d: nat, r: nat)
    requires |keys| > 1 && keys[0].0 == 1000 && keys[0].1 == "M"
    requires r < 1000
    ensures Greedy(keys, d * 1000 + r, 0) == Rep('M', d) + Greedy(keys, r, 1)
  {
    if d == 0 {
      assert Greedy(keys, r, 0) == Greedy(keys, r, 1);
      assert [] + Greedy(keys, r, 1) == Greedy(keys, r, 1);
    } else {
      ThousandsRun(keys, d - 1, r);
      var n := d * 1000 + r;
      assert n >= keys[0].0 && n - keys[0].0 == (d - 1) * 1000 + r;
      assert Greedy(keys, n, 0) == "M" + Greedy(keys, (d - 1) * 1000 + r, 0);
      assert "M" + (Rep('M', d - 1) + Greedy(keys, r, 1)) == Rep('M', d) + Greedy(keys, r, 1);
    }
  }

  /** Keys b..b+3 are nine, five, four and one times u, with the symbol
      groups one-ten, five, one-five and one. */
  predicate DecadeAt(keys: Keys, b: nat, u: Positive, one: char, five: char, ten: char) {
    && b + 4 <= |keys|
    && keys[b].0 == 9 * u && keys[b].1 == [one, ten]
    && keys[b + 1].0 == 5 * u && keys[b + 1].1 == [five]
    && keys[b + 2].0 == 4 * u && keys[b + 2].1 == [one, five]
    && keys[b + 3].0 == u && keys[b + 3].1 == [one]
  }

  /** The key u is taken once per unit. */
  lemma {:induction false} OnesRun(keys: Keys, b: nat, u: Positive, one: char, d: nat, r: nat)
    requires b + 4 <= |keys| && keys[b + 3].0 == u && keys[b + 3].1 == [one]
    requires r < u
    ensures Greedy(keys, d * u + r, b + 3) == Rep(one, d) + Greedy(keys, r, b + 4)
  {
    if d == 0 {
      assert [] + Greedy(keys, r, b + 4) == Greedy(keys, r, b + 4);
    } else {
      assert d * u + r - u == (d - 1) * u + r;
      assert (d - 1) * u >= 0;
      OnesRun(keys, b, u, one, d - 1, r);
      assert [one] + (Rep(one, d - 1) + Greedy(keys, r, b + 4)) == Rep(one, d) + Greedy(keys, r, b + 4);
    }
  }

  lemma MulMono(d: nat, k: nat, u: nat)
    requires d <= k
    ensures d * u <= k * u
  {
    assert k * u == d * u + (k - d) * u;
  }

  /** Over one decade of keys, toRoman emits exactly the digit's rendering. */
  lemma DecadeRun(keys: Keys, b: nat, u: Positive, one: char, five: char, ten: char, d: nat, r: nat)
    requires DecadeAt(keys, b, u, one, five, ten) && d <= 9 && r < u
    ensures Greedy(keys, d * u + r, b) == Digit(d, one, five, ten) + Greedy(keys, r, b + 4)
  {
    if d == 9 {
      DecadeNine(keys, b, u, one, five, ten, r);
    } else if d >= 5 {
      MulMono(d, 8, u);
      MulMono(5, d, u);
      DecadeFive(keys, b, u, one, five, ten, d - 5, r);
      assert (d - 5) * u + 5 * u == d * u;
    } else if d == 4 {
      DecadeFour(keys, b, u, one, five, ten, r);
    } else {
      MulMono(d, 3, u);
      DecadeLow(keys, b, u, one, five, ten, d, r);
    }
  }

  lemma DecadeNine(keys: Keys, b: nat, u: Positive, one: char, five: char, ten: char, r: nat)
    requires DecadeAt(keys, b, u, one, five, ten) && r < u
    ensures Greedy(keys, 9 * u + r, b) == [one, ten] + Greedy(keys, r, b + 4)
  {
    OnesRun(keys, b, u, one, 0, r);
    assert Greedy(keys, r, b) == Greedy(keys, r, b + 1) == Greedy(keys, r, b + 2) == Greedy(keys, r, b + 3);
    assert Greedy(keys, 9 * u + r, b) == [one, ten] + Greedy(keys, r, b);
  }

  lemma DecadeFive(keys: Keys, b: nat, u: Positive, one: char, five: char, ten: char, e: nat, r: nat)
    requires DecadeAt(keys, b, u, one, five, ten) && r < u && e <= 3
    requires e * u <= 3 * u
    ensures Greedy(keys, e * u + 5 * u + r, b) == [five] + Rep(one, e) + Greedy(keys, r, b + 4)
  {
    var m := e * u + r;
    var n := e * u + 5 * u + r;
    OnesRun(keys, b, u, one, e, r);
    assert n < keys[b].0 && n >= keys[b + 1].0 && n - keys[b + 1].0 == m;
    assert Greedy(keys, n, b) == Greedy(keys, n, b + 1);
    assert Greedy(keys, n, b + 1) == [five] + Greedy(keys, m, b + 1);
    assert m < keys[b + 1].0 && m < keys[b + 2].0;
    assert Greedy(keys, m, b + 1) == Greedy(keys, m, b + 2);
    assert Greedy(keys, m, b + 2) == Greedy(keys, m, b + 3);
    assert [five] + (Rep(one, e) + Greedy(keys, r, b + 4)) == [five] + Rep(one, e) + Greedy(keys, r, b + 4);
  }

  lemma DecadeFour(keys: Keys, b: nat, u: Positive, one: char, five: char, ten: char, r: nat)
    requires DecadeAt(keys, b, u, one, five, ten) && r < u
    ensures Greedy(keys, 4 * u + r, b) == [one, five] + Greedy(keys, r, b + 4)
  {
    var n := 4 * u + r;
    assert n < keys[b].0 && n < keys[b + 1].0 && n >= keys[b + 2].0 && n - keys[b + 2].0 == r;
    assert Greedy(keys, n, b) == Greedy(keys, n, b + 1);
    assert Greedy(keys, n, b + 1) == Greedy(keys, n, b + 2);
    assert Greedy(keys, n, b + 2) == [one, five] + Greedy(keys, r, b + 2);
    assert r < keys[b + 2].0 && r < keys[b + 3].0;
    assert Greedy(keys, r, b + 2) == Greedy(keys, r, b + 3);
    assert Greedy(keys, r, b + 3) == Greedy(keys, r, b + 4);
  }

  lemma DecadeLow(keys: Keys, b: nat, u: Positive, one: char, five: char, ten: char, d: nat, r: nat)
    requires DecadeAt(keys, b, u, one, five, ten) && r < u && d <= 3
    requires d * u <= 3 * u
    ensures Greedy(keys, d * u + r, b) == Rep(one, d) + Greedy(keys, r, b + 4)
  {
    var n := d * u + r;
    OnesRun(keys, b, u, one, d, r);
    assert Greedy(keys, n, b) == Greedy(keys, n, b + 1) == Greedy(keys, n, b + 2) == Greedy(keys, n, b + 3);
  }

  /** The decimal digits of n, and n rebuilt from them. */
  lemma DigitsArith(n: nat)
    ensures n % 1000 == n % 1000 / 100 * 100 + n % 100
    ensures n % 100 == n % 100 / 10 * 10 + n % 10
    ensures n % 1000 / 100 <= 9 && n % 100 / 10 <= 9
    ensures n == 1000 * (n / 1000) + 100 * (n % 1000 / 100) + 10 * (n % 100 / 10) + n % 10
  {
    var m := n % 1000;
    var x, y := n / 1000, m / 100;
    assert n == 1000 * x + m;
    assert m == 100 * y + m % 100;
    assert n == (10 * x + y) * 100 + m % 100;
    DivModUnique(n, 100, 10 * x + y, m % 100);
    var c := n % 100;
    var z := c / 10;
    assert c == 10 * z + c % 10;
    assert n == (10 * (n / 100) + z) * 10 + c % 10;
    DivModUnique(n, 10, 10 * (n / 100) + z, c % 10);
  }

  /** Quotient and remainder are the unique pair that rebuilds n. */
  lemma DivModUnique(n: int, d: int, q: int, r: int)
    requires d > 0 && 0 <= r < d && n == q * d + r
    ensures n / d == q && n % d == r
  {
    var q', r' := n / d, n % d;
    assert (q - q') * d == r' - r;
    if q > q' {
      assert (q - q') * d >= d by { MulMono(1, q - q', d); }
    } else if q < q' {
      assert (q' - q) * d >= d by { MulMono(1, q' - q, d); }
    }
  }

  /** Digits below ten determine the number they spell, and back. */
  lemma NumberDigits(a: nat, h: nat, t: nat, u: nat)
    requires h <= 9 && t <= 9 && u <= 9
    ensures var n := 1000 * a + 100 * h + 10 * t + u;
      n / 1000 == a && n % 1000 / 100 == h && n % 100 / 10 == t && n % 10 == u
  {
    var n := 1000 * a + 100 * h + 10 * t + u;
    DivModUnique(n, 1000, a, 100 * h + 10 * t + u);
    DivModUnique(100 * h + 10 * t + u, 100, h, 10 * t + u);
    DivModUnique(n, 100, 10 * a + h, 10 * t + u);
    DivModUnique(10 * t + u, 10, t, u);
    DivModUnique(n, 10, 100 * a + 10 * h + t, u);
  }

  lemma Assoc(m: string, c: string, x: string, i: string)
    ensures m + (c + (x + i)) == m + c + x + i
  {
  }

  /** toRoman's table is M followed by the hundreds, tens and units decades. */
  lemma TableDecades()
    ensures |Table| == 13 && Table[0].0 == 1000 && Table[0].1 == "M"
    ensures DecadeAt(Table, 1, 100, 'C', 'D', 'M')
    ensures DecadeAt(Table, 5, 10, 'X', 'L', 'C')
    ensures DecadeAt(Table, 9, 1, 'I', 'V', 'X')
  {
  }

  /** toRoman's output is the rendering of the number's decimal digits. */
  lemma EncodeDigits(n: nat)
    ensures Greedy(Table, n, 0) == Numeral(n / 1000, n % 1000 / 100, n % 100 / 10, n % 10)
  {
    var a, h, t, u := n / 1000, n % 1000 / 100, n % 100 / 10, n % 10;
    var m, c, x, i := Rep('M', a), Digit(h, 'C', 'D', 'M'), Digit(t, 'X', 'L', 'C'), Digit(u, 'I', 'V', 'X');
    DigitsArith(n);
    TableDecades();
    assert Greedy(Table, n, 0) == m + Greedy(Table, n % 1000, 1) by {
      ThousandsRun(Table, a, n % 1000);
    }
    assert Greedy(Table, n % 1000, 1) == c + Greedy(Table, n % 100, 5) by {
      DecadeRun(Table, 1, 100, 'C', 'D', 'M', h, n % 100);
    }
    assert Greedy(Table, n % 100, 5) == x + Greedy(Table, u, 9) by {
      DecadeRun(Table, 5, 10, 'X', 'L', 'C', t, u);
    }
    assert Greedy(Table, u, 9) == i by {
      DecadeRun(Table, 9, 1, 'I', 'V', 'X', u, 0);
      assert Greedy(Table, 0, 13) == [] && i + [] == i;
    }
    Assoc(m, c, x, i);
  }

  /** toRoman renders a positive number as its digits' numeral. */
  lemma EncodeFromDigits(a: nat, h: nat, t: nat, u: nat)
    requires h <= 9 && t <= 9 && u <= 9
    requires 1000 * a + 100 * h + 10 * t + u >= 1
    ensures Encode(1000 * a + 100 * h + 10 * t + u) == Ok(Numeral(a, h, t, u))
  {
    var n := 1000 * a + 100 * h + 10 * t + u;
    EncodeDigits(n);
    NumberDigits(a, h, t, u);
  }

  /** Every string isValidRoman accepts is the rendering of its digits. */
  lemma ValidIsNumeral(s: string) returns (a: nat, h: nat, t: nat, u: nat)
    requires IsValidRoman(s)
    ensures a <= 4 && h <= 9 && t <= 9 && u <= 9
    ensures s == Numeral(a, h, t, u)
  {
    var i: nat, j: nat, k: nat :| i <= j <= k <= |s| && SplitsAt(s, i, j, k);
    a, h, t, u := SplitIsNumeral(s, i, j, k);
  }

  lemma SplitIsNumeral(s: string, i: nat, j: nat, k: nat) returns (a: nat, h: nat, t: nat, u: nat)
    requires i <= j <= k <= |s| && SplitsAt(s, i, j, k)
    ensures a <= 4 && h <= 9 && t <= 9 && u <= 9
    ensures s == Numeral(a, h, t, u)
  {
    var m, c, x, y := s[..i], s[i..j], s[j..k], s[k..];
    assert s == m + c + x + y;
    a := |m|;
    assert a <= 4 && m == Rep('M', a) by {
      AtMostIsRep(m, 'M', 4);
    }
    h := DigitOf(c, 'C', 'D', 'M');
    assert h <= 9 && Digit(h, 'C', 'D', 'M') == c by {
      GroupIsDigit(c, 'C', 'D', 'M');
    }
    t := DigitOf(x, 'X', 'L', 'C');
    assert t <= 9 && Digit(t, 'X', 'L', 'C') == x by {
      GroupIsDigit(x, 'X', 'L', 'C');
    }
    u := DigitOf(y, 'I', 'V', 'X');
    assert u <= 9 && Digit(u, 'I', 'V', 'X') == y by {
      GroupIsDigit(y, 'I', 'V', 'X');
    }
  }

  /** isValidRoman accepts the rendering of every number of at most four thousands. */
  lemma NumeralIsValid(a: nat, h: nat, t: nat, u: nat)
    requires a <= 4 && h <= 9 && t <= 9 && u <= 9
    ensures IsValidRoman(Numeral(a, h, t, u))
  {
    var m, c, x, y := Rep('M', a), Digit(h, 'C', 'D', 'M'), Digit(t, 'X', 'L', 'C'), Digit(u, 'I', 'V', 'X');
    var s := Numeral(a, h, t, u);
    var i, j, k := |m|, |m| + |c|, |m| + |c| + |x|;
    assert s[..i] == m && s[i..j] == c && s[j..k] == x && s[k..] == y;
    AtMostIsRep(m, 'M', 4);
    DigitInGroup(h, 'C', 'D', 'M');
    DigitInGroup(t, 'X', 'L', 'C');
    DigitInGroup(u, 'I', 'V', 'X');
    assert SplitsAt(s, i, j, k);
  }

  /** For 1 <= n <= 4999, toRoman succeeds, isValidRoman accepts its output
      and toInt reads n back. */
  lemma RoundTrip(n: int)
    requires 1 <= n <= 4999
    ensures Encode(n).Ok?
    ensures IsValidRoman(Encode(n).value) && IsLetters(Encode(n).value)
    ensures PositionalValue(Encode(n).value) == n
  {
    var a, h, t, u := n / 1000, n % 1000 / 100, n % 100 / 10, n % 10;
    assert h <= 9 && t <= 9 && u <= 9 && a <= 4 && 1000 * a + 100 * h + 10 * t + u == n by {
      DigitsArith(n);
    }
    var s := Greedy(Table, n, 0);
    assert s == Numeral(a, h, t, u) by {
      EncodeDigits(n);
    }
    assert IsValidRoman(s) by {
      NumeralIsValid(a, h, t, u);
    }
    assert IsLetters(s) && PositionalValue(s) == n by {
      NumeralValue(a, h, t, u);
    }
    assert Encode(n) == Ok(s);
  }

  /** Every string isValidRoman accepts consists of Roman letters and is worth
      0..4999, only the empty string 0, and toRoman renders its value back to it. */
  lemma DecodeRoundTrip(s: string)
    requires IsValidRoman(s)
    ensures IsLetters(s)
    ensures 0 <= PositionalValue(s) <= 4999
    ensures PositionalValue(s) == 0 <==> s == []
    ensures s != [] ==> Encode(PositionalValue(s)) == Ok(s)
  {
    var a, h, t, u := ValidIsNumeral(s);
    var n := 1000 * a + 100 * h + 10 * t + u;
    assert IsLetters(s) && PositionalValue(s) == n by {
      NumeralValue(a, h, t, u);
    }
    if n == 0 {
      assert s == Numeral(0, 0, 0, 0) == [];
    } else {
      assert Greedy(Table, n, 0) == s by {
        EncodeDigits(n);
        NumberDigits(a, h, t, u);
      }
    }
  }

  /** For every n >= 1, toInt reads toRoman(n) back as n: the greedy pass
      always uses the number up, whether or not isValidRoman accepts it. */
  lemma EncodeValue(n: int)
    requires n >= 1
    ensures PositionalValue(Encode(n).value) == n
  {
    EncodeDigits(n);
    DigitsArith(n);
    NumeralValue(n / 1000, n % 1000 / 100, n % 100 / 10, n % 10);
  }

  /** toRoman's output passes isValidRoman exactly up to 4999: beyond it the
      output starts with more than the four M the grammar allows. */
  lemma EncodeValidUpTo4999(n: int)
    requires n >= 1
    ensures Encode(n).Ok?
    ensures IsValidRoman(Encode(n).value) <==> n <= 4999
  {
    if n <= 4999 {
      RoundTrip(n);
    } else {
      var s := Greedy(Table, n, 0);
      EncodeValue(n);
      if IsValidRoman(s) {
        DecodeRoundTrip(s);
        assert false;
      }
    }
  }

  /** A letter string that toRoman would spell differently is rejected. */
  lemma NonCanonicalRejected(s: string)
    requires s != [] && IsLetters(s)
    requires Encode(PositionalValue(s)) != Ok(s)
    ensures !IsValidRoman(s)
  {
    if IsValidRoman(s) {
      DecodeRoundTrip(s);
    }
  }

  /** toInt on three small numerals: IV is 4, IX is 9 and X is 10. */
  lemma DecodeExamples()
    ensures PositionalValue("IV") == 4 && PositionalValue("IX") == 9 && PositionalValue("X") == 10
  {
    assert Numeral(0, 0, 0, 4) == "IV" && Numeral(0, 0, 0, 9) == "IX" && Numeral(0, 0, 1, 0) == "X";
    NumeralValue(0, 0, 0, 4);
    NumeralValue(0, 0, 0, 9);
    NumeralValue(0, 0, 1, 0);
  }

  /** The grammar accepts the empty string. */
  lemma GrammarAcceptsEmpty()
    ensures IsValidRoman("")
  {
    NumeralIsValid(0, 0, 0, 0);
    assert Numeral(0, 0, 0, 0) == "";
  }

  /** The grammar accepts the largest numeral, MMMMCMXCIX. */
  lemma GrammarAcceptsLargest()
    ensures IsValidRoman("MMMMCMXCIX")
  {
    NumeralIsValid(4, 9, 9, 9);
    assert Numeral(4, 9, 9, 9) == "MMMMCMXCIX";
  }

  /** A run of four equal units is not a numeral: IIII reads as 4, spelled IV. */
  lemma GrammarRejectsRepeat()
    ensures !IsValidRoman("IIII")
  {
    assert "IIII" == Rep('I', 4);
    RepValue('I', 4);
    PositionalIsSubtractive("IIII");
    EncodeDigits(4);
    assert Numeral(0, 0, 0, 4) == "IV";
    NonCanonicalRejected("IIII");
  }

  /** A five cannot be subtracted: VX reads as 5, spelled V. */
  lemma GrammarRejectsFiveSubtracted()
    ensures !IsValidRoman("VX")
  {
    assert "VX"[..1] == "V" && "V"[..0] == [];
    assert PositionalValue("VX") == 5;
    EncodeDigits(5);
    assert Numeral(0, 0, 0, 5) == "V";
    NonCanonicalRejected("VX");
  }

  /** I cannot be subtracted from C: IC reads as 99, spelled XCIX. */
  lemma GrammarRejectsWideSubtraction()
    ensures !IsValidRoman("IC")
  {
    assert "IC"[..1] == "I" && "I"[..0] == [];
    assert PositionalValue("IC") == 99;
    EncodeDigits(99);
    assert Numeral(0, 0, 9, 9) == "XCIX";
    NonCanonicalRejected("IC");
  }

  /** Lower-case letters and a fifth M are rejected. */
  lemma GrammarRejectsOutsideAlphabetAndRange()
    ensures !IsValidRoman("iv") && !IsValidRoman("MMMMM")
  {
    assert !IsLetters("iv") by {
      assert "iv"[0] !in SymbolValues;
    }
    if IsValidRoman("iv") {
      DecodeRoundTrip("iv");
    }
    assert "MMMMM" == Rep('M', 5);
    RepValue('M', 5);
    PositionalIsSubtractive("MMMMM");
    if IsValidRoman("MMMMM") {
      DecodeRoundTrip("MMMMM");
    }
  }
}
