/** The RomanNumeral class: its two lookup tables, the decoder toInt, the
    greedy encoder toRoman and the grammar check isValidRoman. */
module RomanNumeral {
  import opened Errors

  /** romanToInt: the value of each Roman letter. */
  const SymbolValues: map<char, int> :=
    map['I' := 1, 'V' := 5, 'X' := 10, 'L' := 50, 'C' := 100, 'D' := 500, 'M' := 1000]

  type Positive = x: int | x > 0 witness 1

  /** intToRoman: the symbol group written for each key. */
  const IntToRoman: map<int, string> :=
    map[1 := "I", 4 := "IV", 5 := "V", 9 := "IX", 10 := "X", 40 := "XL", 50 := "L",
        90 := "XC", 100 := "C", 400 := "CD", 500 := "D", 900 := "CM", 1000 := "M"]

  /** intToRoman, its keys in the descending order toRoman visits them. */
  const Table: seq<(Positive, string)> := [
    (1000, "M"), (900, "CM"), (500, "D"), (400, "CD"),
    (100, "C"), (90, "XC"), (50, "L"), (40, "XL"),
    (10, "X"), (9, "IX"), (5, "V"), (4, "IV"), (1, "I")]

  /** Each entry of Table is an entry of intToRoman. */
  lemma TableEntriesInIntToRoman()
    ensures forall i | 0 <= i < |Table| :: Table[i].0 in IntToRoman && IntToRoman[Table[i].0] == Table[i].1
  {
  }

  /** Every key of intToRoman occurs in Table. */
  lemma TableCoversIntToRoman()
    ensures forall key | key in IntToRoman :: exists i | 0 <= i < |Table| :: Table[i].0 == key
  {
    forall key | key in IntToRoman
      ensures exists i | 0 <= i < |Table| :: Table[i].0 == key
    {
      var i :=
        if key == 1000 then 0 else if key == 900 then 1 else if key == 500 then 2
        else if key == 400 then 3 else if key == 100 then 4 else if key == 90 then 5
        else if key == 50 then 6 else if key == 40 then 7 else if key == 10 then 8
        else if key == 9 then 9 else if key == 5 then 10 else if key == 4 then 11 else 12;
      assert Table[i].0 == key;
    }
  }

  /** Table's keys strictly descend, the order of toRoman's sorted key array. */
  lemma TableDescending()
    ensures forall i, j | 0 <= i < j < |Table| :: Table[i].0 > Table[j].0
  {
    forall i | 0 <= i < |Table| - 1
      ensures Table[i].0 > Table[i + 1].0
    {
    }
  }

  /** Every character of s has an entry in romanToInt. */
  predicate IsLetters(s: string) {
    forall i | 0 <= i < |s| :: s[i] in SymbolValues
  }

  /** What toInt adds for position i: the letter's value, less twice the
      previous letter's value when the letter is larger than that one. */
  function Contribution(s: string, i: nat): int
    requires i < |s| && IsLetters(s)
  {
    if i > 0 && SymbolValues[s[i]] > SymbolValues[s[i - 1]] then
      SymbolValues[s[i]] - 2 * SymbolValues[s[i - 1]]
    else
      SymbolValues[s[i]]
  }

  /** The sum of the contributions of all positions of s. */
  function PositionalValue(s: string): int
    requires IsLetters(s)
  {
    if s == [] then 0 else PositionalValue(s[..|s| - 1]) + Contribution(s, |s| - 1)
  }

  /** toInt: one left-to-right pass accumulating each position's contribution.
      The source looks every character up in romanToInt, so it is only
      defined on strings of Roman letters. */
  method ToInt(roman: string) returns (result: int)
    requires IsLetters(roman)
    ensures result == PositionalValue(roman)
  {
    result := 0;
    for i := 0 to |roman|
      invariant result == PositionalValue(roman[..i])
    {
      assert roman[..i + 1][..i] == roman[..i];
      result := result + Contribution(roman, i);
    }
    assert roman[..|roman|] == roman;
  }

  /** The symbol groups toRoman appends for number once it has reached index
      i of keys: as long as the current key fits, its group is appended and
      the key subtracted; otherwise the next smaller key is tried. */
  function Greedy(keys: seq<(Positive, string)>, number: nat, i: nat): string
    requires i <= |keys|
    decreases |keys| - i, number
  {
    if i == |keys| then []
    else if number >= keys[i].0 then keys[i].1 + Greedy(keys, number - keys[i].0, i)
    else Greedy(keys, number, i + 1)
  }

  /** The greedy pass only ever writes letters the keys' groups are made of. */
  lemma {:induction false} GreedyLetters(keys: seq<(Positive, string)>, number: nat, i: nat)
    requires i <= |keys|
    requires forall j | i <= j < |keys| :: IsLetters(keys[j].1)
    ensures IsLetters(Greedy(keys, number, i))
    decreases |keys| - i, number
  {
    if i < |keys| {
      if number >= keys[i].0 {
        GreedyLetters(keys, number - keys[i].0, i);
      } else {
        GreedyLetters(keys, number, i + 1);
      }
    }
  }

  /** What toRoman answers: an error for number <= 0, the greedy string of
      Roman letters otherwise. */
  function Encode(number: int): (r: Result<string>)
    ensures r.Err? <==> number <= 0
    ensures r.Err? ==> r.error == NonPositive
    ensures r.Ok? ==> IsLetters(r.value)
  {
    if number <= 0 then Err(NonPositive)
    else
      assert forall j | 0 <= j < |Table| :: IsLetters(Table[j].1);
      GreedyLetters(Table, number, 0);
      Ok(Greedy(Table, number, 0))
  }

  /** toRoman: for each key in descending order, append its symbol group
      while the remaining number is at least the key. */
  method ToRoman(number: int) returns (r: Result<string>)
    ensures r == Encode(number)
  {
    if number <= 0 {
      return Err(NonPositive);
    }
    var sb := "";
    var n: nat := number;
    for i := 0 to |Table|
      invariant sb + Greedy(Table, n, i) == Greedy(Table, number, 0)
      invariant i > 0 ==> n < Table[i - 1].0
    {
      var key := Table[i].0;
      while n >= key
        invariant sb + Greedy(Table, n, i) == Greedy(Table, number, 0)
      {
        sb := sb + Table[i].1;
        n := n - key;
      }
    }
    assert n == 0;
    assert Greedy(Table, n, |Table|) == [] && sb + [] == sb;
    return Ok(sb);
  }

  /** c{0,k}: at most k copies of c and nothing else. */
  predicate AtMost(p: string, c: char, k: nat) {
    p == [] || (k > 0 && p[0] == c && AtMost(p[1..], c, k - 1))
  }

  /** One decimal position of the numeral grammar,
      (one ten | one five | five? one{0,3}), e.g. (CM|CD|D?C{0,3}). */
  predicate Group(p: string, one: char, five: char, ten: char) {
    || p == [one, ten]
    || p == [one, five]
    || AtMost(p, one, 3)
    || (|p| > 0 && p[0] == five && AtMost(p[1..], one, 3))
  }

  /** s[..i], s[i..j], s[j..k] and s[k..] match, in turn, the four parts of
      the pattern M{0,4}(CM|CD|D?C{0,3})(XC|XL|L?X{0,3})(IX|IV|V?I{0,3}). */
  predicate SplitsAt(s: string, i: nat, j: nat, k: nat)
    requires i <= j <= k <= |s|
  {
    && AtMost(s[..i], 'M', 4)
    && Group(s[i..j], 'C', 'D', 'M')
    && Group(s[j..k], 'X', 'L', 'C')
    && Group(s[k..], 'I', 'V', 'X')
  }

  /** isValidRoman: the whole of s matches the pattern, that is, s splits
      into four consecutive pieces each matching its part. */
  predicate IsValidRoman(s: string) {
    exists i: nat, j: nat, k: nat | i <= j <= k <= |s| :: SplitsAt(s, i, j, k)
  }
}
