/** The Verhoeff check digit used for generated Aadhaar numbers (eval/generate_pii_dataset.py).

    The three tables are the source's own. The error-detection theorems hold for numbers of any
    length; the only finite case analysis is over single table entries. */
module Verhoeff {
  import opened Wrappers

  type Digit = d: int | 0 <= d < 10

  const D: seq<seq<int>> := [
    [0, 1, 2, 3, 4, 5, 6, 7, 8, 9],
    [1, 2, 3, 4, 0, 6, 7, 8, 9, 5],
    [2, 3, 4, 0, 1, 7, 8, 9, 5, 6],
    [3, 4, 0, 1, 2, 8, 9, 5, 6, 7],
    [4, 0, 1, 2, 3, 9, 5, 6, 7, 8],
    [5, 9, 8, 7, 6, 0, 4, 3, 2, 1],
    [6, 5, 9, 8, 7, 1, 0, 4, 3, 2],
    [7, 6, 5, 9, 8, 2, 1, 0, 4, 3],
    [8, 7, 6, 5, 9, 3, 2, 1, 0, 4],
    [9, 8, 7, 6, 5, 4, 3, 2, 1, 0]
  ]

  const P: seq<seq<int>> := [
    [0, 1, 2, 3, 4, 5, 6, 7, 8, 9],
    [1, 5, 7, 6, 2, 8, 3, 0, 9, 4],
    [5, 8, 0, 3, 7, 9, 6, 1, 4, 2],
    [8, 9, 1, 6, 0, 4, 3, 5, 2, 7],
    [9, 4, 5, 3, 1, 2, 6, 8, 7, 0],
    [4, 2, 8, 6, 5, 7, 3, 9, 0, 1],
    [2, 7, 9, 3, 8, 0, 6, 4, 1, 5],
    [7, 0, 4, 6, 9, 1, 3, 2, 5, 8]
  ]

  const INV: seq<int> := [0, 4, 3, 2, 1, 5, 6, 7, 8, 9]

  /** Addition and subtraction modulo 5. */
  function Add5(x: int, y: int): int {
    if x + y < 5 then x + y else x + y - 5
  }

  function Sub5(x: int, y: int): int {
    if x < y then x - y + 5 else x - y
  }

  /** The multiplication of the dihedral group of order 10: rotations 0..4, reflections 5..9. */
  function Mul(j: Digit, k: Digit): (r: Digit)
  {
    if j < 5 then
      if k < 5 then Add5(j, k) else 5 + Add5(j, k - 5)
    else
      if k < 5 then 5 + Sub5(j - 5, k) else Sub5(j - 5, k - 5)
  }

  /** Table _D is the multiplication table of that group. */
  lemma TableIsGroup(j: Digit, k: Digit)
    ensures |D| == 10 && |D[j]| == 10 && D[j][k] == Mul(j, k)
  {
    if j == 0 { } else if j == 1 { } else if j == 2 { } else if j == 3 { } else if j == 4 { }
    else if j == 5 { } else if j == 6 { } else if j == 7 { } else if j == 8 { } else { }
  }

  lemma AssociativeWithRotation(a: Digit, b: Digit, c: Digit)
    requires c < 5
    ensures Mul(Mul(a, b), c) == Mul(a, Mul(b, c))
  {
  }

  lemma AssociativeWithReflection(a: Digit, b: Digit, c: Digit)
    requires c >= 5
    ensures Mul(Mul(a, b), c) == Mul(a, Mul(b, c))
  {
  }

  lemma MulAssociative(a: Digit, b: Digit, c: Digit)
    ensures Mul(Mul(a, b), c) == Mul(a, Mul(b, c))
  {
    if c < 5 {
      AssociativeWithRotation(a, b, c);
    } else {
      AssociativeWithReflection(a, b, c);
    }
  }

  lemma MulCancelLeft(a: Digit, b: Digit, c: Digit)
    requires Mul(a, b) == Mul(a, c)
    ensures b == c
  {
  }

  lemma MulCancelRight(a: Digit, b: Digit, c: Digit)
    requires Mul(b, a) == Mul(c, a)
    ensures b == c
  {
  }

  // ----- The permutation table

  /** The digit permutation that table _P repeats. */
  function Sigma(x: Digit): (r: Digit) {
    if x == 0 then 1 else if x == 1 then 5 else if x == 2 then 7 else if x == 3 then 6 else if x == 4 then 2
    else if x == 5 then 8 else if x == 6 then 3 else if x == 7 then 0 else if x == 8 then 9 else 4
  }

  /** The permutation used at position k, counted from the right: k times sigma. */
  function Perm(k: nat, x: Digit): (r: Digit) {
    if k == 0 then x else Sigma(Perm(k - 1, x))
  }

  /** Each row of _P is sigma applied to the row before, the first one to the last. */
  lemma RowFacts(row: int, x: Digit)
    requires 0 <= row < 8
    ensures |P| == 8 && |P[row]| == 10 && 0 <= P[row][x] < 10
    ensures |P[(row + 1) % 8]| == 10 && P[(row + 1) % 8][x] == Sigma(P[row][x])
    ensures P[0][x] == x
  {
    if row == 0 { } else if row == 1 { } else if row == 2 { } else if row == 3 { }
    else if row == 4 { } else if row == 5 { } else if row == 6 { } else { }
  }

  lemma NextRow(k: nat)
    ensures (k % 8 + 1) % 8 == (k + 1) % 8
  {
  }

  /** So row k modulo 8 of _P is k times sigma, for every position k. */
  lemma {:induction false} TableIsPermutation(k: nat, x: Digit)
    ensures |P| == 8 && |P[k % 8]| == 10 && P[k % 8][x] == Perm(k, x)
  {
    if k == 0 {
      RowFacts(0, x);
    } else {
      TableIsPermutation(k - 1, x);
      RowFacts((k - 1) % 8, x);
      NextRow(k - 1);
    }
  }

  lemma {:induction false} PermInjective(k: nat, x: Digit, y: Digit)
    requires Perm(k, x) == Perm(k, y)
    ensures x == y
  {
    if k > 0 {
      PermInjective(k - 1, x, y);
    }
  }

  lemma PermSucc(k: nat, x: Digit)
    ensures Perm(k + 1, x) == Perm(1, Perm(k, x))
  {
    assert Perm(0, Perm(k, x)) == Perm(k, x);
  }

  /** The property the tables were chosen for: no two different digits commute past each other. */
  lemma AntiSymmetric(x: Digit, y: Digit)
    requires Mul(x, Perm(1, y)) == Mul(y, Perm(1, x))
    ensures x == y
  {
    if x == 0 { } else if x == 1 { } else if x == 2 { } else if x == 3 { } else if x == 4 { }
    else if x == 5 { } else if x == 6 { } else if x == 7 { } else if x == 8 { } else { }
  }

  // ----- The fold over the digits

  /** Folds `digits`, given right to left, starting in state `c` at position `k`. */
  function Fold(c: Digit, digits: seq<Digit>, k: nat): (r: Digit)
    decreases |digits|
  {
    if digits == [] then c else Fold(Mul(c, Perm(k, digits[0])), digits[1..], k + 1)
  }

  lemma {:induction false} FoldFromState(c: Digit, digits: seq<Digit>, k: nat)
    ensures Fold(c, digits, k) == Mul(c, Fold(0, digits, k))
    decreases |digits|
  {
    if digits != [] {
      var x := Perm(k, digits[0]);
      FoldFromState(Mul(c, x), digits[1..], k + 1);
      FoldFromState(Mul(0, x), digits[1..], k + 1);
      MulAssociative(c, x, Fold(0, digits[1..], k + 1));
      assert Mul(0, x) == x;
    }
  }

  lemma FoldInjectiveInState(c: Digit, c': Digit, digits: seq<Digit>, k: nat)
    requires Fold(c, digits, k) == Fold(c', digits, k)
    ensures c == c'
  {
    FoldFromState(c, digits, k);
    FoldFromState(c', digits, k);
    MulCancelRight(Fold(0, digits, k), c, c');
  }

  /** Changing one digit changes the fold. */
  lemma {:induction false} FoldSingleError(c: Digit, digits: seq<Digit>, k: nat, i: nat, x: Digit)
    requires i < |digits| && x != digits[i]
    ensures Fold(c, digits[i := x], k) != Fold(c, digits, k)
    decreases i
  {
    var changed := digits[i := x];
    if i == 0 {
      assert changed[1..] == digits[1..];
      if Fold(c, changed, k) == Fold(c, digits, k) {
        FoldInjectiveInState(Mul(c, Perm(k, x)), Mul(c, Perm(k, digits[0])), digits[1..], k + 1);
        MulCancelLeft(c, Perm(k, x), Perm(k, digits[0]));
        PermInjective(k, x, digits[0]);
      }
    } else {
      assert changed[1..] == digits[1..][i - 1 := x];
      FoldSingleError(Mul(c, Perm(k, digits[0])), digits[1..], k + 1, i - 1, x);
    }
  }

  /** Two digits with their neighbours exchanged at positions i and i+1. */
  function Swap<T>(s: seq<T>, i: nat): (r: seq<T>)
    requires i + 1 < |s|
  {
    s[i := s[i + 1]][i + 1 := s[i]]
  }

  /** Exchanging two unequal neighbours changes the fold. */
  lemma {:induction false} FoldTransposition(c: Digit, digits: seq<Digit>, k: nat, i: nat)
    requires i + 1 < |digits| && digits[i] != digits[i + 1]
    ensures Fold(c, Swap(digits, i), k) != Fold(c, digits, k)
    decreases i
  {
    var swapped := Swap(digits, i);
    if i > 0 {
      assert swapped[1..] == Swap(digits[1..], i - 1);
      FoldTransposition(Mul(c, Perm(k, digits[0])), digits[1..], k + 1, i - 1);
    } else if Fold(c, swapped, k) == Fold(c, digits, k) {
      var a, b := digits[0], digits[1];
      var x, y := Perm(k, a), Perm(k, b);
      assert swapped[1..][0] == a && digits[1..][0] == b;
      assert swapped[1..][1..] == digits[1..][1..];
      PermSucc(k, a);
      PermSucc(k, b);
      var tail := digits[1..][1..];
      assert Fold(c, digits, k) == Fold(Mul(c, x), digits[1..], k + 1)
                                == Fold(Mul(Mul(c, x), Perm(1, y)), tail, k + 2);
      assert Fold(c, swapped, k) == Fold(Mul(c, y), swapped[1..], k + 1)
                                 == Fold(Mul(Mul(c, y), Perm(1, x)), tail, k + 2);
      FoldInjectiveInState(
        Mul(Mul(c, y), Perm(1, x)), Mul(Mul(c, x), Perm(1, y)), tail, k + 2);
      MulAssociative(c, y, Perm(1, x));
      MulAssociative(c, x, Perm(1, y));
      MulCancelLeft(c, Mul(y, Perm(1, x)), Mul(x, Perm(1, y)));
      AntiSymmetric(x, y);
      PermInjective(k, a, b);
    }
  }

  // ----- Digit strings

  /** int(ch): the value of a decimal digit, of whatever script. */
  type Parser = char -> Option<Digit>

  predicate AllDigits(s: string, parse: Parser) {
    forall i :: 0 <= i < |s| ==> parse(s[i]).Some?
  }

  /** The digits of `s` right to left, as the loop visits them. */
  function RightToLeft(s: string, parse: Parser): (r: seq<Digit>)
    requires AllDigits(s, parse)
    ensures |r| == |s|
    ensures forall i :: 0 <= i < |s| ==> r[i] == parse(s[|s| - 1 - i]).value
  {
    seq(|s|, i requires 0 <= i < |s| => parse(s[|s| - 1 - i]).value)
  }

  function Inverse(c: Digit): (r: Digit)
    ensures Mul(r, c) == 0
  {
    INV[c]
  }

  /** The check digit of a digit string. */
  function CheckDigit(number: string, parse: Parser): (r: Digit)
    requires AllDigits(number, parse)
  {
    Inverse(Fold(0, RightToLeft(number, parse), 1))
  }

  datatype Error = NotADigit(ch: char)

  /** One pass of the loop body, with the tables. */
  method Step(c: Digit, k: nat, d: Digit) returns (r: Digit)
    ensures r == Mul(c, Perm(k, d))
  {
    TableIsPermutation(k, d);
    TableIsGroup(c, Perm(k, d));
    r := D[c][P[k % 8][d]];
  }

  lemma FoldStep(number: string, parse: Parser, i: nat, c: Digit)
    requires AllDigits(number, parse) && i < |number|
    ensures var digits := RightToLeft(number, parse);
            Fold(c, digits[i..], i + 1) == Fold(Mul(c, Perm(i + 1, digits[i])), digits[i + 1..], i + 2)
  {
    assert RightToLeft(number, parse)[i..][1..] == RightToLeft(number, parse)[i + 1..];
  }

  /** The rightmost character that is no digit raises. */
  method VerhoeffDigit(number: string, parse: Parser) returns (r: Result<Digit, Error>)
    ensures AllDigits(number, parse) ==> r == Ok(CheckDigit(number, parse))
    ensures !AllDigits(number, parse) ==>
      exists i :: 0 <= i < |number| && parse(number[i]).None? && AllDigits(number[i + 1..], parse)
                  && r == Err(NotADigit(number[i]))
  {
    var c: Digit := 0;
    var i := 0;
    while i < |number|
      invariant 0 <= i <= |number|
      invariant AllDigits(number[|number| - i..], parse)
      invariant AllDigits(number, parse) ==>
        Fold(c, RightToLeft(number, parse)[i..], i + 1) == Fold(0, RightToLeft(number, parse), 1)
    {
      var at := |number| - 1 - i;
      var ch := number[at];
      var d := parse(ch);
      if d.None? {
        assert number[at + 1..] == number[|number| - i..];
        return Err(NotADigit(ch));
      }
      if AllDigits(number, parse) {
        FoldStep(number, parse, i, c);
      }
      c := Step(c, i + 1, d.value);
      i := i + 1;
    }
    assert number[|number| - i..] == number;
    r := Ok(Inverse(c));
  }

  // ----- What the check digit detects

  /** A number with its check digit appended, as the generated Aadhaar numbers are written. */
  ghost predicate Consistent(full: string, parse: Parser) {
    |full| > 0 && AllDigits(full, parse)
    && parse(full[|full| - 1]).value == CheckDigit(full[..|full| - 1], parse)
  }

  /** A full number is consistent exactly when its own fold, check digit first, is zero. */
  lemma ConsistentIffFoldsToZero(full: string, parse: Parser)
    requires |full| > 0 && AllDigits(full, parse)
    ensures Consistent(full, parse) <==> Fold(0, RightToLeft(full, parse), 0) == 0
  {
    var front := full[..|full| - 1];
    var last := parse(full[|full| - 1]).value;
    var rest := Fold(0, RightToLeft(front, parse), 1);
    assert RightToLeft(full, parse) == [last] + RightToLeft(front, parse);
    assert Mul(0, Perm(0, last)) == last;
    FoldFromState(last, RightToLeft(front, parse), 1);
    assert Mul(last, rest) == Fold(0, RightToLeft(full, parse), 0);
    if Mul(last, rest) == 0 {
      MulCancelRight(rest, last, Inverse(rest));
    }
  }

  lemma CheckDigitInjectiveInFold(m: string, n: string, parse: Parser)
    requires AllDigits(m, parse) && AllDigits(n, parse) && CheckDigit(m, parse) == CheckDigit(n, parse)
    ensures Fold(0, RightToLeft(m, parse), 1) == Fold(0, RightToLeft(n, parse), 1)
  {
  }

  lemma RightToLeftUpdate(number: string, parse: Parser, i: nat, ch: char)
    requires AllDigits(number, parse) && i < |number| && parse(ch).Some?
    ensures AllDigits(number[i := ch], parse)
    ensures RightToLeft(number[i := ch], parse) == RightToLeft(number, parse)[|number| - 1 - i := parse(ch).value]
  {
  }

  /** Any single wrong digit changes the check digit. */
  lemma SingleErrorDetected(number: string, parse: Parser, i: nat, ch: char)
    requires AllDigits(number, parse) && i < |number| && parse(ch).Some? && parse(ch) != parse(number[i])
    ensures AllDigits(number[i := ch], parse) && CheckDigit(number[i := ch], parse) != CheckDigit(number, parse)
  {
    RightToLeftUpdate(number, parse, i, ch);
    FoldSingleError(0, RightToLeft(number, parse), 1, |number| - 1 - i, parse(ch).value);
    if CheckDigit(number[i := ch], parse) == CheckDigit(number, parse) {
      CheckDigitInjectiveInFold(number[i := ch], number, parse);
    }
  }

  lemma RightToLeftSwap(number: string, parse: Parser, i: nat)
    requires AllDigits(number, parse) && i + 1 < |number|
    ensures AllDigits(Swap(number, i), parse)
    ensures RightToLeft(Swap(number, i), parse) == Swap(RightToLeft(number, parse), |number| - 2 - i)
  {
  }

  /** Exchanging two unequal neighbours changes the check digit. */
  lemma TranspositionDetected(number: string, parse: Parser, i: nat)
    requires AllDigits(number, parse) && i + 1 < |number| && parse(number[i]) != parse(number[i + 1])
    ensures AllDigits(Swap(number, i), parse) && CheckDigit(Swap(number, i), parse) != CheckDigit(number, parse)
  {
    RightToLeftSwap(number, parse, i);
    FoldTransposition(0, RightToLeft(number, parse), 1, |number| - 2 - i);
    if CheckDigit(Swap(number, i), parse) == CheckDigit(number, parse) {
      CheckDigitInjectiveInFold(Swap(number, i), number, parse);
    }
  }

  /** In a full number every single wrong digit, the check digit included, is detected. */
  lemma FullNumberSingleError(full: string, parse: Parser, i: nat, ch: char)
    requires Consistent(full, parse) && i < |full| && parse(ch).Some? && parse(ch) != parse(full[i])
    ensures !Consistent(full[i := ch], parse)
  {
    RightToLeftUpdate(full, parse, i, ch);
    ConsistentIffFoldsToZero(full, parse);
    ConsistentIffFoldsToZero(full[i := ch], parse);
    FoldSingleError(0, RightToLeft(full, parse), 0, |full| - 1 - i, parse(ch).value);
  }

  /** In a full number every exchange of unequal neighbours, also with the check digit, is detected. */
  lemma FullNumberTransposition(full: string, parse: Parser, i: nat)
    requires Consistent(full, parse) && i + 1 < |full| && parse(full[i]) != parse(full[i + 1])
    ensures !Consistent(Swap(full, i), parse)
  {
    RightToLeftSwap(full, parse, i);
    ConsistentIffFoldsToZero(full, parse);
    ConsistentIffFoldsToZero(Swap(full, i), parse);
    FoldTransposition(0, RightToLeft(full, parse), 0, |full| - 2 - i);
  }

  function AsciiDigits(): Parser {
    (ch: char) => if '0' <= ch <= '9' then Some(ch as int - '0' as int) else None
  }

  /** A known value: the check digit of 236 is 3. */
  lemma KnownCheckDigit()
    ensures AllDigits("236", AsciiDigits()) && CheckDigit("236", AsciiDigits()) == 3
  {
    var digits := RightToLeft("236", AsciiDigits());
    assert digits == [6, 3, 2];
    assert [6, 3, 2][1..] == [3, 2] && [3, 2][1..] == [2] && [2][1..] == [];
    assert Perm(0, 6) == 6 && Perm(1, 6) == 3;
    assert Perm(0, 3) == 3 && Perm(1, 3) == 6 && Perm(2, 3) == 3;
    assert Perm(0, 2) == 2 && Perm(1, 2) == 7 && Perm(2, 2) == 0 && Perm(3, 2) == 1;
    assert Fold(0, [6, 3, 2], 1) == Fold(3, [3, 2], 2) == Fold(1, [2], 3) == Fold(2, [], 4) == 2;
  }
}
