/** Numerals in base ten and sixteen: writing a number in so many digits, and reading it back. */
module Numerals {
  datatype Base = Ten | Sixteen

  function Scale(b: Base, x: int): int {
    if b.Ten? then 10 * x else 16 * x
  }

  function Digit(k: nat): char
    requires k < 16
  {
    "0123456789abcdef"[k]
  }

  function DigitValue(c: char): nat {
    if '0' <= c <= '9' then c as nat - '0' as nat
    else if 'a' <= c <= 'f' then c as nat - 'a' as nat + 10 else 0
  }

  function Pow(b: Base, k: nat): (p: nat)
    ensures p >= 1
  {
    if k == 0 then 1 else Scale(b, Pow(b, k - 1))
  }

  /** The digits of `val` from place k - 1 down to place 0, leading zeros included. */
  function Digits(b: Base, val: nat, k: nat): (s: string)
    requires val < Pow(b, k)
    ensures |s| == k
    decreases k, val
  {
    if k == 0 then ""
    else
      TopDigit(b, val, Pow(b, k - 1));
      [Digit(val / Pow(b, k - 1))] + Digits(b, val % Pow(b, k - 1), k - 1)
  }

  /** `k` digits are enough for a number, and fewer are not. */
  ghost predicate IsWidth(b: Base, val: nat, k: nat) {
    k >= 1 && val < Pow(b, k) && (k == 1 || Pow(b, k - 1) <= val)
  }

  lemma {:induction false} WidthExists(b: Base, val: nat) returns (k: nat)
    ensures IsWidth(b, val, k)
    decreases val
  {
    k := 1;
    if val >= Scale(b, 1) {
      k := WidthExists(b, if b.Ten? then val / 10 else val / 16);
      k := k + 1;
    }
  }

  /** How many digits a number has. */
  ghost function Width(b: Base, val: nat): (k: nat)
    ensures IsWidth(b, val, k)
  {
    assert exists k :: IsWidth(b, val, k) by {
      var k := WidthExists(b, val);
    }
    var k: nat :| IsWidth(b, val, k);
    k
  }

  ghost function Numeral(b: Base, val: nat): string {
    Digits(b, val, Width(b, val))
  }

  /** The value a string of digits stands for, put behind a number already read. */
  function Reading(b: Base, s: string, sofar: nat): nat {
    if s == "" then sofar else Reading(b, s[1..], Scale(b, sofar) + DigitValue(s[0]))
  }

  lemma TopDigit(b: Base, val: nat, j: nat)
    requires j >= 1 && val < Scale(b, j)
    ensures 0 <= val / j < Scale(b, 1) && val % j < j
    ensures val >= j ==> val / j >= 1
  {
    var q := val / j;
    assert val == q * j + val % j;
    AtLeast(q, Scale(b, 1), j);
    AtLeast(q, 1, j);
    AtLeast(0, q, j);
  }

  lemma AtLeast(q: int, n: int, j: nat)
    ensures q >= n ==> q * j >= n * j
  {
    if q >= n {
      assert (q - n) * j >= 0;
    }
  }

  lemma DigitRoundTrip(k: nat)
    requires k < 16
    ensures DigitValue(Digit(k)) == k && (k > 0 ==> Digit(k) != '0')
  {}

  /** `x` moved up by `k` places. */
  function Raised(b: Base, x: nat, k: nat): nat
    decreases k
  {
    if k == 0 then x else Raised(b, Scale(b, x), k - 1)
  }

  lemma {:induction false} RaisedSum(b: Base, x: nat, y: nat, k: nat)
    ensures Raised(b, x + y, k) == Raised(b, x, k) + Raised(b, y, k)
    decreases k
  {
    if k > 0 {
      RaisedSum(b, Scale(b, x), Scale(b, y), k - 1);
    }
  }

  lemma {:induction false} RaisedIsProduct(b: Base, x: nat, k: nat)
    ensures Raised(b, x, k) == x * Pow(b, k)
    decreases k
  {
    if k > 0 {
      RaisedIsProduct(b, Scale(b, x), k - 1);
      ScaleEither(b, x, Pow(b, k - 1));
    }
  }

  lemma ScaleEither(b: Base, x: nat, j: nat)
    ensures Scale(b, x) * j == x * Scale(b, j)
  {}

  function Quotient(val: nat, j: nat): (q: nat)
    requires j >= 1
  {
    DivMod(val, j);
    val / j
  }

  /** Splitting off the digit at place k - 1. */
  lemma SplitTop(b: Base, val: nat, k: nat)
    requires k >= 1 && val < Pow(b, k)
    ensures var q, rest := Quotient(val, Pow(b, k - 1)), val % Pow(b, k - 1);
      && q == val / Pow(b, k - 1) && q < Scale(b, 1) && rest < Pow(b, k - 1)
      && val == Raised(b, q, k - 1) + rest && (val >= Pow(b, k - 1) ==> q >= 1)
  {
    var j := Pow(b, k - 1);
    assert Pow(b, k) == Scale(b, j);
    TopDigit(b, val, j);
    SplitSum(b, val, k - 1, j);
  }

  lemma SplitSum(b: Base, val: nat, k: nat, j: nat)
    requires j == Pow(b, k)
    ensures val / j >= 0 && val == Raised(b, val / j, k) + val % j
  {
    DivMod(val, j);
    RaisedIsProduct(b, val / j, k);
  }

  lemma DivMod(val: nat, j: nat)
    requires j >= 1
    ensures val / j >= 0 && val == val / j * j + val % j
  {}

  lemma DigitsUnfold(b: Base, val: nat, k: nat, q: nat, rest: nat)
    requires k >= 1 && val < Pow(b, k)
    requires q == val / Pow(b, k - 1) && rest == val % Pow(b, k - 1)
    ensures q < 16 && rest < Pow(b, k - 1)
    ensures Digits(b, val, k)[0] == Digit(q) && Digits(b, val, k)[1..] == Digits(b, rest, k - 1)
  {
    SplitTop(b, val, k);
  }

  lemma ReadingUnfold(b: Base, s: string, sofar: nat, q: nat)
    requires s != "" && q < 16 && s[0] == Digit(q)
    ensures Reading(b, s, sofar) == Reading(b, s[1..], Scale(b, sofar) + q)
  {
    DigitRoundTrip(q);
  }

  lemma {:induction false} DigitsReadBack(b: Base, val: nat, k: nat, sofar: nat)
    requires val < Pow(b, k)
    ensures Reading(b, Digits(b, val, k), sofar) == Raised(b, sofar, k) + val
    decreases k
  {
    if k > 0 {
      var q, rest := val / Pow(b, k - 1), val % Pow(b, k - 1);
      SplitTop(b, val, k);
      DigitsUnfold(b, val, k, q, rest);
      ReadingUnfold(b, Digits(b, val, k), sofar, q);
      DigitsReadBack(b, rest, k - 1, Scale(b, sofar) + q);
      ReadBackStep(b, val, k, sofar, q, rest);
    }
  }

  lemma ReadBackStep(b: Base, val: nat, k: nat, sofar: nat, q: nat, rest: nat)
    requires k >= 1 && val == Raised(b, q, k - 1) + rest
    ensures Raised(b, Scale(b, sofar) + q, k - 1) + rest == Raised(b, sofar, k) + val
  {
    RaisedSum(b, Scale(b, sofar), q, k - 1);
  }

  lemma {:induction false} RaisedZero(b: Base, k: nat)
    ensures Raised(b, 0, k) == 0
    decreases k
  {
    if k > 0 {
      RaisedZero(b, k - 1);
    }
  }

  /** A printed numeral reads back as the number, and has no leading zero unless the number is zero. */
  lemma NumeralReadsBack(b: Base, val: nat)
    ensures Reading(b, Numeral(b, val), 0) == val
    ensures val > 0 ==> Numeral(b, val)[0] != '0'
  {
    var k := Width(b, val);
    DigitsReadBack(b, val, k, 0);
    RaisedZero(b, k);
    SplitTop(b, val, k);
    DigitRoundTrip(val / Pow(b, k - 1));
  }

  /** A number that fits k digits and no fewer is as wide as that. */
  lemma WidthIs(b: Base, val: nat, k: nat)
    requires IsWidth(b, val, k)
    ensures Width(b, val) == k
  {
    var w := Width(b, val);
    if w < k {
      PowGrows(b, w, k - 1);
    } else if k < w {
      PowGrows(b, k, w - 1);
    }
  }

  lemma {:induction false} PowGrows(b: Base, m: nat, n: nat)
    requires m <= n
    ensures Pow(b, m) <= Pow(b, n)
    decreases n
  {
    if m < n {
      PowGrows(b, m, n - 1);
    }
  }
}
