/** The screen's hexadecimal printer: at least so many digits, and never fewer than are significant. */
module HexDisplay {
  import opened Basics
  import opened Numerals
  import opened Display

  /** The last k of n digits are the k digits, when those are enough. */
  lemma {:induction false} DigitsSuffix(b: Base, val: nat, n: nat, k: nat)
    requires k <= n && val < Pow(b, k)
    ensures val < Pow(b, n) && Digits(b, val, n)[n - k..] == Digits(b, val, k)
    decreases n
  {
    if k < n {
      DigitsSuffix(b, val, n - 1, k);
      PowGrows(b, n - 1, n);
      SmallDiv(val, Pow(b, n - 1));
      SplitTop(b, val, n);
      DigitsUnfold(b, val, n, 0, val);
      assert Digits(b, val, n)[n - k..] == Digits(b, val, n)[1..][n - 1 - k..];
    }
  }

  lemma NibbleSum(q: nat, p: nat, d: nat, e: nat)
    ensures q * (16 * p) + (d * p + e) == (16 * q + d) * p + e
  {
    assert q * (16 * p) == 16 * q * p && (16 * q + d) * p == 16 * q * p + d * p;
  }

  lemma NibbleIs(val: nat, p: nat)
    requires p >= 1
    ensures val / p % 16 == val % (16 * p) / p
  {
    var q, r := val / (16 * p), val % (16 * p);
    DivMod(val, 16 * p);
    DivMod(r, p);
    var d := r / p;
    NibbleSum(q, p, d, r % p);
    TopDigit(Sixteen, r, p);
    QuotientIs(val, p, 16 * q + d, r % p);
  }

  /** The hexadecimal loop: eight nibbles, counting how many are significant. */
  method HPrint2(buf: array<char>, val: nat, digits0: int) returns (text: string)
    requires buf.Length == 18 && val < WORD
    modifies buf
    ensures var k := Max(Width(Sixteen, val), if digits0 > 8 then 8 else digits0);
      k <= 8 && val < Pow(Sixteen, k) && text == Digits(Sixteen, val, k)
  {
    var digits := digits0;
    var idx, flag := 0, 0;
    EightNibbles(val);
    assert buf[..0] == [];
    while idx < 8
      invariant 0 <= idx <= 8
      invariant HexState(buf[..idx], val, 8 - idx, flag)
    {
      var p := NibbleWeight(7 - idx);
      var j := val / p % 16;
      HexStep(buf[..idx], val, 8 - idx, flag, j);
      ghost var before := buf[..idx];
      if j < 10 {
        if flag != 0 || j != 0 || idx == 7 {
          flag := flag + 1;
        }
      } else {
        flag := flag + 1;
      }
      buf[idx] := Digit(j);
      idx := idx + 1;
      assert buf[..idx] == before + [Digit(j)];
    }
    if digits > 8 {
      digits := 8;
    }
    if flag > digits {
      digits := flag;
    }
    HexDone(buf[..idx], val, 8 - idx, flag, digits);
    text := buf[idx - digits..idx];
    assert text == buf[..idx][idx - digits..];
  }

  /** The weight of a nibble: the shift of the source as a division. */
  method NibbleWeight(k: nat) returns (p: nat)
    requires k <= 7
    ensures p == Pow(Sixteen, k)
  {
    p := 1;
    for i := 0 to k
      invariant p == Pow(Sixteen, i)
    {
      p := p * 16;
    }
  }

  /** With the nibbles from place n up written, `flag` counts the significant ones among them. */
  ghost predicate HexState(out: string, val: nat, n: nat, flag: int)
  {
    && n <= 8 && val < Pow(Sixteen, 8) && |out| == 8 - n
    && out + Digits(Sixteen, val % Pow(Sixteen, n), n) == Digits(Sixteen, val, 8)
    && flag == Above(val, n)
  }

  /** How many digits of the numeral stand at place n or higher. */
  ghost function Above(val: nat, n: nat): nat {
    if Width(Sixteen, val) > n then Width(Sixteen, val) - n else 0
  }

  lemma EightNibbles(val: nat)
    requires val < WORD
    ensures HexState([], val, 8, 0) && Width(Sixteen, val) <= 8
  {
    assert Pow(Sixteen, 4) == 0x1_0000;
    assert Pow(Sixteen, 8) == WORD;
    SmallDiv(val, Pow(Sixteen, 8));
    if Width(Sixteen, val) > 8 {
      PowGrows(Sixteen, 8, Width(Sixteen, val) - 1);
    }
    assert [] + Digits(Sixteen, val, 8) == Digits(Sixteen, val, 8);
  }

  lemma HexStep(out: string, val: nat, n: nat, flag: int, j: nat)
    requires 1 <= n && HexState(out, val, n, flag) && j == val / Pow(Sixteen, n - 1) % 16
    ensures HexState(out + [Digit(j)], val, n - 1, if flag != 0 || j != 0 || n == 1 then flag + 1 else flag)
  {
    HexDigit(val, n, j);
    Significant(val, n, j);
    Appended(out, Digit(j), Digits(Sixteen, val % Pow(Sixteen, n - 1), n - 1));
  }

  lemma Appended(out: string, c: char, tail: string)
    ensures (out + [c]) + tail == out + ([c] + tail)
  {}

  lemma HexDigit(val: nat, n: nat, j: nat)
    requires 1 <= n && j == val / Pow(Sixteen, n - 1) % 16
    ensures Digits(Sixteen, val % Pow(Sixteen, n), n) == [Digit(j)] + Digits(Sixteen, val % Pow(Sixteen, n - 1), n - 1)
  {
    var p, rest := Pow(Sixteen, n - 1), val % Pow(Sixteen, n);
    NibbleIs(val, p);
    RestOfRest(val, p);
    DigitsUnfold(Sixteen, rest, n, j, rest % p);
  }

  lemma RestOfRest(val: nat, p: nat)
    requires p >= 1
    ensures val % (16 * p) % p == val % p
  {
    var q, r := val / (16 * p), val % (16 * p);
    DivMod(val, 16 * p);
    DivMod(r, p);
    assert val == (16 * q + r / p) * p + r % p by {
      assert val == q * (16 * p) + (r / p * p + r % p);
    }
    QuotientIs(val, p, 16 * q + r / p, r % p);
    DivMod(val, p);
  }

  lemma Significant(val: nat, n: nat, j: nat)
    requires 1 <= n && j == val / Pow(Sixteen, n - 1) % 16
    ensures Above(val, n - 1) == if Above(val, n) != 0 || j != 0 || n == 1 then Above(val, n) + 1 else Above(val, n)
  {
    var w := Width(Sixteen, val);
    if w <= n {
      PowGrows(Sixteen, w, n);
      SplitTop(Sixteen, val, n);
      SmallDiv(val / Pow(Sixteen, n - 1), 16);
      if w < n {
        PowGrows(Sixteen, w, n - 1);
        SmallDiv(val, Pow(Sixteen, n - 1));
      }
    }
  }

  lemma HexDone(out: string, val: nat, n: nat, flag: int, digits: int)
    requires n == 0 && HexState(out, val, n, flag) && flag <= digits <= 8
    ensures flag == Width(Sixteen, val) && val < Pow(Sixteen, digits)
    ensures |out| == 8 && out[8 - digits..] == Digits(Sixteen, val, digits)
  {
    var tail := Digits(Sixteen, val % Pow(Sixteen, n), n);
    assert tail == "" && out + tail == out;
    PowGrows(Sixteen, flag, digits);
    DigitsSuffix(Sixteen, val, 8, digits);
  }

  /** However few digits are asked for, no significant one is dropped. */
  lemma HexReadsBack(val: nat, k: nat)
    requires Width(Sixteen, val) <= k
    ensures val < Pow(Sixteen, k) && Reading(Sixteen, Digits(Sixteen, val, k), 0) == val
  {
    PowGrows(Sixteen, Width(Sixteen, val), k);
    DigitsReadBack(Sixteen, val, k, 0);
    RaisedZero(Sixteen, k);
  }
}
