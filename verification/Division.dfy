/** 64-bit unsigned division by shift and subtract, with every shift and sum cut to 64 bits. */
module Division {
  import opened Basics

  const WORD64: nat := 0x1_0000_0000_0000_0000
  const SIGN64: nat := 0x8000_0000_0000_0000

  datatype Division = Quotient(quot: nat, rem: nat) | DivideTrap

  /** `d` shifted left by `k`, in unbounded arithmetic. */
  function Shifted(d: nat, k: nat): (s: nat)
    ensures s >= d
  {
    if k == 0 then d else 2 * Shifted(d, k - 1)
  }

  /** Repeated addition, so that the loops below need no multiplication. */
  function Times(q: nat, d: nat): nat {
    if q == 0 then 0 else d + Times(q - 1, d)
  }

  lemma {:induction false} TimesIsProduct(q: nat, d: nat)
    ensures Times(q, d) == q * d
  {
    if q > 0 {
      TimesIsProduct(q - 1, d);
      assert q * d == (q - 1) * d + d;
    }
  }

  lemma {:induction false} ShiftedIsProduct(d: nat, k: nat)
    ensures Shifted(d, k) == d * Shifted(1, k)
  {
    if k > 0 {
      ShiftedIsProduct(d, k - 1);
    }
  }

  lemma {:induction false} ShiftedGrows(d: nat, k: nat)
    requires d >= 1
    ensures Shifted(1, k) <= Shifted(d, k)
  {
    if k > 0 {
      ShiftedGrows(d, k - 1);
    }
  }

  /** Exact quotient and remainder of any two 64-bit numbers; a zero denominator traps. */
  method UDivModDi4(num: nat, den: nat) returns (r: Division)
    requires num < WORD64 && den < WORD64
    ensures den == 0 <==> r == DivideTrap
    ensures den != 0 ==> r == Quotient(num / den, num % den)
  {
    if den == 0 {
      return DivideTrap;
    }
    var quot, rem := ShiftAndSubtract(num, den);
    TimesIsProduct(quot, den);
    QuotientIs(num, den, quot, rem);
    r := Quotient(quot, rem);
  }

  /** The two loops: left-justify the denominator, then subtract it wherever it fits. */
  method ShiftAndSubtract(num0: nat, den0: nat) returns (quot: nat, num: nat)
    requires num0 < WORD64 && 0 < den0 < WORD64
    ensures num0 == Times(quot, den0) + num && num < den0
  {
    var den: nat, qbit: nat := den0, 1;
    num, quot := num0, 0;
    ghost var k: int := 0;
    while den < SIGN64
      invariant k >= 0 && den == Shifted(den0, k) && qbit == Shifted(1, k) && den < WORD64
      decreases SIGN64 - den
    {
      k := k + 1;
      ShiftedGrows(den0, k);
      den := den * 2 % WORD64;
      qbit := qbit * 2 % WORD64;
    }
    while qbit != 0
      invariant num0 == Times(quot, den0) + num
      invariant -1 <= k && (k == -1 ==> qbit == 0 && num < den0)
      invariant k >= 0 ==> qbit == Shifted(1, k) && den == Shifted(den0, k) && num < 2 * den
      decreases k
    {
      if den <= num {
        SubtractStep(num0, den0, quot, num, k);
        num := num - den;
        quot := (quot + qbit) % WORD64;
      }
      den := den / 2;
      qbit := qbit / 2;
      k := k - 1;
    }
  }

  lemma SubtractStep(num0: nat, den0: nat, quot: nat, num: nat, k: nat)
    requires num0 < WORD64 && den0 > 0
    requires num0 == Times(quot, den0) + num && Shifted(den0, k) <= num
    ensures num0 == Times(quot + Shifted(1, k), den0) + (num - Shifted(den0, k))
    ensures quot + Shifted(1, k) < WORD64
  {
    var quot' := quot + Shifted(1, k);
    TimesIsProduct(quot, den0);
    TimesIsProduct(quot', den0);
    ShiftedIsProduct(den0, k);
    AddProduct(quot, Shifted(1, k), den0);
    AtMostProduct(quot', den0);
  }

  lemma AddProduct(q: nat, b: nat, d: nat)
    ensures (q + b) * d == q * d + d * b
  {}

  lemma AtMostProduct(q: nat, d: nat)
    requires d > 0
    ensures q <= q * d
  {}

  method UDivDi3(num: nat, den: nat) returns (r: Division)
    requires num < WORD64 && den < WORD64
    ensures if den == 0 then r == DivideTrap else r.Quotient? && r.quot == num / den
  {
    r := UDivModDi4(num, den);
  }

  method UModDi3(num: nat, den: nat) returns (r: Division)
    requires num < WORD64 && den < WORD64
    ensures if den == 0 then r == DivideTrap else r.Quotient? && r.rem == num % den
  {
    r := UDivModDi4(num, den);
  }
}
