/** The screen's decimal printer, whose divisor first grows and then shrinks. What it prints is a
    numeral that reads back as the value. */
module Display {
  import opened Basics
  import opened Numerals

  const MAX_VALUE: nat := 999999999

  // ----- the decimal printer

  function Fill(c: char, n: nat): (s: string)
    ensures |s| == n
  {
    seq(n, _ => c)
  }

  function Max(a: int, b: int): int {
    if a > b then a else b
  }

  /** Right-aligned: the numeral behind as many blanks as the field is wider. */
  ghost function LeftPadded(val: nat, len: int): string {
    var w := Width(Ten, val);
    Fill(' ', Max(len, w) - w) + Numeral(Ten, val)
  }

  /** A field of `w` columns with the numeral at its left; a zero in a single column comes out blank. */
  ghost function LeftAligned(val: nat, w: nat): string
    requires Width(Ten, val) <= w
  {
    if val == 0 then (if w == 1 then " " else "0" + Fill(' ', w - 1))
    else Numeral(Ten, val) + Fill(' ', w - Width(Ten, val))
  }

  /** Left-aligned in at least `len` columns; a field without columns prints nothing at all. */
  ghost function RightPadded(val: nat, len: int): string {
    if len <= 0 then "" else LeftAligned(val, Max(len, Width(Ten, val)))
  }

  /** What is still to be printed of `rest` from place n - 1 down; before the first digit zeros are blank. */
  function Pending(rest: nat, n: nat, started: bool): (s: string)
    requires rest < Pow(Ten, n)
    ensures |s| == n
    decreases n
  {
    if n == 0 then ""
    else
      SplitTop(Ten, rest, n);
      var k := rest / Pow(Ten, n - 1);
      if started || k != 0 || n == 1 then [Digit(k)] + Pending(rest % Pow(Ten, n - 1), n - 1, true)
      else [' '] + Pending(rest % Pow(Ten, n - 1), n - 1, false)
  }

  lemma {:induction false} PendingStarted(rest: nat, n: nat)
    requires rest < Pow(Ten, n)
    ensures Pending(rest, n, true) == Digits(Ten, rest, n)
    decreases n
  {
    if n > 0 {
      SplitTop(Ten, rest, n);
      PendingStarted(rest % Pow(Ten, n - 1), n - 1);
    }
  }

  lemma PendingAtDigit(val: nat, n: nat)
    requires n >= 1 && val < Pow(Ten, n) && (n == 1 || Pow(Ten, n - 1) <= val)
    ensures Pending(val, n, false) == Numeral(Ten, val) && Width(Ten, val) == n
  {
    SplitTop(Ten, val, n);
    WidthIs(Ten, val, n);
    PendingStarted(val % Pow(Ten, n - 1), n - 1);
  }

  lemma PendingAtZero(val: nat, n: nat)
    requires n >= 2 && val < Pow(Ten, n - 1)
    ensures val < Pow(Ten, n) && Pending(val, n, false) == [' '] + Pending(val, n - 1, false)
  {
    PowGrows(Ten, n - 1, n);
    SmallDiv(val, Pow(Ten, n - 1));
  }

  lemma SmallDiv(val: nat, j: nat)
    requires val < j
    ensures val / j == 0 && val % j == val
  {}

  lemma FillStep(c: char, n: nat, tail: string)
    ensures Fill(c, n + 1) + tail == [c] + (Fill(c, n) + tail)
  {}

  /** From the first place on, what comes out is the padded numeral. */
  lemma {:induction false} PendingIsPadded(val: nat, n: nat)
    requires n >= 1 && val < Pow(Ten, n)
    ensures Width(Ten, val) <= n
    ensures Pending(val, n, false) == Fill(' ', n - Width(Ten, val)) + Numeral(Ten, val)
    decreases n
  {
    if n == 1 || Pow(Ten, n - 1) <= val {
      PendingAtDigit(val, n);
      assert Fill(' ', 0) + Numeral(Ten, val) == Numeral(Ten, val);
    } else {
      PendingAtZero(val, n);
      PendingIsPadded(val, n - 1);
      FillStep(' ', n - 1 - Width(Ten, val), Numeral(Ten, val));
    }
  }

  /** The quotient test of both loops: more than nine means the divisor is too small. */
  lemma QuotientTest(val: nat, j: nat)
    requires j >= 1
    ensures val / j > 9 <==> val >= 10 * j
    ensures val / j >= 0 && val - val / j * j == val % j
  {
    assert val == val / j * j + val % j;
    AtLeast(val / j, 10, j);
    AtLeast(9, val / j, j);
  }

  /** The divisor as a power: place n is printed with 10^(n-1), and place 0 with nothing. */
  function Divisor(n: nat): nat {
    if n == 0 then 0 else Pow(Ten, n - 1)
  }

  /** Growing by a hundred and shrinking by ten is one place up, within 10^9. */
  lemma DivisorSteps(n: nat)
    requires n >= 1
    ensures Divisor(n) / 10 == Divisor(n - 1)
    ensures Pow(Ten, n) <= MAX_VALUE ==> Divisor(n) * 100 <= MAX_VALUE + 1 && Divisor(n) * 100 / 10 == Divisor(n + 1) && n <= 8
  {
    NinePlaces();
    if n >= 9 {
      PowGrows(Ten, 9, n);
    } else {
      PowGrows(Ten, n + 1, 9);
    }
  }

  /** One place of the right-aligned loop. */
  lemma PendingStep(rest: nat, n: nat, started: bool)
    requires n >= 1 && rest < Pow(Ten, n)
    ensures var j := Divisor(n);
      && j >= 1 && rest / j < 10 && rest % j < Pow(Ten, n - 1)
      && (j == 1 <==> n == 1)
      && Pending(rest, n, started) ==
           if started || rest / j != 0 || j == 1 then [Digit(rest / j)] + Pending(rest % j, n - 1, true)
           else [' '] + Pending(rest % j, n - 1, false)
  {
    SplitTop(Ten, rest, n);
    if n >= 2 {
      PowGrows(Ten, 1, n - 1);
      assert Pow(Ten, 1) == 10;
    }
  }

  /** What the left-aligned mode has still to print in `cols` columns: the digits of `rest` from place
      n - 1 down, skipping zeros before the first, and then blanks. */
  function Coming(rest: nat, n: nat, started: bool, cols: nat): (s: string)
    requires rest < Pow(Ten, n) && (n <= cols || !started)
    ensures |s| <= cols
    decreases n
  {
    if cols == 0 then ""
    else if n == 0 then (if started then Fill(' ', cols) else if cols == 1 then " " else "0" + Fill(' ', cols - 1))
    else
      SplitTop(Ten, rest, n);
      var j := Pow(Ten, n - 1);
      if !started && rest / j == 0 then Coming(rest % j, n - 1, false, cols)
      else if n <= cols then [Digit(rest / j)] + Coming(rest % j, n - 1, true, cols - 1)
      else ""
  }

  lemma {:induction false} ComingStarted(rest: nat, n: nat, cols: nat)
    requires rest < Pow(Ten, n) && n <= cols
    ensures Coming(rest, n, true, cols) == Digits(Ten, rest, n) + Fill(' ', cols - n)
    decreases n
  {
    if n > 0 {
      SplitTop(Ten, rest, n);
      ComingStarted(rest % Pow(Ten, n - 1), n - 1, cols - 1);
    }
  }

  lemma {:induction false} ComingZero(n: nat, cols: nat)
    ensures 0 < Pow(Ten, n)
    ensures Coming(0, n, false, cols) == Coming(0, 0, false, cols)
    decreases n
  {
    if n > 0 {
      SplitTop(Ten, 0, n);
      SmallDiv(0, Pow(Ten, n - 1));
      ComingZero(n - 1, cols);
    }
  }

  lemma {:induction false} ComingNumber(val: nat, n: nat, cols: nat)
    requires 0 < val < Pow(Ten, n) && n <= cols
    ensures Width(Ten, val) <= n
    ensures Coming(val, n, false, cols) == Numeral(Ten, val) + Fill(' ', cols - Width(Ten, val))
    decreases n
  {
    SplitTop(Ten, val, n);
    var j := Pow(Ten, n - 1);
    if val < j {
      SmallDiv(val, j);
      ComingNumber(val, n - 1, cols);
    } else {
      WidthIs(Ten, val, n);
      ComingStarted(val % j, n - 1, cols - 1);
    }
  }

  lemma ComingOfZero(val: nat, w: nat)
    requires w >= 1 && val == 0
    ensures val < Pow(Ten, w) && Width(Ten, val) == 1
    ensures Coming(val, w, false, w) == LeftAligned(val, w)
  {
    WidthIs(Ten, val, 1);
    ComingZero(w, w);
  }

  lemma ComingIsLeftAligned(val: nat, w: nat)
    requires w >= 1 && val < Pow(Ten, w)
    ensures Width(Ten, val) <= w
    ensures Coming(val, w, false, w) == LeftAligned(val, w)
  {
    if val == 0 {
      ComingOfZero(val, w);
    } else {
      ComingNumber(val, w, w);
    }
  }

  /** One place of the left-aligned loop. */
  lemma ComingStep(rest: nat, n: nat, started: bool, cols: nat)
    requires n >= 1 && rest < Pow(Ten, n) && n <= cols
    ensures var j := Divisor(n);
      && j >= 1 && rest / j < 10 && rest % j < Pow(Ten, n - 1) && (rest / j == 0 ==> rest % j == rest)
      && Coming(rest, n, started, cols) ==
           if rest / j == 0 && !started then Coming(rest, n - 1, false, cols)
           else [Digit(rest / j)] + Coming(rest % j, n - 1, true, cols - 1)
  {
    SplitTop(Ten, rest, n);
    if rest < Divisor(n) {
      SmallDiv(rest, Divisor(n));
    }
  }

  datatype Shown = Nothing | Text(text: string)

  class Screen {
    const buf: array<char>

    constructor ()
      ensures buf.Length == 18 && fresh(buf)
    {
      buf := new char[18](_ => ' ');
    }

    /** Print a number in a field of `len` columns. Numbers over nine digits and fields over nine
        columns are refused. */
    method DPrint(val: nat, len: int, right: bool) returns (shown: Shown)
      requires buf.Length == 18 && val < WORD
      modifies buf
      ensures shown == Nothing <==> (val > MAX_VALUE || len > 9)
      ensures shown != Nothing ==> shown == Text(if right then RightPadded(val, len) else LeftPadded(val, len))
    {
      if val > MAX_VALUE || len > 9 {
        return Nothing;
      }
      var j, n := FirstDivisor(len);
      var i;
      if !right {
        i := PrintLeft(val, j, n);
      } else {
        i := PrintRight(val, len, j, n);
      }
      shown := Text(buf[..i]);
    }

    /** The divisor the field starts with: one followed by a zero for every column after the first. */
    method FirstDivisor(len: int) returns (j: nat, ghost n: nat)
      requires len <= 9
      ensures n == Max(len, 1) && j == Pow(Ten, n - 1)
    {
      j, n := 1, 1;
      var i := 0;
      while i < len - 1
        invariant n == i + 1 && j == Pow(Ten, i) && 0 <= i <= Max(len, 1) - 1
      {
        j := j * 10;
        i := i + 1;
        n := n + 1;
      }
    }

    method Put(c: char, i: nat)
      requires i < buf.Length
      modifies buf
      ensures buf[..i + 1] == old(buf[..i]) + [c]
    {
      buf[i] := c;
    }

    /** The right-aligned mode. The divisor j is 10^(n-1), and 0 at the end. */
    method PrintLeft(val0: nat, j0: nat, ghost n0: nat) returns (i: nat)
      requires buf.Length == 18 && val0 <= MAX_VALUE
      requires 1 <= n0 <= 9 && j0 == Divisor(n0)
      modifies buf
      ensures i == Max(n0, Width(Ten, val0)) <= 9
      ensures buf[..i] == Fill(' ', i - Width(Ten, val0)) + Numeral(Ten, val0)
    {
      ghost var w := Max(n0, Width(Ten, val0));
      LeftStart([], val0, n0, w);
      var rest, started;
      i, rest, started := LeftLoop(val0, j0, n0, w);
      LeftDone(buf[..i], rest, started, val0, w);
    }

    method LeftLoop(val0: nat, j0: nat, ghost n0: nat, ghost w: nat) returns (i: nat, val: nat, started: bool)
      requires buf.Length == 18
      requires 1 <= n0 <= w <= 9 && j0 == Divisor(n0) && LeftState([], val0, n0, false, val0, w)
      modifies buf
      ensures i <= 9 && LeftState(buf[..i], val, 0, started, val0, w)
    {
      var j := j0;
      ghost var n: nat := n0;
      i, val, started := 0, val0, false;
      assert buf[..i] == [];
      while j > 0
        invariant 0 <= n <= w && i <= 9 && j == Divisor(n)
        invariant LeftState(buf[..i], val, n, started, val0, w)
        decreases StepsLeft(val, n)
      {
        var c, prints;
        ghost var out;
        j, n, c, val, started, prints, out := LeftPlace(val, j, n, started, buf[..i], val0, w);
        if prints {
          Put(c, i);
          i := i + 1;
        }
      }
    }

    /** The left-aligned mode. A field without columns prints nothing; otherwise growing the divisor
        also widens the field. */
    method PrintRight(val0: nat, len0: int, j0: nat, ghost n0: nat) returns (i: nat)
      requires buf.Length == 18 && val0 <= MAX_VALUE && len0 <= 9
      requires n0 == Max(len0, 1) && j0 == Divisor(n0)
      modifies buf
      ensures i <= 9 && buf[..i] == RightPadded(val0, len0)
    {
      if len0 <= 0 {
        return 0;
      }
      ghost var w := ColumnsNeeded(val0, len0);
      RightStart(val0, len0, w);
      i := RightLoop(val0, len0, j0, w);
      ComingIsLeftAligned(val0, w);
    }

    method RightLoop(val0: nat, len0: nat, j0: nat, ghost w: nat) returns (i: nat)
      requires buf.Length == 18
      requires 1 <= len0 <= w <= 9 && j0 == Divisor(len0)
      requires RightState([], val0, len0, false, len0, val0, w)
      modifies buf
      ensures i <= 9 && val0 < Pow(Ten, w) && buf[..i] == Coming(val0, w, false, w)
    {
      var val, j, len, started := val0, j0, len0, false;
      ghost var n: nat := len0;
      i := 0;
      assert buf[..i] == [];
      while i < len
        invariant n <= w && i <= len <= w && j == Divisor(n)
        invariant RightState(buf[..i], val, n, started, len, val0, w)
        decreases RightSteps(i, val, n, w)
      {
        var c, prints;
        ghost var out;
        j, n, len, c, val, prints, out := RightPlace(val, j, n, started, buf[..i], i, len, val0, w);
        if prints {
          Put(c, i);
          started := true;
          i := i + 1;
        }
      }
      RightDone(buf[..i], val, n, started, len, val0, w);
    }
  }

  /** Where the right-aligned loop stands: still growing, or with `text` out and the rest pending. */
  ghost predicate LeftState(text: string, val: nat, n: nat, started: bool, val0: nat, w: nat)
  {
    if val >= Pow(Ten, n) then text == "" && !started && val == val0 && 1 <= n < w == Width(Ten, val0)
    else |text| + n == w && val0 < Pow(Ten, w) && text + Pending(val, n, started) == Pending(val0, w, false)
  }

  lemma LeftStart(text: string, val0: nat, n0: nat, w: nat)
    requires text == "" && val0 <= MAX_VALUE && 1 <= n0 <= 9 && w == Max(n0, Width(Ten, val0))
    ensures w <= 9 && n0 <= w && LeftState(text, val0, n0, false, val0, w)
  {
    WidthAtMostNine(val0);
    PlaceAgainstWidth(val0, n0);
    if val0 < Pow(Ten, n0) {
      assert text + Pending(val0, n0, false) == Pending(val0, n0, false);
    }
  }

  lemma LeftGrows(text: string, val: nat, n: nat, started: bool, val0: nat, w: nat)
    requires LeftState(text, val, n, started, val0, w) && val >= Pow(Ten, n)
    ensures n < w && LeftState(text, val, n + 1, started, val0, w)
  {
    PlaceAgainstWidth(val0, n + 1);
    if val < Pow(Ten, n + 1) {
      assert text + Pending(val, n + 1, false) == Pending(val, n + 1, false);
    }
  }

  lemma LeftPrints(text: string, val: nat, n: nat, started: bool, val0: nat, w: nat, c: char, rest: nat, starts: bool)
    requires LeftState(text, val, n, started, val0, w) && val < Pow(Ten, n)
    requires n >= 1 && rest < Pow(Ten, n - 1)
    requires Pending(val, n, started) == [c] + Pending(rest, n - 1, starts)
    ensures LeftState(text + [c], rest, n - 1, starts, val0, w)
  {
    assert (text + [c]) + Pending(rest, n - 1, starts) == text + Pending(val, n, started);
  }

  lemma LeftDone(text: string, val: nat, started: bool, val0: nat, w: nat)
    requires LeftState(text, val, 0, started, val0, w) && w >= 1
    ensures |text| == w && Width(Ten, val0) <= w
    ensures text == Fill(' ', w - Width(Ten, val0)) + Numeral(Ten, val0)
  {
    PendingIsPadded(val0, w);
    assert text + Pending(val, 0, started) == text;
  }

  /** Places to grow while the divisor is too small, and then places to print. */
  ghost function StepsLeft(val: nat, n: nat): int {
    if val >= Pow(Ten, n) then 20 - n else n
  }

  /** One turn of the right-aligned loop: more than nine means the divisor is too small, otherwise the
      digit is printed once digits have begun, begins them, or is the last, and a blank before. */
  method LeftPlace(val: nat, j: nat, ghost n: nat, started: bool, ghost text: string, ghost val0: nat, ghost w: nat)
    returns (j': nat, ghost n': nat, c: char, rest: nat, starts: bool, prints: bool, ghost out: string)
    requires 1 <= n <= w <= 9 && j == Divisor(n) && LeftState(text, val, n, started, val0, w)
    ensures j' == Divisor(n') && n' <= w && 0 <= StepsLeft(rest, n') < StepsLeft(val, n)
    ensures LeftState(out, rest, n', starts, val0, w) && out == (if prints then text + [c] else text) && |out| <= w
  {
    var k, left := Quotient(val, j, n);
    c, rest, starts, prints := ' ', val, started, k <= 9;
    if k > 9 {
      LeftGrows(text, val, n, started, val0, w);
      PowGrows(Ten, n, 8);
      NinePlaces();
      j' := Grown(j, n);
      n', out := n + 1, text;
    } else {
      PendingStep(val, n, started);
      starts, rest := started || k != 0 || j == 1, left;
      if starts {
        c := Digit(k);
      }
      j' := Shrunk(j, n);
      n', out := n - 1, text + [c];
      LeftPrints(text, val, n, started, val0, w, c, rest, starts);
    }
  }

  /** The division at one place. */
  method Quotient(val: nat, j: nat, ghost n: nat) returns (k: nat, left: nat)
    requires n >= 1 && j == Divisor(n)
    ensures k > 9 <==> val >= Pow(Ten, n)
    ensures k == val / j && (k <= 9 ==> left == val % j && left < Pow(Ten, n - 1) && (k == 0 ==> left == val))
  {
    QuotientTest(val, j);
    k := val / j;
    left := val - k * j;
    if k <= 9 {
      SplitTop(Ten, val, n);
    }
  }

  /** Where the left-aligned loop stands: growing, or with `text` out and the rest to come. */
  ghost predicate RightState(text: string, val: nat, n: nat, started: bool, len: nat, val0: nat, w: nat)
  {
    && val0 < Pow(Ten, w)
    && if val >= Pow(Ten, n) then
         text == "" && !started && val == val0 && 1 <= n == len < w && Pow(Ten, w - 1) <= val0
       else
         && len == w && |text| + n <= w
         && text + Coming(val, n, started, w - |text|) == Coming(val0, w, false, w)
  }

  ghost function RightSteps(i: int, val: nat, n: nat, w: nat): int {
    if val >= Pow(Ten, n) then 40 - n else w - i + n
  }

  lemma RightStart(val0: nat, len0: nat, w: nat)
    requires val0 < Pow(Ten, w) && 1 <= len0 <= w && (w == len0 || Pow(Ten, w - 1) <= val0)
    ensures RightState([], val0, len0, false, len0, val0, w)
  {
    if len0 < w {
      PowGrows(Ten, len0, w - 1);
    }
    assert [] + Coming(val0, w, false, w) == Coming(val0, w, false, w);
  }

  /** The columns needed: as many as asked for, or as the number is wide. */
  lemma ColumnsNeeded(val0: nat, len0: nat) returns (w: nat)
    requires val0 <= MAX_VALUE && 1 <= len0 <= 9
    ensures w == Max(len0, Width(Ten, val0)) <= 9
    ensures val0 < Pow(Ten, w) && 1 <= len0 <= w && (w == len0 || Pow(Ten, w - 1) <= val0)
  {
    w := Max(len0, Width(Ten, val0));
    WidthAtMostNine(val0);
    PowGrows(Ten, Width(Ten, val0), w);
  }

  lemma RightDone(text: string, val: nat, n: nat, started: bool, len: nat, val0: nat, w: nat)
    requires RightState(text, val, n, started, len, val0, w) && |text| >= len && w >= 1
    ensures text == Coming(val0, w, false, w)
  {
    assert text + Coming(val, n, started, w - |text|) == text;
  }

  lemma RightGrows(text: string, val: nat, n: nat, started: bool, len: nat, val0: nat, w: nat)
    requires RightState(text, val, n, started, len, val0, w) && val >= Pow(Ten, n) && w <= 9
    ensures n < w && len < w && RightState(text, val, n + 1, started, len + 1, val0, w)
    ensures Pow(Ten, n) <= MAX_VALUE
    ensures RightSteps(|text|, val, n + 1, w) < RightSteps(|text|, val, n, w)
  {
    if n + 1 < w {
      PowGrows(Ten, n + 1, w - 1);
    } else {
      assert text + Coming(val0, w, false, w) == Coming(val0, w, false, w);
    }
    PowGrows(Ten, n, 8);
    NinePlaces();
  }

  /** A digit at place n: a zero before the first digit is passed over, any other is appended. */
  lemma RightDigit(text: string, val: nat, n: nat, started: bool, len: nat, val0: nat, w: nat, k: nat, rest: nat)
    requires n >= 1 && RightState(text, val, n, started, len, val0, w) && val < Pow(Ten, n) && |text| < len
    requires k < 10 && k == val / Divisor(n) && rest == val % Divisor(n)
    ensures rest < Pow(Ten, n - 1) && n <= w
    ensures var out := if k == 0 && !started then text else text + [Digit(k)];
      && RightState(out, rest, n - 1, started || k != 0, len, val0, w)
      && RightSteps(|out|, rest, n - 1, w) < RightSteps(|text|, val, n, w)
    ensures k == 0 && !started ==> rest == val
  {
    ComingStep(val, n, started, w - |text|);
    if k != 0 || started {
      RightAppends(text, val, n, started, len, val0, w, Digit(k), rest, n - 1);
    }
  }

  lemma RightAppends(text: string, val: nat, n: nat, started: bool, len: nat, val0: nat, w: nat, c: char, rest: nat, n': nat)
    requires RightState(text, val, n, started, len, val0, w) && val < Pow(Ten, n) && |text| < len
    requires rest < Pow(Ten, n') && n' <= n && n' + |text| + 1 <= w
    requires Coming(val, n, started, w - |text|) == [c] + Coming(rest, n', true, w - |text| - 1)
    ensures RightState(text + [c], rest, n', true, len, val0, w)
    ensures RightSteps(|text| + 1, rest, n', w) < RightSteps(|text|, val, n, w)
  {
    assert (text + [c]) + Coming(rest, n', true, w - |text| - 1) == text + Coming(val, n, started, w - |text|);
  }

  /** One turn of the left-aligned loop: a longer divisor and a wider field, a skipped leading zero,
      one more digit, or past the last place a blank, or the zero of a zero. */
  method RightPlace(val: nat, j: nat, ghost n: nat, started: bool, ghost text: string, i: nat, len: nat, ghost val0: nat, ghost w: nat)
    returns (j': nat, ghost n': nat, len': nat, c: char, rest: nat, prints: bool, ghost out: string)
    requires n <= w && len <= w <= 9 && j == Divisor(n)
    requires RightState(text, val, n, started, len, val0, w) && i == |text| < len
    ensures j' == Divisor(n') && n' <= w && |out| <= len' <= w && out == (if prints then text + [c] else text)
    ensures RightState(out, rest, n', started || prints, len', val0, w)
    ensures RightSteps(|out|, rest, n', w) < RightSteps(|text|, val, n, w)
  {
    j', n', len', c, rest, prints, out := j, n, len, ' ', val, true, text;
    if j != 0 {
      j', n', len', c, rest, prints, out := RightDigitPlace(val, j, n, started, text, i, len, val0, w);
    } else {
      c := if !started && i < len - 1 then '0' else ' ';
      out := text + [c];
      BlankAppends(text, val, n, started, len, val0, w, c);
    }
  }

  /** The same where there is still a digit to print. */
  method RightDigitPlace(val: nat, j: nat, ghost n: nat, started: bool, ghost text: string, i: nat, len: nat, ghost val0: nat,
                         ghost w: nat)
    returns (j': nat, ghost n': nat, len': nat, c: char, rest: nat, prints: bool, ghost out: string)
    requires n <= w && len <= w <= 9 && j == Divisor(n) && j != 0
    requires RightState(text, val, n, started, len, val0, w) && i == |text| < len
    ensures j' == Divisor(n') && n' <= w && |out| <= len' <= w && out == (if prints then text + [c] else text)
    ensures RightState(out, rest, n', started || prints, len', val0, w)
    ensures RightSteps(|out|, rest, n', w) < RightSteps(|text|, val, n, w)
  {
    j', n', len', c, rest, prints, out := j, n, len, ' ', val, true, text;
    var k, left := Quotient(val, j, n);
    if k > 9 {
      RightGrows(text, val, n, started, len, val0, w);
      j' := Grown(j, n);
      n', len', prints := n + 1, len + 1, false;
    } else {
      RightDigit(text, val, n, started, len, val0, w, k, left);
      j' := Shrunk(j, n);
      n' := n - 1;
      if k == 0 && !started {
        prints := false;
      } else {
        c, rest := Digit(k), left;
        out := text + [c];
      }
    }
  }

  lemma BlankAppends(text: string, val: nat, n: nat, started: bool, len: nat, val0: nat, w: nat, c: char)
    requires n == 0 && RightState(text, val, n, started, len, val0, w) && |text| < len <= w
    requires c == if !started && |text| < len - 1 then '0' else ' '
    ensures RightState(text + [c], val, 0, true, len, val0, w)
    ensures RightSteps(|text| + 1, val, 0, w) < RightSteps(|text|, val, n, w)
  {
    if val < Pow(Ten, n) {
      assert val == 0;
      BlankStep(started, w - |text|);
      RightAppends(text, val, n, started, len, val0, w, c, val, 0);
    }
  }

  lemma BlankStep(started: bool, cols: nat)
    requires cols >= 1
    ensures Coming(0, 0, started, cols) == [if !started && cols > 1 then '0' else ' '] + Coming(0, 0, true, cols - 1)
  {
    assert Fill(' ', cols) == [' '] + Fill(' ', cols - 1);
  }

  /** Times a hundred and then, at the head of the loop, divided by ten: the product stays within 10^9. */
  method Grown(j: nat, ghost n: nat) returns (r: nat)
    requires n >= 1 && j == Divisor(n) && Pow(Ten, n) <= MAX_VALUE
    ensures n <= 8 && r == Divisor(n + 1)
  {
    DivisorSteps(n);
    r := j * 100 % WORD / 10;
  }

  method Shrunk(j: nat, ghost n: nat) returns (r: nat)
    requires n >= 1 && j == Divisor(n)
    ensures r == Divisor(n - 1)
  {
    DivisorSteps(n);
    r := j / 10;
  }

  lemma WidthAtMostNine(val: nat)
    requires val <= MAX_VALUE
    ensures Width(Ten, val) <= 9
  {
    var w := Width(Ten, val);
    NinePlaces();
    if w > 9 {
      PowGrows(Ten, 9, w - 1);
    }
  }

  /** How a power of ten compares with a number says how its place compares with the width. */
  lemma PlaceAgainstWidth(val: nat, n: nat)
    ensures Pow(Ten, n) <= val ==> n < Width(Ten, val)
    ensures val < Pow(Ten, n) ==> Width(Ten, val) <= n || n == 0
  {
    var w := Width(Ten, val);
    if w <= n {
      PowGrows(Ten, w, n);
    } else if 0 < n {
      PowGrows(Ten, n, w - 1);
    }
  }

  /** Nine digits fit nine places, and ten to the ninth fits 32 bits. */
  lemma NinePlaces()
    ensures Pow(Ten, 9) == MAX_VALUE + 1 < WORD
  {
    assert Pow(Ten, 3) == 1000;
    assert Pow(Ten, 6) == 1000000;
  }

  // ----- what a reader sees

  function Stripped(s: string): string {
    if s == "" then "" else if s[0] == ' ' then Stripped(s[1..]) else [s[0]] + Stripped(s[1..])
  }

  lemma {:induction false} StrippedConcat(s: string, t: string)
    ensures Stripped(s + t) == Stripped(s) + Stripped(t)
  {
    if s == "" {
      assert s + t == t;
    } else {
      var rest := s[1..];
      StrippedConcat(rest, t);
      assert (s + t)[0] == s[0] && (s + t)[1..] == rest + t;
      assert [s[0]] + (Stripped(rest) + Stripped(t)) == ([s[0]] + Stripped(rest)) + Stripped(t);
    }
  }

  lemma {:induction false} StrippedBlanks(n: nat)
    ensures Stripped(Fill(' ', n)) == ""
  {
    if n > 0 {
      StrippedBlanks(n - 1);
      assert Fill(' ', n)[1..] == Fill(' ', n - 1);
    }
  }

  lemma {:induction false} StrippedDigits(b: Base, val: nat, k: nat)
    requires val < Pow(b, k)
    ensures Stripped(Digits(b, val, k)) == Digits(b, val, k)
    decreases k
  {
    if k > 0 {
      var q, rest := val / Pow(b, k - 1), val % Pow(b, k - 1);
      SplitTop(b, val, k);
      DigitsUnfold(b, val, k, q, rest);
      StrippedDigits(b, rest, k - 1);
    }
  }

  lemma StrippedNumeral(val: nat, before: nat, after: nat)
    ensures Stripped(Fill(' ', before) + Numeral(Ten, val)) == Numeral(Ten, val)
    ensures Stripped(Numeral(Ten, val) + Fill(' ', after)) == Numeral(Ten, val)
  {
    StrippedDigits(Ten, val, Width(Ten, val));
    StrippedBlanks(before);
    StrippedBlanks(after);
    StrippedConcat(Fill(' ', before), Numeral(Ten, val));
    StrippedConcat(Numeral(Ten, val), Fill(' ', after));
  }

  ghost predicate ReadsAs(text: string, val: nat) {
    Stripped(text) != "" && Reading(Ten, Stripped(text), 0) == val
  }

  lemma LeftPaddedReads(val: nat, len: int)
    ensures ReadsAs(LeftPadded(val, len), val) && |LeftPadded(val, len)| == Max(len, Width(Ten, val))
  {
    NumeralReadsBack(Ten, val);
    StrippedNumeral(val, Max(len, Width(Ten, val)) - Width(Ten, val), 0);
  }

  lemma LeftAlignedReads(val: nat, w: nat)
    requires Width(Ten, val) <= w
    ensures ReadsAs(LeftAligned(val, w), val) <==> !(val == 0 && w == 1)
    ensures |LeftAligned(val, w)| == w
  {
    NumeralReadsBack(Ten, val);
    StrippedNumeral(val, 0, w - Width(Ten, val));
    if val == 0 {
      if w == 1 {
        assert Stripped(" ") == "";
      } else {
        StrippedBlanks(w - 1);
        StrippedConcat("0", Fill(' ', w - 1));
        assert Stripped("0") == "0" && Reading(Ten, "0", 0) == 0;
      }
    }
  }

  /** A zero in one column is blank. */
  lemma ZeroIsBlank()
    ensures RightPadded(0, 1) == " " && !ReadsAs(RightPadded(0, 1), 0)
  {
    WidthIs(Ten, 0, 1);
    PrintedReadsBack(0, 1, true);
  }

  /** What the two modes print reads back as the value and is as wide as asked, with the exact
      exceptions: the left-aligned mode without columns, and a zero in its single column. */
  lemma PrintedReadsBack(val: nat, len: int, right: bool)
    ensures ReadsAs(if right then RightPadded(val, len) else LeftPadded(val, len), val)
        <==> !(right && (len <= 0 || (val == 0 && len == 1)))
    ensures !right || len > 0 ==> |if right then RightPadded(val, len) else LeftPadded(val, len)| == Max(len, Width(Ten, val))
  {
    LeftPaddedReads(val, len);
    LeftAlignedReads(val, Max(len, Width(Ten, val)));
    if val == 0 {
      WidthIs(Ten, val, 1);
    }
  }
}
