/** The stub's CRC-32: a byte-at-a-time table method, proved equal to dividing the message bit by bit. */
module Crc32 {

  const POLYNOMIAL: bv32 := 0x04c11db7

  // ----- repeated steps, whatever is being stepped

  function Iterate<T>(f: T -> T, c: T, n: nat): T
    decreases n
  {
    if n == 0 then c else Iterate(f, f(c), n - 1)
  }

  lemma {:induction false} IterateDistributes<T(!new)>(f: T -> T, op: (T, T) -> T, a: T, b: T, n: nat)
    requires forall x, y :: f(op(x, y)) == op(f(x), f(y))
    ensures Iterate(f, op(a, b), n) == op(Iterate(f, a, n), Iterate(f, b, n))
    decreases n
  {
    if n > 0 {
      IterateDistributes(f, op, f(a), f(b), n - 1);
    }
  }

  /** Feeding `n` pieces of `b` one by one, `next` exposing the following piece. */
  function FeedAll<S, B>(feed: (S, B) -> S, next: B -> B, s: S, b: B, n: nat): S
    decreases n
  {
    if n == 0 then s else FeedAll(feed, next, feed(s, b), next(b), n - 1)
  }

  /** If loading the input first and stepping is the same as feeding one piece and then loading the
      rest, that stays so for any number of steps. */
  lemma {:induction false} LoadFirst<S(!new), B(!new)>(f: S -> S, load: (S, B) -> S, feed: (S, B) -> S, next: B -> B,
                                                       s: S, b: B, n: nat)
    requires forall x, y :: f(load(x, y)) == load(feed(x, y), next(y))
    ensures Iterate(f, load(s, b), n) == load(FeedAll(feed, next, s, b, n), Iterate(next, b, n))
    decreases n
  {
    if n > 0 {
      LoadFirst(f, load, feed, next, feed(s, b), next(b), n - 1);
    }
  }

  // ----- the definition: one message bit at a time, most significant first

  /** Feed the leading bit of `b`. */
  function FeedBit(crc: bv32, b: bv8): bv32 {
    if (crc & 0x8000_0000 != 0) != (b & 0x80 != 0) then (crc << 1) ^ POLYNOMIAL else crc << 1
  }

  function NextBit(b: bv8): bv8 {
    b << 1
  }

  function FeedByte(crc: bv32, b: bv8): bv32 {
    FeedAll(FeedBit, NextBit, crc, b, 8)
  }

  function BitwiseCrc(buf: seq<bv8>, crc: bv32): bv32
    decreases |buf|
  {
    if buf == [] then crc else BitwiseCrc(buf[1..], FeedByte(crc, buf[0]))
  }

  /** A buffer may be summed in pieces. */
  lemma {:induction false} CrcOfConcat(a: seq<bv8>, b: seq<bv8>, crc: bv32)
    ensures BitwiseCrc(a + b, crc) == BitwiseCrc(b, BitwiseCrc(a, crc))
    decreases |a|
  {
    if a == [] {
      assert a + b == b;
    } else {
      CrcOfConcat(a[1..], b, FeedByte(crc, a[0]));
      assert (a + b)[1..] == a[1..] + b;
    }
  }

  // ----- the table

  /** One step of the table's inner loop. */
  function Shift(c: bv32): bv32 {
    if c & 0x8000_0000 != 0 then (c << 1) ^ POLYNOMIAL else c << 1
  }

  function OnTop(i: bv32): bv32 {
    i << 24
  }

  function Entry(i: bv32): bv32 {
    Iterate(Shift, OnTop(i), 8)
  }

  /** Where the loop looks the next entry up. */
  function Index(crc: bv32, b: bv8): bv32 {
    ((crc >> 24) ^ (b as bv32)) & 255
  }

  function Shl8(crc: bv32): bv32 {
    crc << 8
  }

  function LowBytes(crc: bv32): bv32 {
    crc & 0x00ff_ffff
  }

  function Xor(a: bv32, b: bv32): bv32 {
    a ^ b
  }

  /** Add a message byte to the top of the register. */
  function Load(crc: bv32, b: bv8): bv32 {
    crc ^ ((b as bv32) << 24)
  }

  lemma ShiftTop(c: bv32)
    requires c & 0x8000_0000 != 0
    ensures Shift(c) == (c << 1) ^ POLYNOMIAL
  {}

  lemma ShiftClear(c: bv32)
    requires c & 0x8000_0000 == 0
    ensures Shift(c) == c << 1
  {}

  lemma XorLaws(a: bv32, b: bv32, p: bv32)
    ensures (a ^ b) << 1 == (a << 1) ^ (b << 1)
    ensures (a ^ b) << 1 == ((a << 1) ^ p) ^ ((b << 1) ^ p)
    ensures ((a ^ b) << 1) ^ p == ((a << 1) ^ p) ^ (b << 1)
    ensures ((a ^ b) << 1) ^ p == (a << 1) ^ ((b << 1) ^ p)
  {}

  lemma TopOfXor(a: bv32, b: bv32)
    ensures a & 0x8000_0000 != 0 && b & 0x8000_0000 != 0 ==> (a ^ b) & 0x8000_0000 == 0
    ensures a & 0x8000_0000 != 0 && b & 0x8000_0000 == 0 ==> (a ^ b) & 0x8000_0000 != 0
    ensures a & 0x8000_0000 == 0 && b & 0x8000_0000 != 0 ==> (a ^ b) & 0x8000_0000 != 0
    ensures a & 0x8000_0000 == 0 && b & 0x8000_0000 == 0 ==> (a ^ b) & 0x8000_0000 == 0
  {}

  /** Shifting is linear: the register's top bits may be sorted apart before shifting. */
  lemma ShiftIsLinear(a: bv32, b: bv32)
    ensures Shift(a ^ b) == Shift(a) ^ Shift(b)
  {
    TopOfXor(a, b);
    if a & 0x8000_0000 != 0 {
      if b & 0x8000_0000 != 0 {
        calc {
          Shift(a ^ b);
          { ShiftClear(a ^ b); }
          (a ^ b) << 1;
          { XorLaws(a, b, POLYNOMIAL); }
          ((a << 1) ^ POLYNOMIAL) ^ ((b << 1) ^ POLYNOMIAL);
          { ShiftTop(a); ShiftTop(b); }
          Shift(a) ^ Shift(b);
        }
      } else {
        calc {
          Shift(a ^ b);
          { ShiftTop(a ^ b); }
          ((a ^ b) << 1) ^ POLYNOMIAL;
          { XorLaws(a, b, POLYNOMIAL); }
          ((a << 1) ^ POLYNOMIAL) ^ (b << 1);
          { ShiftTop(a); ShiftClear(b); }
          Shift(a) ^ Shift(b);
        }
      }
    } else {
      if b & 0x8000_0000 != 0 {
        calc {
          Shift(a ^ b);
          { ShiftTop(a ^ b); }
          ((a ^ b) << 1) ^ POLYNOMIAL;
          { XorLaws(a, b, POLYNOMIAL); }
          (a << 1) ^ ((b << 1) ^ POLYNOMIAL);
          { ShiftClear(a); ShiftTop(b); }
          Shift(a) ^ Shift(b);
        }
      } else {
        calc {
          Shift(a ^ b);
          { ShiftClear(a ^ b); }
          (a ^ b) << 1;
          { XorLaws(a, b, POLYNOMIAL); }
          (a << 1) ^ (b << 1);
          { ShiftClear(a); ShiftClear(b); }
          Shift(a) ^ Shift(b);
        }
      }
    }
  }

  lemma LoadedTop(crc: bv32, b: bv8)
    ensures crc & 0x8000_0000 != 0 && b & 0x80 != 0 ==> (crc ^ ((b as bv32) << 24)) & 0x8000_0000 == 0
    ensures crc & 0x8000_0000 != 0 && b & 0x80 == 0 ==> (crc ^ ((b as bv32) << 24)) & 0x8000_0000 != 0
    ensures crc & 0x8000_0000 == 0 && b & 0x80 != 0 ==> (crc ^ ((b as bv32) << 24)) & 0x8000_0000 != 0
    ensures crc & 0x8000_0000 == 0 && b & 0x80 == 0 ==> (crc ^ ((b as bv32) << 24)) & 0x8000_0000 == 0
  {}

  lemma LoadedShift(crc: bv32, b: bv8)
    ensures (crc ^ ((b as bv32) << 24)) << 1 == (crc << 1) ^ (((b << 1) as bv32) << 24)
  {}

  lemma LoadedFeedback(crc: bv32, b: bv8, p: bv32)
    ensures ((crc ^ ((b as bv32) << 24)) << 1) ^ p == ((crc << 1) ^ p) ^ (((b << 1) as bv32) << 24)
  {}

  lemma LoadedStepFeeds(crc: bv32, b: bv8)
    requires (crc & 0x8000_0000 != 0) != (b & 0x80 != 0)
    ensures Shift(Load(crc, b)) == Load(FeedBit(crc, b), NextBit(b))
  {
    LoadedTop(crc, b);
    calc {
      Shift(Load(crc, b));
      { ShiftTop(Load(crc, b)); }
      ((crc ^ ((b as bv32) << 24)) << 1) ^ POLYNOMIAL;
      { LoadedFeedback(crc, b, POLYNOMIAL); }
      ((crc << 1) ^ POLYNOMIAL) ^ (((b << 1) as bv32) << 24);
    }
  }

  lemma LoadedStepPasses(crc: bv32, b: bv8)
    requires (crc & 0x8000_0000 != 0) == (b & 0x80 != 0)
    ensures Shift(Load(crc, b)) == Load(FeedBit(crc, b), NextBit(b))
  {
    LoadedTop(crc, b);
    calc {
      Shift(Load(crc, b));
      { ShiftClear(Load(crc, b)); }
      (crc ^ ((b as bv32) << 24)) << 1;
      { LoadedShift(crc, b); }
      (crc << 1) ^ (((b << 1) as bv32) << 24);
    }
  }

  lemma EightBitsGone(b: bv8)
    ensures Iterate(NextBit, b, 8) == 0
  {
    EightSteps(NextBit, b);
    Gone(b);
  }

  lemma Gone(b: bv8)
    ensures ((((((((b << 1) << 1) << 1) << 1) << 1) << 1) << 1) << 1) == 0
  {}

  lemma EightSteps<T>(f: T -> T, c: T)
    ensures Iterate(f, c, 8) == f(f(f(f(f(f(f(f(c))))))))
  {
    var d := f(f(f(f(c))));
    FourSteps(f, c, 4);
    FourSteps(f, d, 0);
  }

  lemma FourSteps<T>(f: T -> T, c: T, n: nat)
    ensures Iterate(f, c, n + 4) == Iterate(f, f(f(f(f(c)))), n)
  {
    assert Iterate(f, c, n + 4) == Iterate(f, f(c), n + 3);
    assert Iterate(f, f(c), n + 3) == Iterate(f, f(f(c)), n + 2);
    assert Iterate(f, f(f(c)), n + 2) == Iterate(f, f(f(f(c))), n + 1);
  }

  /** Feeding a byte bit by bit is loading it and shifting eight times. */
  lemma ByteIsEightShifts(crc: bv32, b: bv8)
    ensures FeedByte(crc, b) == Iterate(Shift, Load(crc, b), 8)
  {
    forall x, y ensures Shift(Load(x, y)) == Load(FeedBit(x, y), NextBit(y)) {
      if (x & 0x8000_0000 != 0) != (y & 0x80 != 0) {
        LoadedStepFeeds(x, y);
      } else {
        LoadedStepPasses(x, y);
      }
    }
    LoadFirst(Shift, Load, FeedBit, NextBit, crc, b, 8);
    EightBitsGone(b);
    LoadNothing(FeedByte(crc, b));
  }

  lemma LoadNothing(c: bv32)
    ensures Load(c, 0) == c
  {}

  /** The low three bytes pass through eight shifts without feedback. */
  lemma LowBytesShift(c: bv32)
    ensures Iterate(Shift, LowBytes(c), 8) == Shl8(c)
  {
    var lo := c & 0x00ff_ffff;
    NoFeedback(c);
    ShiftClear(lo);
    ShiftClear(lo << 1);
    ShiftClear(lo << 2);
    ShiftClear(lo << 3);
    ShiftClear(lo << 4);
    ShiftClear(lo << 5);
    ShiftClear(lo << 6);
    ShiftClear(lo << 7);
    EightSteps(Shift, lo);
  }

  lemma NoFeedback(c: bv32)
    ensures var lo := c & 0x00ff_ffff;
      && lo & 0x8000_0000 == 0 && (lo << 1) & 0x8000_0000 == 0 && (lo << 2) & 0x8000_0000 == 0
      && (lo << 3) & 0x8000_0000 == 0 && (lo << 4) & 0x8000_0000 == 0 && (lo << 5) & 0x8000_0000 == 0
      && (lo << 6) & 0x8000_0000 == 0 && (lo << 7) & 0x8000_0000 == 0
    ensures var lo := c & 0x00ff_ffff;
      && (lo << 1) << 1 == lo << 2 && (lo << 2) << 1 == lo << 3 && (lo << 3) << 1 == lo << 4
      && (lo << 4) << 1 == lo << 5 && (lo << 5) << 1 == lo << 6 && (lo << 6) << 1 == lo << 7
      && (lo << 7) << 1 == c << 8
  {}

  lemma LoadSplits(crc: bv32, b: bv8)
    ensures Load(crc, b) == Xor(LowBytes(crc), OnTop(Index(crc, b)))
  {}

  lemma SplitIterate<T(!new)>(f: T -> T, op: (T, T) -> T, t: T, lo: T, hi: T, lon: T, n: nat)
    requires forall x, y :: f(op(x, y)) == op(f(x), f(y))
    requires t == op(lo, hi) && Iterate(f, lo, n) == lon
    ensures Iterate(f, t, n) == op(lon, Iterate(f, hi, n))
  {
    IterateDistributes(f, op, lo, hi, n);
  }

  /** One table lookup does what eight bit steps do. */
  lemma TableStep(crc: bv32, b: bv8)
    ensures FeedByte(crc, b) == Xor(Shl8(crc), Entry(Index(crc, b)))
  {
    forall x, y ensures Shift(Xor(x, y)) == Xor(Shift(x), Shift(y)) {
      ShiftIsLinear(x, y);
    }
    ByteIsEightShifts(crc, b);
    LoadSplits(crc, b);
    LowBytesShift(crc);
    SplitIterate(Shift, Xor, Load(crc, b), LowBytes(crc), OnTop(Index(crc, b)), Shl8(crc), 8);
  }

  lemma EntryOneIsNotZero()
    ensures Entry(1) == POLYNOMIAL
  {
    ShiftClear(0x0100_0000);
    ShiftClear(0x0200_0000);
    ShiftClear(0x0400_0000);
    ShiftClear(0x0800_0000);
    ShiftClear(0x1000_0000);
    ShiftClear(0x2000_0000);
    ShiftClear(0x4000_0000);
    ShiftTop(0x8000_0000);
    EightSteps(Shift, 0x0100_0000);
  }

  class CrcTable {
    const table: array<bv32>

    /** Entry 1 tells whether the table has been built, and a built table is right. */
    ghost predicate Valid()
      reads table
    {
      && table.Length == 256
      && (table[1] != 0 ==> forall i: bv32 :: i < 256 ==> table[i] == Entry(i))
    }

    constructor ()
      ensures Valid() && fresh(table) && table[1] == 0
    {
      table := new bv32[256](_ => 0);
    }

    /** Built lazily and then kept: the CRC of every buffer is the bitwise one. */
    method Crc(buf: seq<bv8>, crc0: bv32) returns (crc: bv32)
      requires Valid()
      modifies table
      ensures Valid() && table[1] != 0
      ensures old(table[1]) != 0 ==> table[..] == old(table[..])
      ensures crc == BitwiseCrc(buf, crc0)
    {
      if table[1] == 0 {
        BuildTable();
      }
      crc := crc0;
      for n := 0 to |buf|
        modifies {}
        invariant BitwiseCrc(buf[n..], crc) == BitwiseCrc(buf, crc0)
      {
        crc := AddByte(crc, buf[n]);
        assert buf[n..][1..] == buf[n + 1..];
      }
    }

    method AddByte(crc: bv32, b: bv8) returns (r: bv32)
      requires Valid() && table[1] != 0
      ensures r == FeedByte(crc, b)
    {
      TableStep(crc, b);
      IndexBelow(crc, b);
      var k := Index(crc, b);
      r := Xor(Shl8(crc), table[k]);
    }

    method BuildTable()
      requires table.Length == 256
      modifies table
      ensures Valid() && table[1] != 0
    {
      var i: bv32 := 0;
      while i < 256
        invariant i <= 256
        invariant forall k: bv32 :: k < i ==> table[k] == Entry(k)
        decreases 256 - i
      {
        var c := TableEntry(i);
        table[i] := c;
        i := i + 1;
      }
      EntryOneIsNotZero();
    }
  }

  /** The inner loop that fills one table entry. */
  method TableEntry(i: bv32) returns (c: bv32)
    ensures c == Entry(i)
  {
    c := OnTop(i);
    var j := 8;
    while j > 0
      invariant 0 <= j <= 8 && Iterate(Shift, c, j) == Entry(i)
    {
      c := Shift(c);
      j := j - 1;
    }
  }

  lemma IndexBelow(crc: bv32, b: bv8)
    ensures Index(crc, b) < 256
  {}
}
