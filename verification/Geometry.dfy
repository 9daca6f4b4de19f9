/** Sector addresses: block numbers, cylinder/head/sector triples, and the packed register form. */
module Geometry {
  import opened Basics

  const HEAD_MAX: nat := 254
  const CYLINDER_MAX: nat := 1023
  const SECTOR_MAX: nat := 63
  const MAX_LBA: nat := (CYLINDER_MAX * (HEAD_MAX + 1) + HEAD_MAX) * SECTOR_MAX + SECTOR_MAX - 1

  datatype Chs = Chs(c: int, h: int, s: int)

  /** A drive's geometry, each number of the width that the BIOS reports it in. */
  datatype Shape = Shape(lastHead: nat, lastCylinder: nat, sectors: nat) {
    predicate Reported() {
      lastHead <= 255 && lastCylinder <= CYLINDER_MAX && sectors <= SECTOR_MAX
    }

    function Capacity(): nat {
      (lastHead + 1) * (lastCylinder + 1) * sectors
    }

    predicate Has(a: Chs) {
      0 <= a.c <= lastCylinder && 0 <= a.h <= lastHead && 1 <= a.s <= sectors
    }
  }

  /** The bounds every triple is checked against. */
  predicate Verified(a: Chs) {
    0 <= a.c <= CYLINDER_MAX && 0 <= a.h <= HEAD_MAX && 0 < a.s <= SECTOR_MAX
  }

  function LbaToChs(g: Shape, lba: nat): Option<Chs>
    requires g.sectors > 0
  {
    if lba <= MAX_LBA then Some(Triple(g, lba)) else None
  }

  function Triple(g: Shape, lba: nat): Chs
    requires g.sectors > 0
  {
    Product(g.sectors, g.lastHead + 1);
    Chs(lba / (g.sectors * (g.lastHead + 1)), lba / g.sectors % (g.lastHead + 1), lba % g.sectors + 1)
  }

  function Number(g: Shape, a: Chs): int {
    (a.c * (g.lastHead + 1) + a.h) * g.sectors + a.s - 1
  }

  function ChsToLba(g: Shape, a: Chs): Option<int> {
    if Verified(a) then Some(Number(g, a)) else None
  }

  // ----- nonlinear facts

  lemma Product(a: nat, b: nat)
    requires a > 0 && b > 0
    ensures a * b > 0
  {}

  lemma Monotone(a: int, b: int, k: nat)
    requires a <= b
    ensures a * k <= b * k
  {}

  /** Dividing by a product is dividing twice. */
  lemma QuotientTwice(x: nat, a: nat, b: nat)
    requires a > 0 && b > 0
    ensures a * b > 0 && x / (a * b) == x / a / b
  {
    Product(a, b);
    var q := x / a;
    TwoQuotients(x, a, b, q, x % a, q / b, q % b);
  }

  lemma TwoQuotients(x: nat, a: nat, b: nat, q: nat, r: nat, c: nat, h: nat)
    requires x == q * a + r && r < a && q == c * b + h && h < b
    ensures a * b > 0 && x / (a * b) == c
  {
    Product(a, b);
    Regroup(c, b, h, a);
    Monotone(0, h, a);
    Monotone(h, b - 1, a);
    Regroup(b, 1, -1, a);
    QuotientIs(x, a * b, c, h * a + r);
  }

  lemma Regroup(c: int, b: int, h: int, a: int)
    ensures (c * b + h) * a == c * (a * b) + h * a && (c * b + h) * a == (c * b) * a + h * a
  {
    assert c * (a * b) == (c * b) * a;
  }

  // ----- the bijection

  /** A block number is recovered from its triple, and the triple lies on its track and head. */
  lemma TripleNumber(g: Shape, lba: nat)
    requires g.sectors > 0
    ensures var a := Triple(g, lba); Number(g, a) == lba && a.c >= 0 && 0 <= a.h <= g.lastHead && 1 <= a.s <= g.sectors
  {
    QuotientTwice(lba, g.sectors, g.lastHead + 1);
  }

  lemma NumberTriple(g: Shape, a: Chs)
    requires g.sectors > 0 && a.c >= 0 && 0 <= a.h <= g.lastHead && 1 <= a.s <= g.sectors
    ensures Number(g, a) >= 0 && Triple(g, Number(g, a)) == a
  {
    var heads := g.lastHead + 1;
    Monotone(0, a.c, heads);
    var q := a.c * heads + a.h;
    Monotone(0, q, g.sectors);
    QuotientIs(q * g.sectors + a.s - 1, g.sectors, q, a.s - 1);
    QuotientIs(q, heads, a.c, a.h);
    QuotientTwice(q * g.sectors + a.s - 1, g.sectors, heads);
  }

  /** The valid triples are numbered exactly by the blocks below the capacity. */
  lemma CapacityBounds(g: Shape, a: Chs)
    requires g.sectors > 0 && a.c >= 0 && 0 <= a.h <= g.lastHead && 1 <= a.s <= g.sectors
    ensures Number(g, a) < g.Capacity() <==> a.c <= g.lastCylinder
  {
    var heads, cylinders := g.lastHead + 1, g.lastCylinder + 1;
    var q := a.c * heads + a.h;
    Regroup(0, 0, heads * cylinders, g.sectors);
    if a.c <= g.lastCylinder {
      Monotone(a.c, cylinders - 1, heads);
      Regroup(cylinders, heads, 0 - heads, 1);
      assert q < heads * cylinders;
      Monotone(q, heads * cylinders - 1, g.sectors);
      Regroup(heads * cylinders, 1, -1, g.sectors);
    } else {
      Monotone(cylinders, a.c, heads);
      Monotone(heads * cylinders, q, g.sectors);
    }
  }

  predicate Before(a: Chs, b: Chs) {
    a.c < b.c || (a.c == b.c && (a.h < b.h || (a.h == b.h && a.s < b.s)))
  }

  /** Numbers follow the triples' lexicographic order. */
  lemma NumberOrder(g: Shape, a: Chs, b: Chs)
    requires g.sectors > 0 && 0 <= a.h <= g.lastHead && 1 <= a.s <= g.sectors && 0 <= b.h <= g.lastHead && 1 <= b.s <= g.sectors
    requires Before(a, b)
    ensures Number(g, a) < Number(g, b)
  {
    var heads := g.lastHead + 1;
    var p, q := a.c * heads + a.h, b.c * heads + b.h;
    if a.c < b.c {
      Monotone(a.c + 1, b.c, heads);
      Regroup(a.c, 1, 1, heads);
    }
    if p < q {
      Monotone(p + 1, q, g.sectors);
      Regroup(p, 1, 1, g.sectors);
    }
  }

  /** Translating a block below the capacity gives a valid triple, distinct blocks give triples in the
      same order, and translating back succeeds and returns the block exactly when the block number is
      addressable and its head is not 255. */
  lemma LbaRoundTrip(g: Shape, lba: nat)
    requires g.Reported() && g.sectors > 0 && lba < g.Capacity()
    ensures g.Has(Triple(g, lba))
    ensures var there := LbaToChs(g, lba);
      (there.Some? && ChsToLba(g, there.value) == Some(lba)) <==> lba <= MAX_LBA && Triple(g, lba).h != 255
  {
    TripleNumber(g, lba);
    CapacityBounds(g, Triple(g, lba));
  }

  lemma LbaOrder(g: Shape, a: nat, b: nat)
    requires g.sectors > 0
    ensures a < b <==> Before(Triple(g, a), Triple(g, b))
  {
    TripleNumber(g, a);
    TripleNumber(g, b);
    var x, y := Triple(g, a), Triple(g, b);
    if Before(x, y) {
      NumberOrder(g, x, y);
    } else if Before(y, x) {
      NumberOrder(g, y, x);
    } else {
      assert x == y;
    }
  }

  /** Every valid triple is the translation of one block below the capacity. Translating its number
      returns the triple exactly when the number is addressable. */
  lemma ChsRoundTrip(g: Shape, a: Chs)
    requires g.Reported() && g.Has(a)
    ensures ChsToLba(g, a).Some? <==> a.h != 255
    ensures 0 <= Number(g, a) < g.Capacity()
    ensures LbaToChs(g, Number(g, a)) == Some(a) <==> Number(g, a) <= MAX_LBA
  {
    NumberTriple(g, a);
    CapacityBounds(g, a);
  }

  /** With at most 255 heads nothing is out of reach: both round trips are unconditional. */
  lemma FittingLba(g: Shape, lba: nat)
    requires g.Reported() && g.sectors > 0 && g.lastHead <= HEAD_MAX && lba < g.Capacity()
    ensures var there := LbaToChs(g, lba);
      there.Some? && Verified(there.value) && ChsToLba(g, there.value) == Some(lba)
  {
    CapacityFits(g);
    LbaRoundTrip(g, lba);
  }

  lemma FittingChs(g: Shape, a: Chs)
    requires g.Reported() && g.lastHead <= HEAD_MAX && g.Has(a)
    ensures var back := ChsToLba(g, a);
      back.Some? && 0 <= back.value < g.Capacity() && LbaToChs(g, back.value) == Some(a)
  {
    CapacityFits(g);
    ChsRoundTrip(g, a);
  }

  lemma CapacityFits(g: Shape)
    requires g.Reported() && g.lastHead <= HEAD_MAX
    ensures g.Capacity() <= MAX_LBA + 1
  {
    var heads, cylinders := g.lastHead + 1, g.lastCylinder + 1;
    Monotone(heads, 255, cylinders);
    Monotone(heads * cylinders, 255 * 1024, g.sectors);
  }

  /** A drive with 256 heads has sectors that no triple check lets through. */
  lemma HeadTooMany(g: Shape)
    requires g.Reported() && g.sectors > 0 && g.lastHead == 255
    ensures var lba := 255 * g.sectors;
      lba < g.Capacity() && LbaToChs(g, lba).Some? && ChsToLba(g, Triple(g, lba)) == None
  {
    var a := Chs(0, 255, 1);
    NumberTriple(g, a);
    CapacityBounds(g, a);
  }

  // ----- the packed register

  /** Bitwise or. */
  function Or(a: nat, b: nat): nat
    decreases a + b
  {
    if a == 0 && b == 0 then 0 else (if a % 2 == 1 || b % 2 == 1 then 1 else 0) + 2 * Or(a / 2, b / 2)
  }

  function Power(n: nat): nat {
    if n == 0 then 1 else 2 * Power(n - 1)
  }

  /** Or of fields that do not overlap is their sum. */
  lemma {:induction false} DisjointOr(a: nat, n: nat, b: nat)
    requires b < Power(n)
    ensures Or(a * Power(n), b) == a * Power(n) + b && Or(b, a * Power(n)) == a * Power(n) + b
    decreases n
  {
    if n == 0 {
      OrZero(a);
    } else {
      var y := a * Power(n - 1);
      assert a * Power(n) == 2 * y;
      DisjointOr(a, n - 1, b / 2);
      OrDouble(y, b);
    }
  }

  /** The lowest bit of an even number leaves the other's. */
  lemma OrDouble(y: nat, b: nat)
    ensures Or(2 * y, b) == b % 2 + 2 * Or(y, b / 2) && Or(b, 2 * y) == b % 2 + 2 * Or(b / 2, y)
  {
    assert 2 * y / 2 == y && 2 * y % 2 == 0;
  }

  lemma {:induction false} OrZero(a: nat)
    ensures Or(a, 0) == a && Or(0, a) == a
  {
    if a > 0 {
      OrZero(a / 2);
    }
  }

  lemma ByteField(hi: nat, lo: nat)
    requires lo < 256
    ensures Or(hi * 256, lo) == hi * 256 + lo && Or(lo, hi * 256) == hi * 256 + lo
  {
    Powers(8);
    DisjointOr(hi, 8, lo);
  }

  lemma SixBitField(hi: nat, lo: nat)
    requires lo < 64
    ensures Or(hi * 64, lo) == hi * 64 + lo
  {
    Powers(6);
    DisjointOr(hi, 6, lo);
  }

  lemma Powers(n: nat)
    ensures (n == 6 ==> Power(n) == 64) && (n == 8 ==> Power(n) == 256)
  {}

  /** The three fields of the packed register do not overlap, so or-ing them adds them; nor do the two
      parts that the cylinder is or-ed together from. */
  lemma FieldsAdd(low: nat, high: nat, sector: nat)
    requires low < 256 && high < 4 && sector < 64
    ensures Or(Or(low * 256, high * 64), sector) == low * 256 + high * 64 + sector
    ensures Or(low, high * 256) == low + high * 256
  {
    ByteField(low, high * 64);
    ByteField(high, low);
    SixBitField(low * 4 + high, sector);
  }

  /** The low byte of the cylinder on top, its two high bits below, then the sector. */
  function Pack(c: nat, s: nat): (w: nat)
    requires c <= CYLINDER_MAX && s <= SECTOR_MAX
  {
    c % 256 * 256 + c / 256 * 64 + s
  }

  function Cylinder(w: nat): nat
    requires w < 0x1_0000
  {
    w / 256 + w / 64 % 4 * 256
  }

  function Sector(w: nat): nat {
    w % 64
  }

  /** Packing loses nothing within the limits. */
  lemma PackRoundTrip(c: nat, s: nat)
    requires c <= CYLINDER_MAX && s <= SECTOR_MAX
    ensures var w := Pack(c, s); w < 0x1_0000 && Cylinder(w) == c && Sector(w) == s
  {
    Fields(c % 256, c / 256, s, Pack(c, s));
  }

  lemma Fields(low: nat, high: nat, sector: nat, w: nat)
    requires low < 256 && high < 4 && sector < 64 && w == low * 256 + high * 64 + sector
    ensures w < 0x1_0000 && w / 256 == low && w / 64 % 4 == high && w % 64 == sector
  {
    assert w / 64 == low * 4 + high;
  }

  /** And every register value is the packing of what it unpacks to, which is within the limits. */
  lemma UnpackRoundTrip(w: nat)
    requires w < 0x1_0000
    ensures Cylinder(w) <= CYLINDER_MAX && Sector(w) <= SECTOR_MAX && Pack(Cylinder(w), Sector(w)) == w
  {
    assert w / 64 == w / 256 * 4 + w / 64 % 4;
  }
}
