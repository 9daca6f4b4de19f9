/** Reading the real-time clock and turning its date into seconds since the epoch, in 32-bit
    arithmetic, against the civil calendar and the POSIX definition of those seconds. */
module Calendar {
  import opened Basics

  const SECS_PER_DAY: nat := 86400

  // ----- the civil calendar

  predicate Leap(y: int) {
    y % 4 == 0 && (y % 100 != 0 || y % 400 == 0)
  }

  function DaysInMonth(y: int, m: int): int {
    if m == 2 then (if Leap(y) then 29 else 28)
    else if m == 4 || m == 6 || m == 9 || m == 11 then 30 else 31
  }

  datatype Date = Date(year: int, month: int, day: int)

  predicate ValidDate(d: Date) {
    1 <= d.month <= 12 && 1 <= d.day <= DaysInMonth(d.year, d.month)
  }

  function NextDay(d: Date): (n: Date)
    requires ValidDate(d)
    ensures ValidDate(n)
  {
    if d.day < DaysInMonth(d.year, d.month) then d.(day := d.day + 1)
    else if d.month < 12 then Date(d.year, d.month + 1, 1)
    else Date(d.year + 1, 1, 1)
  }

  const EPOCH := Date(1970, 1, 1)

  /** The date `n` days after the epoch, one day at a time. */
  function DateAfter(n: nat): (d: Date)
    ensures ValidDate(d)
  {
    if n == 0 then EPOCH else NextDay(DateAfter(n - 1))
  }

  // ----- the formula of the source, in unbounded arithmetic

  /** March is month 1 and January and February end the year before, so leap days come last. */
  function MarchYear(d: Date): int {
    if d.month <= 2 then d.year - 1 else d.year
  }

  function MarchMonth(d: Date): int {
    if d.month <= 2 then d.month + 10 else d.month - 2
  }

  function LeapDays(y: int): int {
    y / 4 - y / 100 + y / 400
  }

  function DayNumber(d: Date): int {
    LeapDays(MarchYear(d)) + 367 * MarchMonth(d) / 12 + d.day + MarchYear(d) * 365 - 719499
  }

  lemma LeapDaysStep(y: int)
    ensures LeapDays(y) - LeapDays(y - 1) == if Leap(y) then 1 else 0
  {
    DivStep(y, 4);
    DivStep(y, 100);
    DivStep(y, 400);
    FactorOfMod(y, 100, 4);
    FactorOfMod(y, 400, 100);
  }

  lemma DivStep(y: int, k: int)
    requires k > 1
    ensures y / k - (y - 1) / k == if y % k == 0 then 1 else 0
  {
    var q, r := y / k, y % k;
    assert y == q * k + r;
    if r == 0 {
      assert y - 1 == (q - 1) * k + (k - 1);
      QuotientIs(y - 1, k, q - 1, k - 1);
    } else {
      QuotientIs(y - 1, k, q, r - 1);
    }
  }

  lemma FactorOfMod(y: int, big: int, small: int)
    requires (big == 100 && small == 4) || (big == 400 && small == 100)
    ensures y % big == 0 ==> y % small == 0
  {
    if y % big == 0 {
      QuotientIs(y, small, y / big * (big / small), 0);
    }
  }

  /** The month term grows by each month's length, February excepted. */
  lemma MonthTerm(m: int)
    requires 1 <= m <= 11
    ensures 367 * (m + 1) / 12 - 367 * m / 12 == if m == 2 || m == 4 || m == 7 || m == 9 then 30 else 31
  {}

  /** One calendar day later the formula says one more, across every month and year end. */
  lemma NextDayAddsOne(d: Date)
    requires ValidDate(d)
    ensures DayNumber(NextDay(d)) == DayNumber(d) + 1
  {
    if d.day == DaysInMonth(d.year, d.month) {
      if d.month == 2 {
        LeapDaysStep(d.year);
        assert 367 * 12 / 12 == 367 && 367 * 1 / 12 == 30;
      } else if d.month < 12 {
        MonthTerm(MarchMonth(d));
      } else {
        MonthTerm(10);
      }
    }
  }

  /** So the formula counts the days since the epoch, for every date from 1970 on. */
  lemma {:induction false} DayNumberCounts(n: nat)
    ensures DayNumber(DateAfter(n)) == n
  {
    if n > 0 {
      DayNumberCounts(n - 1);
      NextDayAddsOne(DateAfter(n - 1));
    }
  }

  function DayBefore(d: Date): Date {
    if d.day > 1 then d.(day := d.day - 1)
    else if d.month > 1 then Date(d.year, d.month - 1, DaysInMonth(d.year, d.month - 1))
    else Date(d.year - 1, 12, 31)
  }

  lemma DayBeforeIsBefore(d: Date)
    requires ValidDate(d)
    ensures ValidDate(DayBefore(d)) && NextDay(DayBefore(d)) == d
    ensures d.year >= 1970 && d != EPOCH ==> DayBefore(d).year >= 1970
  {}

  lemma DayAfterNext(n: nat, d: Date)
    requires ValidDate(d) && DateAfter(n) == d
    ensures DateAfter(n + 1) == NextDay(d)
  {}

  /** Every date from 1970 on is reached, at the day that the formula gives it. */
  lemma {:induction false} EveryDateIsCounted(d: Date)
    requires ValidDate(d) && d.year >= 1970
    ensures DayNumber(d) >= 0 && DateAfter(DayNumber(d)) == d
    decreases d.year, d.month, d.day
  {
    if d == EPOCH {
      DayNumberCounts(0);
    } else {
      var p := DayBefore(d);
      DayBeforeIsBefore(d);
      EveryDateIsCounted(p);
      NextDayAddsOne(p);
      DayAfterNext(DayNumber(p), p);
    }
  }

  // ----- the POSIX definition

  function DaysBefore(y: int, m: int): int
    requires 1 <= m <= 12
  {
    if m == 1 then 0 else DaysBefore(y, m - 1) + DaysInMonth(y, m - 1)
  }

  function YearDay(d: Date): int
    requires ValidDate(d)
  {
    DaysBefore(d.year, d.month) + d.day - 1
  }

  datatype Time = Time(date: Date, hour: int, min: int, sec: int)

  predicate ValidTime(t: Time) {
    ValidDate(t.date) && 0 <= t.hour < 24 && 0 <= t.min < 60 && 0 <= t.sec < 60
  }

  /** Seconds Since the Epoch, section 4.16 of the POSIX.1-2017 Base Definitions. */
  function PosixSeconds(t: Time): int
    requires ValidTime(t)
  {
    var tm_year := t.date.year - 1900;
    t.sec + t.min * 60 + t.hour * 3600 + YearDay(t.date) * 86400
      + (tm_year - 70) * 31536000 + ((tm_year - 69) / 4) * 86400
      - ((tm_year - 1) / 100) * 86400 + ((tm_year + 299) / 400) * 86400
  }

  lemma {:induction false} MonthTable(y: int, m: int)
    requires 1 <= m <= 12
    ensures m > 2 ==> DaysBefore(y, m) == 367 * (m - 2) / 12 + 1 + DaysInMonth(y, 2)
    ensures m <= 2 ==> DaysBefore(y, m) == 31 * (m - 1)
  {
    if m > 1 {
      MonthTable(y, m - 1);
    }
  }

  /** The day formula, with the year's days counted from its beginning. */
  lemma DayNumberByYear(d: Date)
    requires ValidDate(d)
    ensures DayNumber(d) == YearDay(d) + (d.year - 1970) * 365 + (d.year - 1969) / 4 - (d.year - 1901) / 100 + (d.year - 1601) / 400
  {
    MonthTable(d.year, d.month);
    LeapDaysStep(d.year);
    CenturyOffsets(d.year);
  }

  /** The day formula is the POSIX one. */
  lemma DayNumberIsPosix(t: Time)
    requires ValidTime(t)
    ensures PosixSeconds(t) == ((DayNumber(t.date) * 24 + t.hour) * 60 + t.min) * 60 + t.sec
  {
    var y := t.date.year;
    DayNumberByYear(t.date);
    SecondsByYear(YearDay(t.date), y, (y - 1969) / 4, (y - 1901) / 100, (y - 1601) / 400, t.hour, t.min, t.sec);
  }

  lemma SecondsByYear(yday: int, y: int, fours: int, hundreds: int, fourHundreds: int, hour: int, min: int, sec: int)
    ensures sec + min * 60 + hour * 3600 + yday * 86400 + (y - 1970) * 31536000 + fours * 86400 - hundreds * 86400 + fourHundreds * 86400
         == (((yday + (y - 1970) * 365 + fours - hundreds + fourHundreds) * 24 + hour) * 60 + min) * 60 + sec
  {}

  lemma CenturyOffsets(y: int)
    ensures (y - 1969) / 4 == (y - 1) / 4 - 492
    ensures (y - 1901) / 100 == (y - 1) / 100 - 19
    ensures (y - 1601) / 400 == (y - 1) / 400 - 4
  {}

  // ----- the same in 32-bit arithmetic

  /** The local month adjustment: subtract two and wrap into the year before. */
  function ShiftedMonth(mon0: nat): nat {
    var less := (mon0 - 2) % WORD;
    if less == 0 || less >= 0x8000_0000 then (less + 12) % WORD else less
  }

  function ShiftedYear(year0: nat, mon0: nat): nat {
    var less := (mon0 - 2) % WORD;
    if less == 0 || less >= 0x8000_0000 then (year0 - 1) % WORD else year0
  }

  function Days32(year: nat, mon: nat, day: nat): nat {
    ((year / 4 - year / 100 + year / 400 + 367 * mon % WORD / 12 + day) % WORD + year * 365 - 719499) % WORD
  }

  function Seconds32(days: int, hour: int, min: int, sec: int): nat {
    (((days * 24 + hour) % WORD * 60 + min) % WORD * 60 + sec) % WORD
  }

  function MyMktime(year0: nat, mon0: nat, day: nat, hour: nat, min: nat, sec: nat): nat {
    Seconds32(Days32(ShiftedYear(year0, mon0), ShiftedMonth(mon0), day), hour, min, sec)
  }

  lemma SameRemainder(x: int, y: int, k: int)
    requires x - y == k * WORD
    ensures x % WORD == y % WORD
  {}

  lemma ScaledRemainder(x: int, k: int, c: int)
    ensures (x % WORD * k + c) % WORD == (x * k + c) % WORD
  {
    assert x == x / WORD * WORD + x % WORD;
    var j := x / WORD;
    assert x * k + c - (x % WORD * k + c) == (j * k) * WORD;
    SameRemainder(x * k + c, x % WORD * k + c, j * k);
  }

  lemma Seconds32Is(days: int, n: int, hour: int, min: int, sec: int)
    requires days == n % WORD
    ensures Seconds32(days, hour, min, sec) == (((n * 24 + hour) * 60 + min) * 60 + sec) % WORD
  {
    ScaledRemainder(n, 24, hour);
    ScaledRemainder(n * 24 + hour, 60, min);
    ScaledRemainder((n * 24 + hour) * 60 + min, 60, sec);
  }

  lemma SmallRemainder(x: int)
    ensures 0 <= x < WORD ==> x % WORD == x
    ensures 0 - WORD <= x < 0 ==> x % WORD == x + WORD
  {}

  lemma ShiftIsMarch(d: Date)
    requires 1 <= d.month <= 12 && 1 <= d.year < WORD
    ensures ShiftedMonth(d.month) == MarchMonth(d) && ShiftedYear(d.year, d.month) == MarchYear(d)
  {
    var less := (d.month - 2) % WORD;
    SmallRemainder(d.month - 2);
    SmallRemainder(d.year - 1);
    if d.month == 1 {
      assert less + 12 - WORD == 11;
      SameRemainder(less + 12, 11, 1);
    } else if d.month == 2 {
      SmallRemainder(12);
    }
  }

  lemma Days32Is(d: Date)
    requires ValidDate(d) && 1 <= d.year < WORD
    ensures Days32(MarchYear(d), MarchMonth(d), d.day) == DayNumber(d) % WORD
  {
    var year, term := MarchYear(d), 367 * MarchMonth(d);
    SmallRemainder(term);
    ScaledRemainder(LeapDays(year) + term / 12 + d.day, 1, year * 365 - 719499);
  }

  /** The 32-bit computation is the POSIX number of seconds cut to 32 bits, for every year. */
  lemma MktimeIsPosix(t: Time)
    requires ValidTime(t) && 1 <= t.date.year < WORD
    ensures MyMktime(t.date.year, t.date.month, t.date.day, t.hour, t.min, t.sec) == PosixSeconds(t) % WORD
  {
    ShiftIsMarch(t.date);
    Days32Is(t.date);
    Seconds32Is(DayNumber(t.date) % WORD, DayNumber(t.date), t.hour, t.min, t.sec);
    DayNumberIsPosix(t);
  }

  lemma {:induction false} LeapDaysGrow(y: int, z: int)
    requires y <= z
    ensures LeapDays(y) <= LeapDays(z)
    decreases z - y
  {
    if y < z {
      LeapDaysGrow(y, z - 1);
      LeapDaysStep(z);
    }
  }

  lemma DaysTo2105(d: Date)
    requires ValidDate(d) && 1970 <= d.year <= 2105
    ensures 0 <= DayNumber(d) <= 49672
  {
    LeapDaysGrow(1969, MarchYear(d));
    LeapDaysGrow(MarchYear(d), if d.month <= 2 then 2104 else 2105);
    assert LeapDays(1969) == 477 && LeapDays(2104) == LeapDays(2105) == 510;
  }

  lemma SecondsTo2105(days: int, hour: int, min: int, sec: int)
    requires 0 <= days <= 49672 && 0 <= hour < 24 && 0 <= min < 60 && 0 <= sec < 60
    ensures 0 <= ((days * 24 + hour) * 60 + min) * 60 + sec < WORD
  {}

  /** Between 1970 and 2105 nothing is cut off. */
  lemma MktimeIsExact(t: Time)
    requires ValidTime(t) && 1970 <= t.date.year <= 2105
    ensures 0 <= PosixSeconds(t) < WORD
    ensures MyMktime(t.date.year, t.date.month, t.date.day, t.hour, t.min, t.sec) == PosixSeconds(t)
  {
    MktimeIsPosix(t);
    DayNumberIsPosix(t);
    DaysTo2105(t.date);
    SecondsTo2105(DayNumber(t.date), t.hour, t.min, t.sec);
    SmallRemainder(PosixSeconds(t));
  }

  // ----- the real-time clock

  /** The registers as read, all bytes, with the control register that selects BCD or binary. */
  datatype RtcRegs = RtcRegs(sec: nat, min: nat, hour: nat, mday: nat, mon: nat, year: nat, control: nat)

  predicate BinaryMode(control: nat) {
    control / 4 % 2 == 1
  }

  function Bcd2Bin(val: nat): nat {
    (val % 16 + val / 16 * 10) % 256
  }

  function ToBcd(v: nat): nat {
    v / 10 * 16 + v % 10
  }

  function RegisterValue(v: nat, control: nat): nat {
    if BinaryMode(control) then v else ToBcd(v)
  }

  /** What a 24-hour clock shows at a given time. */
  function Shown(t: Time, control: nat): RtcRegs
    requires ValidTime(t) && t.date.year >= 0
  {
    RtcRegs(RegisterValue(t.sec, control), RegisterValue(t.min, control), RegisterValue(t.hour, control),
            RegisterValue(t.date.day, control), RegisterValue(t.date.month, control),
            RegisterValue(t.date.year % 100, control), control)
  }

  lemma BcdRoundTrip(v: nat)
    requires v < 100
    ensures Bcd2Bin(ToBcd(v)) == v && ToBcd(v) < 256
  {
    QuotientIs(ToBcd(v), 16, v / 10, v % 10);
  }

  /** The broken-down time kept in struct rtc_time: months from 0, years from 1900. */
  datatype Fields = Fields(sec: int, min: int, hour: int, mday: int, mon: int, year: int)

  /** The registers as numbers. */
  function Plain(r: RtcRegs): RtcRegs {
    if BinaryMode(r.control) then r
    else RtcRegs(Bcd2Bin(r.sec), Bcd2Bin(r.min), Bcd2Bin(r.hour), Bcd2Bin(r.mday), Bcd2Bin(r.mon), Bcd2Bin(r.year), r.control)
  }

  /** Two-digit years 00 to 69 belong to the century after 1900. */
  function Windowed(p: RtcRegs): Fields {
    Fields(p.sec, p.min, p.hour, p.mday, p.mon - 1, if p.year <= 69 then p.year + 100 else p.year)
  }

  function BaseSec(f: Fields): nat
    requires f.sec >= 0 && f.min >= 0 && f.hour >= 0 && f.mday >= 0 && f.mon >= -1 && f.year >= -1900
  {
    MyMktime(f.year + 1900, f.mon + 1, f.mday, f.hour, f.min, f.sec)
  }

  class RtcTime {
    var sec: int
    var min: int
    var hour: int
    var mday: int
    var mon: int
    var year: int

    function Value(): Fields
      reads this
    {
      Fields(sec, min, hour, mday, mon, year)
    }

    /** Take the registers over, decode them in place, and window the year. */
    method Read(r: RtcRegs)
      modifies this
      ensures Value() == Windowed(Plain(r))
    {
      sec, min, hour := r.sec, r.min, r.hour;
      mday, mon, year := r.mday, r.mon, r.year;
      if !BinaryMode(r.control) {
        sec := Bcd2Bin(sec);
        min := Bcd2Bin(min);
        hour := Bcd2Bin(hour);
        mday := Bcd2Bin(mday);
        mon := Bcd2Bin(mon);
        year := Bcd2Bin(year);
      }
      if year <= 69 {
        year := year + 100;
      }
      mon := mon - 1;
    }
  }

  lemma ShownIsDecoded(t: Time, control: nat)
    requires ValidTime(t) && 1970 <= t.date.year <= 2069
    ensures Windowed(Plain(Shown(t, control)))
         == Fields(t.sec, t.min, t.hour, t.date.day, t.date.month - 1, t.date.year - 1900)
  {
    BcdRoundTrip(t.sec);
    BcdRoundTrip(t.min);
    BcdRoundTrip(t.hour);
    BcdRoundTrip(t.date.day);
    BcdRoundTrip(t.date.month);
    BcdRoundTrip(t.date.year % 100);
    QuotientIs(t.date.year, 100, if t.date.year < 2000 then 19 else 20, t.date.year - if t.date.year < 2000 then 1900 else 2000);
  }

  /** From the clock's face to POSIX seconds, for every moment of 1970 to 2069 and both encodings. */
  lemma ClockIsPosix(t: Time, control: nat)
    requires ValidTime(t) && 1970 <= t.date.year <= 2069
    ensures BaseSec(Windowed(Plain(Shown(t, control)))) == PosixSeconds(t) < WORD
  {
    ShownIsDecoded(t, control);
    MktimeIsExact(t);
  }

  /** The normalising loop of the time of day: whole seconds move out of the microseconds. */
  method Normalise(sec0: nat, usec0: nat) returns (sec: nat, usec: nat)
    requires sec0 < WORD
    ensures usec == usec0 % 1000000
    ensures sec == (sec0 + usec0 / 1000000) % WORD
  {
    sec, usec := sec0, usec0;
    ghost var moved: nat := 0;
    while usec >= 1000000
      invariant usec0 == moved * 1000000 + usec
      invariant sec == (sec0 + moved) % WORD
    {
      usec := usec - 1000000;
      NextSecond(sec0 + moved);
      sec := (sec + 1) % WORD;
      moved := moved + 1;
    }
    QuotientIs(usec0, 1000000, moved, usec);
  }

  lemma NextSecond(x: nat)
    ensures (x % WORD + 1) % WORD == (x + 1) % WORD
  {}
}
