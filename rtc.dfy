/** The DS1307 real-time clock driver of rtc-ds1307.c: an NTP time (seconds
    since 1900) is broken down into a calendar date and written as the
    clock's eight BCD registers, and the registers read back are decoded.
    The date loops stop with a strict `>` where `>=` is needed, so the first
    day of every month after January (and 1 January after a leap day count
    runs out) comes out as day "length + 1" of the month before; the model
    reproduces this and sets beside it the loops as evidently intended. The
    I2C transfers are the bus driver: the outcome of each is a parameter. */
module Rtc {
  import opened Bytes
  import opened Wrappers

  /** Seconds from 1900-01-01 to 1970-01-01 (RFC 868). */
  const UNIX_EPOCH_OFFSET: nat := 2208988800
  const SECONDS_PER_DAY: nat := 86400
  const EPOCH_YEAR: nat := 1970
  const TWO_32: nat := 0x1_0000_0000

  /** The latest year a 32-bit Unix time reaches. */
  const LAST_YEAR: nat := 2106

  // ---------------------------------------------------------------------
  // The calendar
  // ---------------------------------------------------------------------

  predicate LeapYear(y: nat)
  {
    y % 4 == 0 && (y % 100 != 0 || y % 400 == 0)
  }

  function DaysInYear(y: nat): (n: nat)
    ensures 365 <= n <= 366
  {
    if LeapYear(y) then 366 else 365
  }

  function DaysInMonth(m: nat, y: nat): (n: nat)
    ensures 28 <= n <= 31
  {
    if m == 2 then (if LeapYear(y) then 29 else 28)
    else if m == 4 || m == 6 || m == 9 || m == 11 then 30
    else 31
  }

  /** The days of the years `y0` up to `y`, `y` excluded. */
  function YearsBetween(y0: nat, y: nat): nat
    requires y0 <= y
    decreases y - y0
  {
    if y0 == y then 0 else DaysInYear(y0) + YearsBetween(y0 + 1, y)
  }

  /** The days of the months `m0` up to `m` of year `y`, `m` excluded. */
  function MonthsBetween(m0: nat, m: nat, y: nat): nat
    requires m0 <= m
    decreases m - m0
  {
    if m0 == m then 0 else DaysInMonth(m0, y) + MonthsBetween(m0 + 1, m, y)
  }

  /** The twelve months make up the year. */
  lemma MonthsMakeYear(y: nat)
    ensures MonthsBetween(1, 13, y) == DaysInYear(y)
  {
    assert MonthsBetween(13, 13, y) == 0;
    assert MonthsBetween(12, 13, y) == 31;
    assert MonthsBetween(11, 13, y) == 61;
    assert MonthsBetween(10, 13, y) == 92;
    assert MonthsBetween(9, 13, y) == 122;
    assert MonthsBetween(8, 13, y) == 153;
    assert MonthsBetween(7, 13, y) == 184;
    assert MonthsBetween(6, 13, y) == 214;
    assert MonthsBetween(5, 13, y) == 245;
    assert MonthsBetween(4, 13, y) == 275;
    assert MonthsBetween(3, 13, y) == 306;
    assert MonthsBetween(2, 13, y) == 306 + DaysInMonth(2, y);
  }

  /** Every year has at least 365 days. */
  lemma {:induction false} YearsAtLeast(y0: nat, y: nat)
    requires y0 <= y
    ensures YearsBetween(y0, y) >= 365 * (y - y0)
    decreases y - y0
  {
    if y0 < y {
      YearsAtLeast(y0 + 1, y);
    }
  }

  /** The year loop: from `days` days into year `y`, whole years are taken
      off while more than a year's days remain (as written) or while at
      least a year's days remain (`fixed`). The result is the year reached
      and the days into it. */
  function YearWalk(days: nat, y: nat, fixed: bool): (nat, nat)
    decreases days
  {
    if days > DaysInYear(y) || (fixed && days == DaysInYear(y)) then YearWalk(days - DaysInYear(y), y + 1, fixed)
    else (y, days)
  }

  /** The month loop, the same way with the months of year `y`. */
  function MonthWalk(days: nat, m: nat, y: nat, fixed: bool): (nat, nat)
    decreases days
  {
    if days > DaysInMonth(m, y) || (fixed && days == DaysInMonth(m, y)) then
      MonthWalk(days - DaysInMonth(m, y), m + 1, y, fixed)
    else (m, days)
  }

  /** The year loop reaches a year whose start lies `days` back less the
      days left over; those are at most the year's length as written, and
      fewer than it when fixed. */
  lemma {:induction false} YearWalkSplits(days: nat, y: nat, fixed: bool)
    ensures var (y2, rest) := YearWalk(days, y, fixed);
      y <= y2 && days == YearsBetween(y, y2) + rest &&
      rest <= DaysInYear(y2) && (fixed ==> rest < DaysInYear(y2))
    decreases days
  {
    if days > DaysInYear(y) || (fixed && days == DaysInYear(y)) {
      YearWalkSplits(days - DaysInYear(y), y + 1, fixed);
    }
  }

  /** Started within the rest of the year, the month loop stays within it:
      it reaches a month of the year whose start lies `days` back less the
      days left over, at most the month's length as written and fewer when
      fixed. */
  lemma {:induction false} MonthWalkSplits(days: nat, m: nat, y: nat, fixed: bool)
    requires 1 <= m <= 12
    requires days <= MonthsBetween(m, 13, y) && (fixed ==> days < MonthsBetween(m, 13, y))
    ensures var (m2, rest) := MonthWalk(days, m, y, fixed);
      m <= m2 <= 12 && days == MonthsBetween(m, m2, y) + rest &&
      rest <= DaysInMonth(m2, y) && (fixed ==> rest < DaysInMonth(m2, y))
    decreases days
  {
    if days > DaysInMonth(m, y) || (fixed && days == DaysInMonth(m, y)) {
      MonthWalkSplits(days - DaysInMonth(m, y), m + 1, y, fixed);
    }
  }

  /** A broken-down time; `dow` counts from Monday as 0. */
  datatype DateTime = DateTime(sec: nat, min: nat, hour: nat, dow: nat, day: nat, month: nat, year: nat)

  /** The date and time of Unix time `t`, with the loops as written or
      fixed. 1970-01-01 was a Thursday. */
  function Calendar(t: nat, fixed: bool): DateTime
  {
    var daytime := t % SECONDS_PER_DAY;
    var days := t / SECONDS_PER_DAY;
    var (y, rest) := YearWalk(days, EPOCH_YEAR, fixed);
    var (m, d) := MonthWalk(rest, 1, y, fixed);
    DateTime(daytime % 60, daytime / 60 % 60, daytime / 3600, (days + 3) % 7, d + 1, m, y)
  }

  /** What the breakdown promises, as written: seconds and minutes below
      60, hours below 24, a weekday below 7, a month in 1..12 and a day in
      1..length + 1 of that month, where length + 1 comes exactly when the
      days left over equal the month's length; and the date counts the
      days since 1970-01-01 exactly. Fixed, the day never exceeds the
      month's length. */
  lemma {:induction false} CalendarBounds(t: nat, fixed: bool)
    ensures var c := Calendar(t, fixed);
      c.sec < 60 && c.min < 60 && c.hour < 24 && c.dow < 7 &&
      EPOCH_YEAR <= c.year && 1 <= c.month <= 12 &&
      1 <= c.day <= DaysInMonth(c.month, c.year) + 1 &&
      (fixed ==> c.day <= DaysInMonth(c.month, c.year)) &&
      t / SECONDS_PER_DAY == YearsBetween(EPOCH_YEAR, c.year) + MonthsBetween(1, c.month, c.year) + c.day - 1
  {
    var days := t / SECONDS_PER_DAY;
    var (y, rest) := YearWalk(days, EPOCH_YEAR, fixed);
    YearWalkSplits(days, EPOCH_YEAR, fixed);
    MonthsMakeYear(y);
    MonthWalkSplits(rest, 1, y, fixed);
    var (m, d) := MonthWalk(rest, 1, y, fixed);
    assert Calendar(t, fixed).year == y && Calendar(t, fixed).month == m && Calendar(t, fixed).day == d + 1;
  }

  /** A 32-bit Unix time never reaches the year 2107, so the 16-bit year
      of the source does not wrap. */
  lemma YearFits(t: nat, fixed: bool)
    requires t < TWO_32
    ensures Calendar(t, fixed).year <= LAST_YEAR
  {
    var c := Calendar(t, fixed);
    CalendarBounds(t, fixed);
    YearsAtLeast(EPOCH_YEAR, c.year);
  }

  /** The off-by-one as written: 1970-02-01 (Unix day 31) comes out as
      1970-01-32, where the fixed loops give 1 February. */
  lemma FirstOfFebruary()
    ensures Calendar(31 * SECONDS_PER_DAY, false) == DateTime(0, 0, 0, 6, 32, 1, 1970)
    ensures Calendar(31 * SECONDS_PER_DAY, true) == DateTime(0, 0, 0, 6, 1, 2, 1970)
  {
    assert YearWalk(31, 1970, false) == (1970, 31);
    assert YearWalk(31, 1970, true) == (1970, 31);
    assert MonthWalk(31, 1, 1970, false) == (1, 31);
    assert MonthWalk(0, 2, 1970, true) == (2, 0);
  }

  // ---------------------------------------------------------------------
  // BCD registers
  // ---------------------------------------------------------------------

  /** The register byte `(v / 10) << 4 | v % 10` of a non-negative value,
      stored in eight bits. */
  function BcdByte(v: nat): bv8
  {
    ByteOf(v / 10 * 16) | ByteOf(v % 10)
  }

  /** `y - 2000` for the `uint16_t` year: on the AVR an `int` has 16 bits,
      so `y` is promoted to `unsigned int` and the subtraction, and the
      division and remainder after it, are unsigned 16-bit arithmetic. */
  function YearOffset(y: nat): (u: nat)
    ensures u < 0x1_0000
    ensures 2000 <= y < 2000 + 0x1_0000 ==> u == y - 2000
    ensures y < 2000 ==> u == y + 0x1_0000 - 2000
  {
    (y - 2000) % 0x1_0000
  }

  lemma OrLowNibble(hi: bv8, lo: bv8)
    requires Val(hi) % 16 == 0 && Val(lo) < 16
    ensures Val(hi | lo) == Val(hi) + Val(lo)
  {
  }

  /** Whatever the value, the register byte is `16 * (v / 10) + v % 10`
      cut to eight bits: the OR adds the units below the shifted tens. */
  lemma BcdByteValue(v: nat)
    ensures Val(BcdByte(v)) == (16 * (v / 10) + v % 10) % 256
  {
    var q := v / 10;
    var r := v % 10;
    var k := q * 16 / 256;
    var h := q * 16 % 256;
    assert q * 16 == k * 256 + h;
    assert h == 16 * (q - 16 * k);
    DivMod16(h, q - 16 * k, 0);
    DivMod256(r, 0, r);
    OrLowNibble(ByteOf(q * 16), ByteOf(r));
    DivMod256(16 * q + r, k, h + r);
  }

  /** For a value below 100 the register holds its tens in the high nibble
      and its units in the low one. */
  lemma BcdOfSmall(v: nat)
    requires v < 100
    ensures Val(BcdByte(v)) == 16 * (v / 10) + v % 10
  {
    BcdByteValue(v);
    DivMod256(16 * (v / 10) + v % 10, 0, 16 * (v / 10) + v % 10);
  }

  /** The tens a register read decodes: the bits `mask` selects above the
      low nibble. */
  function MaskedTens(b: bv8, mask: bv8): nat
  {
    Val((b & mask) >> 4)
  }

  /** `((r & mask) >> 4) * 10 + (r & 0x0f)`, the decode of rtc_get_time. */
  function DecodeBcd(b: bv8, mask: bv8): nat
  {
    MaskedTens(b, mask) * 10 + Val(b & 0x0f)
  }

  lemma Tens70(b: bv8)
    ensures MaskedTens(b, 0x70) == Val(b) / 16 % 8
  {
  }

  lemma Tens30(b: bv8)
    ensures MaskedTens(b, 0x30) == Val(b) / 16 % 4
  {
  }

  lemma Tens10(b: bv8)
    ensures MaskedTens(b, 0x10) == Val(b) / 16 % 2
  {
  }

  lemma TensF0(b: bv8)
    ensures MaskedTens(b, 0xf0) == Val(b) / 16
  {
  }

  lemma LowNibble(b: bv8)
    ensures Val(b & 0x0f) == Val(b) % 16
  {
  }

  /** `b` holds `v` in BCD: its tens in the high nibble and its units in
      the low one. */
  predicate HoldsBcd(b: bv8, v: nat)
  {
    Val(b) == 16 * (v / 10) + v % 10
  }

  /** Decoding a BCD byte gives back its value whenever the mask keeps the
      tens: below 80 for 0x70, below 40 for 0x30, below 20 for 0x10 and
      below 100 for 0xf0. */
  lemma {:induction false} DecodeHolds(b: bv8, v: nat, mask: bv8)
    requires mask == 0x70 || mask == 0x30 || mask == 0x10 || mask == 0xf0
    requires v < (if mask == 0x70 then 80 else if mask == 0x30 then 40 else if mask == 0x10 then 20 else 100)
    requires HoldsBcd(b, v)
    ensures DecodeBcd(b, mask) == v
  {
    DivMod16(Val(b), v / 10, v % 10);
    LowNibble(b);
    if mask == 0x70 {
      Tens70(b);
    } else if mask == 0x30 {
      Tens30(b);
    } else if mask == 0x10 {
      Tens10(b);
    } else {
      TensF0(b);
    }
  }

  /** The round trip of one register: the decode of rtc_get_time inverts
      the encode of rtc_set_time_from_ntp. */
  lemma BcdRoundTrip(v: nat, mask: bv8)
    requires mask == 0x70 || mask == 0x30 || mask == 0x10 || mask == 0xf0
    requires v < (if mask == 0x70 then 80 else if mask == 0x30 then 40 else if mask == 0x10 then 20 else 100)
    ensures DecodeBcd(BcdByte(v), mask) == v
  {
    BcdOfSmall(v);
    DecodeHolds(BcdByte(v), v, mask);
  }

  lemma DivMod16(a: int, q: int, r: int)
    requires 0 <= r < 16 && a == q * 16 + r
    ensures a / 16 == q && a % 16 == r
  {
  }

  /** The eight registers rtc_set_time_from_ntp writes for a date: seconds,
      minutes and hours, the weekday counted from 1, day, month and the
      year after 2000 in unsigned 16-bit arithmetic, then the control
      register 0. */
  function Registers(c: DateTime): (regs: seq<bv8>)
    ensures |regs| == 8
  {
    [BcdByte(c.sec), BcdByte(c.min), BcdByte(c.hour), ByteOf(c.dow + 1),
     BcdByte(c.day), BcdByte(c.month), BcdByte(YearOffset(c.year)), 0]
  }

  /** The year register for every year the 16-bit counter can hold: the
      byte of `16 * (u / 10) + u % 10` for the unsigned offset `u`, which
      is BCD from 2000 to 2099 and wraps round 2^16 before 2000. */
  lemma YearRegister(c: DateTime)
    requires c.year < 0x1_0000
    ensures var u := if c.year >= 2000 then c.year - 2000 else c.year + 0x1_0000 - 2000;
      Val(Registers(c)[6]) == (16 * (u / 10) + u % 10) % 256
  {
    BcdByteValue(YearOffset(c.year));
  }

  /** A date in 1999 stores 0x95 as its year: 65535 / 10 = 6553, shifted
      by four and cut to eight bits gives 0x90, and 65535 % 10 = 5. */
  lemma YearBeforeMillennium(c: DateTime)
    requires c.year == 1999
    ensures Registers(c)[6] == 0x95
  {
    YearRegister(c);
    assert (16 * (65535 / 10) + 65535 % 10) % 256 == 0x95;
  }

  /** ntp_time after `ntp_time -= UNIX_EPOCH_OFFSET` in 32-bit unsigned
      arithmetic: times before 1970 wrap to the far end. */
  function UnixTime(ntp: nat): (t: nat)
    requires ntp < TWO_32
    ensures t < TWO_32
    ensures ntp >= UNIX_EPOCH_OFFSET ==> t == ntp - UNIX_EPOCH_OFFSET
  {
    (ntp - UNIX_EPOCH_OFFSET) % TWO_32
  }

  /** The breakdown of rtc_set_time_from_ntp on a 32-bit NTP time: the
      calendar date of the Unix time with the loops as written. */
  method Breakdown(ntpTime: nat) returns (date: DateTime)
    requires ntpTime < TWO_32
    ensures date == Calendar(UnixTime(ntpTime), false)
  {
    var t := UnixTime(ntpTime);
    var daytime: nat := t % SECONDS_PER_DAY;
    var days: nat := (t - daytime) / SECONDS_PER_DAY;
    DropRemainder86400(t);
    var ss := daytime % 60;
    daytime := (daytime - ss) / 60;
    DropRemainder60(t % SECONDS_PER_DAY);
    var mm := daytime % 60;
    var hh := (daytime - mm) / 60;
    DropRemainder60(t % SECONDS_PER_DAY / 60);
    DivDiv(t % SECONDS_PER_DAY);
    assert days == t / SECONDS_PER_DAY && mm == t % SECONDS_PER_DAY / 60 % 60 && hh == t % SECONDS_PER_DAY / 3600;
    var dow := (days + 3) % 7;
    ghost var days0 := days;
    var y: nat := EPOCH_YEAR;
    while days > DaysInYear(y)
      invariant YearWalk(days, y, false) == YearWalk(days0, EPOCH_YEAR, false)
      decreases days
    {
      days := days - DaysInYear(y);
      y := y + 1;
    }
    assert YearWalk(days0, EPOCH_YEAR, false) == (y, days);
    ghost var rest := days;
    var m: nat := 1;
    while days > DaysInMonth(m, y)
      invariant MonthWalk(days, m, y, false) == MonthWalk(rest, 1, y, false)
      decreases days
    {
      days := days - DaysInMonth(m, y);
      m := m + 1;
    }
    assert MonthWalk(rest, 1, y, false) == (m, days);
    var d := days + 1;
    date := DateTime(ss, mm, hh, dow, d, m, y);
  }

  /** rtc_set_time_from_ntp: the registers written for a 32-bit NTP time
      are those of its calendar date with the loops as written. (The I2C
      write of the registers is the bus driver and is not modelled.) */
  method SetTimeFromNtp(ntpTime: nat) returns (regs: seq<bv8>, date: DateTime)
    requires ntpTime < TWO_32
    ensures date == Calendar(UnixTime(ntpTime), false)
    ensures regs == Registers(date)
  {
    date := Breakdown(ntpTime);
    regs := [BcdByte(date.sec), BcdByte(date.min), BcdByte(date.hour), ByteOf(date.dow + 1),
             BcdByte(date.day), BcdByte(date.month), BcdByte(YearOffset(date.year)), 0];
  }

  /** Taking the remainder off before dividing changes nothing. */
  lemma DropRemainder60(a: nat)
    ensures (a - a % 60) / 60 == a / 60
  {
    assert a - a % 60 == a / 60 * 60;
  }

  lemma DropRemainder86400(a: nat)
    ensures (a - a % 86400) / 86400 == a / 86400
  {
    assert a - a % 86400 == a / 86400 * 86400;
  }

  lemma DivDiv(a: nat)
    ensures a / 60 / 60 == a / 3600
  {
  }

  /** For a date in range the registers hold each field in BCD, the
      weekday counted from 1 and the control byte 0. */
  lemma RegistersHoldDate(c: DateTime)
    requires c.sec < 60 && c.min < 60 && c.hour < 24 && c.dow < 7
    requires 1 <= c.day <= 32 && 1 <= c.month <= 12 && 2000 <= c.year < 2100
    ensures var r := Registers(c);
      HoldsBcd(r[0], c.sec) && HoldsBcd(r[1], c.min) && HoldsBcd(r[2], c.hour) &&
      Val(r[3]) == c.dow + 1 && HoldsBcd(r[4], c.day) && HoldsBcd(r[5], c.month) &&
      HoldsBcd(r[6], c.year - 2000) && r[7] == 0
  {
    BcdOfSmall(c.sec);
    BcdOfSmall(c.min);
    BcdOfSmall(c.hour);
    BcdOfSmall(c.day);
    BcdOfSmall(c.month);
    BcdOfSmall(YearOffset(c.year));
    DivMod256(c.dow + 1, 0, c.dow + 1);
  }

  /** Registers holding a date decode field by field to that date. */
  lemma DecodeRegisters(r: seq<bv8>, c: DateTime)
    requires |r| == 8
    requires c.sec < 60 && c.min < 60 && c.hour < 24
    requires 1 <= c.day <= 32 && 1 <= c.month <= 12 && 2000 <= c.year < 2100
    requires HoldsBcd(r[0], c.sec) && HoldsBcd(r[1], c.min) && HoldsBcd(r[2], c.hour) &&
      HoldsBcd(r[4], c.day) && HoldsBcd(r[5], c.month) && HoldsBcd(r[6], c.year - 2000)
    ensures DecodeBcd(r[0], 0x70) == c.sec && DecodeBcd(r[1], 0x70) == c.min && DecodeBcd(r[2], 0x30) == c.hour &&
      DecodeBcd(r[4], 0x30) == c.day && DecodeBcd(r[5], 0x10) == c.month && DecodeBcd(r[6], 0xf0) == c.year - 2000
  {
    DecodeHolds(r[0], c.sec, 0x70);
    DecodeHolds(r[1], c.min, 0x70);
    DecodeHolds(r[2], c.hour, 0x30);
    DecodeHolds(r[4], c.day, 0x30);
    DecodeHolds(r[5], c.month, 0x10);
    DecodeHolds(r[6], c.year - 2000, 0xf0);
  }

  lemma DivMod8(n: nat)
    requires n < 8
    ensures n % 8 == n
  {
  }

  lemma LowBits(b: bv8)
    ensures Val(b & 0x07) == Val(b) % 8
  {
  }

  // ---------------------------------------------------------------------
  // Reading the clock
  // ---------------------------------------------------------------------

  /** The seven values rtc_get_time hands back. */
  datatype Reading = Reading(sec: nat, min: nat, hour: nat, day: nat, month: nat, year: nat, dow: nat)

  /** rtc_get_time: the address write and the read start must succeed
      (`started`, `addressed`, `restarted` are the outcomes of the two
      I2C starts and the address byte), and then the first seven registers
      `regs` are decoded, the hours in 24-hour mode and the weekday from
      its three low bits. The result is 1 on a failure, with nothing read,
      and 0 otherwise. */
  function GetTime(started: bool, addressed: bool, restarted: bool, regs: seq<bv8>): (r: (nat, Option<Reading>))
    requires |regs| == 7
    ensures r.0 == 0 <==> started && addressed && restarted
    ensures r.0 == 0 || r.0 == 1
    ensures r.1.Some? <==> r.0 == 0
  {
    if !started || !addressed || !restarted then (1, None)
    else
      (0, Some(Reading(DecodeBcd(regs[0], 0x70), DecodeBcd(regs[1], 0x70), DecodeBcd(regs[2], 0x30),
                       DecodeBcd(regs[4], 0x30), DecodeBcd(regs[5], 0x10), DecodeBcd(regs[6], 0xf0),
                       Val(regs[3] & 0x07))))
  }

  /** A successful read of registers holding a date gives that date, with
      the weekday from the three low bits of its register. */
  lemma GetTimeOfDate(r: seq<bv8>, c: DateTime)
    requires |r| == 8
    requires c.sec < 60 && c.min < 60 && c.hour < 24 && c.dow < 7
    requires 1 <= c.day <= 32 && 1 <= c.month <= 12 && 2000 <= c.year < 2100
    requires HoldsBcd(r[0], c.sec) && HoldsBcd(r[1], c.min) && HoldsBcd(r[2], c.hour) &&
      HoldsBcd(r[4], c.day) && HoldsBcd(r[5], c.month) && HoldsBcd(r[6], c.year - 2000)
    requires Val(r[3]) == c.dow + 1
    ensures GetTime(true, true, true, r[..7]) ==
      (0, Some(Reading(c.sec, c.min, c.hour, c.day, c.month, c.year - 2000, c.dow + 1)))
  {
    DecodeRegisters(r, c);
    LowBits(r[3]);
    DivMod8(c.dow + 1);
  }

  /** Reading back what rtc_set_time_from_ntp wrote, for a date from 2000
      to 2099, gives the date: the weekday counted from 1 and the year
      after 2000. */
  lemma GetAfterSet(ntpTime: nat)
    requires ntpTime < TWO_32
    requires 2000 <= Calendar(UnixTime(ntpTime), false).year < 2100
    ensures var c := Calendar(UnixTime(ntpTime), false);
      GetTime(true, true, true, Registers(c)[..7]) ==
        (0, Some(Reading(c.sec, c.min, c.hour, c.day, c.month, c.year - 2000, c.dow + 1)))
  {
    var c := Calendar(UnixTime(ntpTime), false);
    CalendarBounds(UnixTime(ntpTime), false);
    assert DaysInMonth(c.month, c.year) <= 31;
    RegistersHoldDate(c);
    GetTimeOfDate(Registers(c), c);
  }

  // ---------------------------------------------------------------------
  // Starting the clock
  // ---------------------------------------------------------------------

  /** The oscillator-halt bit of the seconds register. */
  const R00_CH: bv8 := 7

  /** rtc_init: the address write sets the register pointer to 0, and the
      byte `R00_CH << 1` written to the seconds register leaves the halt bit
      clear, so the oscillator runs. `started`, `addressed` and `written`
      are the outcomes of the I2C start and the two byte sends. The status
      is 0 only when all three succeed, and 1 otherwise. */
  function Init(started: bool, addressed: bool, written: bool): (r: (nat, bv8))
    ensures r.0 == 0 <==> started && addressed && written
    ensures r.0 == 0 || r.0 == 1
    ensures r.1 & (1 << R00_CH) == 0
  {
    (if started && addressed && written then 0 else 1, R00_CH << 1)
  }
}
