/** epoch2time, time2epoch, timeadd and timediff of rtkcmn.c. */
module Calendar {

  /** gtime_t: whole seconds since 1970 and a fraction. */
  datatype GTime = GTime(time: int, sec: real)
  {
    function Value(): real {
      time as real + sec
    }

    predicate Normal() {
      0.0 <= sec < 1.0
    }
  }

  /** {year, month, day, hour, minute, second}; the source keeps all six as doubles and
      casts the first five to int. */
  datatype Epoch = Epoch(year: int, mon: int, day: int, hour: int, minute: int, sec: real)

  /** C division and remainder: towards zero. */
  function CDiv(a: int, b: int): int
    requires b > 0
  {
    if a >= 0 then a / b else -(-a / b)
  }

  function CMod(a: int, b: int): int
    requires b > 0
  {
    a - b * CDiv(a, b)
  }

  /** C conversion of a double to int. */
  function Trunc(x: real): int
  {
    if x >= 0.0 then x.Floor else -(-x).Floor
  }

  // ---------- timeadd and timediff ----------

  function TimeAdd(t: GTime, sec: real): GTime
  {
    var s := t.sec + sec;
    GTime(t.time + s.Floor, s - s.Floor as real)
  }

  function TimeDiff(a: GTime, b: GTime): real
  {
    (a.time - b.time) as real + a.sec - b.sec
  }

  /** timeadd moves the time by `sec` and normalises it; timediff takes it back. */
  lemma TimeAddValue(t: GTime, sec: real)
    ensures TimeAdd(t, sec).Value() == t.Value() + sec && TimeAdd(t, sec).Normal()
    ensures TimeDiff(TimeAdd(t, sec), t) == sec
  {
  }

  /** A normal time is determined by its value. */
  lemma NormalUnique(a: GTime, b: GTime)
    requires a.Normal() && b.Normal() && a.Value() == b.Value()
    ensures a == b
  {
    assert (a.time - b.time) as real == b.sec - a.sec;
  }

  // ---------- the calendar ----------

  const DOY: seq<int> := [1, 32, 60, 91, 121, 152, 182, 213, 244, 274, 305, 335]

  const YEAR: seq<int> := [31, 28, 31, 30, 31, 30, 31, 31, 30, 31, 30, 31]
  const LEAP_YEAR: seq<int> := [31, 29, 31, 30, 31, 30, 31, 31, 30, 31, 30, 31]

  /** The month lengths of the four years from 1970 on. */
  const MDAY: seq<int> := YEAR + YEAR + LEAP_YEAR + YEAR

  /** `days` of epoch2time, without its guard. */
  function DayCount(year: int, mon: int, day: int): int
    requires 1 <= mon <= 12
  {
    (year - 1970) * 365 + CDiv(year - 1969, 4) + DOY[mon - 1] + day - 2 + (if year % 4 == 0 && mon >= 3 then 1 else 0)
  }

  function Epoch2Time(ep: Epoch): GTime
  {
    if ep.year < 1970 || 2099 < ep.year || ep.mon < 1 || 12 < ep.mon then GTime(0, 0.0)
    else
      var sec := ep.sec.Floor;
      GTime(DayCount(ep.year, ep.mon, ep.day) * 86400 + ep.hour * 3600 + ep.minute * 60 + sec, ep.sec - sec as real)
  }

  /** Time counts from 1970; outside the years 1970 to 2099 and the twelve months it is 0. */
  lemma EpochStart(ep: Epoch)
    ensures ep == Epoch(1970, 1, 1, 0, 0, 0.0) ==> Epoch2Time(ep) == GTime(0, 0.0)
    ensures ep.year < 1970 || 2099 < ep.year || ep.mon < 1 || 12 < ep.mon ==> Epoch2Time(ep) == GTime(0, 0.0)
  {
    StartOfCount();
    hide DayCount;
    assert (0.0).Floor == 0;
  }

  lemma StartOfCount()
    ensures DayCount(1970, 1, 1) == 0
  {
  }

  /** The number of days before month `m` of year `y` of the four-year cycle that starts
      in 1970, both counted from 0. */
  function BeforeMonth(y: nat, m: nat): int
    requires y < 4 && m < 12
  {
    y * 365 + (if y == 3 then 1 else 0) + DOY[m] - 1 + (if y == 2 && m >= 2 then 1 else 0)
  }

  lemma BeforeMonthStep(y: nat, m: nat)
    requires y < 4 && m < 12
    ensures BeforeMonth(0, 0) == 0
    ensures BeforeMonth(y, m) + (if y == 2 then LEAP_YEAR else YEAR)[m]
         == if m < 11 then BeforeMonth(y, m + 1) else if y < 3 then BeforeMonth(y + 1, 0) else 1461
  {
  }

  /** Days before month `mon` of the cycle. */
  function Before(mon: nat): int
    requires mon <= 48
  {
    if mon == 48 then 1461 else BeforeMonth(mon / 12, mon % 12)
  }

  /** The table of month lengths agrees with the table of month starts. */
  lemma BeforeStep(mon: nat)
    requires mon < 48
    ensures Before(mon + 1) == Before(mon) + MDAY[mon] && 28 <= MDAY[mon] <= 31
    ensures Before(0) == 0
  {
    hide BeforeMonth;
    var y, m := mon / 12, mon % 12;
    MonthLength(mon, y, m);
    BeforeMonthStep(y, m);
    if m == 11 {
      assert (mon + 1) / 12 == y + 1 && (mon + 1) % 12 == 0;
    } else {
      assert (mon + 1) / 12 == y && (mon + 1) % 12 == m + 1;
    }
  }

  lemma MonthLength(mon: nat, y: nat, m: nat)
    requires mon < 48 && mon == 12 * y + m && m < 12
    ensures |MDAY| == 48 && MDAY[mon] == (if y == 2 then LEAP_YEAR else YEAR)[m] && 28 <= MDAY[mon] <= 31
  {
    LengthRange(m);
    FourYears(YEAR, LEAP_YEAR, mon, y, m);
  }

  lemma LengthRange(m: nat)
    requires m < 12
    ensures 28 <= YEAR[m] <= 31 && 28 <= LEAP_YEAR[m] <= 31
  {
  }

  lemma FourYears(a: seq<int>, b: seq<int>, mon: nat, y: nat, m: nat)
    requires |a| == |b| == 12 && mon < 48 && mon == 12 * y + m && m < 12
    ensures |a + a + b + a| == 48 && (a + a + b + a)[mon] == (if y == 2 then b else a)[m]
  {
  }

  /** The loop of time2epoch: which month of the cycle a day falls into. */
  method FindMonth(dayOfCycle: int) returns (mon: nat, day: int)
    requires dayOfCycle < 1461
    ensures mon < 48 && dayOfCycle == Before(mon) + day && day < MDAY[mon]
    ensures dayOfCycle >= 0 ==> day >= 0
    ensures dayOfCycle < 0 ==> mon == 0
  {
    hide Before;
    day, mon := dayOfCycle, 0;
    BeforeStep(0);
    while mon < 48
      invariant 0 <= mon <= 48 && dayOfCycle == Before(mon) + day
      invariant dayOfCycle >= 0 ==> day >= 0
      invariant dayOfCycle < 0 ==> mon == 0
    {
      BeforeStep(mon);
      if day >= MDAY[mon] {
        day := day - MDAY[mon];
      } else {
        break;
      }
      mon := mon + 1;
    }
    CycleEnd();
  }

  lemma CycleEnd()
    ensures Before(48) == 1461
  {
  }

  /** time2epoch */
  method Time2Epoch(t: GTime) returns (ep: Epoch)
    ensures t.time >= 0 && t.Normal() ==> IsDate(ep) && Unguarded(ep) == t
    ensures 0 <= t.time < 4102444800 && t.Normal() ==> ValidDate(ep) && Epoch2Time(ep) == t
  {
    hide BeforeMonth, Before, DayCount, MonthDays, IsDate, Unguarded, Epoch2Time;
    var days := CDiv(t.time, 86400);
    var sec := t.time - days * 86400;
    var mon, day := FindMonth(CMod(days, 1461));
    ep := Epoch(1970 + CDiv(days, 1461) * 4 + mon / 12, mon % 12 + 1, day + 1,
                CDiv(sec, 3600), CDiv(CMod(sec, 3600), 60), CMod(sec, 60) as real + t.sec);
    if t.time >= 0 && t.Normal() {
      DateOfTime(t, days, sec, mon, day, ep);
      if t.time < 4102444800 {
        BeforeEnd(ep, t);
      }
    }
  }

  lemma DateOfTime(t: GTime, days: int, sec: int, mon: nat, day: int, ep: Epoch)
    requires t.time >= 0 && t.Normal() && days == t.time / 86400 && sec == t.time - days * 86400
    requires mon < 48 && days % 1461 == Before(mon) + day && 0 <= day < MDAY[mon]
    requires ep == Epoch(1970 + days / 1461 * 4 + mon / 12, mon % 12 + 1, day + 1,
                         sec / 3600, sec % 3600 / 60, (sec % 60) as real + t.sec)
    ensures IsDate(ep) && Unguarded(ep) == t
  {
    hide BeforeMonth, Before, DayCount, MonthDays;
    DateOfDays(days, days / 1461, mon, day);
    ClockParts(t, days, sec, ep);
  }

  // ---------- both ways ----------

  function MonthDays(year: int, mon: int): int
    requires 1 <= mon <= 12
  {
    (if year % 4 == 0 then LEAP_YEAR else YEAR)[mon - 1]
  }

  /** A date from 1970 on, in the calendar with a leap year every four years. */
  predicate IsDate(ep: Epoch)
  {
    && ep.year >= 1970 && 1 <= ep.mon <= 12 && 1 <= ep.day <= MonthDays(ep.year, ep.mon)
    && 0 <= ep.hour < 24 && 0 <= ep.minute < 60 && 0.0 <= ep.sec < 60.0
  }

  predicate ValidDate(ep: Epoch)
  {
    IsDate(ep) && ep.year <= 2099
  }

  /** epoch2time without its guard. */
  function Unguarded(ep: Epoch): GTime
    requires 1 <= ep.mon <= 12
  {
    GTime(DayCount(ep.year, ep.mon, ep.day) * 86400 + ep.hour * 3600 + ep.minute * 60 + ep.sec.Floor,
          ep.sec - ep.sec.Floor as real)
  }

  /** DayCount goes by the cycle. */
  lemma DaysOfDate(q: int, y: nat, m: nat, day: int, days: int)
    requires 0 <= q && y < 4 && m < 12 && days == 1461 * q + BeforeMonth(y, m) + day
    ensures DayCount(1970 + q * 4 + y, m + 1, day + 1) == days
    ensures MonthDays(1970 + q * 4 + y, m + 1) == (if y == 2 then LEAP_YEAR else YEAR)[m]
  {
    var year := 1970 + q * 4 + y;
    assert year - 1969 == 4 * q + (y + 1);
    assert (year - 1969) / 4 == q + (y + 1) / 4;
    assert year % 4 == (2 + y) % 4;
  }

  lemma DateOfDays(days: int, q: int, mon: nat, day: int)
    requires 0 <= days && q == days / 1461 && mon < 48 && days % 1461 == Before(mon) + day && 0 <= day < MDAY[mon]
    ensures var year, m := 1970 + q * 4 + mon / 12, mon % 12 + 1;
            DayCount(year, m, day + 1) == days && 1 <= day + 1 <= MonthDays(year, m)
  {
    hide BeforeMonth, DayCount, MonthDays;
    MonthLength(mon, mon / 12, mon % 12);
    DaysOfDate(q, mon / 12, mon % 12, day, days);
  }

  lemma ClockParts(t: GTime, days: int, sec: int, ep: Epoch)
    requires t.time >= 0 && t.Normal() && days == t.time / 86400 && sec == t.time - days * 86400
    requires ep.hour == sec / 3600 && ep.minute == sec % 3600 / 60 && ep.sec == (sec % 60) as real + t.sec
    ensures 0 <= ep.hour < 24 && 0 <= ep.minute < 60 && 0.0 <= ep.sec < 60.0
    ensures days * 86400 + ep.hour * 3600 + ep.minute * 60 + ep.sec.Floor == t.time
    ensures ep.sec - ep.sec.Floor as real == t.sec
  {
    assert ep.sec.Floor == sec % 60;
    assert sec % 3600 % 60 == sec % 60;
  }

  lemma BeforeEnd(ep: Epoch, t: GTime)
    requires IsDate(ep) && Unguarded(ep) == t && t.time < 4102444800
    ensures ValidDate(ep) && Epoch2Time(ep) == t
  {
    if ep.year >= 2100 {
      YearStart(ep.year, ep.mon, ep.day);
    }
  }

  lemma YearStart(year: int, mon: int, day: int)
    requires year >= 2100 && 1 <= mon <= 12 && day >= 1
    ensures DayCount(year, mon, day) >= 47482
  {
  }

  /** The days before month `i`, counted from January 1970. */
  function MonthStart(i: nat): int
  {
    1461 * (i / 48) + Before(i % 48)
  }

  function MonthOf(year: int, mon: int): int
  {
    12 * (year - 1970) + mon - 1
  }

  lemma DayCountMonth(ep: Epoch, i: nat)
    requires ep.year >= 1970 && 1 <= ep.mon <= 12 && i == MonthOf(ep.year, ep.mon)
    ensures DayCount(ep.year, ep.mon, ep.day) == MonthStart(i) + ep.day - 1
    ensures MonthDays(ep.year, ep.mon) == MDAY[i % 48]
  {
    hide BeforeMonth, DayCount, MonthDays;
    var q, y, m := (ep.year - 1970) / 4, (ep.year - 1970) % 4, ep.mon - 1;
    assert ep.year == 1970 + q * 4 + y;
    assert i == 48 * q + (12 * y + m);
    assert i / 48 == q && i % 48 == 12 * y + m;
    assert (12 * y + m) / 12 == y && (12 * y + m) % 12 == m;
    DaysOfDate(q, y, m, ep.day - 1, 1461 * q + BeforeMonth(y, m) + (ep.day - 1));
    MonthLength(i % 48, y, m);
  }

  lemma MonthStartStep(i: nat)
    ensures MonthStart(i + 1) == MonthStart(i) + MDAY[i % 48]
    ensures MDAY[i % 48] > 0
  {
    hide Before;
    BeforeStep(i % 48);
    CycleEnd();
    if i % 48 == 47 {
      assert (i + 1) / 48 == i / 48 + 1 && (i + 1) % 48 == 0;
    } else {
      assert (i + 1) / 48 == i / 48 && (i + 1) % 48 == i % 48 + 1;
    }
  }

  lemma {:induction false} MonthStartMono(i: nat, j: nat)
    requires i < j
    ensures MonthStart(i) + MDAY[i % 48] <= MonthStart(j)
  {
    hide MonthStart;
    MonthStartStep(j - 1);
    if i < j - 1 {
      MonthStartMono(i, j - 1);
    }
  }

  /** Dates compare field by field. */
  predicate Earlier(a: Epoch, b: Epoch)
  {
    a.year < b.year || (a.year == b.year && (a.mon < b.mon || (a.mon == b.mon && (a.day < b.day || (a.day == b.day
    && (a.hour < b.hour || (a.hour == b.hour && (a.minute < b.minute || (a.minute == b.minute && a.sec < b.sec)))))))))
  }

  lemma EarlierDay(a: Epoch, b: Epoch)
    requires IsDate(a) && IsDate(b)
    requires a.year < b.year || (a.year == b.year && (a.mon < b.mon || (a.mon == b.mon && a.day < b.day)))
    ensures DayCount(a.year, a.mon, a.day) < DayCount(b.year, b.mon, b.day)
  {
    hide DayCount, MonthStart, MonthDays;
    var i, j := MonthOf(a.year, a.mon), MonthOf(b.year, b.mon);
    DayCountMonth(a, i);
    DayCountMonth(b, j);
    if i < j {
      MonthStartMono(i, j);
    }
  }

  /** Date order is time order. */
  lemma DateOrder(a: Epoch, b: Epoch)
    requires IsDate(a) && IsDate(b) && Earlier(a, b)
    ensures Unguarded(a).Value() < Unguarded(b).Value()
  {
    hide DayCount, MonthDays;
    UnguardedValue(a);
    UnguardedValue(b);
    var m, n := DayCount(a.year, a.mon, a.day), DayCount(b.year, b.mon, b.day);
    if a.year == b.year && a.mon == b.mon && a.day == b.day {
      assert m == n;
    } else {
      EarlierDay(a, b);
    }
  }

  lemma UnguardedValue(a: Epoch)
    requires 1 <= a.mon <= 12
    ensures Unguarded(a).Value() == (DayCount(a.year, a.mon, a.day) * 86400 + a.hour * 3600 + a.minute * 60) as real + a.sec
  {
  }

  /** No two dates give the same time: with the contract of Time2Epoch, the two
      conversions are mutually inverse. */
  lemma DatesDistinct(a: Epoch, b: Epoch)
    requires IsDate(a) && IsDate(b) && Unguarded(a) == Unguarded(b)
    ensures a == b
  {
    if Earlier(a, b) {
      DateOrder(a, b);
    } else if Earlier(b, a) {
      DateOrder(b, a);
    }
  }

  /** epoch2time then time2epoch. */
  method DateRoundTrip(ep: Epoch) returns (back: Epoch)
    requires ValidDate(ep)
    ensures back == ep
  {
    hide DayCount, MonthDays;
    UnguardedRange(ep);
    back := Time2Epoch(Epoch2Time(ep));
    DatesDistinct(back, ep);
  }

  lemma UnguardedRange(ep: Epoch)
    requires ValidDate(ep)
    ensures 0 <= Epoch2Time(ep).time < 4102444800 && Epoch2Time(ep).Normal() && Epoch2Time(ep) == Unguarded(ep)
  {
  }
}
