/** GPS time of rtkcmn.c (gpst2time, time2gpst, gpst2utc, utc2gpst) and the roll-over
    adjustment of rtcm3.c (adjweek, adjday_glot). */
module GpsTime {
  import opened Arith
  import opened Calendar

  // ---------- leap seconds ----------

  /** A row of `leaps`: the UTC second from which UTC - GPST is `offset`. */
  datatype Leap = Leap(start: GTime, offset: int)

  /** The rows before the terminating one, newest first. */
  type LeapTable = seq<Leap>

  /** The first row at or after `i` whose start is not after `t` moved by its offset, times
      `shift`; the length of the table if there is none. */
  function FirstRow(leaps: LeapTable, t: GTime, shift: bool, i: nat): (r: nat)
    requires i <= |leaps|
    ensures i <= r <= |leaps|
    decreases |leaps| - i
  {
    if i == |leaps| then i
    else if TimeDiff(if shift then TimeAdd(t, leaps[i].offset as real) else t, leaps[i].start) >= 0.0 then i
    else FirstRow(leaps, t, shift, i + 1)
  }

  /** gpst2utc */
  method Gpst2Utc(leaps: LeapTable, t: GTime) returns (u: GTime)
    ensures u == ToUtc(leaps, t)
  {
    var i := 0;
    while i < |leaps|
      invariant 0 <= i <= |leaps| && FirstRow(leaps, t, true, 0) == FirstRow(leaps, t, true, i)
    {
      var tu := TimeAdd(t, leaps[i].offset as real);
      if TimeDiff(tu, leaps[i].start) >= 0.0 {
        return tu;
      }
      i := i + 1;
    }
    return t;
  }

  /** utc2gpst */
  method Utc2Gpst(leaps: LeapTable, t: GTime) returns (g: GTime)
    ensures g == ToGpst(leaps, t)
  {
    var i := 0;
    while i < |leaps|
      invariant 0 <= i <= |leaps| && FirstRow(leaps, t, false, 0) == FirstRow(leaps, t, false, i)
    {
      if TimeDiff(t, leaps[i].start) >= 0.0 {
        return TimeAdd(t, -leaps[i].offset as real);
      }
      i := i + 1;
    }
    return t;
  }

  function ToUtc(leaps: LeapTable, t: GTime): GTime
  {
    var i := FirstRow(leaps, t, true, 0);
    if i < |leaps| then TimeAdd(t, leaps[i].offset as real) else t
  }

  function ToGpst(leaps: LeapTable, t: GTime): GTime
  {
    var i := FirstRow(leaps, t, false, 0);
    if i < |leaps| then TimeAdd(t, -leaps[i].offset as real) else t
  }

  /** The offset of row i, and 0 beyond the oldest row. */
  function Offset(leaps: LeapTable, i: nat): int
    requires i <= |leaps|
  {
    if i < |leaps| then leaps[i].offset else 0
  }

  /** FirstRow is the first row that matches. */
  lemma {:induction false} FirstRowIs(leaps: LeapTable, t: GTime, shift: bool, i: nat)
    requires i <= |leaps|
    ensures var r := FirstRow(leaps, t, shift, i);
            && (forall k :: i <= k < r ==> t.Value() + (if shift then leaps[k].offset as real else 0.0) < leaps[k].start.Value())
            && (r < |leaps| ==> t.Value() + (if shift then leaps[r].offset as real else 0.0) >= leaps[r].start.Value())
    decreases |leaps| - i
  {
    if i < |leaps| {
      TimeAddValue(t, leaps[i].offset as real);
      FirstRowIs(leaps, t, shift, i + 1);
    }
  }

  lemma FirstRowUnique(leaps: LeapTable, t: GTime, shift: bool, r: nat)
    requires r <= |leaps|
    requires forall k :: 0 <= k < r ==> t.Value() + (if shift then leaps[k].offset as real else 0.0) < leaps[k].start.Value()
    requires r < |leaps| ==> t.Value() + (if shift then leaps[r].offset as real else 0.0) >= leaps[r].start.Value()
    ensures FirstRow(leaps, t, shift, 0) == r
  {
    FirstRowIs(leaps, t, shift, 0);
  }

  /** UTC is never ahead of GPST, and falls further behind with each newer row. */
  ghost predicate FallingOffsets(leaps: LeapTable)
  {
    forall i, j :: 0 <= i <= j < |leaps| ==> leaps[i].offset <= leaps[j].offset <= 0
  }

  /** Newer rows start later, by more than the change of the offset from the row before. */
  ghost predicate SpacedRows(leaps: LeapTable)
  {
    && (forall i, j :: 0 <= i < j < |leaps| ==> leaps[i].start.Value() > leaps[j].start.Value())
    && (forall i :: 0 < i < |leaps| ==>
          leaps[i - 1].start.Value() - leaps[i].start.Value() >= (Offset(leaps, i + 1) - leaps[i].offset) as real)
  }

  /** From UTC to GPST and back is the identity. */
  lemma UtcRoundTrip(leaps: LeapTable, t: GTime)
    requires FallingOffsets(leaps)
    ensures ToUtc(leaps, ToGpst(leaps, t)).Value() == t.Value()
    ensures t.Normal() ==> ToUtc(leaps, ToGpst(leaps, t)) == t
  {
    hide FirstRow;
    var i := FirstRow(leaps, t, false, 0);
    FirstRowIs(leaps, t, false, 0);
    var g := ToGpst(leaps, t);
    if i < |leaps| {
      TimeAddValue(t, -leaps[i].offset as real);
      FirstRowUnique(leaps, g, true, i);
      TimeAddValue(g, leaps[i].offset as real);
      if t.Normal() {
        NormalUnique(ToUtc(leaps, g), t);
      }
    } else {
      FirstRowUnique(leaps, g, true, i);
    }
  }

  /** The GPST instants inside the second that row i inserts. */
  ghost predicate Inside(leaps: LeapTable, g: GTime, i: nat)
    requires i < |leaps|
  {
    leaps[i].start.Value() - Offset(leaps, i + 1) as real <= g.Value() < leaps[i].start.Value() - leaps[i].offset as real
  }

  /** Outside all inserted seconds, GPST to UTC and back is the identity. */
  lemma GpstRoundTrip(leaps: LeapTable, g: GTime)
    requires FallingOffsets(leaps) && SpacedRows(leaps)
    requires forall i :: 0 <= i < |leaps| ==> !Inside(leaps, g, i)
    ensures ToGpst(leaps, ToUtc(leaps, g)).Value() == g.Value()
    ensures g.Normal() ==> ToGpst(leaps, ToUtc(leaps, g)) == g
  {
    hide FirstRow;
    var j := FirstRow(leaps, g, true, 0);
    FirstRowIs(leaps, g, true, 0);
    var u := ToUtc(leaps, g);
    if j < |leaps| {
      TimeAddValue(g, leaps[j].offset as real);
    }
    forall k | 0 <= k < j
      ensures u.Value() < leaps[k].start.Value()
    {
      NotYetStarted(leaps, g, j, k, u);
    }
    FirstRowUnique(leaps, u, false, j);
    if j < |leaps| {
      TimeAddValue(u, -leaps[j].offset as real);
      if g.Normal() {
        NormalUnique(ToGpst(leaps, u), g);
      }
    }
  }

  lemma NotYetStarted(leaps: LeapTable, g: GTime, j: nat, k: nat, u: GTime)
    requires SpacedRows(leaps) && k < j <= |leaps| && u.Value() == g.Value() + Offset(leaps, j) as real
    requires g.Value() + leaps[j - 1].offset as real < leaps[j - 1].start.Value() && !Inside(leaps, g, j - 1)
    ensures u.Value() < leaps[k].start.Value()
  {
    hide SpacedRows;
    var s := leaps[j - 1].start.Value();
    BeforeStart(g.Value(), leaps[j - 1].offset as real, Offset(leaps, j) as real, s);
    LaterRows(leaps, j - 1, k);
  }

  lemma BeforeStart(g: real, offset: real, before: real, start: real)
    requires !(start - before <= g < start - offset) && g + offset < start
    ensures g + before < start
  {
  }

  /** Row k, if newer than row i, starts later. */
  lemma LaterRows(leaps: LeapTable, i: nat, k: nat)
    requires SpacedRows(leaps) && k <= i < |leaps|
    ensures leaps[i].start.Value() <= leaps[k].start.Value()
    ensures k < i ==> leaps[i].start.Value() < leaps[k].start.Value()
  {
  }

  /** Inside the second that row i inserts, gpst2utc still takes the row before. */
  lemma InsideToUtc(leaps: LeapTable, g: GTime, i: nat)
    requires FallingOffsets(leaps) && SpacedRows(leaps) && i < |leaps| && Inside(leaps, g, i)
    ensures FirstRow(leaps, g, true, 0) == i + 1
    ensures ToUtc(leaps, g).Value() == g.Value() + Offset(leaps, i + 1) as real
  {
    hide FirstRow;
    forall k | 0 <= k < i + 1
      ensures g.Value() + leaps[k].offset as real < leaps[k].start.Value()
    {
      LaterRows(leaps, i, k);
      assert leaps[k].offset <= leaps[i].offset;
    }
    if i + 1 < |leaps| {
      LaterRows(leaps, i + 1, i);
    }
    FirstRowUnique(leaps, g, true, i + 1);
    TimeAddValue(g, Offset(leaps, i + 1) as real);
  }

  /** And utc2gpst takes row i already. */
  lemma InsideToGpst(leaps: LeapTable, g: GTime, i: nat, u: GTime)
    requires FallingOffsets(leaps) && SpacedRows(leaps) && i < |leaps| && Inside(leaps, g, i)
    requires u.Value() == g.Value() + Offset(leaps, i + 1) as real
    ensures FirstRow(leaps, u, false, 0) == i
    ensures ToGpst(leaps, u).Value() == u.Value() - leaps[i].offset as real
  {
    hide FirstRow;
    forall k | 0 <= k < i
      ensures u.Value() < leaps[k].start.Value()
    {
      LaterRows(leaps, i - 1, k);
      assert leaps[i - 1].start.Value() - leaps[i].start.Value() >= (Offset(leaps, i + 1) - leaps[i].offset) as real;
    }
    FirstRowUnique(leaps, u, false, i);
    TimeAddValue(u, -leaps[i].offset as real);
  }

  /** Inside an inserted second the result is ahead by the change of the offset.  With
      GpstRoundTrip: the round trip fails exactly there (the change is positive there). */
  lemma GpstInsideLeap(leaps: LeapTable, g: GTime, i: nat)
    requires FallingOffsets(leaps) && SpacedRows(leaps) && i < |leaps| && Inside(leaps, g, i)
    ensures ToGpst(leaps, ToUtc(leaps, g)).Value() == g.Value() + (Offset(leaps, i + 1) - leaps[i].offset) as real
    ensures Offset(leaps, i + 1) > leaps[i].offset
  {
    hide FirstRow, ToUtc, ToGpst, FallingOffsets, SpacedRows;
    InsideToUtc(leaps, g, i);
    InsideToGpst(leaps, g, i, ToUtc(leaps, g));
  }

  /** The exact condition. */
  lemma GpstRoundTripIff(leaps: LeapTable, g: GTime)
    requires FallingOffsets(leaps) && SpacedRows(leaps)
    ensures ToGpst(leaps, ToUtc(leaps, g)).Value() == g.Value() <==> forall i :: 0 <= i < |leaps| ==> !Inside(leaps, g, i)
  {
    if i :| 0 <= i < |leaps| && Inside(leaps, g, i) {
      GpstInsideLeap(leaps, g, i);
    } else {
      GpstRoundTrip(leaps, g);
    }
  }

  /** The UTC instants at which row i is in force: the row has started, the newer one has
      not. */
  ghost predicate InForce(leaps: LeapTable, utc: real, i: nat)
    requires i <= |leaps|
  {
    && (i < |leaps| ==> leaps[i].start.Value() <= utc)
    && (0 < i ==> utc < leaps[i - 1].start.Value())
  }

  /** While row i is in force, both conversions move a time by its offset, in opposite
      directions; before the oldest row neither moves it. */
  lemma OffsetInForce(leaps: LeapTable, t: GTime, i: nat)
    requires FallingOffsets(leaps) && SpacedRows(leaps) && i <= |leaps|
    ensures InForce(leaps, t.Value(), i) ==> ToGpst(leaps, t).Value() == t.Value() - Offset(leaps, i) as real
    ensures i > 0 && t.Value() + leaps[i - 1].offset as real < leaps[i - 1].start.Value()
            && (i < |leaps| ==> leaps[i].start.Value() <= t.Value() + leaps[i].offset as real)
            ==> ToUtc(leaps, t).Value() == t.Value() + Offset(leaps, i) as real
    ensures i == 0 < |leaps| && leaps[0].start.Value() <= t.Value() + leaps[0].offset as real
            ==> ToUtc(leaps, t).Value() == t.Value() + leaps[0].offset as real
  {
    hide FirstRow, FallingOffsets, SpacedRows;
    if i < |leaps| {
      TimeAddValue(t, leaps[i].offset as real);
      TimeAddValue(t, -leaps[i].offset as real);
    }
    if i > 0 {
      NewerRows(leaps, i, t.Value());
    }
    if InForce(leaps, t.Value(), i) {
      FirstRowUnique(leaps, t, false, i);
    }
    if (i < |leaps| ==> leaps[i].start.Value() <= t.Value() + leaps[i].offset as real)
       && (0 < i ==> t.Value() + leaps[i - 1].offset as real < leaps[i - 1].start.Value()) {
      FirstRowUnique(leaps, t, true, i);
    }
  }

  /** A time that row i - 1 does not match is matched by no newer row. */
  lemma NewerRows(leaps: LeapTable, i: nat, t: real)
    requires FallingOffsets(leaps) && SpacedRows(leaps) && 0 < i <= |leaps|
    ensures t < leaps[i - 1].start.Value() ==> forall k :: 0 <= k < i ==> t < leaps[k].start.Value()
    ensures t + leaps[i - 1].offset as real < leaps[i - 1].start.Value()
            ==> forall k :: 0 <= k < i ==> t + leaps[k].offset as real < leaps[k].start.Value()
  {
    forall k | 0 <= k < i
      ensures leaps[i - 1].start.Value() <= leaps[k].start.Value() && leaps[k].offset <= leaps[i - 1].offset
    {
      LaterRows(leaps, i - 1, k);
    }
  }

  function Row(year: int, mon: int, offset: int): Leap
  {
    Leap(Epoch2Time(Epoch(year, mon, 1, 0, 0, 0.0)), offset)
  }

  /** The table in the source. */
  const LEAPS: LeapTable := [
    Row(2017, 1, -18), Row(2015, 7, -17), Row(2012, 7, -16), Row(2009, 1, -15), Row(2006, 1, -14), Row(1999, 1, -13),
    Row(1997, 7, -12), Row(1996, 1, -11), Row(1994, 7, -10), Row(1993, 7, -9), Row(1992, 7, -8), Row(1991, 1, -7),
    Row(1990, 1, -6), Row(1988, 1, -5), Row(1985, 7, -4), Row(1983, 7, -3), Row(1982, 7, -2), Row(1981, 7, -1)]

  /** The start days of the rows. */
  const START_DAYS: seq<int> := [17167, 16617, 15522, 14245, 13149, 10592, 10043, 9496, 8947, 8582, 8217, 7670,
                                 7305, 6574, 5660, 4929, 4564, 4199]

  lemma RowIs(year: int, mon: int, offset: int, days: int)
    requires 1970 <= year <= 2099 && 1 <= mon <= 12 && DayCount(year, mon, 1) == days
    ensures Row(year, mon, offset) == Leap(GTime(days * 86400, 0.0), offset)
  {
    hide DayCount;
    assert (0.0).Floor == 0;
  }

  lemma NewRows()
    ensures LEAPS[..9] == seq(9, i requires 0 <= i < 9 => Leap(GTime(START_DAYS[i] * 86400, 0.0), i - 18))
  {
    SourceDays();
    hide DayCount, Row;
    RowIs(2017, 1, -18, 17167);
    RowIs(2015, 7, -17, 16617);
    RowIs(2012, 7, -16, 15522);
    RowIs(2009, 1, -15, 14245);
    RowIs(2006, 1, -14, 13149);
    RowIs(1999, 1, -13, 10592);
    RowIs(1997, 7, -12, 10043);
    RowIs(1996, 1, -11, 9496);
    RowIs(1994, 7, -10, 8947);
  }

  lemma OldRows()
    ensures LEAPS[9..] == seq(9, i requires 0 <= i < 9 => Leap(GTime(START_DAYS[i + 9] * 86400, 0.0), i - 9))
  {
    SourceDays();
    hide DayCount, Row;
    RowIs(1993, 7, -9, 8582);
    RowIs(1992, 7, -8, 8217);
    RowIs(1991, 1, -7, 7670);
    RowIs(1990, 1, -6, 7305);
    RowIs(1988, 1, -5, 6574);
    RowIs(1985, 7, -4, 5660);
    RowIs(1983, 7, -3, 4929);
    RowIs(1982, 7, -2, 4564);
    RowIs(1981, 7, -1, 4199);
  }

  lemma SourceSize()
    ensures |LEAPS| == 18 && |START_DAYS| == 18
  {
  }

  lemma SourceRows(i: nat)
    requires i < 18
    ensures |LEAPS| == 18 && LEAPS[i] == Leap(GTime(START_DAYS[i] * 86400, 0.0), i - 18)
  {
    SourceSize();
    NewRows();
    OldRows();
    hide LEAPS, START_DAYS;
    if i < 9 {
      assert LEAPS[i] == LEAPS[..9][i];
    } else {
      assert LEAPS[i] == LEAPS[9..][i - 9];
    }
  }

  lemma SourceDays()
    ensures DayCount(2017, 1, 1) == 17167 && DayCount(2015, 7, 1) == 16617 && DayCount(2012, 7, 1) == 15522
    ensures DayCount(2009, 1, 1) == 14245 && DayCount(2006, 1, 1) == 13149 && DayCount(1999, 1, 1) == 10592
    ensures DayCount(1997, 7, 1) == 10043 && DayCount(1996, 1, 1) == 9496 && DayCount(1994, 7, 1) == 8947
    ensures DayCount(1993, 7, 1) == 8582 && DayCount(1992, 7, 1) == 8217 && DayCount(1991, 1, 1) == 7670
    ensures DayCount(1990, 1, 1) == 7305 && DayCount(1988, 1, 1) == 6574 && DayCount(1985, 7, 1) == 5660
    ensures DayCount(1983, 7, 1) == 4929 && DayCount(1982, 7, 1) == 4564 && DayCount(1981, 7, 1) == 4199
  {
  }

  lemma DaysStep(i: nat)
    requires 0 < i < 18
    ensures |START_DAYS| == 18 && START_DAYS[i - 1] - START_DAYS[i] >= 300
  {
  }

  lemma {:induction false} DaysFall(i: nat, j: nat)
    requires i < j < 18
    ensures |START_DAYS| == 18 && START_DAYS[i] > START_DAYS[j]
  {
    hide START_DAYS;
    DaysStep(j);
    if i < j - 1 {
      DaysFall(i, j - 1);
    }
  }

  /** The source's table meets the conditions of the round trips. */
  lemma SourceTable()
    ensures FallingOffsets(LEAPS) && SpacedRows(LEAPS)
  {
    hide LEAPS, START_DAYS;
    SourceRows(0);
    forall i, j | 0 <= i <= j < 18
      ensures LEAPS[i].offset <= LEAPS[j].offset <= 0
    {
      SourceRows(i);
      SourceRows(j);
    }
    forall i, j | 0 <= i < j < 18
      ensures LEAPS[i].start.Value() > LEAPS[j].start.Value()
    {
      SourceRows(i);
      SourceRows(j);
      DaysFall(i, j);
    }
    forall i | 0 < i < 18
      ensures LEAPS[i - 1].start.Value() - LEAPS[i].start.Value() >= (Offset(LEAPS, i + 1) - LEAPS[i].offset) as real
    {
      SourceRows(i - 1);
      SourceRows(i);
      if i < 17 {
        SourceRows(i + 1);
      }
      DaysStep(i);
    }
  }

  /** The last leap second so far: GPST 1483228817 is inside it, and comes back a second
      later. */
  lemma SourceLeapSecond()
    ensures var g := GTime(1483228817, 0.0);
            && |LEAPS| == 18 && Inside(LEAPS, g, 0)
            && ToGpst(LEAPS, ToUtc(LEAPS, g)).Value() == g.Value() + 1.0
  {
    var g := GTime(1483228817, 0.0);
    SourceTable();
    SourceRows(0);
    SourceRows(1);
    hide LEAPS, FirstRow, ToGpst, ToUtc;
    assert Inside(LEAPS, g, 0);
    GpstInsideLeap(LEAPS, g, 0);
  }

  // ---------- weeks ----------

  const WEEK: int := 604800

  /** epoch2time(gpst0): 6 January 1980. */
  function GpsEpoch(): GTime
  {
    Epoch2Time(Epoch(1980, 1, 6, 0, 0, 0.0))
  }

  lemma GpsEpochIs()
    ensures GpsEpoch() == GTime(315964800, 0.0)
  {
    assert DayCount(1980, 1, 6) == 3657;
  }

  /** gpst2time */
  function Gpst2Time(week: int, sec: real): GTime
  {
    var s := if sec < -1000000000.0 || 1000000000.0 < sec then 0.0 else sec;
    GTime(GpsEpoch().time + 86400 * 7 * week + Trunc(s), s - Trunc(s) as real)
  }

  /** time2gpst: the week and the time of week. */
  function Time2Gpst(t: GTime): (int, real)
  {
    var sec := t.time - GpsEpoch().time;
    var w := CDiv(sec, 86400 * 7);
    (w, (sec - w * 86400 * 7) as real + t.sec)
  }

  /** Seconds since the GPS epoch. */
  function GpsSeconds(t: GTime): real
  {
    t.Value() - GpsEpoch().Value()
  }

  /** The conversions are mutually inverse from the GPS epoch on. */
  lemma WeekRoundTrip(week: nat, sec: real, t: GTime)
    requires 0.0 <= sec < 604800.0
    ensures Time2Gpst(Gpst2Time(week, sec)) == (week, sec)
    ensures t.Normal() && t.time >= GpsEpoch().time ==> var (w, s) := Time2Gpst(t); 0.0 <= s < 604800.0 && Gpst2Time(w, s) == t
  {
    GpsEpochIs();
    hide Epoch2Time;
    WeekOf(week, sec.Floor);
    if t.Normal() && t.time >= GpsEpoch().time {
      var n := t.time - 315964800;
      assert n - n / WEEK * WEEK == n % WEEK;
      assert ((n % WEEK) as real + t.sec).Floor == n % WEEK;
    }
  }

  lemma WeekOf(week: nat, s: int)
    requires 0 <= s < WEEK
    ensures (WEEK * week + s) / WEEK == week
  {
    DivModUnique(WEEK * week + s, WEEK, week, s);
  }

  /** The value of gpst2time; the cast rounds towards zero, so that the fraction has the sign
      of the seconds. */
  lemma Gpst2TimeValue(week: int, sec: real)
    requires -1000000000.0 <= sec <= 1000000000.0
    ensures GpsSeconds(Gpst2Time(week, sec)) == (WEEK * week) as real + sec
    ensures if sec >= 0.0 then 0.0 <= Gpst2Time(week, sec).sec < 1.0 else -1.0 < Gpst2Time(week, sec).sec <= 0.0
  {
    GpsEpochIs();
  }

  /** Beyond 1e9 s either way the seconds are dropped. */
  lemma Gpst2TimeDropped(week: int, sec: real)
    requires !(-1000000000.0 <= sec <= 1000000000.0)
    ensures GpsSeconds(Gpst2Time(week, sec)) == (WEEK * week) as real
  {
    GpsEpochIs();
  }

  /** time2gpst at any time, also before the GPS epoch: week and time of week add up to the
      time, and the time of week has the sign of the whole seconds and is less than a week. */
  lemma Time2GpstValue(t: GTime)
    ensures var (w, s) := Time2Gpst(t);
            && (WEEK * w) as real + s == GpsSeconds(t)
            && (t.time >= GpsEpoch().time ==> 0.0 <= s - t.sec < WEEK as real)
            && (t.time < GpsEpoch().time ==> -(WEEK as real) < s - t.sec <= 0.0)
  {
    GpsEpochIs();
    hide Epoch2Time;
    var n := t.time - 315964800;
    assert n - n / WEEK * WEEK == n % WEEK;
    assert -n - (-n) / WEEK * WEEK == (-n) % WEEK;
  }

  /** adjweek; `now` is utc2gpst(timeget()). */
  function AdjWeek(time: GTime, now: GTime, tow: real): GTime
  {
    var t := if time.time == 0 then now else time;
    var (week, towP) := Time2Gpst(t);
    Gpst2Time(week, if tow < towP - 302400.0 then tow + 604800.0 else if tow > towP + 302400.0 then tow - 604800.0 else tow)
  }

  /** A time that messages can leave in `rtcm->time`: the fraction may be negative. */
  predicate Tracked(t: GTime)
  {
    t.time > 0 && -1.0 < t.sec < 1.0 && GpsSeconds(t) >= 0.0
  }

  /** `tow` is the true time modulo the week, up to 14 s beyond it: BeiDou's time of week
      is moved by 14 s before it gets here. */
  ghost predicate TimeOfWeek(tow: real, trueTime: real)
  {
    0.0 <= tow < 604814.0 && trueTime >= 0.0 && exists w: int :: trueTime == (WEEK * w) as real + tow
  }

  /** One message: adjweek puts the true time into `rtcm->time`, if the time before was
      less than half a week away. */
  lemma WeekTracked(time: GTime, now: GTime, tow: real, trueTime: real)
    requires Tracked(time) && TimeOfWeek(tow, trueTime) && -302400.0 < trueTime - GpsSeconds(time) < 302400.0
    ensures Tracked(AdjWeek(time, now, tow)) && GpsSeconds(AdjWeek(time, now, tow)) == trueTime
  {
    GpsEpochIs();
    hide Epoch2Time;
    var w: int :| trueTime == (WEEK * w) as real + tow;
    var (week, towP) := Time2Gpst(time);
    TowRange(time, week, towP);
    var adjusted := if tow < towP - 302400.0 then tow + 604800.0 else if tow > towP + 302400.0 then tow - 604800.0 else tow;
    var shift := if tow < towP - 302400.0 then 1 else if tow > towP + 302400.0 then -1 else 0;
    Gpst2TimeValue(week, adjusted);
    SameWeek(w, week, shift, tow, towP, trueTime, GpsSeconds(time));
    TruncRange(adjusted);
  }

  /** Whatever the true time, adjweek picks the time with this time of week that is nearest
      to the one before, and of two that are equally near the one in the same week. */
  lemma WeekNearest(time: GTime, now: GTime, tow: real)
    requires Tracked(time) && 0.0 <= tow < 604814.0
    ensures var r := GpsSeconds(AdjWeek(time, now, tow));
            && (exists w: int :: r == (WEEK * w) as real + tow)
            && -302400.0 <= r - GpsSeconds(time) <= 302400.0
            && (r - GpsSeconds(time) == 302400.0 || r - GpsSeconds(time) == -302400.0
                ==> r - tow == GpsSeconds(time) - Time2Gpst(time).1)
  {
    GpsEpochIs();
    hide Epoch2Time;
    var (week, towP) := Time2Gpst(time);
    TowRange(time, week, towP);
    var adjusted := if tow < towP - 302400.0 then tow + 604800.0 else if tow > towP + 302400.0 then tow - 604800.0 else tow;
    var shift := if tow < towP - 302400.0 then 1 else if tow > towP + 302400.0 then -1 else 0;
    Gpst2TimeValue(week, adjusted);
    assert GpsSeconds(AdjWeek(time, now, tow)) == (WEEK * (week + shift)) as real + tow;
  }

  lemma TowRange(time: GTime, week: int, towP: real)
    requires Tracked(time) && (week, towP) == Time2Gpst(time)
    ensures -1.0 < towP < 604801.0 && GpsSeconds(time) == (WEEK * week) as real + towP && week >= 0
  {
    GpsEpochIs();
    hide Epoch2Time;
    var n := time.time - 315964800;
    assert n >= 0;
    assert n - n / WEEK * WEEK == n % WEEK;
  }

  lemma TruncRange(x: real)
    ensures -1.0 < x - Trunc(x) as real < 1.0
  {
  }

  lemma SameWeek(w: int, week: int, shift: int, tow: real, towP: real, trueTime: real, before: real)
    requires trueTime == (WEEK * w) as real + tow && before == (WEEK * week) as real + towP && -302400.0 < trueTime - before < 302400.0
    requires 0.0 <= tow < 604814.0 && -1.0 < towP < 604801.0
    requires shift == if tow < towP - 302400.0 then 1 else if tow > towP + 302400.0 then -1 else 0
    ensures w == week + shift
  {
  }

  /** The state after a run of messages with the given times of week. */
  function AdjWeeks(time: GTime, now: GTime, tows: seq<real>): GTime
  {
    if |tows| == 0 then time else AdjWeek(AdjWeeks(time, now, tows[..|tows| - 1]), now, tows[|tows| - 1])
  }

  /** Messages less than half a week apart, starting from time `start`. */
  ghost predicate Followed(start: real, tows: seq<real>, trueTimes: seq<real>)
  {
    && |tows| == |trueTimes|
    && (|tows| == 0 ||
        var n := |tows| - 1;
        && TimeOfWeek(tows[n], trueTimes[n])
        && -302400.0 < trueTimes[n] - (if n == 0 then start else trueTimes[n - 1]) < 302400.0
        && Followed(start, tows[..n], trueTimes[..n]))
  }

  /** Over any run of messages less than half a week apart, `rtcm->time` is the true time,
      however often the week rolls over. */
  lemma {:induction false} RunTracked(time: GTime, now: GTime, tows: seq<real>, trueTimes: seq<real>)
    requires Tracked(time) && Followed(GpsSeconds(time), tows, trueTimes)
    ensures Tracked(AdjWeeks(time, now, tows))
    ensures GpsSeconds(AdjWeeks(time, now, tows)) == if |tows| == 0 then GpsSeconds(time) else trueTimes[|tows| - 1]
  {
    hide Tracked, TimeOfWeek, AdjWeek, GpsSeconds;
    if |tows| > 0 {
      var n := |tows| - 1;
      RunTracked(time, now, tows[..n], trueTimes[..n]);
      WeekTracked(AdjWeeks(time, now, tows[..n]), now, tows[n], trueTimes[n]);
    }
  }

  /** The first message takes the reference time, when there is no time yet. */
  lemma FirstTracked(time: GTime, now: GTime, tow: real, trueTime: real)
    requires time.time == 0 && Tracked(now) && TimeOfWeek(tow, trueTime) && -302400.0 < trueTime - GpsSeconds(now) < 302400.0
    ensures Tracked(AdjWeek(time, now, tow)) && GpsSeconds(AdjWeek(time, now, tow)) == trueTime
  {
    hide Tracked, TimeOfWeek, GpsSeconds, Time2Gpst, Gpst2Time;
    WeekTracked(now, now, tow, trueTime);
    TrackedPositive(now);
    assert AdjWeek(time, now, tow) == AdjWeek(now, now, tow);
  }

  /** So does every run of messages that starts without a time. */
  lemma {:induction false} FirstRunTracked(time: GTime, now: GTime, tows: seq<real>, trueTimes: seq<real>)
    requires time.time == 0 && Tracked(now) && |tows| > 0 && Followed(GpsSeconds(now), tows, trueTimes)
    ensures Tracked(AdjWeeks(time, now, tows)) && GpsSeconds(AdjWeeks(time, now, tows)) == trueTimes[|tows| - 1]
  {
    hide Tracked, Followed, GpsSeconds;
    RunTracked(now, now, tows, trueTimes);
    RunFromReference(time, now, tows);
  }

  lemma {:induction false} RunFromReference(time: GTime, now: GTime, tows: seq<real>)
    requires time.time == 0 && |tows| > 0
    ensures AdjWeeks(time, now, tows) == AdjWeeks(now, now, tows)
  {
    hide Time2Gpst, Gpst2Time;
    if |tows| > 1 {
      RunFromReference(time, now, tows[..|tows| - 1]);
    }
  }

  lemma TrackedPositive(t: GTime)
    requires Tracked(t)
    ensures t.time != 0
  {
  }

  // ---------- days ----------

  /** fmod */
  function FMod(x: real, m: real): real
    requires m > 0.0
  {
    x - m * Trunc(x / m) as real
  }

  /** adjday_glot; `now` is utc2gpst(timeget()). */
  function AdjDayGlot(leaps: LeapTable, time: GTime, now: GTime, tod: real): GTime
  {
    var t := if time.time == 0 then now else time;
    var (week, tow) := Time2Gpst(TimeAdd(ToUtc(leaps, t), 10800.0));
    var todP := FMod(tow, 86400.0);
    var d := if tod < todP - 43200.0 then tod + 86400.0 else if tod > todP + 43200.0 then tod - 86400.0 else tod;
    ToGpst(leaps, TimeAdd(Gpst2Time(week, tow - todP + d), -10800.0))
  }

  /** Only the value of a time decides its leap seconds. */
  lemma ToGpstValue(leaps: LeapTable, a: GTime, b: GTime)
    requires a.Value() == b.Value()
    ensures ToGpst(leaps, a).Value() == ToGpst(leaps, b).Value()
  {
    hide FirstRow;
    var r := FirstRow(leaps, a, false, 0);
    FirstRowIs(leaps, a, false, 0);
    FirstRowUnique(leaps, b, false, r);
    if r < |leaps| {
      TimeAddValue(a, -leaps[r].offset as real);
      TimeAddValue(b, -leaps[r].offset as real);
    }
  }

  /** `tod` is the true time modulo the day. */
  ghost predicate TimeOfDay(tod: real, trueTime: real)
  {
    0.0 <= tod < 86400.0 && exists n: int :: trueTime == (86400 * n) as real + tod
  }

  lemma DayPart(tow: real, todP: real)
    requires 0.0 <= tow && todP == FMod(tow, 86400.0)
    ensures 0.0 <= todP < 86400.0 && exists n: int :: tow == (86400 * n) as real + todP
  {
    var n := (tow / 86400.0).Floor;
    assert tow == (86400 * n) as real + todP;
  }

  lemma SameDay(n: int, k: int, week: int, tod: real, todP: real, d: real, trueTime: real, before: real)
    requires trueTime == (86400 * n) as real + tod && before == (WEEK * week) as real + (86400 * k) as real + todP
    requires -43200.0 < trueTime - before < 43200.0 && 0.0 <= tod < 86400.0 && 0.0 <= todP < 86400.0
    requires d == if tod < todP - 43200.0 then tod + 86400.0 else if tod > todP + 43200.0 then tod - 86400.0 else tod
    ensures (WEEK * week) as real + (86400 * k) as real + d == trueTime
  {
    var j := 7 * week + k;
    assert (WEEK * week) as real + (86400 * k) as real == (86400 * j) as real;
    var shift := if tod < todP - 43200.0 then 1 else if tod > todP + 43200.0 then -1 else 0;
    SameDayShift(n, j, shift, tod, todP, trueTime, before);
  }

  lemma SameDayShift(n: int, j: int, shift: int, tod: real, todP: real, trueTime: real, before: real)
    requires trueTime == (86400 * n) as real + tod && before == (86400 * j) as real + todP
    requires -43200.0 < trueTime - before < 43200.0 && 0.0 <= tod < 86400.0 && 0.0 <= todP < 86400.0
    requires shift == if tod < todP - 43200.0 then 1 else if tod > todP + 43200.0 then -1 else 0
    ensures n == j + shift
  {
  }

  /** One message: if the true GLONASS time is less than half a day from the one that
      `rtcm->time` stands for, adjday_glot sets `rtcm->time` to its GPS time. */
  lemma DayTracked(leaps: LeapTable, time: GTime, now: GTime, tod: real, trueTime: real, trueUtc: GTime)
    requires time.time != 0 && TimeOfDay(tod, trueTime)
    requires var g := TimeAdd(ToUtc(leaps, time), 10800.0);
             g.time >= GpsEpoch().time && -43200.0 < trueTime - GpsSeconds(g) < 43200.0
    requires GpsSeconds(trueUtc) == trueTime - 10800.0
    ensures AdjDayGlot(leaps, time, now, tod).Value() == ToGpst(leaps, trueUtc).Value()
  {
    hide ToUtc, ToGpst, GpsEpoch, FMod;
    var g := TimeAdd(ToUtc(leaps, time), 10800.0);
    TimeAddValue(ToUtc(leaps, time), 10800.0);
    var (week, tow) := Time2Gpst(g);
    var todP := FMod(tow, 86400.0);
    var d := if tod < todP - 43200.0 then tod + 86400.0 else if tod > todP + 43200.0 then tod - 86400.0 else tod;
    DayAdjusted(g, week, tow, todP, tod, d, trueTime);
    var r := Gpst2Time(week, tow - todP + d);
    TimeAddValue(r, -10800.0);
    ToGpstValue(leaps, TimeAdd(r, -10800.0), trueUtc);
  }

  lemma WeekAndTow(g: GTime, week: int, tow: real)
    requires g.Normal() && g.time >= GpsEpoch().time && (week, tow) == Time2Gpst(g)
    ensures 0.0 <= tow < 604800.0 && GpsSeconds(g) == (WEEK * week) as real + tow
  {
    GpsEpochIs();
    hide Epoch2Time;
    var n := g.time - 315964800;
    assert n - n / WEEK * WEEK == n % WEEK;
  }

  /** The GLONASS time that `rtcm->time` stands for, in seconds since the GPS epoch. */
  function GlonassSeconds(leaps: LeapTable, time: GTime): real
  {
    GpsSeconds(TimeAdd(ToUtc(leaps, time), 10800.0))
  }

  /** `time` stands for GLONASS time `trueTime`. */
  ghost predicate OnDay(leaps: LeapTable, time: GTime, trueTime: real)
  {
    time.time > 0 && trueTime >= 0.0 && GlonassSeconds(leaps, time) == trueTime
  }

  lemma FromUtc(leaps: LeapTable, u: GTime)
    requires FallingOffsets(leaps) && u.time > 0 && u.Normal()
    ensures ToGpst(leaps, u).time > 0
  {
    hide FirstRow;
    var i := FirstRow(leaps, u, false, 0);
    if i < |leaps| {
      assert leaps[i].offset <= 0;
      TimeAddValue(u, -leaps[i].offset as real);
    }
  }

  /** The last step of adjday_glot: `r` GLONASS time becomes a GPS time that stands for it. */
  lemma GlonassResult(leaps: LeapTable, r: GTime)
    requires FallingOffsets(leaps)
    ensures GlonassSeconds(leaps, ToGpst(leaps, TimeAdd(r, -10800.0))) == GpsSeconds(r)
  {
    hide ToUtc, ToGpst, GpsEpoch, FallingOffsets;
    var u := TimeAdd(r, -10800.0);
    TimeAddValue(r, -10800.0);
    UtcRoundTrip(leaps, u);
    TimeAddValue(ToUtc(leaps, ToGpst(leaps, u)), 10800.0);
  }

  /** One message of a run. */
  lemma DayStep(leaps: LeapTable, time: GTime, now: GTime, tod: real, before: real, trueTime: real)
    requires FallingOffsets(leaps) && OnDay(leaps, time, before)
    requires TimeOfDay(tod, trueTime) && trueTime >= 0.0 && -43200.0 < trueTime - before < 43200.0
    ensures OnDay(leaps, AdjDayGlot(leaps, time, now, tod), trueTime)
  {
    GpsEpochIs();
    hide ToUtc, ToGpst, GpsEpoch, FMod, FallingOffsets;
    var g := TimeAdd(ToUtc(leaps, time), 10800.0);
    TimeAddValue(ToUtc(leaps, time), 10800.0);
    var (week, tow) := Time2Gpst(g);
    var todP := FMod(tow, 86400.0);
    var d := if tod < todP - 43200.0 then tod + 86400.0 else if tod > todP + 43200.0 then tod - 86400.0 else tod;
    DayAdjusted(g, week, tow, todP, tod, d, trueTime);
    var r := Gpst2Time(week, tow - todP + d);
    var u := TimeAdd(r, -10800.0);
    TimeAddValue(r, -10800.0);
    FromUtc(leaps, u);
    GlonassResult(leaps, r);
  }

  /** Whatever the true time, adjday_glot picks the time with this time of day that is
      nearest to the one before, and of two that are equally near the one on the same day. */
  lemma DayNearest(leaps: LeapTable, time: GTime, now: GTime, tod: real, before: real)
    requires FallingOffsets(leaps) && OnDay(leaps, time, before) && 0.0 <= tod < 86400.0
    ensures var r := GlonassSeconds(leaps, AdjDayGlot(leaps, time, now, tod));
            && -43200.0 <= r - before <= 43200.0
            && exists n: int ::
                 && r == (86400 * n) as real + tod
                 && (r - before == 43200.0 || r - before == -43200.0 ==> 0.0 <= before - (86400 * n) as real < 86400.0)
  {
    GpsEpochIs();
    hide ToUtc, ToGpst, GpsEpoch, FMod, FallingOffsets;
    var g := TimeAdd(ToUtc(leaps, time), 10800.0);
    TimeAddValue(ToUtc(leaps, time), 10800.0);
    var (week, tow) := Time2Gpst(g);
    var todP := FMod(tow, 86400.0);
    var shift := if tod < todP - 43200.0 then 1 else if tod > todP + 43200.0 then -1 else 0;
    var d := if tod < todP - 43200.0 then tod + 86400.0 else if tod > todP + 43200.0 then tod - 86400.0 else tod;
    WeekAndTow(g, week, tow);
    DayPart(tow, todP);
    var k: int :| tow == (86400 * k) as real + todP;
    Gpst2TimeValue(week, tow - todP + d);
    GlonassResult(leaps, Gpst2Time(week, tow - todP + d));
    DayCountShift(week, k, shift);
    assert GlonassSeconds(leaps, AdjDayGlot(leaps, time, now, tod)) == (86400 * (7 * week + k + shift)) as real + tod;
  }

  lemma DayCountShift(week: int, k: int, shift: int)
    ensures (86400 * (7 * week + k + shift)) as real == (WEEK * week) as real + (86400 * k) as real + (86400 * shift) as real
  {
  }

  /** The first message takes the reference time, when there is no time yet. */
  lemma FirstDay(leaps: LeapTable, time: GTime, now: GTime, tod: real, before: real, trueTime: real)
    requires time.time == 0 && FallingOffsets(leaps) && OnDay(leaps, now, before)
    requires TimeOfDay(tod, trueTime) && trueTime >= 0.0 && -43200.0 < trueTime - before < 43200.0
    ensures OnDay(leaps, AdjDayGlot(leaps, time, now, tod), trueTime)
  {
    hide FallingOffsets, OnDay, TimeOfDay, ToUtc, ToGpst, Time2Gpst, Gpst2Time, TimeAdd, FMod;
    DayStep(leaps, now, now, tod, before, trueTime);
    assert AdjDayGlot(leaps, time, now, tod) == AdjDayGlot(leaps, now, now, tod);
  }

  /** The day adjustment finds the true time. */
  lemma DayAdjusted(g: GTime, week: int, tow: real, todP: real, tod: real, d: real, trueTime: real)
    requires g.Normal() && g.time >= GpsEpoch().time && (week, tow) == Time2Gpst(g) && todP == FMod(tow, 86400.0)
    requires TimeOfDay(tod, trueTime) && -43200.0 < trueTime - GpsSeconds(g) < 43200.0
    requires d == if tod < todP - 43200.0 then tod + 86400.0 else if tod > todP + 43200.0 then tod - 86400.0 else tod
    ensures GpsSeconds(Gpst2Time(week, tow - todP + d)) == trueTime
  {
    hide GpsEpoch, FMod;
    WeekAndTow(g, week, tow);
    DayPart(tow, todP);
    var k: int :| tow == (86400 * k) as real + todP;
    var n: int :| trueTime == (86400 * n) as real + tod;
    SameDay(n, k, week, tod, todP, d, trueTime, GpsSeconds(g));
    Gpst2TimeValue(week, tow - todP + d);
  }

  /** The state after a run of messages with the given times of day. */
  function AdjDays(leaps: LeapTable, time: GTime, now: GTime, tods: seq<real>): GTime
  {
    if |tods| == 0 then time
    else AdjDayGlot(leaps, AdjDays(leaps, time, now, tods[..|tods| - 1]), now, tods[|tods| - 1])
  }

  /** Messages less than half a day apart, starting from GLONASS time `start`. */
  ghost predicate DaysFollowed(start: real, tods: seq<real>, trueTimes: seq<real>)
  {
    && |tods| == |trueTimes|
    && (|tods| == 0 ||
        var n := |tods| - 1;
        && TimeOfDay(tods[n], trueTimes[n]) && trueTimes[n] >= 0.0
        && -43200.0 < trueTimes[n] - (if n == 0 then start else trueTimes[n - 1]) < 43200.0
        && DaysFollowed(start, tods[..n], trueTimes[..n]))
  }

  /** Over any run of GLONASS messages less than half a day apart, `rtcm->time` stands for
      the true time, across any number of days and leap seconds. */
  lemma {:induction false} DayRunTracked(leaps: LeapTable, time: GTime, now: GTime, start: real, tods: seq<real>, trueTimes: seq<real>)
    requires FallingOffsets(leaps) && OnDay(leaps, time, start) && DaysFollowed(start, tods, trueTimes)
    ensures OnDay(leaps, AdjDays(leaps, time, now, tods), if |tods| == 0 then start else trueTimes[|tods| - 1])
  {
    hide FallingOffsets, OnDay, TimeOfDay, AdjDayGlot;
    if |tods| > 0 {
      var n := |tods| - 1;
      DayRunTracked(leaps, time, now, start, tods[..n], trueTimes[..n]);
      DayStep(leaps, AdjDays(leaps, time, now, tods[..n]), now, tods[n], if n == 0 then start else trueTimes[n - 1], trueTimes[n]);
    }
  }

  /** So does every run of GLONASS messages that starts without a time. */
  lemma {:induction false} FirstDayRun(leaps: LeapTable, time: GTime, now: GTime, start: real, tods: seq<real>, trueTimes: seq<real>)
    requires time.time == 0 && FallingOffsets(leaps) && OnDay(leaps, now, start)
    requires |tods| > 0 && DaysFollowed(start, tods, trueTimes)
    ensures OnDay(leaps, AdjDays(leaps, time, now, tods), trueTimes[|tods| - 1])
  {
    hide FallingOffsets, OnDay, DaysFollowed;
    DayRunTracked(leaps, now, now, start, tods, trueTimes);
    DaysFromReference(leaps, time, now, tods);
  }

  lemma {:induction false} DaysFromReference(leaps: LeapTable, time: GTime, now: GTime, tods: seq<real>)
    requires time.time == 0 && |tods| > 0
    ensures AdjDays(leaps, time, now, tods) == AdjDays(leaps, now, now, tods)
  {
    hide ToUtc, ToGpst, Time2Gpst, Gpst2Time, TimeAdd, FMod;
    if |tods| > 1 {
      DaysFromReference(leaps, time, now, tods[..|tods| - 1]);
    }
  }
}
