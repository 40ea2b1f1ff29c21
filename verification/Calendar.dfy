/** Days since 1970-01-01 as a Gregorian date, and a Unix time as date and time of day. */
module Calendar {

  datatype Date = Date(y: int, m: int, d: int)

  // ---- The calendar, independently of the conversion ----

  predicate Leap(y: int) {
    y % 4 == 0 && (y % 100 != 0 || y % 400 == 0)
  }

  function MonthLength(y: int, m: int): int {
    if m == 2 then (if Leap(y) then 29 else 28)
    else if m == 4 || m == 6 || m == 9 || m == 11 then 30
    else 31
  }

  predicate ValidDate(t: Date) {
    1 <= t.m <= 12 && 1 <= t.d <= MonthLength(t.y, t.m)
  }

  function NextDay(t: Date): Date {
    if t.d < MonthLength(t.y, t.m) then Date(t.y, t.m, t.d + 1)
    else if t.m < 12 then Date(t.y, t.m + 1, 1)
    else Date(t.y + 1, 1, 1)
  }

  /** The date `n` days after the epoch, one calendar day at a time. */
  function DaysLater(n: nat): Date {
    if n == 0 then Date(1970, 1, 1) else NextDay(DaysLater(n - 1))
  }

  function YearLength(y: int): int {
    if Leap(y) then 366 else 365
  }

  /** Days from 1970-01-01 to January 1st of year `y`. */
  function DaysToYear(y: int): int
    decreases if y >= 1970 then y - 1970 else 1970 - y
  {
    if y == 1970 then 0
    else if y > 1970 then DaysToYear(y - 1) + YearLength(y - 1)
    else DaysToYear(y + 1) - YearLength(y)
  }

  function DaysToMonth(y: int, m: int): int
    requires 1 <= m <= 12
    decreases m
  {
    if m == 1 then 0 else DaysToMonth(y, m - 1) + MonthLength(y, m - 1)
  }

  /** The day number of a date, by counting whole years, whole months and days. */
  function DayNumber(t: Date): int
    requires ValidDate(t)
  {
    DaysToYear(t.y) + DaysToMonth(t.y, t.m) + t.d - 1
  }

  // ---- The conversion ----

  /** Division as the source's integers do it: truncation toward zero. */
  function TruncDiv(a: int, b: int): int
    requires b > 0
  {
    if a >= 0 then a / b else -((-a) / b)
  }

  function Era(z: int): int {
    TruncDiv(if z >= 0 then z else z - 146096, 146097)
  }

  function YearOfEra(doe: int): int {
    (doe - doe / 1460 + doe / 36524 - doe / 146096) / 365
  }

  function DayOfYear(doe: int, yoe: int): int {
    doe - (365 * yoe + yoe / 4 - yoe / 100)
  }

  /** The date at day `doy` of the year that starts in March of year `y`; months are counted from March. */
  function MarchDate(y: int, doy: int): Date {
    var mp := (5 * doy + 2) / 153;
    var d := doy - (153 * mp + 2) / 5 + 1;
    var m := if mp < 10 then mp + 3 else mp - 9;
    Date(y + (if m <= 2 then 1 else 0), m, d)
  }

  function CivilFromDays(days: int): Date {
    var z := days + 719468;
    CivilInEra(Era(z), z - Era(z) * 146097)
  }

  function CivilInEra(era: int, doe: int): Date {
    var yoe := YearOfEra(doe);
    MarchDate(yoe + era * 400, DayOfYear(doe, yoe))
  }

  // ---- Ranges ----

  lemma EraIsFloor(z: int)
    ensures 0 <= z - Era(z) * 146097 <= 146096
    ensures Era(z) == z / 146097
  {
    if z < 0 {
      var n := 146096 - z;
      assert Era(z) == -(n / 146097);
    }
  }

  /** A day of an era as century, four-year cycle, year and day; only the last year of a cycle may have a day 365. */
  predicate Splits(doe: int, c: int, q: int, r: int, doy: int) {
    && 0 <= c <= 3 && 0 <= q <= 24 && 0 <= r <= 3 && 0 <= doy <= 365
    && (doy == 365 ==> r == 3 && (q < 24 || c == 3))
    && doe == 36524 * c + 1461 * q + 365 * r + doy
  }

  lemma SplitEra(doe: int) returns (c: int, q: int, r: int, doy: int)
    requires 0 <= doe <= 146096
    ensures Splits(doe, c, q, r, doy)
  {
    c := if doe == 146096 then 3 else doe / 36524;
    var inCentury := doe - 36524 * c;
    q := inCentury / 1461;
    var inCycle := inCentury - 1461 * q;
    r := if inCycle == 1460 then 3 else inCycle / 365;
    doy := inCycle - 365 * r;
  }

  lemma CenturyCount(doe: int, c: int, q: int, r: int, doy: int)
    requires Splits(doe, c, q, r, doy)
    ensures doe / 36524 - doe / 146096 == c
  {
    var inCentury := 1461 * q + 365 * r + doy;
    assert 0 <= inCentury <= 36524;
    if inCentury == 36524 {
      assert c == 3 && doe == 146096;
    } else {
      assert doe / 36524 == c;
    }
  }

  lemma CycleCount(doe: int, c: int, q: int, r: int, doy: int)
    requires Splits(doe, c, q, r, doy)
    ensures doe / 1460 == 25 * c + q + (if 24 * c + q + 365 * r + doy >= 1460 then 1 else 0)
  {
    var k := 25 * c + q;
    assert doe == 1460 * k + (24 * c + q + 365 * r + doy);
  }

  /** The year-of-era formula reads the year off the split. */
  lemma YearOfSplit(doe: int, c: int, q: int, r: int, doy: int)
    requires Splits(doe, c, q, r, doy)
    ensures YearOfEra(doe) == 100 * c + 4 * q + r
    ensures DayOfYear(doe, YearOfEra(doe)) == doy
  {
    CenturyCount(doe, c, q, r, doy);
    CycleCount(doe, c, q, r, doy);
    var extra := doe / 1460 - (25 * c + q);
    var yoe := 100 * c + 4 * q + r;
    assert doe - doe / 1460 + doe / 36524 - doe / 146096 == 365 * yoe + (doy - extra);
    assert 0 <= doy - extra < 365;
    assert yoe / 4 == 25 * c + q && yoe / 100 == c;
  }

  /** March-based month of a day of the year, and the day within it. */
  lemma MonthOfDay(doy: int)
    requires 0 <= doy <= 365
    ensures var mp := (5 * doy + 2) / 153;
            && 0 <= mp <= 11
            && (153 * mp + 2) / 5 <= doy
            && (mp < 11 ==> doy < (153 * (mp + 1) + 2) / 5)
            && 1 <= doy - (153 * mp + 2) / 5 + 1 <= 31
  {
  }

  lemma EraRanges(doe: int)
    requires 0 <= doe <= 146096
    ensures 0 <= YearOfEra(doe) <= 399 && 0 <= DayOfYear(doe, YearOfEra(doe)) <= 365
  {
    var c, q, r, doy := SplitEra(doe);
    YearOfSplit(doe, c, q, r, doy);
  }

  /** Every intermediate value lies in the range the source's comments give, for any day number. */
  lemma CommentedRanges(days: int)
    ensures var z := days + 719468;
            var doe := z - Era(z) * 146097;
            var yoe := YearOfEra(doe);
            var doy := DayOfYear(doe, yoe);
            var mp := (5 * doy + 2) / 153;
            && 0 <= doe <= 146096 && 0 <= yoe <= 399 && 0 <= doy <= 365 && 0 <= mp <= 11
            && 1 <= doy - (153 * mp + 2) / 5 + 1 <= 31
            && 1 <= (if mp < 10 then mp + 3 else mp - 9) <= 12
  {
    var z := days + 719468;
    var doe := z - Era(z) * 146097;
    EraIsFloor(z);
    EraRanges(doe);
    MonthOfDay(DayOfYear(doe, YearOfEra(doe)));
  }

  // ---- Dates from March-based coordinates ----

  /** Whether the year starting in March of `y` has a 366th day: its February is the one of `y + 1`. */
  predicate LongYear(y: int) {
    Leap(y + 1)
  }

  lemma MarchDateIsValid(y: int, doy: int)
    requires 0 <= doy <= 365 && (doy == 365 ==> LongYear(y))
    ensures ValidDate(MarchDate(y, doy))
  {
    MonthOfDay(doy);
  }

  /** Month of the calendar and length of a March-based month, February aside. */
  lemma MonthSpan(y: int, mp: int)
    requires 0 <= mp <= 10
    ensures (153 * (mp + 1) + 2) / 5 - (153 * mp + 2) / 5 == MonthLength(y, if mp < 10 then mp + 3 else mp - 9)
  {
  }

  lemma MarchDateNext(y: int, doy: int)
    requires 0 <= doy <= 365 && (doy == 365 ==> LongYear(y))
    ensures NextDay(MarchDate(y, doy)) ==
            if doy == 365 || (doy == 364 && !LongYear(y)) then MarchDate(y + 1, 0) else MarchDate(y, doy + 1)
  {
    var mp := (5 * doy + 2) / 153;
    MonthOfDay(doy);
    if mp < 11 {
      MonthSpan(y, mp);
      MonthOfDay(doy + 1);
      assert (5 * (doy + 1) + 2) / 153 == if doy + 1 < (153 * (mp + 1) + 2) / 5 then mp else mp + 1;
    } else if doy < 365 {
      assert (5 * (doy + 1) + 2) / 153 == 11;
    }
  }

  lemma Mod4(k: int, r: int)
    ensures (4 * k + r) % 4 == r % 4
  {
    assert 4 * k + r == 4 * (k + r / 4) + r % 4;
  }

  lemma Mod100(k: int, r: int)
    ensures (100 * k + r) % 100 == r % 100
  {
    assert 100 * k + r == 100 * (k + r / 100) + r % 100;
  }

  lemma Mod400(k: int, r: int)
    ensures (400 * k + r) % 400 == r % 400
  {
    assert 400 * k + r == 400 * (k + r / 400) + r % 400;
  }

  lemma Mod60(k: int, r: int)
    ensures (60 * k + r) % 60 == r % 60
  {
    assert 60 * k + r == 60 * (k + r / 60) + r % 60;
  }

  lemma SplitLongYear(era: int, c: int, q: int, r: int)
    requires 0 <= c <= 3 && 0 <= q <= 24 && 0 <= r <= 3
    ensures LongYear(era * 400 + 100 * c + 4 * q + r) <==> r == 3 && (q < 24 || c == 3)
  {
    Mod4(100 * era + 25 * c + q, r + 1);
    Mod100(4 * era + c, 4 * q + r + 1);
    Mod400(era, 100 * c + 4 * q + r + 1);
  }

  lemma EraIs(z: int, era: int)
    requires 0 <= z - era * 146097 <= 146096
    ensures Era(z) == era
  {
    EraIsFloor(z);
  }

  function MarchYear(era: int, c: int, q: int, r: int): int {
    era * 400 + (100 * c + 4 * q + r)
  }

  /** The conversion, read off the split of its day number. */
  lemma CivilOfSplit(days: int, era: int, c: int, q: int, r: int, doy: int)
    requires Splits(days + 719468 - era * 146097, c, q, r, doy)
    ensures CivilFromDays(days) == MarchDate(MarchYear(era, c, q, r), doy)
    ensures doy == 365 ==> LongYear(MarchYear(era, c, q, r))
  {
    var z := days + 719468;
    EraIs(z, era);
    CivilFromSplit(days, Era(z), z - Era(z) * 146097, c, q, r, doy);
    SplitLongYear(era, c, q, r);
  }

  lemma CivilFromSplit(days: int, era: int, doe: int, c: int, q: int, r: int, doy: int)
    requires era == Era(days + 719468) && doe == days + 719468 - era * 146097 && Splits(doe, c, q, r, doy)
    ensures CivilFromDays(days) == MarchDate(MarchYear(era, c, q, r), doy)
  {
    CivilInEraOfSplit(era, doe, c, q, r, doy);
    var date := CivilInEra(era, doe);
    assert CivilFromDays(days) == date;
  }

  lemma CivilInEraOfSplit(era: int, doe: int, c: int, q: int, r: int, doy: int)
    requires Splits(doe, c, q, r, doy)
    ensures CivilInEra(era, doe) == MarchDate(MarchYear(era, c, q, r), doy)
  {
    YearOfSplit(doe, c, q, r, doy);
  }

  /** The split of the next day: one further in the year, or the first day of the next one. */
  lemma NextSplit(days: int, era: int, c: int, q: int, r: int, doy: int)
    returns (era': int, c': int, q': int, r': int, doy': int)
    requires Splits(days + 719468 - era * 146097, c, q, r, doy)
    ensures Splits(days + 1 + 719468 - era' * 146097, c', q', r', doy')
    ensures var y := MarchYear(era, c, q, r);
            if doy == 365 || (doy == 364 && !LongYear(y))
            then MarchYear(era', c', q', r') == y + 1 && doy' == 0
            else MarchYear(era', c', q', r') == y && doy' == doy + 1
  {
    SplitLongYear(era, c, q, r);
    era', c', q', r', doy' := era, c, q, r, doy + 1;
    if doy == 365 || (doy == 364 && !LongYear(MarchYear(era, c, q, r))) {
      doy' := 0;
      if r < 3 {
        r' := r + 1;
      } else if q < 24 {
        q', r' := q + 1, 0;
      } else if c < 3 {
        c', q', r' := c + 1, 0, 0;
      } else {
        era', c', q', r' := era + 1, 0, 0, 0;
      }
    }
  }

  lemma SplitDay(days: int) returns (era: int, c: int, q: int, r: int, doy: int)
    ensures Splits(days + 719468 - era * 146097, c, q, r, doy)
  {
    var z := days + 719468;
    era := Era(z);
    EraIsFloor(z);
    c, q, r, doy := SplitEra(z - era * 146097);
  }

  // ---- The conversion is the calendar ----

  /** Every day number gives a date that exists. */
  lemma CivilIsValid(days: int)
    ensures ValidDate(CivilFromDays(days))
  {
    var era, c, q, r, doy := SplitDay(days);
    CivilOfSplit(days, era, c, q, r, doy);
    MarchDateIsValid(MarchYear(era, c, q, r), doy);
  }

  /** The next day number gives the next day of the calendar. */
  lemma CivilStepsByDay(days: int)
    ensures CivilFromDays(days + 1) == NextDay(CivilFromDays(days))
  {
    var era, c, q, r, doy := SplitDay(days);
    CivilOfSplit(days, era, c, q, r, doy);
    var era', c', q', r', doy' := NextSplit(days, era, c, q, r, doy);
    CivilOfSplit(days + 1, era', c', q', r', doy');
    MarchDateNext(MarchYear(era, c, q, r), doy);
  }

  lemma EpochIsDayZero()
    ensures CivilFromDays(0) == Date(1970, 1, 1)
  {
    CivilOfSplit(0, 4, 3, 17, 1, 306);
  }

  /** A calendar: the epoch at day zero, and each day followed by the next one. */
  ghost predicate CountsDays(f: int -> Date) {
    f(0) == Date(1970, 1, 1) && forall n: int {:trigger NextDay(f(n))} :: f(n + 1) == NextDay(f(n))
  }

  lemma CivilCountsDays()
    ensures CountsDays(CivilFromDays)
  {
    EpochIsDayZero();
    forall n: int
      ensures CivilFromDays(n + 1) == NextDay(CivilFromDays(n))
    {
      CivilStepsByDay(n);
    }
  }

  lemma {:induction false} CountingIsDaysLater(f: int -> Date, n: nat)
    requires CountsDays(f)
    ensures f(n) == DaysLater(n)
  {
    if n > 0 {
      CountingIsDaysLater(f, n - 1);
      assert f(n - 1 + 1) == NextDay(f(n - 1));
    }
  }

  /** The closed form is day-by-day counting from the epoch. */
  lemma CivilIsDaysLater(n: nat)
    ensures CivilFromDays(n) == DaysLater(n)
  {
    CivilCountsDays();
    CountingIsDaysLater(CivilFromDays, n);
  }

  lemma MonthsFillYear(y: int)
    ensures DaysToMonth(y, 12) + 31 == YearLength(y)
  {
    assert DaysToMonth(y, 4) == 59 + MonthLength(y, 2) - 28 + 31;
    assert DaysToMonth(y, 8) == DaysToMonth(y, 4) + 122;
    assert DaysToMonth(y, 12) == DaysToMonth(y, 8) + 122;
  }

  lemma NextDayNumber(t: Date)
    requires ValidDate(t)
    ensures ValidDate(NextDay(t)) && DayNumber(NextDay(t)) == DayNumber(t) + 1
  {
    if t.d == MonthLength(t.y, t.m) && t.m == 12 {
      MonthsFillYear(t.y);
      assert DaysToYear(t.y + 1) == DaysToYear(t.y) + YearLength(t.y);
    }
  }

  lemma {:induction false} CountingDayNumber(f: int -> Date, days: int)
    requires CountsDays(f) && ValidDate(f(days)) && forall n: int :: ValidDate(f(n))
    ensures DayNumber(f(days)) == days
    decreases if days >= 0 then days else -days
  {
    if days > 0 {
      CountingDayNumber(f, days - 1);
      assert f(days - 1 + 1) == NextDay(f(days - 1));
      NextDayNumber(f(days - 1));
    } else if days < 0 {
      CountingDayNumber(f, days + 1);
      assert f(days + 1) == NextDay(f(days));
      NextDayNumber(f(days));
    }
  }

  /** Counting the days to the date found gives the day number back, before and after the epoch. */
  lemma DayNumberOfCivil(days: int)
    ensures ValidDate(CivilFromDays(days)) && DayNumber(CivilFromDays(days)) == days
  {
    CivilCountsDays();
    forall n: int
      ensures ValidDate(CivilFromDays(n))
    {
      CivilIsValid(n);
    }
    CountingDayNumber(CivilFromDays, days);
  }

  lemma {:induction false} YearsInOrder(a: int, b: int)
    requires a < b
    ensures DaysToYear(a) + YearLength(a) <= DaysToYear(b)
    decreases b - a
  {
    assert DaysToYear(b) == DaysToYear(b - 1) + YearLength(b - 1);
    if a < b - 1 {
      YearsInOrder(a, b - 1);
    }
  }

  lemma {:induction false} MonthsInOrder(y: int, a: int, b: int)
    requires 1 <= a < b <= 12
    ensures DaysToMonth(y, a) + MonthLength(y, a) <= DaysToMonth(y, b)
    decreases b - a
  {
    if a < b - 1 {
      MonthsInOrder(y, a, b - 1);
    }
  }

  lemma InsideYear(t: Date)
    requires ValidDate(t)
    ensures DaysToYear(t.y) <= DayNumber(t) < DaysToYear(t.y) + YearLength(t.y)
  {
    MonthsFillYear(t.y);
    if t.m > 1 {
      MonthsInOrder(t.y, 1, t.m);
    }
    if t.m < 12 {
      MonthsInOrder(t.y, t.m, 12);
    }
  }

  lemma DayNumberInjective(t: Date, u: Date)
    requires ValidDate(t) && ValidDate(u) && DayNumber(t) == DayNumber(u)
    ensures t == u
  {
    InsideYear(t);
    InsideYear(u);
    if t.y < u.y { YearsInOrder(t.y, u.y); }
    if u.y < t.y { YearsInOrder(u.y, t.y); }
    if t.m < u.m { MonthsInOrder(t.y, t.m, u.m); }
    if u.m < t.m { MonthsInOrder(t.y, u.m, t.m); }
  }

  /** And every date that exists comes back from its day number: the conversion is a bijection. */
  lemma CivilOfDayNumber(t: Date)
    requires ValidDate(t)
    ensures CivilFromDays(DayNumber(t)) == t
  {
    DayNumberOfCivil(DayNumber(t));
    DayNumberInjective(CivilFromDays(DayNumber(t)), t);
  }

  // ---- Timestamps ----

  datatype Utc = Utc(date: Date, hh: int, mm: int, ss: int)

  function UtcOf(secs: nat): Utc {
    var tod := secs % 86400;
    Utc(CivilFromDays(secs / 86400), tod / 3600, tod % 3600 / 60, tod % 60)
  }

  lemma TimeOfDay(tod: int)
    requires 0 <= tod < 86400
    ensures 0 <= tod / 3600 < 24 && 0 <= tod % 3600 / 60 < 60 && 0 <= tod % 60 < 60
    ensures tod / 3600 * 3600 + tod % 3600 / 60 * 60 + tod % 60 == tod
  {
    assert tod == tod / 3600 * 3600 + tod % 3600;
    Mod60(60 * (tod / 3600), tod % 3600);
  }

  lemma EpochIsFirst(t: Date)
    requires ValidDate(t) && DayNumber(t) >= 0
    ensures t.y >= 1970
  {
    if t.y < 1970 {
      InsideYear(t);
      YearsInOrder(t.y, 1970);
    }
  }

  /** The parts printed in a log line denote exactly the timestamp. */
  lemma UtcDenotesSeconds(secs: nat)
    ensures var u := UtcOf(secs);
            && ValidDate(u.date) && 0 <= u.hh < 24 && 0 <= u.mm < 60 && 0 <= u.ss < 60 && u.date.y >= 1970
            && DayNumber(u.date) * 86400 + u.hh * 3600 + u.mm * 60 + u.ss == secs
  {
    DayNumberOfCivil(secs / 86400);
    TimeOfDay(secs % 86400);
    EpochIsFirst(CivilFromDays(secs / 86400));
  }
}
