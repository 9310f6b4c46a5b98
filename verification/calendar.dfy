/** The calendar of ffbase/time.h: `fftime_join1` and `fftime_split1` in their 32-bit
    arithmetic, against a calendar defined by the lengths of years and months.
  */
module Calendar {
  import opened Modulo
  import opened Words

  /** `(int)x < 0` */
  predicate Negative(w: nat) { w >= WORD / 2 }

  datatype Time = Time(sec: int, nsec: nat)

  datatype Date = Date(year: int, month: nat, day: nat, hour: nat, minute: nat, second: nat,
                       nanosecond: nat, weekday: nat, yearday: nat)

  const SECOND: nat := 1_000_000_000
  const DAY: nat := 86400

  // ---------- the proleptic Gregorian calendar ----------

  predicate Leap(year: int) { year % 4 == 0 && (year % 100 != 0 || year % 400 == 0) }

  function YearDays(year: int): nat { if Leap(year) then 366 else 365 }

  function MonthDays(year: int, month: nat): nat {
    if month == 2 then (if Leap(year) then 29 else 28)
    else if month == 4 || month == 6 || month == 9 || month == 11 then 30
    else 31
  }

  /** Days from January 1 of year 1. */
  ghost function DaysBeforeYear(year: nat): nat
    requires year >= 1
  { if year == 1 then 0 else DaysBeforeYear(year - 1) + YearDays(year - 1) }

  ghost function DaysBeforeMonth(year: int, month: nat): nat
    requires month >= 1
  { if month == 1 then 0 else DaysBeforeMonth(year, month - 1) + MonthDays(year, month - 1) }

  /** The year has that day. */
  ghost predicate HasDay(year: int, month: nat, day: nat) {
    1 <= month <= 12 && 1 <= day <= MonthDays(year, month)
  }

  ghost predicate IsDate(year: int, month: nat, day: nat) { year >= 1 && HasDay(year, month, day) }

  ghost function DayNumber(year: int, month: nat, day: nat): nat
    requires IsDate(year, month, day)
  { DaysBeforeYear(year) + DaysBeforeMonth(year, month) + day - 1 }

  // ---------- the code ----------

  /** `month_days` */
  function TableDays(month: nat): nat
    requires 1 <= month <= 12
  { if month == 2 then 28 else if month == 4 || month == 6 || month == 9 || month == 11 then 30 else 31 }

  /** `fftime_valid` */
  predicate Valid(dt: Date) {
    && dt.hour <= 23 && dt.minute <= 59 && dt.second <= 59 && dt.nanosecond <= 999999999
    && dt.year != 0
    && Word(dt.month - 1) < 12
    && (Word(dt.day - 1) < TableDays(Word(dt.month - 1) + 1)
        || (dt.day == 29 && dt.month == 2 && Leap(dt.year)))
  }

  /** Fields of the types the structure has. */
  predicate Fits(dt: Date) {
    && -WORD / 2 <= dt.year < WORD / 2 && dt.month < WORD && dt.day < WORD && dt.hour < WORD
    && dt.minute < WORD && dt.second < WORD && dt.nanosecond < WORD
  }

  /** Days before March 1 of a year counted from March, as both functions compute them. */
  function MarchYears(year: nat): int { year * 365 + year / 4 - year / 100 + year / 400 }

  /** `fftime_join1`, the time of the day. */
  function JoinTime(dt: Date): Time {
    var sec := dt.hour * 60 * 60 + Word(dt.minute * 60) + dt.second;
    if dt.nanosecond >= SECOND then Time(sec + dt.nanosecond % SECOND, dt.nanosecond / SECOND)
    else Time(sec, dt.nanosecond)
  }

  /** `fftime_join1` */
  function Join1(dt: Date): Time {
    var t := JoinTime(dt);
    if dt.year <= 0 || dt.month == 0 || dt.day == 0 then t else
    var year0 := if dt.month > 12 then Word(dt.year + (dt.month - 1) / 12) else dt.year;
    var mon0 := if dt.month > 12 then (dt.month - 1) % 12 + 1 else dt.month;
    var mon := if mon0 <= 2 then mon0 + 10 else mon0 - 2;
    var year := if mon0 <= 2 then Word(year0 - 1) else year0;
    var days := Word(MarchYears(year) - 365 + (367 * mon / 12 - 30) + 31 + 28 + dt.day - 1);
    Time(t.sec + days * 60 * 60 * 24, t.nsec)
  }

  /** `fftime_split1`, the year counted from March and the day in it. */
  function SplitYear(days: nat): (nat, nat) {
    var year := 1 + Word(days * 400) / 146097;
    var yday := Word(days - MarchYears(year));
    if Negative(yday) then (year - 1, Word(yday + YearDays(year))) else (year, yday)
  }

  /** `fftime_split1` */
  function Split1(t: Time): Date
    requires t.sec >= 0
  {
    var days := Word(t.sec / DAY);
    var sec := t.sec % DAY;
    var weekday := Word(1 + days) % 7;
    var (year, yday) := SplitYear(Word(days + 306));
    var mon := Word((Word(yday + 31)) * 10) / 306;
    var mday := Word(yday - Word(Word(367 * mon) / 12 - 30));
    var late := yday >= 306;
    Date(if late then year + 1 else year,
         if late then Word(mon - 10) else Word(mon + 2),
         Word(mday + 1), sec / 3600, (sec % 3600) / 60, sec % 60, t.nsec, weekday,
         Word((if late then yday - 306 else yday + 59 + (if Leap(year) then 1 else 0)) + 1))
  }

  // ---------- years ----------

  /** 400 years have 146097 days, and the days before each year stay near that rate. */
  lemma MarchRate(year: nat)
    ensures 400 * MarchYears(year) == 146097 * year - 100 * (year % 4) + 4 * (year % 100) - year % 400
  {}

  lemma MarchBounds(year: nat)
    ensures 146097 * year - 699 <= 400 * MarchYears(year) <= 146097 * year + 396
  {
    hide MarchYears;
    MarchRate(year);
  }

  lemma Div4(n: nat)
    requires n > 0
    ensures n / 4 == (n - 1) / 4 + if n % 4 == 0 then 1 else 0
  {}

  lemma Div100(n: nat)
    requires n > 0
    ensures n / 100 == (n - 1) / 100 + if n % 100 == 0 then 1 else 0
  {}

  lemma Div400(n: nat)
    requires n > 0
    ensures n / 400 == (n - 1) / 400 + if n % 400 == 0 then 1 else 0
  {}

  lemma Multiples(n: nat)
    ensures n % 400 == 0 ==> n % 100 == 0
    ensures n % 100 == 0 ==> n % 4 == 0
  {
    ModMod(100, 4, n);
    ModMod(4, 25, n);
  }

  lemma MarchNext(year: nat)
    requires year > 0
    ensures MarchYears(year) == MarchYears(year - 1) + YearDays(year)
  {
    Div4(year);
    Div100(year);
    Div400(year);
    Multiples(year);
  }

  lemma {:induction false} YearsAre(year: nat)
    requires year >= 1
    ensures DaysBeforeYear(year) == MarchYears(year - 1)
  {
    if year == 1 {
    } else {
      YearsAre(year - 1);
      MarchNext(year - 1);
    }
  }

  /** Without overflow the year is found with at most one correction. */
  lemma SplitYearIs(days: nat)
    requires days <= 10737418
    ensures var (year, yday) := SplitYear(days);
      MarchYears(year) + yday == days && yday < YearDays(year + 1)
  {
    hide MarchYears, YearDays, Word;
    var k := days * 400 / 146097;
    var first, second := MarchYears(k), MarchYears(k + 1);
    YearStarts(days, k);
    WordIs(days * 400);
    WordIs(days - second);
    if days < second {
      WordIs(days - second + WORD + YearDays(k + 1));
    }
  }

  lemma YearStarts(days: nat, k: nat)
    requires k == days * 400 / 146097
    ensures MarchYears(k) <= days <= MarchYears(k + 1) + 1
    ensures MarchYears(k + 1) == MarchYears(k) + YearDays(k + 1)
    ensures 365 <= YearDays(k + 1) <= 366 && 365 <= YearDays(k + 2)
  {
    hide MarchYears, YearDays;
    assert 146097 * k <= 400 * days < 146097 * (k + 1);
    MarchBounds(k);
    MarchBounds(k + 1);
    MarchNext(k + 1);
    YearLength(k + 1);
    YearLength(k + 2);
  }

  lemma YearLength(year: int)
    ensures 365 <= YearDays(year) <= 366
  {}

  // ---------- months ----------

  /** Days before a month in a year that starts in March. */
  function MarchMonths(mon: nat): int { 367 * mon / 12 - 30 }

  lemma MonthIs(yday: nat)
    requires yday < 366
    ensures var mon := (yday + 31) * 10 / 306;
      1 <= mon <= 12 && 0 <= MarchMonths(mon) <= yday && (mon < 12 ==> yday < MarchMonths(mon + 1))
      && (yday >= 306 <==> mon >= 11)
  {
    var mon := (yday + 31) * 10 / 306;
    assert 306 * mon <= (yday + 31) * 10 < 306 * (mon + 1);
    assert 1 <= mon <= 12;
  }

  /** The months from March on, and the two before. */
  lemma MonthsAre(year: int, month: nat)
    requires 1 <= month <= 12
    ensures DaysBeforeMonth(year, month) ==
      if month <= 2 then MarchMonths(month + 10) - 306
      else MarchMonths(month - 2) + (if Leap(year) then 60 else 59)
  {
    assert DaysBeforeMonth(year, 1) == 0;
    assert DaysBeforeMonth(year, 2) == DaysBeforeMonth(year, 1) + 31;
    assert DaysBeforeMonth(year, 3) == DaysBeforeMonth(year, 2) + (if Leap(year) then 29 else 28);
    assert DaysBeforeMonth(year, 4) == DaysBeforeMonth(year, 3) + 31;
    assert DaysBeforeMonth(year, 5) == DaysBeforeMonth(year, 4) + 30;
    assert DaysBeforeMonth(year, 6) == DaysBeforeMonth(year, 5) + 31;
    assert DaysBeforeMonth(year, 7) == DaysBeforeMonth(year, 6) + 30;
    assert DaysBeforeMonth(year, 8) == DaysBeforeMonth(year, 7) + 31;
    assert DaysBeforeMonth(year, 9) == DaysBeforeMonth(year, 8) + 31;
    assert DaysBeforeMonth(year, 10) == DaysBeforeMonth(year, 9) + 30;
    assert DaysBeforeMonth(year, 11) == DaysBeforeMonth(year, 10) + 31;
    assert DaysBeforeMonth(year, 12) == DaysBeforeMonth(year, 11) + 30;
  }

  lemma MonthLength(year: int, mon: nat)
    requires 1 <= mon <= 11
    ensures MarchMonths(mon + 1) - MarchMonths(mon) == MonthDays(year, if mon <= 10 then mon + 2 else mon - 10)
    ensures MarchMonths(12) == 337
  {}

  /** A year from March on: January and February belong to the year before. */
  function MarchYear(year: nat, month: nat): nat
    requires year >= 1
  { if month <= 2 then year - 1 else year }

  function MarchMonth(month: nat): nat
    requires 1 <= month <= 12
  { if month <= 2 then month + 10 else month - 2 }

  lemma DayNumberIs(year: nat, month: nat, day: nat)
    requires IsDate(year, month, day)
    ensures DayNumber(year, month, day) + 306
      == MarchYears(MarchYear(year, month)) + MarchMonths(MarchMonth(month)) + day - 1
  {
    hide MarchYears, MarchMonths, DaysBeforeMonth, DaysBeforeYear;
    YearsAre(year);
    MonthsAre(year, month);
    MarchNext(year);
  }

  // ---------- joining ----------

  /** The range check accepts the days of the calendar in every year but 0, also before
      year 1, and the times of a day. */
  lemma ValidIsDate(dt: Date)
    requires Fits(dt)
    ensures Valid(dt) <==> (dt.year != 0 && HasDay(dt.year, dt.month, dt.day)
      && dt.hour <= 23 && dt.minute <= 59 && dt.second <= 59 && dt.nanosecond < SECOND)
  {
    hide Leap;
    if dt.month == 0 { assert Word(dt.month - 1) == WORD - 1; }
    if dt.day == 0 { assert Word(dt.day - 1) == WORD - 1; }
  }

  function Clock(dt: Date): nat { dt.hour * 3600 + dt.minute * 60 + dt.second }

  /** Without a date, or before year 1, only the time of the day is joined. */
  lemma JoinNoDate(dt: Date)
    requires Fits(dt) && dt.nanosecond < 1_000_000_000 && (dt.year <= 0 || dt.month == 0 || dt.day == 0)
    ensures Join1(dt) == Time(dt.hour * 3600 + Word(dt.minute * 60) + dt.second, dt.nanosecond)
  {}

  /** With a date, months above 12 are months of later years, and days are counted on from
      the first of the month, however many. */
  lemma JoinAnyDate(dt: Date)
    requires Fits(dt) && dt.nanosecond < 1_000_000_000 && dt.year > 0 && dt.month > 0 && dt.day > 0
    ensures var year, month := dt.year + (dt.month - 1) / 12, (dt.month - 1) % 12 + 1;
      && IsDate(year, month, 1)
      && Join1(dt) == Time(
           Word(DayNumber(year, month, 1) + dt.day - 1) * 86400 + dt.hour * 3600 + Word(dt.minute * 60) + dt.second,
           dt.nanosecond)
  {
    hide MarchYears, DayNumber, MonthDays;
    MonthsCarried(dt);
    FirstDay(dt.year + (dt.month - 1) / 12, (dt.month - 1) % 12 + 1);
    DayNumberIs(dt.year + (dt.month - 1) / 12, (dt.month - 1) % 12 + 1, 1);
  }

  lemma FirstDay(year: nat, month: nat)
    requires year >= 1 && 1 <= month <= 12
    ensures IsDate(year, month, 1)
  {}

  lemma MonthsCarried(dt: Date)
    requires Fits(dt) && dt.year > 0 && dt.month > 0
    ensures Word(dt.year + (dt.month - 1) / 12) == dt.year + (dt.month - 1) / 12
    ensures dt.month <= 12 ==> (dt.month - 1) / 12 == 0 && (dt.month - 1) % 12 + 1 == dt.month
  {}

  /** Joining a valid date counts its days, as far as they fit 32 bits, and its seconds;
      before year 1 only its seconds. */
  lemma JoinCounts(dt: Date)
    requires Fits(dt) && Valid(dt)
    ensures dt.year < 0 ==> Join1(dt) == Time(Clock(dt), dt.nanosecond)
    ensures dt.year > 0 ==>
      && IsDate(dt.year, dt.month, dt.day)
      && Join1(dt) == Time(Word(DayNumber(dt.year, dt.month, dt.day)) * DAY + Clock(dt), dt.nanosecond)
  {
    hide MarchYears, HasDay, DayNumber;
    ValidIsDate(dt);
    if dt.year > 0 {
      DayNumberIs(dt.year, dt.month, dt.day);
      DateMonths(dt);
    }
  }

  lemma DateMonths(dt: Date)
    requires IsDate(dt.year, dt.month, dt.day)
    ensures 1 <= dt.month <= 12 && dt.day >= 1
  {}

  /** Too many nanoseconds are joined rightly exactly when there are as many of them left
      over as whole seconds: the code adds the one where the other belongs. */
  lemma NanosecondsJoined(dt: Date)
    requires Fits(dt)
    ensures var t := JoinTime(dt);
      t.sec * SECOND + t.nsec == (dt.hour * 3600 + Word(dt.minute * 60) + dt.second) * SECOND + dt.nanosecond
      <==> dt.nanosecond < SECOND || dt.nanosecond % SECOND == dt.nanosecond / SECOND
  {}

  /** One and a half seconds become half a billion seconds. */
  lemma NanosecondsLost()
    ensures var dt := Date(1, 1, 1, 0, 0, 0, 1_500_000_000, 0, 0);
      Fits(dt) && JoinTime(dt) == Time(500_000_000, 1)
  {}

  // ---------- splitting ----------

  /** The date says what the time is. */
  ghost predicate Denotes(dt: Date, t: Time) {
    && Valid(dt) && IsDate(dt.year, dt.month, dt.day)
    && t == Time(DayNumber(dt.year, dt.month, dt.day) * DAY + Clock(dt), dt.nanosecond)
    && dt.weekday == (1 + DayNumber(dt.year, dt.month, dt.day)) % 7
    && dt.yearday == DaysBeforeMonth(dt.year, dt.month) + dt.day
  }

  /** The last day, counted from March 1 of year 0, whose product with 400 fits 32 bits. */
  const LAST: nat := 10737418

  /** Month, day and day of the year from a year and a day counted from March. */
  lemma SplitMonthIs(year: nat, yday: nat)
    requires yday < YearDays(year + 1) && (year == 0 ==> yday >= 306)
    ensures var mon := (yday + 31) * 10 / 306;
      var y, m := if yday >= 306 then year + 1 else year, if mon > 10 then mon - 10 else mon + 2;
      var d := yday - MarchMonths(mon) + 1;
      && 1 <= mon <= 12 && (yday >= 306 <==> mon > 10) && d >= 1 && IsDate(y, m, d)
      && DayNumber(y, m, d) + 306 == MarchYears(year) + yday
      && DaysBeforeMonth(y, m) + d == 1 + if yday >= 306 then yday - 306 else yday + 59 + (if Leap(year) then 1 else 0)
  {
    hide MarchYears, DaysBeforeMonth, DaysBeforeYear, Leap;
    MonthIs(yday);
    var mon := (yday + 31) * 10 / 306;
    var y := if yday >= 306 then year + 1 else year;
    var m := if mon > 10 then mon - 10 else mon + 2;
    var d := yday - MarchMonths(mon) + 1;
    if mon < 12 { MonthLength(y, mon); } else { MonthLength(y, 11); }
    DayNumberIs(y, m, d);
    MonthsAre(y, m);
  }

  /** In range, splitting gives the date that the time is. */
  lemma SplitDenotes(t: Time)
    requires t.sec >= 0 && t.nsec < SECOND && t.sec / DAY + 306 <= LAST
    ensures Denotes(Split1(t), t)
  {
    hide MarchYears, DaysBeforeMonth, DayNumber, HasDay, YearDays, Valid, Split1, SplitYear, MarchMonths, Leap;
    var days := t.sec / DAY;
    var (year, yday) := SplitYear(days + 306);
    SplitYearIs(days + 306);
    YearLength(year + 1);
    SmallYear(year, yday);
    FirstYear(year, yday);
    SplitForm(t, year, yday);
    SplitMonthIs(year, yday);
    ClockOf(t.sec);
    ValidIsDate(Split1(t));
  }

  lemma SmallYear(year: nat, yday: nat)
    requires MarchYears(year) + yday <= LAST
    ensures year < 30000
  {}

  /** What splitting computes when nothing overflows. */
  lemma SplitForm(t: Time, year: nat, yday: nat)
    requires t.sec >= 0 && t.sec / DAY + 306 <= LAST && SplitYear(t.sec / DAY + 306) == (year, yday)
    requires yday < 366 && year < 30000
    ensures var s, mon := t.sec % DAY, (yday + 31) * 10 / 306;
      Split1(t) == Date(
        if yday >= 306 then year + 1 else year,
        if mon > 10 then mon - 10 else mon + 2,
        yday - MarchMonths(mon) + 1, s / 3600, s % 3600 / 60, s % 60, t.nsec, (1 + t.sec / DAY) % 7,
        1 + if yday >= 306 then yday - 306 else yday + 59 + (if Leap(year) then 1 else 0))
  {
    hide SplitYear, Leap;
    MonthIs(yday);
    var mon := (yday + 31) * 10 / 306;
    assert Word(Word(367 * mon) / 12 - 30) == MarchMonths(mon);
  }

  /** From 306 on, a day of March year 0 is in January or February of year 1. */
  lemma FirstYear(year: nat, yday: nat)
    requires MarchYears(year) + yday >= 306
    ensures year == 0 ==> yday >= 306
  {}

  lemma ClockOf(sec: nat)
    ensures var s := sec % DAY;
      s / 3600 <= 23 && s % 3600 / 60 <= 59 && s % 60 <= 59 && s / 3600 * 3600 + s % 3600 / 60 * 60 + s % 60 == s
  {
    var s := sec % DAY;
    assert s == 3600 * (s / 3600) + s % 3600;
    assert s % 3600 == 60 * (s % 3600 / 60) + s % 3600 % 60;
    assert s % 3600 % 60 == s % 60 by { SixtyOf(s); }
  }

  lemma SixtyOf(s: nat)
    ensures s % 3600 % 60 == s % 60
  {
    assert s == 60 * (60 * (s / 3600) + s % 3600 / 60) + s % 3600 % 60;
  }

  /** January 1, 1970, the first day of its year, is day 719162, a Thursday. */
  lemma Epoch()
    ensures DayNumber(1970, 1, 1) == 719162
    ensures Split1(Time(719162 * 86400, 0)) == Date(1970, 1, 1, 0, 0, 0, 0, 4, 1)
    ensures Join1(Date(1970, 1, 1, 0, 0, 0, 0, 4, 1)) == Time(719162 * 86400, 0)
  {
    hide *;
    EpochDay();
    EpochYear();
    EpochSplit();
    EpochJoined();
  }

  lemma EpochDay()
    ensures DayNumber(1970, 1, 1) == 719162
  {
    DayNumberIs(1970, 1, 1);
  }

  lemma EpochYear()
    ensures SplitYear(719162 + 306) == (1969, 306)
  {
    hide MarchYears, YearDays, Word;
    WordIs(719468 * 400);
    assert 1 + 719468 * 400 / 146097 == 1970;
    In1970();
    WordIs(719468 - 719527);
    WordIs(WORD - 59 + 365);
  }

  lemma In1970()
    ensures MarchYears(1970) == 719527 && YearDays(1970) == 365
  {}

  lemma EpochSplit()
    requires SplitYear(719162 + 306) == (1969, 306)
    ensures Split1(Time(719162 * 86400, 0)) == Date(1970, 1, 1, 0, 0, 0, 0, 4, 1)
  {
    hide Split1, SplitYear;
    SplitForm(Time(719162 * 86400, 0), 1969, 306);
  }

  lemma EpochJoined()
    requires DayNumber(1970, 1, 1) == 719162
    ensures Join1(Date(1970, 1, 1, 0, 0, 0, 0, 4, 1)) == Time(719162 * 86400, 0)
  {
    hide Join1, DayNumber, Word, Valid, Fits, IsDate, HasDay, Clock;
    var dt := Date(1970, 1, 1, 0, 0, 0, 0, 4, 1);
    EpochValid();
    WordIs(719162);
    JoinCounts(dt);
  }

  lemma EpochValid()
    ensures var dt := Date(1970, 1, 1, 0, 0, 0, 0, 4, 1); Fits(dt) && Valid(dt) && Clock(dt) == 0
  {
    WordIs(0);
  }

  // ---------- where splitting goes wrong ----------

  /** Beyond the last day the product with 400 overflows, and the day of the year is far
      too great. */
  lemma SplitYearOverflows(days: nat)
    requires LAST < days < WORD
    ensures var (year, yday) := SplitYear(days); 1000 <= yday < WORD
  {
    hide MarchYears, YearDays;
    var q := Word(days * 400) / 146097;
    assert 146097 * q <= Word(days * 400) < WORD;
    MarchBounds(1 + q);
    YearLength(1 + q);
    if days < 10738766 {
      assert Word(days * 400) == days * 400 - WORD;
      assert q <= 3;
    }
    assert days - MarchYears(1 + q) >= 1000;
    LowYears(1 + q);
    if days == WORD - 1 { assert Word(days * 400) == WORD - 400 && q == 29398; }
  }

  lemma LowYears(year: nat)
    requires year >= 1
    ensures MarchYears(year) >= 365
  {
    MarchRate(year);
  }

  /** So the month or the day is out of range. */
  lemma SplitMonthOverflows(yday: nat)
    requires 1000 <= yday < WORD
    ensures var mon := Word(Word(yday + 31) * 10) / 306;
      var month, day := Word(mon - 10), Word(Word(yday - Word(Word(367 * mon) / 12 - 30)) + 1);
      !(Word(month - 1) < 12 && (Word(day - 1) < 31 || day == 29))
  {
    var mon := Word(Word(yday + 31) * 10) / 306;
    var month: int := Word(mon - 10);
    if Word(month - 1) < 12 {
      WordIs(mon as int - 10);
      assert 11 <= mon <= 22;
      assert Word(367 * mon) == 367 * mon && 306 <= 367 * mon / 12 - 30 <= 642;
    }
  }

  /** Before year 1 splitting gives year 0. */
  lemma SplitBefore(days: nat)
    requires days < 306
    ensures SplitYear(days) == (0, days)
  {
    assert Word(days * 400) / 146097 == 0;
    assert MarchYears(1) == 365 && YearDays(1) == 365;
    hide Word, MarchYears, YearDays;
    WordIs(days - 365);
    WordIs(days + WORD);
  }

  lemma SplitValidInRange(t: Time)
    requires t.sec >= 0 && t.nsec < SECOND && Valid(Split1(t))
    ensures 306 <= Word(Word(t.sec / DAY) + 306) <= LAST
  {
    hide SplitYear, Leap;
    var w := Word(Word(t.sec / DAY) + 306);
    if w < 306 { SplitBefore(w); }
    if w > LAST {
      SplitYearOverflows(w);
      SplitMonthOverflows(SplitYear(w).1);
    }
  }

  /** Splitting gives the date of a time exactly for days whose product with 400 fits
      32 bits. */
  lemma SplitExact(t: Time)
    requires t.sec >= 0 && t.nsec < SECOND
    ensures Denotes(Split1(t), t) <==> t.sec / DAY + 306 <= LAST
  {
    if t.sec / DAY + 306 <= LAST {
      SplitDenotes(t);
    } else if Denotes(Split1(t), t) {
      NotBeyond(t);
    }
  }

  lemma NotBeyond(t: Time)
    requires t.sec >= 0 && t.nsec < SECOND && Denotes(Split1(t), t)
    ensures t.sec / DAY + 306 <= LAST
  {
    hide Split1, DayNumber, Valid, IsDate, DaysBeforeMonth, Clock;
    SplitValidInRange(t);
    var days, dt := Word(t.sec / DAY), Split1(t);
    var u := Time(days * DAY + t.sec % DAY, t.nsec);
    SameSplit(t, u);
    SplitDenotes(u);
    ClockFits(dt);
    QuotRem(DayNumber(dt.year, dt.month, dt.day), Clock(dt));
  }

  lemma QuotRem(days: nat, rest: nat)
    requires rest < DAY
    ensures (days * DAY + rest) / DAY == days && (days * DAY + rest) % DAY == rest
  {}

  lemma SameSplit(t: Time, u: Time)
    requires t.sec >= 0 && u == Time(Word(t.sec / DAY) * DAY + t.sec % DAY, t.nsec)
    ensures Split1(t) == Split1(u) && u.sec / DAY == Word(t.sec / DAY)
  {
    hide SplitYear, Leap, Word;
    QuotRem(Word(t.sec / DAY), t.sec % DAY);
    WordTwice(t.sec / DAY);
  }

  lemma WordTwice(x: int)
    ensures Word(Word(x)) == Word(x)
  {}

  // ---------- round trips and order ----------

  /** Splitting and joining gives back every time in range. */
  lemma JoinSplit(t: Time)
    requires t.sec >= 0 && t.nsec < SECOND && t.sec / DAY + 306 <= LAST
    ensures Join1(Split1(t)) == t
  {
    hide Split1, Join1, DayNumber, Valid, DaysBeforeMonth;
    SplitDenotes(t);
    var dt := Split1(t);
    SplitFits(t);
    JoinCounts(dt);
    assert DayNumber(dt.year, dt.month, dt.day) == t.sec / DAY by { ClockFits(dt); }
  }

  lemma SplitFits(t: Time)
    requires t.sec >= 0 && t.nsec < SECOND && Valid(Split1(t)) && t.sec / DAY + 306 <= LAST
    ensures Fits(Split1(t))
  {
    hide MarchYears, Leap;
    var (year, yday) := SplitYear(t.sec / DAY + 306);
    SplitYearIs(t.sec / DAY + 306);
    SmallYear(year, yday);
  }

  lemma ClockFits(dt: Date)
    requires Valid(dt)
    ensures Clock(dt) < DAY
  {}

  /** The date and time fields, without the day of the week and of the year. */
  predicate SameFields(a: Date, b: Date) {
    && a.year == b.year && a.month == b.month && a.day == b.day
    && a.hour == b.hour && a.minute == b.minute && a.second == b.second && a.nanosecond == b.nanosecond
  }

  /** Only one date has a day number. */
  lemma DayNumberGrows(y1: nat, m1: nat, d1: nat, y2: nat, m2: nat, d2: nat)
    requires IsDate(y1, m1, d1) && IsDate(y2, m2, d2)
    requires y1 < y2 || (y1 == y2 && (m1 < m2 || (m1 == m2 && d1 < d2)))
    ensures DayNumber(y1, m1, d1) < DayNumber(y2, m2, d2)
  {
    if y1 < y2 {
      YearsGrow(y1 + 1, y2);
      MonthsGrow(y1, m1 + 1, 13);
      assert DaysBeforeYear(y1 + 1) == DaysBeforeYear(y1) + YearDays(y1);
      YearSum(y1);
    } else if m1 < m2 {
      MonthsGrow(y1, m1 + 1, m2);
    }
  }

  lemma {:induction false} YearsGrow(a: nat, b: nat)
    requires 1 <= a <= b
    ensures DaysBeforeYear(a) <= DaysBeforeYear(b)
    decreases b
  {
    if a == b {
    } else {
      YearsGrow(a, b - 1);
    }
  }

  lemma {:induction false} MonthsGrow(year: int, a: nat, b: nat)
    requires 1 <= a <= b
    ensures DaysBeforeMonth(year, a) <= DaysBeforeMonth(year, b)
    decreases b
  {
    if a == b {
    } else {
      MonthsGrow(year, a, b - 1);
    }
  }

  lemma YearSum(year: int)
    ensures DaysBeforeMonth(year, 13) == YearDays(year)
  {
    MonthsAre(year, 12);
    assert DaysBeforeMonth(year, 13) == DaysBeforeMonth(year, 12) + 31;
  }

  /** Joining and splitting gives back the fields of a valid date exactly when its day is
      in range. */
  lemma SplitJoin(dt: Date)
    requires Fits(dt) && dt.year >= 1 && Valid(dt)
    ensures IsDate(dt.year, dt.month, dt.day) && Join1(dt).sec >= 0
    ensures SameFields(Split1(Join1(dt)), dt) <==> DayNumber(dt.year, dt.month, dt.day) + 306 <= LAST
  {
    hide Split1, Join1, DayNumber, DaysBeforeMonth;
    JoinCounts(dt);
    ClockFits(dt);
    ValidIsDate(dt);
    var t, n := Join1(dt), DayNumber(dt.year, dt.month, dt.day);
    var e := Split1(t);
    assert t.sec / DAY == Word(n) && t.sec % DAY == Clock(dt);
    if n + 306 <= LAST {
      SplitDenotes(t);
      ClockFits(e);
      assert DayNumber(e.year, e.month, e.day) == n;
      OneDate(dt, e);
      OneClock(dt, e);
    } else if SameFields(e, dt) {
      SplitValidInRange(t);
      SplitExact(t);
      assert t.sec / DAY + 306 <= LAST;
      ClockFits(e);
    }
  }

  lemma OneDate(a: Date, b: Date)
    requires a.year >= 1 && b.year >= 1 && IsDate(a.year, a.month, a.day) && IsDate(b.year, b.month, b.day)
    requires DayNumber(a.year, a.month, a.day) == DayNumber(b.year, b.month, b.day)
    ensures a.year == b.year && a.month == b.month && a.day == b.day
  {
    hide DayNumber;
    if a.year < b.year || (a.year == b.year && (a.month < b.month || (a.month == b.month && a.day < b.day))) {
      DayNumberGrows(a.year, a.month, a.day, b.year, b.month, b.day);
    } else if a.year != b.year || a.month != b.month || a.day != b.day {
      DayNumberGrows(b.year, b.month, b.day, a.year, a.month, a.day);
    }
  }

  lemma OneClock(a: Date, b: Date)
    requires a.minute < 60 && a.second < 60 && b.minute < 60 && b.second < 60 && Clock(a) == Clock(b)
    ensures a.hour == b.hour && a.minute == b.minute && a.second == b.second
  {}

  /** `fftime_cmp` */
  function Compare(a: Time, b: Time): int {
    if a.sec == b.sec then
      if a.nsec == b.nsec then 0 else if a.nsec < b.nsec then -1 else 1
    else if a.sec < b.sec then -1
    else 1
  }

  /** The comparison is that of the nanoseconds since the same moment. */
  lemma CompareIs(a: Time, b: Time)
    requires a.nsec < 1_000_000_000 && b.nsec < 1_000_000_000
    ensures var m, n := a.sec * 1_000_000_000 + a.nsec, b.sec * 1_000_000_000 + b.nsec;
      Compare(a, b) == if m < n then -1 else if m == n then 0 else 1
  {}

  /** The order of dates, field by field. */
  predicate Earlier(a: Date, b: Date) {
    if a.year != b.year then a.year < b.year
    else if a.month != b.month then a.month < b.month
    else if a.day != b.day then a.day < b.day
    else if a.hour != b.hour then a.hour < b.hour
    else if a.minute != b.minute then a.minute < b.minute
    else if a.second != b.second then a.second < b.second
    else a.nanosecond < b.nanosecond
  }

  predicate EarlierInDay(a: Date, b: Date) {
    Clock(a) < Clock(b) || (Clock(a) == Clock(b) && a.nanosecond < b.nanosecond)
  }

  /** Of two valid dates, the earlier one is joined to the earlier time exactly if the
      32-bit counts of their days are in order; so always if no wrap of the count lies
      between them. */
  lemma JoinMonotone(a: Date, b: Date)
    requires Fits(a) && Fits(b) && a.year >= 1 && b.year >= 1 && Valid(a) && Valid(b) && Earlier(a, b)
    ensures IsDate(a.year, a.month, a.day) && IsDate(b.year, b.month, b.day)
    ensures var m, n := DayNumber(a.year, a.month, a.day), DayNumber(b.year, b.month, b.day);
      && (Compare(Join1(a), Join1(b)) < 0 <==> Word(m) < Word(n) || (Word(m) == Word(n) && EarlierInDay(a, b)))
      && (m / WORD == n / WORD ==> Compare(Join1(a), Join1(b)) < 0)
  {
    hide Join1, DayNumber, HasDay;
    JoinCounts(a);
    JoinCounts(b);
    ClockFits(a);
    ClockFits(b);
    var m, n := DayNumber(a.year, a.month, a.day), DayNumber(b.year, b.month, b.day);
    if a.year != b.year || a.month != b.month || a.day != b.day {
      DayNumberGrows(a.year, a.month, a.day, b.year, b.month, b.day);
    } else {
      SameDay(a, b);
    }
    Wraps(m);
    Wraps(n);
    hide Word;
    TimesCompare(Word(m), Word(n), a, b);
  }

  lemma SameDay(a: Date, b: Date)
    requires Valid(a) && Valid(b) && Earlier(a, b) && a.year == b.year && a.month == b.month && a.day == b.day
    ensures EarlierInDay(a, b)
  {}

  lemma TimesCompare(m: nat, n: nat, a: Date, b: Date)
    requires Clock(a) < DAY && Clock(b) < DAY
    ensures Compare(Time(m * DAY + Clock(a), a.nanosecond), Time(n * DAY + Clock(b), b.nanosecond)) < 0
      <==> m < n || (m == n && EarlierInDay(a, b))
  {
    hide Clock;
  }

  /** In the year 11759222 the count of days wraps, and the order is lost. */
  lemma JoinOrderLost()
    ensures var a, b := Date(11759222, 1, 1, 0, 0, 0, 0, 0, 0), Date(11759223, 1, 1, 0, 0, 0, 0, 0, 0);
      Fits(a) && Fits(b) && Valid(a) && Valid(b) && Earlier(a, b) && Compare(Join1(a), Join1(b)) > 0
  {
    hide Join1, Valid, DayNumber, MarchYears;
    NewYear(11759222);
    NewYear(11759223);
    MarchCounts();
  }

  lemma MarchCounts()
    ensures MarchYears(11759221) == 4294967276 && MarchYears(11759222) == 4294967641
  {}

  lemma NewYear(year: nat)
    requires 1 <= year < WORD / 2
    ensures var dt := Date(year, 1, 1, 0, 0, 0, 0, 0, 0);
      Fits(dt) && Valid(dt) && Join1(dt) == Time(Word(MarchYears(year - 1)) * DAY, 0)
  {
    hide Join1, MarchYears, DaysBeforeYear;
    var dt := Date(year, 1, 1, 0, 0, 0, 0, 0, 0);
    JoinCounts(dt);
    YearsAre(year);
    assert DaysBeforeMonth(year, 1) == 0;
  }
}
