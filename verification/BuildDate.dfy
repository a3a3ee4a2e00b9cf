/**
  The build script's conversion of an epoch to an RFC 3339 timestamp.  The chain of integer
  divisions is related to the calendar itself: leap years, month lengths and the day after.
  */
module BuildDate {
  import opened StringOrder
  import opened DecimalText

  // ------------------------------------------------------------------------------
  // The proleptic Gregorian calendar
  // ------------------------------------------------------------------------------

  datatype Date = Date(year: int, month: int, day: int)

  predicate Leap(year: int) {
    year % 4 == 0 && (year % 100 != 0 || year % 400 == 0)
  }

  function DaysIn(year: int, month: int): int {
    if month == 2 then (if Leap(year) then 29 else 28)
    else if month == 4 || month == 6 || month == 9 || month == 11 then 30
    else 31
  }

  predicate ValidDate(t: Date) {
    1 <= t.month <= 12 && 1 <= t.day <= DaysIn(t.year, t.month)
  }

  function NextDay(t: Date): Date {
    if t.day < DaysIn(t.year, t.month) then Date(t.year, t.month, t.day + 1)
    else if t.month < 12 then Date(t.year, t.month + 1, 1)
    else Date(t.year + 1, 1, 1)
  }

  const EPOCH: Date := Date(1970, 1, 1)

  /** Counting from the epoch one day at a time. */
  function DaysAfterEpoch(days: nat): Date {
    if days == 0 then EPOCH else NextDay(DaysAfterEpoch(days - 1))
  }

  // ------------------------------------------------------------------------------
  // The conversion
  // ------------------------------------------------------------------------------

  /** The year of an era of 400 years, counted from March, in which a day of the era lies. */
  function YearOfEra(doe: nat): nat
    requires doe < 146097
  {
    (doe - doe / 1460 + doe / 36524 - doe / 146096) / 365
  }

  /** Days of an era before one of its years. */
  function YearStart(yoe: int): int {
    365 * yoe + yoe / 4 - yoe / 100
  }

  /** Days of a year, counted from March, before one of its months. */
  function MonthStart(mp: int): int {
    (153 * mp + 2) / 5
  }

  function Civil(days: nat): Date {
    var z := days + 719468;
    var era := z / 146097;
    var doe := z % 146097;
    var yoe := YearOfEra(doe);
    var y := yoe + era * 400;
    var doy := doe - YearStart(yoe);
    var mp := (5 * doy + 2) / 153;
    var d := doy - MonthStart(mp) + 1;
    var mo := if mp < 10 then mp + 3 else mp - 9;
    Date(if mo <= 2 then y + 1 else y, mo, d)
  }

  /** The inverse: the day number of a date from March of year 0 on. */
  function DayNumber(t: Date): int
    requires ValidDate(t) && t.year >= 1
  {
    var y := if t.month <= 2 then t.year - 1 else t.year;
    var yoe := y % 400;
    var mp := if t.month > 2 then t.month - 3 else t.month + 9;
    y / 400 * 146097 + YearStart(yoe) + MonthStart(mp) + t.day - 1 - 719468
  }

  lemma YearStartsBefore(doe: nat)
    requires doe < 146097
    ensures YearOfEra(doe) <= 399 && YearStart(YearOfEra(doe)) <= doe
  {
    var a, b, y := doe / 1460, doe / 36524, YearOfEra(doe);
    if doe < 146096 {
      assert 365 * y <= doe - a + b;
      if b == 0 {
        assert y <= 99 && y / 4 <= a;
      } else if b == 1 {
        assert 100 <= y <= 199 && y / 4 - 1 <= a - b;
      } else if b == 2 {
        assert 200 <= y <= 299 && y / 4 - 2 <= a - b;
      } else {
        assert 300 <= y <= 399 && y / 4 - 3 <= a - b;
      }
    }
  }

  /** The last year of an era is a leap year, one day longer than `YearStart` says. */
  function YearEnd(yoe: int): int {
    if yoe == 399 then 146097 else YearStart(yoe + 1)
  }

  lemma YearEndsAfter(doe: nat)
    requires doe < 146097
    ensures doe < YearStart(YearOfEra(doe) + 1) || (doe == 146096 && YearOfEra(doe) == 399)
  {
    var a, b, y := doe / 1460, doe / 36524, YearOfEra(doe);
    if doe < 146096 {
      assert doe - a + b < 365 * (y + 1);
      assert 4 * a <= y + 1;
      CenturyOfYear(doe);
      if y == 100 * b + 99 {
        assert YearStart(y + 1) == 36524 * (b + 1);
      } else {
        assert (y + 1) / 100 == b;
      }
    }
  }

  lemma CenturyOfYear(doe: nat)
    requires doe < 146096
    ensures 100 * (doe / 36524) <= YearOfEra(doe) <= 100 * (doe / 36524) + 99
  {
    var a, b, y := doe / 1460, doe / 36524, YearOfEra(doe);
    assert 365 * y <= doe - a + b < 365 * (y + 1);
    assert 0 <= b <= 3;
  }

  lemma YearIsUnique(doe: nat, yoe: nat)
    requires doe < 146097 && yoe <= 399 && YearStart(yoe) <= doe < YearEnd(yoe)
    ensures YearOfEra(doe) == yoe
  {
    YearStartsBefore(doe);
    YearEndsAfter(doe);
    YearStartIncreases(YearOfEra(doe) + 1, yoe);
    YearStartIncreases(yoe + 1, YearOfEra(doe));
  }

  lemma YearStartIncreases(a: nat, b: nat)
    ensures a <= b ==> YearStart(a) <= YearStart(b)
  {}

  /** Month `mp`, counted from March, of a year of `length` days. */
  function MonthEnd(mp: int, length: int): int {
    if mp == 11 then length else MonthStart(mp + 1)
  }

  lemma MonthOfDay(doy: nat)
    requires doy < 366
    ensures var mp := (5 * doy + 2) / 153; mp < 12 && MonthStart(mp) <= doy < MonthStart(mp + 1)
  {}

  lemma LeapRepeats(y: nat)
    ensures Leap(y + 1) == Leap(y % 400 + 1)
  {
    var q := y / 400;
    assert y == 400 * q + y % 400;
    assert (y + 1) % 4 == (y % 400 + 1) % 4;
    assert (y + 1) % 100 == (y % 400 + 1) % 100;
    assert (y + 1) % 400 == (y % 400 + 1) % 400;
  }

  lemma YearLengthInEra(r: nat)
    requires r < 400
    ensures YearEnd(r) - YearStart(r) == if Leap(r + 1) then 366 else 365
  {
    assert (r + 1) / 4 == r / 4 + (if (r + 1) % 4 == 0 then 1 else 0);
    assert (r + 1) / 100 == r / 100 + (if (r + 1) % 100 == 0 then 1 else 0);
    assert (r + 1) % 400 == 0 <==> r == 399;
    assert (r + 1) % 100 == 0 ==> (r + 1) % 4 == 0;
  }

  /** A year counted from March of `y` has the February of `y + 1`. */
  lemma YearLength(y: nat)
    ensures YearEnd(y % 400) - YearStart(y % 400) == if Leap(y + 1) then 366 else 365
  {
    LeapRepeats(y);
    YearLengthInEra(y % 400);
  }

  lemma MonthLengths(mp: nat, year: int)
    requires mp < 12
    ensures var length := if Leap(year) then 366 else 365;
            MonthEnd(mp, length) - MonthStart(mp) == DaysIn(year, if mp < 10 then mp + 3 else mp - 9)
  {}

  /** The parts of a day number: era, year of era, month from March, day of month. */
  lemma Parts(days: nat) returns (era: nat, yoe: nat, mp: nat, d: nat)
    ensures yoe <= 399 && mp < 12 && 1 <= d
    ensures days + 719468 == era * 146097 + YearStart(yoe) + MonthStart(mp) + d - 1
    ensures MonthStart(mp) + d - 1 < YearEnd(yoe) - YearStart(yoe)
    ensures MonthStart(mp) + d - 1 < MonthStart(mp + 1)
    ensures Civil(days) == DateOfParts(era, yoe, mp, d)
  {
    var z := days + 719468;
    era := z / 146097;
    var doe := z % 146097;
    YearStartsBefore(doe);
    YearEndsAfter(doe);
    yoe := YearOfEra(doe);
    var doy := doe - YearStart(yoe);
    assert doy < 366;
    MonthOfDay(doy);
    mp := (5 * doy + 2) / 153;
    d := doy - MonthStart(mp) + 1;
  }

  lemma EraOfYear(yoe: nat, era: nat)
    requires yoe < 400
    ensures (yoe + era * 400) % 400 == yoe && (yoe + era * 400) / 400 == era
  {}

  /** Every day has a valid date, and the date gives the day back. */
  lemma CivilIsValidAndInverse(days: nat)
    ensures ValidDate(Civil(days)) && Civil(days).year >= 1970
    ensures DayNumber(Civil(days)) == days
  {
    var era, yoe, mp, d := Parts(days);
    EraOfYear(yoe, era);
    YearLength(yoe + era * 400);
    PartsAreValid(days, era, yoe, mp, d);
    PartsGiveDay(days, era, yoe, mp, d);
  }

  lemma PartsAreValid(days: nat, era: nat, yoe: nat, mp: nat, d: nat)
    requires yoe <= 399 && mp < 12 && 1 <= d && MonthStart(mp) + d - 1 < MonthStart(mp + 1)
    requires days + 719468 == era * 146097 + YearStart(yoe) + MonthStart(mp) + d - 1
    requires MonthStart(mp) + d - 1 < if Leap(yoe + era * 400 + 1) then 366 else 365
    requires Civil(days) == DateOfParts(era, yoe, mp, d)
    ensures ValidDate(Civil(days)) && Civil(days).year >= 1970
  {
    var y := yoe + era * 400;
    MonthLengths(mp, y + 1);
    NotBeforeEpoch(days, era, yoe, mp, d);
  }

  lemma NotBeforeEpoch(days: nat, era: nat, yoe: nat, mp: nat, d: nat)
    requires yoe <= 399 && mp < 12 && 1 <= d && MonthStart(mp) + d - 1 < MonthStart(mp + 1)
    requires days + 719468 == era * 146097 + YearStart(yoe) + MonthStart(mp) + d - 1
    ensures var y := yoe + era * 400; y >= 1969 && (y == 1969 ==> mp >= 10)
  {
    YearStartIncreases(yoe, 369);
    assert YearStart(369) == 134774 && YearStart(399) == 145731;
    YearStartIncreases(yoe, 399);
    assert MonthStart(mp + 1) <= 367;
  }

  function DateOfParts(era: nat, yoe: nat, mp: nat, d: nat): Date {
    var y := yoe + era * 400;
    Date(if mp < 10 then y else y + 1, if mp < 10 then mp + 3 else mp - 9, d)
  }

  lemma PartsGiveDay(days: nat, era: nat, yoe: nat, mp: nat, d: nat)
    requires yoe <= 399 && mp < 12
    requires days + 719468 == era * 146097 + YearStart(yoe) + MonthStart(mp) + d - 1
    requires Civil(days) == DateOfParts(era, yoe, mp, d) && ValidDate(Civil(days)) && Civil(days).year >= 1
    ensures DayNumber(Civil(days)) == days
  {
    EraOfYear(yoe, era);
  }

  lemma MonthIsUnique(doy: nat, mp: nat)
    requires doy < 366 && mp < 12 && MonthStart(mp) <= doy < MonthStart(mp + 1)
    ensures (5 * doy + 2) / 153 == mp
  {}

  lemma CivilFromParts(days: nat, era: nat, yoe: nat, mp: nat, d: nat)
    requires yoe <= 399 && mp < 12 && 1 <= d
    requires days + 719468 == era * 146097 + YearStart(yoe) + MonthStart(mp) + d - 1
    requires MonthStart(mp) + d - 1 < YearEnd(yoe) - YearStart(yoe)
    requires MonthStart(mp) + d - 1 < MonthStart(mp + 1)
    ensures Civil(days) == DateOfParts(era, yoe, mp, d)
  {
    var doy := MonthStart(mp) + d - 1;
    var doe := YearStart(yoe) + doy;
    assert 0 <= doe < 146097 by {
      YearStartIncreases(0, yoe);
      YearStartIncreases(yoe + 1, 399);
    }
    assert (days + 719468) / 146097 == era && (days + 719468) % 146097 == doe;
    YearIsUnique(doe, yoe);
    YearLength(yoe);
    MonthIsUnique(doy, mp);
  }

  /** Every valid date from the epoch on is the date of its day number. */
  lemma CivilOfDayNumber(t: Date)
    requires ValidDate(t) && t.year >= 1 && DayNumber(t) >= 0
    ensures Civil(DayNumber(t)) == t
  {
    var y := if t.month <= 2 then t.year - 1 else t.year;
    var mp := if t.month > 2 then t.month - 3 else t.month + 9;
    YearLength(y);
    MonthLengths(mp, y + 1);
    CivilFromParts(DayNumber(t), y / 400, y % 400, mp, t.day);
  }

  lemma DayNumberOfNextDay(t: Date)
    requires ValidDate(t) && t.year >= 1
    ensures ValidDate(NextDay(t)) && DayNumber(NextDay(t)) == DayNumber(t) + 1
  {
    var y := if t.month <= 2 then t.year - 1 else t.year;
    var mp := if t.month > 2 then t.month - 3 else t.month + 9;
    YearLength(y);
    MonthLengths(mp, y + 1);
    if t.day == DaysIn(t.year, t.month) && mp == 11 {
      NextYear(y);
      assert NextDay(t) == Date(t.year, 3, 1);
    }
  }

  lemma NextYear(y: nat)
    ensures (y + 1) / 400 * 146097 + YearStart((y + 1) % 400) == y / 400 * 146097 + YearEnd(y % 400)
  {
    assert (y + 1) / 400 == if y % 400 == 399 then y / 400 + 1 else y / 400;
    assert (y + 1) % 400 == if y % 400 == 399 then 0 else y % 400 + 1;
  }

  lemma CivilAfter(t: Date, days: nat)
    requires ValidDate(t) && t.year >= 1 && DayNumber(t) == days
    ensures Civil(days + 1) == NextDay(t)
  {
    DayNumberOfNextDay(t);
    CivilOfDayNumber(NextDay(t));
  }

  /** Day 0 is 1970-01-01, and each day is followed by its Gregorian successor. */
  lemma CivilSteps(days: nat)
    ensures Civil(0) == EPOCH
    ensures Civil(days + 1) == NextDay(Civil(days))
  {
    assert Civil(0) == EPOCH by {
      assert DayNumber(EPOCH) == 0;
      CivilOfDayNumber(EPOCH);
    }
    CivilIsValidAndInverse(days);
    CivilAfter(Civil(days), days);
  }

  /** The divisions compute what counting days does. */
  lemma {:induction false} CivilCountsDays(days: nat)
    ensures Civil(days) == DaysAfterEpoch(days)
  {
    if days == 0 {
      CivilSteps(0);
    } else {
      CivilCountsDays(days - 1);
      CivilSteps(days - 1);
    }
  }

  // ------------------------------------------------------------------------------
  // The timestamp
  // ------------------------------------------------------------------------------

  function Clock(rem: nat): string {
    Padded(rem / 3600, 2) + (":" + (Padded(rem % 3600 / 60, 2) + (":" + (Padded(rem % 60, 2) + "Z"))))
  }

  function Calendar(t: Date, rest: string): string
    requires t.year >= 0 && t.month >= 0 && t.day >= 0
  {
    Padded(t.year, 4) + ("-" + (Padded(t.month, 2) + ("-" + (Padded(t.day, 2) + ("T" + rest)))))
  }

  function Timestamp(epoch: nat): string {
    CivilIsValidAndInverse(epoch / 86400);
    Calendar(Civil(epoch / 86400), Clock(epoch % 86400))
  }

  /** A padded field followed by more orders by the field first. */
  lemma FieldOrder(m: nat, n: nat, w: nat, a: string, b: string)
    requires m < Power10(w) && n < Power10(w) && w > 0
    ensures Less(Padded(m, w) + a, Padded(n, w) + b) <==> m < n || (m == n && Less(a, b))
  {
    PaddedIsDigits(m, w);
    PaddedIsDigits(n, w);
    DigitsOrder(m, n, w);
    LessOfConcat(Digits(m, w), a, Digits(n, w), b);
  }

  lemma SeparatorOrder(sep: string, a: string, b: string)
    requires |sep| == 1
    ensures Less(sep + a, sep + b) <==> Less(a, b)
  {
  }

  lemma ClockOrder(r: nat, q: nat)
    requires r < 86400 && q < 86400
    ensures Less(Clock(r), Clock(q)) <==> r < q
  {
    var r2, q2 := Padded(r % 60, 2) + "Z", Padded(q % 60, 2) + "Z";
    FieldOrder(r % 60, q % 60, 2, "Z", "Z");
    var r1, q1 := Padded(r % 3600 / 60, 2) + (":" + r2), Padded(q % 3600 / 60, 2) + (":" + q2);
    SeparatorOrder(":", r2, q2);
    FieldOrder(r % 3600 / 60, q % 3600 / 60, 2, ":" + r2, ":" + q2);
    SeparatorOrder(":", r1, q1);
    FieldOrder(r / 3600, q / 3600, 2, ":" + r1, ":" + q1);
    assert Power10(2) == 100;
    assert "Z"[1..] == [];
    ClockParts(r);
    ClockParts(q);
  }

  lemma ClockParts(r: nat)
    ensures r == r / 3600 * 3600 + r % 3600 / 60 * 60 + r % 60
    ensures r % 3600 / 60 < 60 && r % 60 < 60
  {
    var h, m := r / 3600, r % 3600;
    assert r == 3600 * h + m && m < 3600;
    assert m == 60 * (m / 60) + m % 60;
    Remainder60(r, 60 * h + m / 60, m % 60);
  }

  lemma Remainder60(x: nat, q: nat, rest: nat)
    requires x == 60 * q + rest && rest < 60
    ensures x % 60 == rest
  {
  }

  predicate Earlier(t: Date, u: Date) {
    t.year < u.year || (t.year == u.year && (t.month < u.month || (t.month == u.month && t.day < u.day)))
  }

  lemma CalendarOrder(t: Date, u: Date, a: string, b: string)
    requires ValidDate(t) && ValidDate(u) && 0 <= t.year <= 9999 && 0 <= u.year <= 9999
    ensures Less(Calendar(t, a), Calendar(u, b)) <==> Earlier(t, u) || (t == u && Less(a, b))
  {
    assert Power10(2) == 100 && Power10(4) == 10000 by {
      assert Power10(3) == 10 * Power10(2);
    }
    var t2, u2 := Padded(t.day, 2) + ("T" + a), Padded(u.day, 2) + ("T" + b);
    SeparatorOrder("T", a, b);
    FieldOrder(t.day, u.day, 2, "T" + a, "T" + b);
    var t1, u1 := Padded(t.month, 2) + ("-" + t2), Padded(u.month, 2) + ("-" + u2);
    SeparatorOrder("-", t2, u2);
    FieldOrder(t.month, u.month, 2, "-" + t2, "-" + u2);
    SeparatorOrder("-", t1, u1);
    FieldOrder(t.year, u.year, 4, "-" + t1, "-" + u1);
  }

  lemma DatesAreValid(days: nat)
    ensures ValidDate(DaysAfterEpoch(days)) && DaysAfterEpoch(days).year >= 1970
  {
  }

  lemma {:induction false} LaterDaysHaveLaterDates(days: nat, later: nat)
    requires days < later
    ensures Earlier(DaysAfterEpoch(days), DaysAfterEpoch(later))
    decreases later
  {
    DatesAreValid(later - 1);
    if days < later - 1 {
      LaterDaysHaveLaterDates(days, later - 1);
    }
  }

  lemma DatesSort(d: nat, e: nat)
    ensures Earlier(DaysAfterEpoch(d), DaysAfterEpoch(e)) <==> d < e
    ensures DaysAfterEpoch(d) == DaysAfterEpoch(e) <==> d == e
  {
  }

  lemma TimestampCountsDays(epoch: nat)
    ensures var t := DaysAfterEpoch(epoch / 86400);
            t.year >= 0 && t.month >= 0 && t.day >= 0 && Timestamp(epoch) == Calendar(t, Clock(epoch % 86400))
  {
    CivilCountsDays(epoch / 86400);
    DatesAreValid(epoch / 86400);
  }

  /** Up to the year 9999 the timestamps sort like the epochs. */
  lemma TimestampsSort(a: nat, b: nat)
    requires DaysAfterEpoch(a / 86400).year <= 9999 && DaysAfterEpoch(b / 86400).year <= 9999
    ensures Less(Timestamp(a), Timestamp(b)) <==> a < b
  {
    var d, e := a / 86400, b / 86400;
    TimestampCountsDays(a);
    TimestampCountsDays(b);
    DatesAreValid(d);
    DatesAreValid(e);
    CalendarOrder(DaysAfterEpoch(d), DaysAfterEpoch(e), Clock(a % 86400), Clock(b % 86400));
    ClockOrder(a % 86400, b % 86400);
    DatesSort(d, e);
  }

  lemma TurnOfTheMillennium()
    ensures DaysAfterEpoch(2932896) == Date(9999, 12, 31) && DaysAfterEpoch(2932897) == Date(10000, 1, 1)
  {
    assert DayNumber(Date(9999, 12, 31)) == 2932896;
    CivilOfDayNumber(Date(9999, 12, 31));
    CivilCountsDays(2932896);
  }

  /** One second after the last of them the year has five digits, and the order of the strings turns. */
  lemma TimestampsStopSorting()
    ensures Less(Timestamp(253402300800), Timestamp(253402300799))
  {
    TurnOfTheMillennium();
    TurnOfTheStrings(253402300799, 253402300800);
  }

  lemma TurnOfTheStrings(last: nat, next: nat)
    requires DaysAfterEpoch(last / 86400).year == 9999 && DaysAfterEpoch(next / 86400).year == 10000
    ensures Less(Timestamp(next), Timestamp(last))
  {
    YearShown(last, 9999, 9);
    YearShown(next, 10000, 1);
  }

  lemma YearShown(epoch: nat, year: nat, first: nat)
    requires DaysAfterEpoch(epoch / 86400).year == year
    requires (year == 9999 && first == 9) || (year == 10000 && first == 1)
    ensures Timestamp(epoch) != "" && Timestamp(epoch)[0] == Digit(first)
  {
    TimestampCountsDays(epoch);
    StartsWithDigit(year, first);
  }

  lemma StartsWithDigit(year: nat, first: nat)
    requires (year == 9999 && first == 9) || (year == 10000 && first == 1)
    ensures Padded(year, 4) != [] && Padded(year, 4)[0] == Digit(first)
  {
  }

  // ------------------------------------------------------------------------------
  // Reading a timestamp
  // ------------------------------------------------------------------------------

  /** `s` starts with `n`, in at least `w` digits, which `after` follows; `rest` is what remains. */
  ghost predicate Shows(s: string, w: nat, n: nat, after: char, rest: string) {
    && w < |s| && AllDigits(s[..w]) && ValueOf(s[..w]) == n && s[w] == after && s[w + 1..] == rest
  }

  /** `s` is a date and a time of day, the year in `w` digits and every other field in two. */
  ghost predicate Reads(s: string, w: nat, t: Date, hour: nat, minute: nat, second: nat) {
    && t.year >= 0 && t.month >= 0 && t.day >= 0 && |s| == w + 16
    && Shows(s, w, t.year, '-', s[w + 1..])
    && Shows(s[w + 1..], 2, t.month, '-', s[w + 4..])
    && Shows(s[w + 4..], 2, t.day, 'T', s[w + 7..])
    && Shows(s[w + 7..], 2, hour, ':', s[w + 10..])
    && Shows(s[w + 10..], 2, minute, ':', s[w + 13..])
    && Shows(s[w + 13..], 2, second, 'Z', "")
  }

  lemma FieldShows(n: nat, w: nat, after: char, rest: string)
    ensures var p := Padded(n, w); Shows(p + ([after] + rest), |p|, n, after, rest)
  {
    PaddedReadsBack(n, w);
    var p := Padded(n, w);
    var s := p + ([after] + rest);
    assert s[..|p|] == p && s[|p| + 1..] == rest;
  }

  /** A field of `w` digits, when the number has no more of them. */
  lemma FixedFieldShows(n: nat, w: nat, after: char, rest: string)
    requires n < Power10(w) && w > 0
    ensures |Padded(n, w)| == w && Shows(Padded(n, w) + ([after] + rest), w, n, after, rest)
  {
    PaddedIsDigits(n, w);
    FieldShows(n, w, after, rest);
  }

  lemma ClockReads(r: nat)
    requires r < 86400
    ensures var s := Clock(r);
            && |s| == 9 && Shows(s, 2, r / 3600, ':', s[3..]) && Shows(s[3..], 2, r % 3600 / 60, ':', s[6..])
            && Shows(s[6..], 2, r % 60, 'Z', "")
  {
    assert Power10(2) == 100;
    var s2 := Padded(r % 60, 2) + "Z";
    FixedFieldShows(r % 60, 2, 'Z', "");
    assert "Z" == ['Z'] + "";
    var s1 := Padded(r % 3600 / 60, 2) + (":" + s2);
    FixedFieldShows(r % 3600 / 60, 2, ':', s2);
    FixedFieldShows(r / 3600, 2, ':', s1);
    assert Clock(r)[3..] == s1 && s1[3..] == s2;
  }

  lemma CalendarReads(t: Date, rest: string) returns (w: nat)
    requires ValidDate(t) && t.year >= 0
    ensures var s := Calendar(t, rest);
            && w >= 4 && (t.year <= 9999 ==> w == 4) && |s| == w + 7 + |rest| && Shows(s, w, t.year, '-', s[w + 1..])
            && Shows(s[w + 1..], 2, t.month, '-', s[w + 4..]) && Shows(s[w + 4..], 2, t.day, 'T', rest)
  {
    assert Power10(2) == 100 && Power10(4) == 10000 by {
      assert Power10(3) == 10 * Power10(2);
    }
    var s2 := Padded(t.day, 2) + ("T" + rest);
    FixedFieldShows(t.day, 2, 'T', rest);
    var s1 := Padded(t.month, 2) + ("-" + s2);
    FixedFieldShows(t.month, 2, '-', s2);
    FieldShows(t.year, 4, '-', s1);
    w := |Padded(t.year, 4)|;
    PaddedReadsBack(t.year, 4);
    if t.year <= 9999 {
      PaddedIsDigits(t.year, 4);
    }
    var s := Calendar(t, rest);
    assert s[w + 1..] == s1 && s[w + 4..] == s1[3..] == s2;
  }

  /** The text holds the calendar day counted from the epoch and the time of day, so the epoch reads back from it. */
  lemma TimestampReadsBack(epoch: nat) returns (w: nat, hour: nat, minute: nat, second: nat)
    ensures Reads(Timestamp(epoch), w, DaysAfterEpoch(epoch / 86400), hour, minute, second)
    ensures w >= 4 && (DaysAfterEpoch(epoch / 86400).year <= 9999 ==> w == 4)
    ensures hour < 24 && minute < 60 && second < 60
    ensures ValidDate(DaysAfterEpoch(epoch / 86400)) && DaysAfterEpoch(epoch / 86400).year >= 1970
    ensures epoch == DayNumber(DaysAfterEpoch(epoch / 86400)) * 86400 + hour * 3600 + minute * 60 + second
  {
    var r := epoch % 86400;
    TimestampCountsDays(epoch);
    CivilCountsDays(epoch / 86400);
    CivilIsValidAndInverse(epoch / 86400);
    hour, minute, second := r / 3600, r % 3600 / 60, r % 60;
    ClockParts(r);
    ClockReads(r);
    w := CalendarReads(DaysAfterEpoch(epoch / 86400), Clock(r));
    var s := Timestamp(epoch);
    assert s[w + 7..] == Clock(r) && s[w + 10..] == Clock(r)[3..] && s[w + 13..] == Clock(r)[6..];
  }
}
