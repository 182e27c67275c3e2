/** Civil dates and day numbers (src/index.rs), on unbounded integers. */
module Calendar {

  datatype Date = Date(year: int, month: int, day: int)

  /** Rust's `/` on signed integers: truncation toward zero. */
  function TruncDiv(a: int, b: int): int
    requires b > 0
  {
    if a >= 0 then a / b else -((-a) / b)
  }

  /** Days before year `n` of an era, counted from the first of March. */
  function YearStart(n: int): int {
    365 * n + n / 4 - n / 100
  }

  /** The March-based year of an era that holds its day `doe`. */
  function YearOfEra(doe: int): int {
    (doe - doe / 1460 + doe / 36_524 - doe / 146_096) / 365
  }

  /** Days before month `mp`, where 0 is March. */
  function MonthStart(mp: int): int {
    (153 * mp + 2) / 5
  }

  /** The March-based month that holds day `doy` of the year. */
  function MonthOfDay(doy: int): int {
    (5 * doy + 2) / 153
  }

  /** March-based month 0..11 to calendar month 1..12. */
  function CivilMonth(mp: int): int {
    if mp < 10 then mp + 3 else mp - 9
  }

  function CivilFromDays(days: int): Date {
    var z := days + 719_468;
    var era := TruncDiv(if z >= 0 then z else z - 146_096, 146_097);
    var doe := z - era * 146_097;
    var yoe := YearOfEra(doe);
    var y := yoe + era * 400;
    var doy := doe - YearStart(yoe);
    var mp := MonthOfDay(doy);
    var d := doy - MonthStart(mp) + 1;
    var m := CivilMonth(mp);
    Date(if m <= 2 then y + 1 else y, m, d)
  }

  function DaysFromCivil(date: Date): int {
    var y := if date.month <= 2 then date.year - 1 else date.year;
    var era := TruncDiv(if y >= 0 then y else y - 399, 400);
    var yoe := y - era * 400;
    var mp := (date.month + 9) % 12;
    var doy := MonthStart(mp) + date.day - 1;
    var doe := YearStart(yoe) + doy;
    era * 146_097 + doe - 719_468
  }

  // ---- the proleptic Gregorian calendar, written down independently -------

  predicate IsLeap(y: int) {
    y % 4 == 0 && (y % 100 != 0 || y % 400 == 0)
  }

  function DaysInMonth(y: int, m: int): (d: int)
    ensures 28 <= d <= 31
  {
    if m == 2 then (if IsLeap(y) then 29 else 28)
    else if m == 4 || m == 6 || m == 9 || m == 11 then 30
    else 31
  }

  predicate ValidDate(date: Date) {
    1 <= date.month <= 12 && 1 <= date.day <= DaysInMonth(date.year, date.month)
  }

  /** The day after. */
  function NextDay(date: Date): (r: Date)
    requires ValidDate(date)
    ensures ValidDate(r)
  {
    if date.day < DaysInMonth(date.year, date.month) then date.(day := date.day + 1)
    else if date.month < 12 then Date(date.year, date.month + 1, 1)
    else Date(date.year + 1, 1, 1)
  }

  predicate Before(a: Date, b: Date) {
    || a.year < b.year
    || (a.year == b.year && a.month < b.month)
    || (a.year == b.year && a.month == b.month && a.day < b.day)
  }

  // ---- arithmetic of one 400-year era ------------------------------------

  /** The adjustment for negative operands makes truncation round down. */
  lemma TruncIsFloor(a: int, b: int)
    requires b == 400 || b == 146_097
    ensures TruncDiv(if a >= 0 then a else a - (b - 1), b) == a / b
  {
    if b == 400 {
      assert a < 0 ==> (399 - a) / 400 == -(a / 400);
    } else {
      assert a < 0 ==> (146_096 - a) / 146_097 == -(a / 146_097);
    }
  }

  /** March-based year `n` is 366 days long when it ends in a leap February. */
  function YearLength(n: int): int {
    if IsLeap(n + 1) then 366 else 365
  }

  /** The day-to-year formula inverts the year starts: the year found is the
      one whose days contain `doe`. */
  lemma YearOfEraCorrect(n: int, doy: int)
    requires 0 <= n < 400 && 0 <= doy < YearLength(n)
    ensures YearOfEra(YearStart(n) + doy) == n
  {
    var c, q, k := n / 100, n % 100 / 4, n % 4;
    CenturyAndCycle(n, c, q, k);
    LongYears(n, c, q, k);
    hide YearStart, YearLength, IsLeap;
    var w, e := 1461 * q + 365 * k + doy, 24 * c + q + 365 * k + doy;
    var doe := 36_524 * c + w;
    assert YearStart(n) + doy == doe == 36_500 * c + 1460 * q + e;
    CenturyTerms(c, w);
    FourYearTerm(c, q, e);
    CycleCarry(c, q, k, doy);
    assert doe - doe / 1460 + doe / 36_524 - doe / 146_096 == 365 * n + (doy - e / 1460);
  }

  lemma CenturyAndCycle(n: int, c: int, q: int, k: int)
    requires 0 <= n < 400 && c == n / 100 && q == n % 100 / 4 && k == n % 4
    ensures 0 <= c <= 3 && 0 <= q <= 24 && 0 <= k <= 3 && n == 100 * c + 4 * q + k
    ensures YearStart(n) == 36_524 * c + 1461 * q + 365 * k
  {
    assert n % 100 % 4 == n % 4;
    assert n / 4 == 25 * c + q;
  }

  lemma LongYears(n: int, c: int, q: int, k: int)
    requires n == 100 * c + 4 * q + k && 0 <= c <= 3 && 0 <= q <= 24 && 0 <= k <= 3
    ensures YearLength(n) == if k == 3 && (q < 24 || c == 3) then 366 else 365
  {
    assert (n + 1) % 4 == 0 <==> k == 3;
    assert k == 3 ==> ((n + 1) % 100 == 0 <==> q == 24);
    assert k == 3 && q == 24 ==> ((n + 1) % 400 == 0 <==> c == 3);
  }

  /** The day that the four-year term is off by never leaves the year. */
  lemma CycleCarry(c: int, q: int, k: int, doy: int)
    requires 0 <= c <= 3 && 0 <= q <= 24 && 0 <= k <= 3 && 0 <= doy <= 365 && (doy == 365 ==> k == 3)
    ensures 0 <= doy - (24 * c + q + 365 * k + doy) / 1460 < 365
  {
  }

  lemma CenturyTerms(c: int, w: int)
    requires 0 <= c <= 3 && 0 <= w <= 36_524 && (w == 36_524 ==> c == 3)
    ensures (36_524 * c + w) / 36_524 - (36_524 * c + w) / 146_096 == c
  {
  }

  lemma FourYearTerm(c: int, q: int, e: int)
    ensures (36_500 * c + 1460 * q + e) / 1460 == 25 * c + q + e / 1460
  {
    assert 36_500 * c == 1460 * (25 * c);
  }

  /** Consecutive year starts are one March-based year apart, save for the
      last year of an era, which the start formula ends a day early. */
  lemma YearStartNext(n: int)
    requires 0 <= n < 400
    ensures YearStart(n + 1) - YearStart(n) == YearLength(n) - (if n == 399 then 1 else 0)
  {
    assert (n + 1) / 4 == n / 4 + (if (n + 1) % 4 == 0 then 1 else 0);
    assert (n + 1) / 100 == n / 100 + (if (n + 1) % 100 == 0 then 1 else 0);
    assert (n + 1) % 400 == 0 <==> n == 399;
    assert (n + 1) % 100 == 0 ==> (n + 1) % 4 == 0;
  }

  /** Every day of an era lies in the year the formula finds. */
  lemma {:induction false} YearOfEraBounds(doe: int) returns (n: int, doy: int)
    requires 0 <= doe < 146_097
    ensures 0 <= n < 400 && 0 <= doy < YearLength(n) && doe == YearStart(n) + doy
  {
    n := 399;
    while doe < YearStart(n)
      invariant 0 <= n <= 399
      invariant n == 399 || doe < YearStart(n + 1)
      decreases n
    {
      n := n - 1;
    }
    doy := doe - YearStart(n);
    YearStartNext(n);
  }

  // ---- months of a March-based year --------------------------------------

  lemma MonthTable(mp: int)
    requires 0 <= mp < 12
    ensures MonthStart(mp) ==
      [0, 31, 61, 92, 122, 153, 184, 214, 245, 275, 306, 337][mp]
  {
  }

  /** The month formula finds the month whose days contain `doy`. */
  lemma MonthOfDayCorrect(mp: int, day: int, length: int)
    requires 0 <= mp < 12 && 1 <= day <= length
    requires length == if mp == 11 then 29 else MonthStart(mp + 1) - MonthStart(mp)
    ensures MonthOfDay(MonthStart(mp) + day - 1) == mp
    ensures 0 <= MonthStart(mp) + day - 1 <= 365
  {
    MonthTable(mp);
    if mp < 11 {
      MonthTable(mp + 1);
    }
  }

  lemma MonthOfDayBounds(doy: int) returns (mp: int, day: int)
    requires 0 <= doy <= 365
    ensures 0 <= mp < 12 && doy == MonthStart(mp) + day - 1
    ensures 1 <= day <= if mp == 11 then 29 else MonthStart(mp + 1) - MonthStart(mp)
    ensures mp == 11 ==> day == doy - 336
  {
    mp := 11;
    MonthTable(11);
    while doy < MonthStart(mp)
      invariant 0 <= mp <= 11
      invariant mp < 11 ==> doy < MonthStart(mp + 1)
      decreases mp
    {
      mp := mp - 1;
      MonthTable(mp);
    }
    day := doy - MonthStart(mp) + 1;
    MonthTable(mp);
  }

  lemma MonthLengths(y: int, mp: int)
    requires 0 <= mp < 11
    ensures DaysInMonth(y, CivilMonth(mp)) == MonthStart(mp + 1) - MonthStart(mp)
  {
    MonthTable(mp);
    MonthTable(mp + 1);
  }

  // ---- eras put together -------------------------------------------------

  /** The date of day `doy` of March-based year `n` of era `era`. */
  function Assemble(era: int, n: int, mp: int, day: int): Date {
    var y := n + era * 400;
    Date(if CivilMonth(mp) <= 2 then y + 1 else y, CivilMonth(mp), day)
  }

  lemma LeapRepeats(era: int, n: int)
    ensures IsLeap(n + era * 400) == IsLeap(n)
  {
    ModuliRepeat(n, era, n + era * 400);
  }

  lemma ModuliRepeat(n: int, era: int, y: int)
    requires y == n + 400 * era
    ensures y % 4 == n % 4 && y % 100 == n % 100 && y % 400 == n % 400
  {
    assert y / 400 == n / 400 + era;
    assert y / 100 == n / 100 + 4 * era;
    assert y / 4 == n / 4 + 100 * era;
  }

  /** Era, year, month and day as the two conversions both see them. */
  ghost predicate Parts(era: int, n: int, mp: int, day: int) {
    && 0 <= n < 400 && 0 <= mp < 12
    && 1 <= day <= (if mp == 11 then (if IsLeap(n + 1) then 29 else 28) else MonthStart(mp + 1) - MonthStart(mp))
  }

  function DayNumber(era: int, n: int, mp: int, day: int): int {
    era * 146_097 + YearStart(n) + MonthStart(mp) + day - 1 - 719_468
  }

  lemma PartsDay(era: int, n: int, mp: int, day: int)
    requires Parts(era, n, mp, day)
    ensures 0 <= MonthStart(mp) + day - 1 < YearLength(n)
    ensures 0 <= YearStart(n) + MonthStart(mp) + day - 1 < 146_097
  {
    MonthTable(mp);
    if mp < 11 {
      MonthTable(mp + 1);
    }
    assert YearStart(n) <= YearStart(399) == 145_731;
  }

  lemma CivilOfParts(era: int, n: int, mp: int, day: int)
    requires Parts(era, n, mp, day)
    ensures CivilFromDays(DayNumber(era, n, mp, day)) == Assemble(era, n, mp, day)
  {
    hide YearOfEra, YearStart, MonthOfDay, MonthStart, TruncDiv, IsLeap;
    var z := DayNumber(era, n, mp, day) + 719_468;
    var doy := MonthStart(mp) + day - 1;
    PartsDay(era, n, mp, day);
    var doe := YearStart(n) + doy;
    assert z == era * 146_097 + doe && z / 146_097 == era;
    TruncIsFloor(z, 146_097);
    YearOfEraCorrect(n, doy);
    MonthOfDayCorrect(mp, day, if mp == 11 then 29 else MonthStart(mp + 1) - MonthStart(mp));
  }

  lemma DaysOfParts(era: int, n: int, mp: int, day: int)
    requires Parts(era, n, mp, day)
    ensures DaysFromCivil(Assemble(era, n, mp, day)) == DayNumber(era, n, mp, day)
  {
    var y := n + era * 400;
    assert y / 400 == era;
    TruncIsFloor(y, 400);
    assert (CivilMonth(mp) + 9) % 12 == mp;
  }

  lemma ValidOfParts(era: int, n: int, mp: int, day: int)
    requires Parts(era, n, mp, day)
    ensures ValidDate(Assemble(era, n, mp, day))
  {
    if mp < 11 {
      MonthLengths(Assemble(era, n, mp, day).year, mp);
    } else {
      LeapRepeats(era, n + 1);
    }
  }

  lemma DayHasParts(days: int) returns (era: int, n: int, mp: int, day: int)
    ensures Parts(era, n, mp, day) && days == DayNumber(era, n, mp, day)
  {
    var z := days + 719_468;
    era := z / 146_097;
    var doy;
    n, doy := YearOfEraBounds(z - era * 146_097);
    mp, day := MonthOfDayBounds(doy);
  }

  lemma DateHasParts(date: Date) returns (era: int, n: int, mp: int, day: int)
    requires ValidDate(date)
    ensures Parts(era, n, mp, day) && date == Assemble(era, n, mp, day)
  {
    var y := if date.month <= 2 then date.year - 1 else date.year;
    era, n, mp, day := y / 400, y % 400, (date.month + 9) % 12, date.day;
    assert CivilMonth(mp) == date.month;
    if mp < 11 {
      MonthLengths(date.year, mp);
    } else {
      assert date.year == n + 1 + era * 400;
      LeapRepeats(era, n + 1);
    }
  }

  // ---- the theorems ------------------------------------------------------

  /** Every day number is a real date, and converts back to itself. */
  lemma DaysRoundTrip(days: int)
    ensures ValidDate(CivilFromDays(days)) && DaysFromCivil(CivilFromDays(days)) == days
  {
    var era, n, mp, day := DayHasParts(days);
    CivilOfParts(era, n, mp, day);
    DaysOfParts(era, n, mp, day);
    ValidOfParts(era, n, mp, day);
  }

  /** Every real date converts to a day number and back to itself. */
  lemma CivilRoundTrip(date: Date)
    requires ValidDate(date)
    ensures CivilFromDays(DaysFromCivil(date)) == date
  {
    var era, n, mp, day := DateHasParts(date);
    CivilOfParts(era, n, mp, day);
    DaysOfParts(era, n, mp, day);
  }

  /** Day numbers advance by one from each date to the next, across month,
      year, leap-day and era ends. */
  lemma DaysOfNextDay(date: Date)
    requires ValidDate(date)
    ensures DaysFromCivil(NextDay(date)) == DaysFromCivil(date) + 1
  {
    hide YearOfEra, YearStart, MonthOfDay, MonthStart, TruncDiv, IsLeap, DaysFromCivil;
    var era, n, mp, day := DateHasParts(date);
    DaysOfParts(era, n, mp, day);
    if date.day < DaysInMonth(date.year, date.month) {
      assert NextDay(date) == Assemble(era, n, mp, day + 1);
      DaysOfParts(era, n, mp, day + 1) by { NextInMonth(date, era, n, mp, day); }
    } else if mp < 11 {
      MonthLengths(date.year, mp);
      DaysOfParts(era, n, mp + 1, 1) by { MonthNotEmpty(n, mp + 1); }
      assert NextDay(date) == Assemble(era, n, mp + 1, 1);
    } else {
      LeapRepeats(era, n + 1);
      FirstOfMarch(era, n, day);
    }
  }

  /** The day after the end of February opens the next March-based year, or
      the next era after year 399. */
  lemma FirstOfMarch(era: int, n: int, day: int)
    requires Parts(era, n, 11, day) && day == if IsLeap(n + 1) then 29 else 28
    ensures DaysFromCivil(Date(n + 1 + era * 400, 3, 1)) == DayNumber(era, n, 11, day) + 1
  {
    EraEnds();
    hide YearOfEra, YearStart, MonthOfDay, MonthStart, TruncDiv, IsLeap, DaysFromCivil;
    MonthTable(11);
    YearStartNext(n);
    var era', n' := if n == 399 then era + 1 else era, if n == 399 then 0 else n + 1;
    DaysOfParts(era', n', 0, 1) by { MonthNotEmpty(n', 0); }
    assert Assemble(era', n', 0, 1) == Date(n + 1 + era * 400, 3, 1);
  }

  lemma EraEnds()
    ensures YearStart(0) == MonthStart(0) == 0 && YearStart(400) == 146_096
  {
  }

  lemma MonthNotEmpty(n: int, mp: int)
    requires 0 <= n < 400 && 0 <= mp < 12
    ensures Parts(0, n, mp, 1)
  {
    MonthTable(mp);
    if mp < 11 {
      MonthTable(mp + 1);
    }
  }

  lemma NextInMonth(date: Date, era: int, n: int, mp: int, day: int)
    requires ValidDate(date) && Parts(era, n, mp, day) && date == Assemble(era, n, mp, day)
    requires day < DaysInMonth(date.year, date.month)
    ensures Parts(era, n, mp, day + 1)
  {
    if mp < 11 {
      MonthLengths(date.year, mp);
    } else {
      LeapRepeats(era, n + 1);
    }
  }

  lemma Epoch()
    ensures CivilFromDays(0) == Date(1970, 1, 1)
  {
  }

  /** Day 0 is 1 January 1970 and every further day is the next date: with
      the round trips this fixes the numbering completely. */
  lemma CivilIsTheCalendar(days: int)
    ensures CivilFromDays(0) == Date(1970, 1, 1)
    ensures ValidDate(CivilFromDays(days)) && CivilFromDays(days + 1) == NextDay(CivilFromDays(days))
  {
    hide CivilFromDays, DaysFromCivil, ValidDate, NextDay;
    Epoch();
    DaysRoundTrip(days);
    DaysOfNextDay(CivilFromDays(days));
    CivilRoundTrip(NextDay(CivilFromDays(days)));
  }

  /** Later days are later dates. */
  lemma {:induction false} CivilIsMonotone(a: int, b: int)
    requires a < b
    ensures Before(CivilFromDays(a), CivilFromDays(b))
    decreases b - a
  {
    hide CivilFromDays;
    CivilIsTheCalendar(b - 1);
    if a < b - 1 {
      CivilIsMonotone(a, b - 1);
    }
  }
}
