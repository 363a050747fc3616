/**
 Civil calendar arithmetic: the day count to date conversion and its inverse, against the
 leap-year rule and month lengths of the proleptic Gregorian calendar (section 3.2.1 of
 ISO 8601:2004), and the formatted time built on them.
 */
module Calendar {
  datatype Ymd = Ymd(year: int, month: int, day: int)

  datatype Formatted = Formatted(year: int, month: int, day: int, hour: int, minute: int, second: int)

  const INT_MIN := -0x8000_0000
  const INT_MAX := 0x7FFF_FFFF
  const EPOCH_OFFSET := 719468
  const ERA := 146097

  // ---------- the language's integers ----------

  /** Integer division that truncates toward zero. */
  function Quot(a: int, b: int): int
    requires b > 0
  {
    if a >= 0 then a / b else -((-a) / b)
  }

  function Rem(a: int, b: int): int
    requires b > 0
  {
    a - Quot(a, b) * b
  }

  predicate IsInt(x: int) {
    INT_MIN <= x <= INT_MAX
  }

  /** Conversion to a 32-bit int. */
  function ToInt(x: int): int {
    (x - INT_MIN) % 0x1_0000_0000 + INT_MIN
  }

  // ---------- the calendar itself ----------

  predicate Leap(y: int) {
    y % 4 == 0 && (y % 100 != 0 || y % 400 == 0)
  }

  function DaysIn(y: int, m: int): int {
    if m == 2 then if Leap(y) then 29 else 28
    else if m == 4 || m == 6 || m == 9 || m == 11 then 30
    else 31
  }

  predicate Valid(x: Ymd) {
    1 <= x.month <= 12 && 1 <= x.day <= DaysIn(x.year, x.month)
  }

  /** The next day of the calendar. */
  function Next(x: Ymd): Ymd {
    if x.day < DaysIn(x.year, x.month) then Ymd(x.year, x.month, x.day + 1)
    else if x.month < 12 then Ymd(x.year, x.month + 1, 1)
    else Ymd(x.year + 1, 1, 1)
  }

  // ---------- the two conversions ----------

  /** Years of an era before year y, in days; years begin on 1 March. */
  function YearStart(y: int): int {
    365 * y + y / 4 - y / 100
  }

  function YearOf(doe: int): int {
    (doe - doe / 1460 + doe / 36524 - doe / 146096) / 365
  }

  function MonthStart(mp: int): int {
    (153 * mp + 2) / 5
  }

  /** The number of 400-year eras before day z, rounding down. */
  function EraOf(z: int): int {
    Quot(if z >= 0 then z else z - ERA + 1, ERA)
  }

  /** From the shifted day count on; the subtraction in EraOf must not overflow. */
  function FromShifted(z: int): Ymd {
    var era := EraOf(z);
    var doe := z - era * ERA;
    var yoe := YearOf(doe);
    var doy := doe - YearStart(yoe);
    var mp := (5 * doy + 2) / 153;
    var month := mp + (if mp < 10 then 3 else -9);
    Ymd(yoe + era * 400 + (if month <= 2 then 1 else 0), month, doy - MonthStart(mp) + 1)
  }

  /** No 32-bit operation of the conversion overflows: for a negative z the first one is z - 146097, then + 1. */
  predicate Defined(d: int) {
    var z := ToInt(d + EPOCH_OFFSET);
    z >= 0 || IsInt(z - ERA)
  }

  function DaysToYmd(d: int): Ymd
    requires Defined(d)
  {
    FromShifted(ToInt(d + EPOCH_OFFSET))
  }

  function YmdToDays(x: Ymd): int
    requires Valid(x)
  {
    var year := x.year - (if x.month <= 2 then 1 else 0);
    var era := Quot(if year >= 0 then year else year - 399, 400);
    var yoe := year - era * 400;
    var moy := x.month + (if x.month > 2 then -3 else 9);
    var doy := MonthStart(moy) + (x.day - 1);
    var doe := YearStart(yoe) + doy;
    era * ERA + doe - EPOCH_OFFSET
  }

  // ---------- years and months of an era ----------

  /** A year that begins on 1 March of y has a leap day when y + 1 is a leap year. */
  function YearLength(y: int): int {
    if Leap(y + 1) then 366 else 365
  }

  /** The quotients of the year formula, for the year 100a + 4b + c of an era. */
  lemma YearQuotients(a: int, b: int, c: int, doy: int)
    requires 0 <= a <= 3 && 0 <= b <= 24 && 0 <= c <= 3 &&
             0 <= doy < (if c == 3 && (b < 24 || a == 3) then 366 else 365)
    ensures var doe := 36524 * a + 1461 * b + 365 * c + doy;
            && 0 <= doe < ERA
            && doe / 36524 - doe / 146096 == a
            && doe / 1460 == 25 * a + b + (if 24 * a + b + 365 * c + doy >= 1460 then 1 else 0)
  {}

  lemma YearParts(y: int)
    requires 0 <= y < 400
    ensures var a, b, c := y / 100, y % 100 / 4, y % 4;
            && 0 <= a <= 3 && 0 <= b <= 24 && 0 <= c <= 3 && y == 100 * a + 4 * b + c
            && YearStart(y) == 36524 * a + 1461 * b + 365 * c
            && (Leap(y + 1) <==> c == 3 && (b < 24 || a == 3))
  {}

  /** The year formula inverts YearStart. */
  lemma YearOfInverts(y: int, doy: int)
    requires 0 <= y < 400 && 0 <= doy < YearLength(y)
    ensures 0 <= YearStart(y) + doy < ERA && YearOf(YearStart(y) + doy) == y
  {
    hide YearStart, Leap;
    var a, b, c := y / 100, y % 100 / 4, y % 4;
    YearParts(y);
    YearQuotients(a, b, c, doy);
  }

  /** Every day of an era lies in one of its years. */
  lemma YearExists(doe: int) returns (y: int)
    requires 0 <= doe < ERA
    ensures 0 <= y < 400 && 0 <= doe - YearStart(y) < YearLength(y)
  {
    var a := if doe / 36524 < 4 then doe / 36524 else 3;
    var r := doe - 36524 * a;
    var b := r / 1461;
    var s := r - 1461 * b;
    var c := if s / 365 < 4 then s / 365 else 3;
    y := 100 * a + 4 * b + c;
    YearParts(y);
    PartsOf(a, b, c);
  }

  lemma PartsOf(a: int, b: int, c: int)
    requires 0 <= a <= 3 && 0 <= b <= 24 && 0 <= c <= 3
    ensures var y := 100 * a + 4 * b + c; 0 <= y < 400 && y / 100 == a && y % 100 / 4 == b && y % 4 == c
  {}

  /** The day of the year is in range, so year and day of year determine each other. */
  lemma YearSplit(doe: int)
    requires 0 <= doe < ERA
    ensures 0 <= YearOf(doe) < 400 && 0 <= doe - YearStart(YearOf(doe)) < YearLength(YearOf(doe))
  {
    hide YearOf, YearStart, YearLength;
    var y := YearExists(doe);
    YearOfInverts(y, doe - YearStart(y));
  }

  /** The calendar month of March-based month mp. */
  function MonthOf(mp: int): int {
    mp + (if mp < 10 then 3 else -9)
  }

  /** Month lengths agree with the month table. */
  lemma MonthLengths(y: int, mp: int)
    requires 0 <= mp < 12
    ensures var civil := y + (if MonthOf(mp) <= 2 then 1 else 0);
            MonthStart(mp) + DaysIn(civil, MonthOf(mp)) == if mp == 11 then YearLength(y) else MonthStart(mp + 1)
  {}

  lemma MonthSplit(doy: int)
    requires 0 <= doy < 366
    ensures var mp := (5 * doy + 2) / 153;
            0 <= mp < 12 && MonthStart(mp) <= doy && (mp < 11 ==> doy < MonthStart(mp + 1))
  {}

  lemma MonthInverts(mp: int, day: int)
    requires 0 <= mp < 12 && 1 <= day && (mp < 11 ==> MonthStart(mp) + day <= MonthStart(mp + 1)) &&
             MonthStart(mp) + day <= 366
    ensures (5 * (MonthStart(mp) + day - 1) + 2) / 153 == mp
  {}

  // ---------- the conversions are inverse ----------

  /** A date in eras: year yoe of the era, beginning on 1 March, and day doy of that year. */
  function Assemble(era: int, yoe: int, doy: int): int {
    era * ERA + YearStart(yoe) + doy
  }

  lemma EraInverts(era: int, doe: int)
    requires 0 <= doe < ERA
    ensures EraOf(era * ERA + doe) == era
  {}

  lemma EraSplit(z: int)
    ensures 0 <= z - EraOf(z) * ERA < ERA
  {}

  /** YmdToDays rounds the year down to an era. */
  lemma YearEra(year: int)
    ensures var era := Quot(if year >= 0 then year else year - 399, 400);
            era == year / 400 && year - era * 400 == year % 400
  {}

  lemma Residues(x: int, era: int)
    ensures (x + era * 400) % 400 == x % 400 && (x + era * 400) % 100 == x % 100 && (x + era * 400) % 4 == x % 4
  {
    ResidueOf(x, era, 400);
    ResidueOf(x, 4 * era, 100);
    ResidueOf(x, 100 * era, 4);
  }

  lemma ResidueOf(x: int, k: int, m: int)
    requires m == 400 || m == 100 || m == 4
    ensures (x + k * m) % m == x % m
  {}

  lemma LeapInEra(y: int, era: int)
    ensures YearLength(y + era * 400) == YearLength(y)
  {
    Residues(y + 1, era);
  }

  lemma EraOfYear(era: int, yoe: int)
    requires 0 <= yoe < 400
    ensures (yoe + era * 400) / 400 == era && (yoe + era * 400) % 400 == yoe
  {}

  /** A March-based date in parts. */
  function DateOf(era: int, yoe: int, mp: int, day: int): Ymd {
    Ymd(yoe + era * 400 + (if MonthOf(mp) <= 2 then 1 else 0), MonthOf(mp), day)
  }

  ghost predicate Fits(yoe: int, mp: int, day: int) {
    0 <= yoe < 400 && 0 <= mp < 12 && 1 <= day && MonthStart(mp) + day <= if mp == 11 then YearLength(yoe)
        else MonthStart(mp + 1)
  }

  /** Parts that fit make a valid date, and every valid date comes from such parts. */
  lemma PartsFit(era: int, yoe: int, mp: int, day: int)
    requires 0 <= yoe < 400 && 0 <= mp < 12
    ensures Valid(DateOf(era, yoe, mp, day)) <==> Fits(yoe, mp, day)
  {
    hide MonthStart, YearLength, DaysIn;
    MonthLengths(yoe + era * 400, mp);
    LeapInEra(yoe, era);
  }

  /** YmdToDays of a date in parts. */
  lemma DaysAre(era: int, yoe: int, mp: int, day: int)
    requires Fits(yoe, mp, day)
    ensures Valid(DateOf(era, yoe, mp, day))
    ensures YmdToDays(DateOf(era, yoe, mp, day)) + EPOCH_OFFSET == Assemble(era, yoe, MonthStart(mp) + day - 1)
  {
    hide YearStart, MonthStart, Fits, Valid, Quot;
    assert 0 <= yoe < 400 && 0 <= mp < 12 by { FitsRange(yoe, mp, day); }
    PartsFit(era, yoe, mp, day);
    YearEra(yoe + era * 400);
    EraOfYear(era, yoe);
  }

  lemma FitsRange(yoe: int, mp: int, day: int)
    requires Fits(yoe, mp, day)
    ensures 0 <= yoe < 400 && 0 <= mp < 12
  {}

  lemma TakeApart(x: Ymd) returns (era: int, yoe: int, mp: int)
    requires Valid(x)
    ensures x == DateOf(era, yoe, mp, x.day) && Fits(yoe, mp, x.day)
  {
    hide DaysIn, Fits;
    var year := x.year - (if x.month <= 2 then 1 else 0);
    era, yoe, mp := year / 400, year % 400, x.month + (if x.month > 2 then -3 else 9);
    PartsFit(era, yoe, mp, x.day);
  }

  lemma MonthOfDay(yoe: int, mp: int, day: int)
    requires Fits(yoe, mp, day)
    ensures 0 <= yoe < 400 && 0 <= mp < 12 && 0 <= MonthStart(mp) + day - 1 < YearLength(yoe)
    ensures (5 * (MonthStart(mp) + day - 1) + 2) / 153 == mp
  {
    MonthInverts(mp, day);
  }

  /** FromShifted undoes Assemble. */
  lemma ShiftedIs(era: int, yoe: int, mp: int, day: int)
    requires Fits(yoe, mp, day)
    ensures FromShifted(Assemble(era, yoe, MonthStart(mp) + day - 1)) == DateOf(era, yoe, mp, day)
  {
    hide YearStart, YearOf, MonthStart, EraOf, YearLength, Fits;
    var doy := MonthStart(mp) + day - 1;
    MonthOfDay(yoe, mp, day);
    YearOfInverts(yoe, doy);
    EraInverts(era, YearStart(yoe) + doy);
  }

  /** Every valid date comes back from its day count. */
  lemma DateRoundTrip(x: Ymd)
    requires Valid(x) && IsInt(YmdToDays(x) + EPOCH_OFFSET) && Defined(YmdToDays(x))
    ensures DaysToYmd(YmdToDays(x)) == x
  {
    hide YmdToDays, FromShifted, MonthStart, Fits, DateOf;
    var era, yoe, mp := TakeApart(x);
    DaysAre(era, yoe, mp, x.day);
    ShiftedIs(era, yoe, mp, x.day);
  }

  /** FromShifted, taken apart. */
  lemma ShiftedParts(z: int) returns (era: int, yoe: int, mp: int, day: int)
    ensures FromShifted(z) == DateOf(era, yoe, mp, day) && Fits(yoe, mp, day)
    ensures z == Assemble(era, yoe, MonthStart(mp) + day - 1)
  {
    era := EraOf(z);
    var doe := z - era * ERA;
    EraSplit(z);
    YearSplit(doe);
    yoe := YearOf(doe);
    var doy := doe - YearStart(yoe);
    MonthSplit(doy);
    mp := (5 * doy + 2) / 153;
    hide YearStart, YearOf, EraOf, MonthStart, YearLength;
    day := doy - MonthStart(mp) + 1;
  }

  /** Every shifted day count is a valid date that maps back to it. */
  lemma ShiftedRoundTrip(z: int)
    ensures Valid(FromShifted(z)) && YmdToDays(FromShifted(z)) == z - EPOCH_OFFSET
  {
    hide YmdToDays, FromShifted, MonthStart, Fits, DateOf;
    var era, yoe, mp, day := ShiftedParts(z);
    DaysAre(era, yoe, mp, day);
  }

  /**
   The day count survives the round trip exactly when the shifted count fits a 32-bit int;
   otherwise the count is read modulo 2^32.
   */
  lemma DayRoundTrip(d: int)
    requires Defined(d)
    ensures Valid(DaysToYmd(d))
    ensures YmdToDays(DaysToYmd(d)) == d <==> IsInt(d + EPOCH_OFFSET)
  {
    hide YmdToDays, FromShifted;
    ShiftedRoundTrip(ToInt(d + EPOCH_OFFSET));
  }

  /** Over the int range the conversion is right exactly below the overflow of the shift. */
  lemma IntDays(d: int)
    requires IsInt(d)
    ensures (Defined(d) && Valid(DaysToYmd(d)) && YmdToDays(DaysToYmd(d)) == d) <==> d <= INT_MAX - EPOCH_OFFSET
  {
    hide YmdToDays, FromShifted;
    if Defined(d) { DayRoundTrip(d); }
  }

  /** Above it the next 146097 days overflow a subtraction, and the rest are taken for days 2^32 earlier. */
  lemma LastDaysWrap(d: int)
    requires INT_MAX - EPOCH_OFFSET < d <= INT_MAX
    ensures Defined(d) <==> d > INT_MAX - EPOCH_OFFSET + ERA
    ensures Defined(d) ==> Valid(DaysToYmd(d)) && YmdToDays(DaysToYmd(d)) == d - 0x1_0000_0000
  {
    hide YmdToDays, FromShifted;
    ShiftedRoundTrip(ToInt(d + EPOCH_OFFSET));
  }

  // ---------- the successor ----------

  ghost predicate Follows(era: int, yoe: int, mp: int, day: int, era': int, yoe': int, mp': int, day': int) {
    && Next(DateOf(era, yoe, mp, day)) == DateOf(era', yoe', mp', day') && Fits(yoe', mp', day')
    && Assemble(era', yoe', MonthStart(mp') + day' - 1) == Assemble(era, yoe, MonthStart(mp) + day - 1) + 1
  }

  /** The length of month mp of the year in parts. */
  function MonthLength(yoe: int, mp: int): int {
    (if mp == 11 then YearLength(yoe) else MonthStart(mp + 1)) - MonthStart(mp)
  }

  lemma MonthLengthIs(era: int, yoe: int, mp: int, day: int)
    requires 0 <= mp < 12
    ensures DaysIn(DateOf(era, yoe, mp, day).year, MonthOf(mp)) == MonthLength(yoe, mp)
    ensures 1 <= MonthLength(yoe, mp)
  {
    MonthGrows(mp);
    hide DaysIn, YearLength, MonthStart;
    MonthLengths(yoe + era * 400, mp);
    LeapInEra(yoe, era);
    YearIsLong(yoe);
  }

  lemma YearIsLong(yoe: int)
    ensures YearLength(yoe) >= 365
  {}

  lemma MonthGrows(mp: int)
    requires 0 <= mp < 12
    ensures MonthStart(mp) < MonthStart(mp + 1) && MonthStart(0) == 0 && MonthStart(11) < 365
  {}

  /** Inside a month. */
  lemma FollowsInMonth(era: int, yoe: int, mp: int, day: int)
    requires Fits(yoe, mp, day) && day < MonthLength(yoe, mp)
    ensures Follows(era, yoe, mp, day, era, yoe, mp, day + 1)
  {
    FitsRange(yoe, mp, day);
    MonthLengthIs(era, yoe, mp, day);
    hide DaysIn, YearLength, MonthStart, YearStart;
  }

  /** From the last day of a month other than February. */
  lemma FollowsMonth(era: int, yoe: int, mp: int, day: int)
    requires Fits(yoe, mp, day) && day == MonthLength(yoe, mp) && mp < 11
    ensures Follows(era, yoe, mp, day, era, yoe, mp + 1, 1)
  {
    FitsRange(yoe, mp, day);
    MonthLengthIs(era, yoe, mp, day);
    MonthLengthIs(era, yoe, mp + 1, 1);
    hide DaysIn, YearLength, MonthStart, YearStart;
  }

  /** The first day of the year in parts comes after the last day of the year before. */
  lemma NewYear(era: int, yoe: int, era': int, yoe': int)
    requires 0 <= yoe < 400
    requires if yoe == 399 then era' == era + 1 && yoe' == 0 else era' == era && yoe' == yoe + 1
    ensures Assemble(era', yoe', 0) == Assemble(era, yoe, YearLength(yoe))
  {
    YearEnds(yoe);
    assert YearStart(0) == 0;
    hide YearLength, YearStart;
  }

  lemma FirstOfMarch(yoe: int)
    requires 0 <= yoe < 400
    ensures Fits(yoe, 0, 1) && MonthStart(0) == 0
  {}

  /** From the last day of February. */
  lemma FollowsYear(era: int, yoe: int, mp: int, day: int, era': int, yoe': int)
    requires Fits(yoe, mp, day) && day == MonthLength(yoe, mp) && mp == 11
    requires if yoe == 399 then era' == era + 1 && yoe' == 0 else era' == era && yoe' == yoe + 1
    ensures Follows(era, yoe, mp, day, era', yoe', 0, 1)
  {
    hide DaysIn, YearLength, MonthStart, YearStart, Assemble, Fits;
    FitsRange(yoe, mp, day);
    MonthLengthIs(era, yoe, mp, day);
    FirstOfMarch(yoe');
    NewYear(era, yoe, era', yoe');
    AssembleDay(era, yoe, YearLength(yoe) - 1);
  }

  lemma AssembleDay(era: int, yoe: int, doy: int)
    ensures Assemble(era, yoe, doy + 1) == Assemble(era, yoe, doy) + 1
  {}

  /** The parts of the next day. */
  lemma NextParts(era: int, yoe: int, mp: int, day: int) returns (era': int, yoe': int, mp': int, day': int)
    requires Fits(yoe, mp, day)
    ensures Follows(era, yoe, mp, day, era', yoe', mp', day')
  {
    hide Follows, YearLength, MonthStart;
    if day < MonthLength(yoe, mp) {
      FollowsInMonth(era, yoe, mp, day);
      return era, yoe, mp, day + 1;
    } else if mp < 11 {
      FollowsMonth(era, yoe, mp, day);
      return era, yoe, mp + 1, 1;
    }
    era', yoe' := if yoe == 399 then era + 1 else era, if yoe == 399 then 0 else yoe + 1;
    FollowsYear(era, yoe, mp, day, era', yoe');
    return era', yoe', 0, 1;
  }

  /** The calendar's next day has the next day count. */
  lemma NextDay(x: Ymd)
    requires Valid(x)
    ensures Valid(Next(x)) && YmdToDays(Next(x)) == YmdToDays(x) + 1
  {
    hide YmdToDays, Next, DateOf, Fits, MonthStart;
    var era, yoe, mp := TakeApart(x);
    DaysAre(era, yoe, mp, x.day);
    var era', yoe', mp', day' := NextParts(era, yoe, mp, x.day);
    DaysAre(era', yoe', mp', day');
  }

  /** The year after year y of an era begins when y ends. */
  lemma YearEnds(y: int)
    requires 0 <= y < 400
    ensures if y == 399 then YearStart(y) + YearLength(y) == ERA else YearStart(y + 1) == YearStart(y) + YearLength(y)
  {}

  /** Day d + 1 is the calendar successor of day d. */
  lemma Successor(d: int)
    requires IsInt(d + EPOCH_OFFSET) && IsInt(d + 1 + EPOCH_OFFSET) && Defined(d) && Defined(d + 1)
    ensures DaysToYmd(d + 1) == Next(DaysToYmd(d))
  {
    hide YmdToDays, FromShifted;
    DayRoundTrip(d);
    NextDay(DaysToYmd(d));
    DateRoundTrip(Next(DaysToYmd(d)));
  }

  lemma Epoch()
    ensures YmdToDays(Ymd(1970, 1, 1)) == 0
  {}

  // ---------- formatted time ----------

  const SECOND := 1_000_000_000

  function ToSeconds(ns: int): int {
    Quot(Quot(ns, 1_000_000), 1000)
  }

  function ToMinutes(ns: int): int { Quot(ToSeconds(ns), 60) }

  function ToHours(ns: int): int { Quot(ToMinutes(ns), 60) }

  function ToDays(ns: int): int { Quot(ToHours(ns), 24) }

  /** A 64-bit count of nanoseconds. */
  predicate IsTime(ns: int) {
    -0x8000_0000_0000_0000 <= ns < 0x8000_0000_0000_0000
  }

  lemma TimeIsDefined(ns: int)
    requires IsTime(ns)
    ensures IsInt(ToDays(ns) + EPOCH_OFFSET) && Defined(ToDays(ns))
  {}

  function ToFormatted(ns: int): Formatted
    requires IsTime(ns)
  {
    TimeIsDefined(ns);
    var x := DaysToYmd(ToDays(ns));
    Formatted(x.year, x.month, x.day, Rem(ToHours(ns), 24), Rem(ToMinutes(ns), 60), Rem(ToSeconds(ns), 60))
  }

  function FromFormatted(f: Formatted): int
    requires Valid(Ymd(f.year, f.month, f.day))
  {
    YmdToDays(Ymd(f.year, f.month,
        f.day)) * 24 * 60 * 60 * SECOND + f.hour * 60 * 60 * SECOND + f.minute * 60 * SECOND + f.second * SECOND
  }

  predicate OnClock(f: Formatted) {
    0 <= f.hour < 24 && 0 <= f.minute < 60 && 0 <= f.second < 60
  }

  /** Formatting loses only the part below a second, also before the epoch. */
  lemma FormattedRoundTrip(ns: int)
    requires IsTime(ns)
    ensures var f := ToFormatted(ns);
            Valid(Ymd(f.year, f.month, f.day)) && FromFormatted(f) == Quot(ns, SECOND) * SECOND
  {
    hide YmdToDays, FromShifted;
    TimeIsDefined(ns);
    DayRoundTrip(ToDays(ns));
    SecondsAre(ns);
  }

  lemma SecondsAre(ns: int)
    ensures ToSeconds(ns) == Quot(ns, SECOND)
  {}

  /** The seconds since the epoch are those of the days and of the time of day. */
  lemma ClockLaw(ns: int)
    requires IsTime(ns)
    ensures var f := ToFormatted(ns);
            ToDays(ns) * 86400 + f.hour * 3600 + f.minute * 60 + f.second == Quot(ns, SECOND)
    ensures var f, s := ToFormatted(ns), Quot(ns, SECOND);
            OnClock(f) && s >= 0 ==> f.hour * 3600 + f.minute * 60 + f.second == s % 86400
  {
    hide YmdToDays, FromShifted, Defined, ToInt;
    SecondsAre(ns);
    var f, s := ToFormatted(ns), ToSeconds(ns);
    assert ToDays(ns) * 86400 + f.hour * 3600 + f.minute * 60 + f.second == s;
    if OnClock(f) && s >= 0 { InDay(ToDays(ns), f.hour * 3600 + f.minute * 60 + f.second); }
  }

  lemma WholeDays(n: nat)
    ensures n % 60 == 0 && n / 60 % 60 == 0 && n / 60 / 60 % 24 == 0 <==> n % 86400 == 0
  {
    var m, h, d := n / 60, n / 60 / 60, n / 60 / 60 / 24;
    var r := (h - 24 * d) * 3600 + (m - 60 * h) * 60 + (n - 60 * m);
    assert n == 86400 * d + r;
    InDay(d, r);
  }

  lemma InDay(d: nat, r: nat)
    requires r < 86400
    ensures (86400 * d + r) % 86400 == r
  {}

  lemma RemSign(a: int, b: int)
    requires b == 60 || b == 24
    ensures a >= 0 ==> 0 <= Rem(a, b) < b
    ensures a < 0 ==> -b < Rem(a, b) <= 0 && (Rem(a, b) == 0 <==> (-a) % b == 0)
  {}

  /** The time of day is on the clock exactly from the epoch on, or at a whole day before it. */
  lemma ClockFields(ns: int)
    requires IsTime(ns)
    ensures OnClock(ToFormatted(ns)) <==> Quot(ns, SECOND) >= 0 || (-Quot(ns, SECOND)) % 86400 == 0
  {
    hide YmdToDays, FromShifted, Rem, Defined, ToInt;
    SecondsAre(ns);
    var s := ToSeconds(ns);
    if s < 0 { WholeDays(-s); }
    RemSign(s, 60);
    RemSign(ToMinutes(ns), 60);
    RemSign(ToHours(ns), 24);
    hide ToSeconds;
  }
}
