/** Timestamps in the database are text, compared character by character.  An instant is a
    number of nanoseconds since 0001-01-01 00:00:00 UTC, so the zero time is 0; the years
    0000 to 9999 are those the layout has room for. */
module SqlTime {
  import opened Basics

  // ----- The calendar -----

  datatype Civil = Civil(year: int, month: int, day: int, hour: int, minute: int, second: int)

  predicate IsLeap(y: int) { y % 4 == 0 && (y % 100 != 0 || y % 400 == 0) }

  function YearDays(y: int): int { if IsLeap(y) then 366 else 365 }

  function MonthDays(y: int, m: int): int {
    if m == 2 then (if IsLeap(y) then 29 else 28)
    else if m == 4 || m == 6 || m == 9 || m == 11 then 30
    else 31
  }

  /** Days from 0001-01-01 to the first of January of the year. */
  function YearStart(y: int): int {
    365 * (y - 1) + (y - 1) / 4 - (y - 1) / 100 + (y - 1) / 400
  }

  lemma FourYears(y: int)
    ensures y / 4 == (y - 1) / 4 + if y % 4 == 0 then 1 else 0
  {
  }

  lemma Centuries(y: int)
    ensures y / 100 == (y - 1) / 100 + if y % 100 == 0 then 1 else 0
  {
    var q, r := y / 100, y % 100;
    assert y - 1 == if r == 0 then 100 * (q - 1) + 99 else 100 * q + (r - 1);
  }

  lemma FourCenturies(y: int)
    ensures y / 400 == (y - 1) / 400 + if y % 400 == 0 then 1 else 0
  {
    var q, r := y / 400, y % 400;
    assert y - 1 == if r == 0 then 400 * (q - 1) + 399 else 400 * q + (r - 1);
  }

  lemma CenturiesAreFourYears(y: int)
    ensures y % 100 == 0 ==> y % 4 == 0
  {
    assert y == 100 * (y / 100) + y % 100;
  }

  lemma FourCenturiesAreCenturies(y: int)
    ensures y % 400 == 0 ==> y % 100 == 0
  {
    assert y == 400 * (y / 400) + y % 400;
  }

  /** The years follow one another: the closed form counts every leap day. */
  lemma YearStep(y: int)
    ensures YearStart(y + 1) == YearStart(y) + YearDays(y)
  {
    FourYears(y);
    Centuries(y);
    FourCenturies(y);
    CenturiesAreFourYears(y);
    FourCenturiesAreCenturies(y);
  }

  function MonthStart(y: int, m: int): int
    requires 1 <= m <= 13
    decreases m
  {
    if m == 1 then 0 else MonthStart(y, m - 1) + MonthDays(y, m - 1)
  }

  predicate ValidCivil(c: Civil) {
    && 0 <= c.year <= 9999 && 1 <= c.month <= 12 && 1 <= c.day <= MonthDays(c.year, c.month)
    && 0 <= c.hour < 24 && 0 <= c.minute < 60 && 0 <= c.second < 60
  }

  /** Seconds from the zero time. */
  function SecondsOf(c: Civil): int
    requires ValidCivil(c)
  {
    (YearStart(c.year) + MonthStart(c.year, c.month) + c.day - 1) * 86400 + c.hour * 3600 + c.minute * 60 + c.second
  }

  const FIRST_SECOND := -366 * 86400

  /** The first second of the year 10000. */
  function EndSecond(): int { YearStart(10000) * 86400 }

  function FindYear(days: int, y: int): int
    requires YearStart(y) <= days
    decreases days - YearStart(y)
  {
    YearStep(y);
    if days < YearStart(y + 1) then y else FindYear(days, y + 1)
  }

  function FindMonth(y: int, dayOfYear: int, m: int): (r: int)
    requires 1 <= m <= 12 && MonthStart(y, m) <= dayOfYear < YearDays(y)
    ensures m <= r <= 12
    decreases 12 - m
  {
    if m == 12 || dayOfYear < MonthStart(y, m + 1) then m else FindMonth(y, dayOfYear, m + 1)
  }

  predicate Storable(seconds: int) { FIRST_SECOND <= seconds < EndSecond() }

  lemma {:induction false} YearStartGrows(a: int, b: int)
    requires a <= b
    ensures YearStart(a) + 365 * (b - a) <= YearStart(b)
    decreases b - a
  {
    if a < b {
      YearStartGrows(a, b - 1);
      YearStep(b - 1);
    }
  }

  lemma {:induction false} FindYearFinds(days: int, y: int)
    requires YearStart(y) <= days
    ensures var r := FindYear(days, y); y <= r && YearStart(r) <= days < YearStart(r + 1)
    decreases days - YearStart(y)
  {
    YearStep(y);
    if days >= YearStart(y + 1) {
      FindYearFinds(days, y + 1);
    }
  }

  lemma MonthsFillTheYear(y: int)
    ensures MonthStart(y, 2) == 31 && MonthStart(y, 3) == 31 + MonthDays(y, 2)
    ensures MonthStart(y, 4) == MonthStart(y, 3) + 31 && MonthStart(y, 5) == MonthStart(y, 4) + 30
    ensures MonthStart(y, 6) == MonthStart(y, 5) + 31 && MonthStart(y, 7) == MonthStart(y, 6) + 30
    ensures MonthStart(y, 8) == MonthStart(y, 7) + 31 && MonthStart(y, 9) == MonthStart(y, 8) + 31
    ensures MonthStart(y, 10) == MonthStart(y, 9) + 30 && MonthStart(y, 11) == MonthStart(y, 10) + 31
    ensures MonthStart(y, 12) == MonthStart(y, 11) + 30 && MonthStart(y, 13) == MonthStart(y, 12) + 31
    ensures MonthStart(y, 13) == YearDays(y)
  {
  }

  lemma {:induction false} FindMonthFinds(y: int, dayOfYear: int, m: int)
    requires 1 <= m <= 12 && MonthStart(y, m) <= dayOfYear < YearDays(y)
    ensures var r := FindMonth(y, dayOfYear, m); MonthStart(y, r) <= dayOfYear < MonthStart(y, r + 1)
    decreases 12 - m
  {
    MonthsFillTheYear(y);
    if m != 12 && dayOfYear >= MonthStart(y, m + 1) {
      FindMonthFinds(y, dayOfYear, m + 1);
    }
  }

  /** The year and the day of the year, both counted from 0. */
  function YearAndDay(days: int): (r: (int, int))
    requires YearStart(0) <= days < YearStart(10000)
    ensures 0 <= r.0 <= 9999 && YearStart(r.0) + r.1 == days && 0 <= r.1 < YearDays(r.0)
  {
    FindYearFinds(days, 0);
    var y := FindYear(days, 0);
    assert y < 10000 by {
      if y >= 10000 { YearStartGrows(10000, y); }
    }
    YearStep(y);
    (y, days - YearStart(y))
  }

  /** The month, and the day of the month counted from 1. */
  function MonthAndDay(y: int, dayOfYear: int): (r: (int, int))
    requires 0 <= dayOfYear < YearDays(y)
    ensures 1 <= r.0 <= 12 && 1 <= r.1 <= MonthDays(y, r.0) && MonthStart(y, r.0) + r.1 - 1 == dayOfYear
  {
    FindMonthFinds(y, dayOfYear, 1);
    var m := FindMonth(y, dayOfYear, 1);
    (m, dayOfYear - MonthStart(y, m) + 1)
  }

  lemma ClockParts(rest: int)
    requires 0 <= rest < 86400
    ensures 0 <= rest / 3600 < 24 && 0 <= rest % 3600 / 60 < 60 && 0 <= rest % 60 < 60
    ensures rest / 3600 * 3600 + rest % 3600 / 60 * 60 + rest % 60 == rest
  {
  }

  /** The date and time of day of an instant given in whole seconds. */
  function CivilOf(seconds: int): (c: Civil)
    requires Storable(seconds)
    ensures ValidCivil(c) && SecondsOf(c) == seconds
  {
    var days, rest := seconds / 86400, seconds % 86400;
    var (y, dayOfYear) := YearAndDay(days);
    var (m, d) := MonthAndDay(y, dayOfYear);
    ClockParts(rest);
    Civil(y, m, d, rest / 3600, rest % 3600 / 60, rest % 60)
  }

  /** The calendar order: by year, month, day, hour, minute, second. */
  predicate Earlier(a: Civil, b: Civil) {
    if a.year != b.year then a.year < b.year
    else if a.month != b.month then a.month < b.month
    else if a.day != b.day then a.day < b.day
    else if a.hour != b.hour then a.hour < b.hour
    else if a.minute != b.minute then a.minute < b.minute
    else a.second < b.second
  }

  lemma {:induction false} MonthStartGrows(y: int, a: int, b: int)
    requires 1 <= a < b <= 13
    ensures MonthStart(y, a) + MonthDays(y, a) <= MonthStart(y, b)
    decreases b - a
  {
    if a + 1 < b {
      MonthStartGrows(y, a, b - 1);
    }
  }

  function DayOf(c: Civil): int
    requires ValidCivil(c)
  {
    YearStart(c.year) + MonthStart(c.year, c.month) + c.day - 1
  }

  lemma DayWithinYear(c: Civil)
    requires ValidCivil(c)
    ensures YearStart(c.year) <= DayOf(c) < YearStart(c.year + 1)
  {
    YearStep(c.year);
    MonthsFillTheYear(c.year);
    MonthStartGrows(c.year, c.month, 13);
    if c.month > 1 {
      MonthStartGrows(c.year, 1, c.month);
    }
  }

  lemma EarlierDay(a: Civil, b: Civil)
    requires ValidCivil(a) && ValidCivil(b)
    requires a.year < b.year || (a.year == b.year && (a.month < b.month || (a.month == b.month && a.day < b.day)))
    ensures DayOf(a) < DayOf(b)
  {
    if a.year < b.year {
      DayWithinYear(a);
      DayWithinYear(b);
      YearStartGrows(a.year + 1, b.year);
    } else if a.month < b.month {
      MonthStartGrows(a.year, a.month, b.month);
    }
  }

  lemma EarlierMeansFewerSeconds(a: Civil, b: Civil)
    requires ValidCivil(a) && ValidCivil(b) && Earlier(a, b)
    ensures SecondsOf(a) < SecondsOf(b)
  {
    assert SecondsOf(a) == DayOf(a) * 86400 + a.hour * 3600 + a.minute * 60 + a.second;
    assert SecondsOf(b) == DayOf(b) * 86400 + b.hour * 3600 + b.minute * 60 + b.second;
    if (a.year, a.month, a.day) != (b.year, b.month, b.day) {
      EarlierDay(a, b);
    }
  }

  /** The calendar order is the order of instants. */
  lemma EarlierIsFewerSeconds(a: Civil, b: Civil)
    requires ValidCivil(a) && ValidCivil(b)
    ensures Earlier(a, b) <==> SecondsOf(a) < SecondsOf(b)
  {
    if Earlier(a, b) {
      EarlierMeansFewerSeconds(a, b);
    } else if a != b {
      EarlierMeansFewerSeconds(b, a);
    }
  }

  /** The epoch is that of the calendar in use: the Unix epoch lies 62,135,596,800 seconds after
      the zero time. */
  lemma UnixEpoch(c: Civil)
    requires c == Civil(1970, 1, 1, 0, 0, 0)
    ensures ValidCivil(c) && SecondsOf(c) == 62_135_596_800
  {
    assert YearStart(c.year) == 719_162;
  }

  /** The first of March follows the 28th of February after one day, or two in a leap year. */
  lemma LeapDays(y: int)
    requires 0 <= y <= 9999
    ensures SecondsOf(Civil(y, 3, 1, 0, 0, 0))
            == SecondsOf(Civil(y, 2, 28, 0, 0, 0))
               + if y % 400 == 0 || (y % 4 == 0 && y % 100 != 0) then 2 * 86_400 else 86_400
  {
    MonthsFillTheYear(y);
    FourCenturiesAreCenturies(y);
    CenturiesAreFourYears(y);
  }

  /** An instant has one date and time of day. */
  lemma {:induction false} CivilIsUnique(c: Civil)
    requires ValidCivil(c)
    ensures Storable(SecondsOf(c)) && CivilOf(SecondsOf(c)) == c
  {
    DayWithinYear(c);
    YearStartGrows(0, c.year);
    YearStartGrows(c.year + 1, 10000);
    assert SecondsOf(c) == DayOf(c) * 86400 + c.hour * 3600 + c.minute * 60 + c.second;
    var d := CivilOf(SecondsOf(c));
    EarlierIsFewerSeconds(c, d);
    EarlierIsFewerSeconds(d, c);
  }

  // ----- Text -----

  function Digit(n: int): char
    requires 0 <= n < 10
  {
    '0' + n as char
  }

  function Two(n: int): string
    requires 0 <= n < 100
  {
    [Digit(n / 10), Digit(n % 10)]
  }

  function Four(n: int): string
    requires 0 <= n < 10000
  {
    Two(n / 100) + Two(n % 100)
  }

  function DateText(c: Civil): string
    requires ValidCivil(c)
  {
    Four(c.year) + "-" + Two(c.month) + "-" + Two(c.day)
  }

  function ClockText(c: Civil): string
    requires ValidCivil(c)
  {
    Two(c.hour) + ":" + Two(c.minute) + ":" + Two(c.second)
  }

  /** The layout 2006-01-02 15:04:05. */
  function SqlText(c: Civil): string
    requires ValidCivil(c)
  {
    DateText(c) + " " + ClockText(c)
  }

  const SECOND := 1_000_000_000

  /** The stored text of an instant: empty for the zero time. */
  function FormatTime(t: int): string
    requires Storable(t / SECOND)
  {
    if t == 0 then "" else SqlText(CivilOf(t / SECOND))
  }

  lemma LayoutReads()
    ensures SqlText(Civil(2025, 6, 1, 18, 0, 5)) == "2025-06-01 18:00:05"
  {
    assert DateText(Civil(2025, 6, 1, 18, 0, 5)) == "2025-06-01";
    assert ClockText(Civil(2025, 6, 1, 18, 0, 5)) == "18:00:05";
  }

  /** The stored text is the date and time of day of the second an instant falls in. */
  lemma {:induction false} FormatOfCivil(c: Civil, rest: int)
    requires ValidCivil(c) && 0 <= rest < 1_000_000_000 && SecondsOf(c) * 1_000_000_000 + rest != 0
    ensures Storable((SecondsOf(c) * 1_000_000_000 + rest) / SECOND)
    ensures FormatTime(SecondsOf(c) * 1_000_000_000 + rest) == SqlText(c)
  {
    CivilIsUnique(c);
    assert (SecondsOf(c) * SECOND + rest) / SECOND == SecondsOf(c);
  }

  /** SQLite's comparison of two texts, one character after the other. */
  predicate TextBefore(a: string, b: string) {
    b != "" && (a == "" || a[0] < b[0] || (a[0] == b[0] && TextBefore(a[1..], b[1..])))
  }

  // ----- Order -----

  lemma {:induction false} TextBeforeConcat(a: string, b: string, x: string, y: string)
    requires |a| == |b|
    ensures TextBefore(a + x, b + y) <==> TextBefore(a, b) || (a == b && TextBefore(x, y))
  {
    if a == [] {
      assert a + x == x && b + y == y;
    } else {
      assert (a + x)[1..] == a[1..] + x && (b + y)[1..] == b[1..] + y;
      TextBeforeConcat(a[1..], b[1..], x, y);
      assert a == [a[0]] + a[1..] && b == [b[0]] + b[1..];
    }
  }

  lemma TwoOrder(m: int, n: int)
    requires 0 <= m < 100 && 0 <= n < 100
    ensures TextBefore(Two(m), Two(n)) <==> m < n
    ensures Two(m) == Two(n) <==> m == n
  {
    assert Two(m)[1..] == [Digit(m % 10)] && Two(n)[1..] == [Digit(n % 10)];
    assert Two(m)[1..][1..] == "" && Two(n)[1..][1..] == "";
    assert TextBefore(Two(m)[1..], Two(n)[1..]) <==> m % 10 < n % 10;
  }

  lemma FourOrder(m: int, n: int)
    requires 0 <= m < 10000 && 0 <= n < 10000
    ensures TextBefore(Four(m), Four(n)) <==> m < n
    ensures Four(m) == Four(n) <==> m == n
  {
    TextBeforeConcat(Two(m / 100), Two(n / 100), Two(m % 100), Two(n % 100));
    TwoOrder(m / 100, n / 100);
    TwoOrder(m % 100, n % 100);
    assert Four(m)[..2] == Two(m / 100) && Four(n)[..2] == Two(n / 100);
    assert Four(m)[2..] == Two(m % 100) && Four(n)[2..] == Two(n % 100);
  }

  /** Two-digit fields behind a common separator compare as numbers, then as what follows. */
  lemma FieldOrder(m: int, n: int, sep: string, x: string, y: string)
    requires 0 <= m < 100 && 0 <= n < 100
    ensures TextBefore(sep + Two(m) + x, sep + Two(n) + y) <==> m < n || (m == n && TextBefore(x, y))
  {
    TwoOrder(m, n);
    TextBeforeConcat(sep + Two(m), sep + Two(n), x, y);
    TextBeforeConcat(sep, sep, Two(m), Two(n));
    TextNotBeforeItself(sep);
    assert (sep + Two(m))[|sep|..] == Two(m) && (sep + Two(n))[|sep|..] == Two(n);
  }

  lemma {:induction false} TextNotBeforeItself(s: string)
    ensures !TextBefore(s, s)
  {
    if s != "" {
      TextNotBeforeItself(s[1..]);
    }
  }

  lemma DateFields(c: Civil)
    requires ValidCivil(c)
    ensures |DateText(c)| == 10
    ensures DateText(c) == Four(c.year) + ("-" + Two(c.month) + ("-" + Two(c.day) + ""))
    ensures DateText(c)[..4] == Four(c.year) && DateText(c)[5..7] == Two(c.month) && DateText(c)[8..] == Two(c.day)
  {
  }

  /** The order of dates, whatever the times of day. */
  predicate EarlierDate(a: Civil, b: Civil) {
    if a.year != b.year then a.year < b.year
    else if a.month != b.month then a.month < b.month
    else a.day < b.day
  }

  lemma DateOrder(a: Civil, b: Civil)
    requires ValidCivil(a) && ValidCivil(b)
    ensures TextBefore(DateText(a), DateText(b)) <==> EarlierDate(a, b)
  {
    DateFields(a);
    DateFields(b);
    FourOrder(a.year, b.year);
    TextBeforeConcat(Four(a.year), Four(b.year), "-" + Two(a.month) + ("-" + Two(a.day) + ""),
                     "-" + Two(b.month) + ("-" + Two(b.day) + ""));
    FieldOrder(a.month, b.month, "-", "-" + Two(a.day) + "", "-" + Two(b.day) + "");
    FieldOrder(a.day, b.day, "-", "", "");
  }

  lemma SameDate(a: Civil, b: Civil)
    requires ValidCivil(a) && ValidCivil(b)
    ensures DateText(a) == DateText(b) <==> a.year == b.year && a.month == b.month && a.day == b.day
  {
    DateFields(a);
    DateFields(b);
    FourOrder(a.year, b.year);
    TwoOrder(a.month, b.month);
    TwoOrder(a.day, b.day);
  }

  lemma ClockOrder(a: Civil, b: Civil)
    requires ValidCivil(a) && ValidCivil(b)
    ensures TextBefore(" " + ClockText(a), " " + ClockText(b)) <==>
            if a.hour != b.hour then a.hour < b.hour
            else if a.minute != b.minute then a.minute < b.minute
            else a.second < b.second
  {
    FieldOrder(a.hour, b.hour, " ", ":" + Two(a.minute) + (":" + Two(a.second) + ""),
               ":" + Two(b.minute) + (":" + Two(b.second) + ""));
    FieldOrder(a.minute, b.minute, ":", ":" + Two(a.second) + "", ":" + Two(b.second) + "");
    FieldOrder(a.second, b.second, ":", "", "");
    assert " " + ClockText(a) == " " + Two(a.hour) + (":" + Two(a.minute) + (":" + Two(a.second) + ""));
    assert " " + ClockText(b) == " " + Two(b.hour) + (":" + Two(b.minute) + (":" + Two(b.second) + ""));
  }

  /** The layout embeds the calendar order into the order of texts. */
  lemma SqlTextOrder(a: Civil, b: Civil)
    requires ValidCivil(a) && ValidCivil(b)
    ensures TextBefore(SqlText(a), SqlText(b)) <==> Earlier(a, b)
  {
    DateFields(a);
    DateFields(b);
    DateOrder(a, b);
    SameDate(a, b);
    ClockOrder(a, b);
    TextBeforeConcat(DateText(a), DateText(b), " " + ClockText(a), " " + ClockText(b));
    assert SqlText(a) == DateText(a) + (" " + ClockText(a));
    assert SqlText(b) == DateText(b) + (" " + ClockText(b));
  }

  /** Stored texts sort as the instants do, to the second; the zero time sorts before all. */
  lemma {:induction false} TextOrderIsTimeOrder(s: int, t: int)
    requires Storable(s / SECOND) && Storable(t / SECOND)
    ensures s != 0 && t != 0 ==> (TextBefore(FormatTime(s), FormatTime(t)) <==> s / SECOND < t / SECOND)
    ensures s == 0 ==> (TextBefore(FormatTime(s), FormatTime(t)) <==> t != 0)
    ensures t == 0 ==> !TextBefore(FormatTime(s), FormatTime(t))
  {
    if s != 0 && t != 0 {
      SqlTextOrder(CivilOf(s / SECOND), CivilOf(t / SECOND));
      EarlierIsFewerSeconds(CivilOf(s / SECOND), CivilOf(t / SECOND));
    }
  }

  /** So a list ordered by the stored text is in chronological order, behind the rows that
      have no expiry. */
  lemma {:induction false} OrderByTextIsChronological(times: seq<int>)
    requires forall i :: 0 <= i < |times| ==> Storable(times[i] / SECOND)
    requires forall i, j :: 0 <= i < j < |times| ==> !TextBefore(FormatTime(times[j]), FormatTime(times[i]))
    ensures forall i, j :: 0 <= i < j < |times| && times[i] != 0 ==>
                             times[j] != 0 && times[i] / SECOND <= times[j] / SECOND
  {
    forall i, j | 0 <= i < j < |times| && times[i] != 0
      ensures times[j] != 0 && times[i] / SECOND <= times[j] / SECOND
    {
      TextOrderIsTimeOrder(times[j], times[i]);
    }
  }

  // ----- Reading back -----

  predicate IsDigit(c: char) { '0' <= c <= '9' }

  function ReadTwo(s: string): (r: Option<int>)
    requires |s| == 2
    ensures r.Some? ==> 0 <= r.value < 100
  {
    if IsDigit(s[0]) && IsDigit(s[1]) then Some((s[0] - '0') as int * 10 + (s[1] - '0') as int) else None
  }

  /** Reads a date, a separator and a time of day; the fields must be in range. */
  function ReadCivil(s: string, sep: char): (r: Option<Civil>)
    requires |s| == 19
    ensures r.Some? ==> ValidCivil(r.value)
  {
    var f := [ReadTwo(s[0..2]), ReadTwo(s[2..4]), ReadTwo(s[5..7]), ReadTwo(s[8..10]),
              ReadTwo(s[11..13]), ReadTwo(s[14..16]), ReadTwo(s[17..19])];
    if s[4] != '-' || s[7] != '-' || s[10] != sep || s[13] != ':' || s[16] != ':' then None
    else if f[0].None? || f[1].None? || f[2].None? || f[3].None? || f[4].None? || f[5].None? || f[6].None? then None
    else
      var c := Civil(f[0].value * 100 + f[1].value, f[2].value, f[3].value, f[4].value, f[5].value, f[6].value);
      if ValidCivil(c) then Some(c) else None
  }

  /** The offset of a zone in seconds: Z, or a signed hh:mm. */
  function ReadZone(s: string): Option<int> {
    if s == "Z" then Some(0)
    else if |s| == 6 && (s[0] == '+' || s[0] == '-') && s[3] == ':' then
      var h, m := ReadTwo(s[1..3]), ReadTwo(s[4..6]);
      if h.None? || m.None? || h.value > 24 || m.value > 60 then None
      else
        var offset := h.value * 3600 + m.value * 60;
        Some(if s[0] == '+' then offset else -offset)
    else None
  }

  /** The instant of a stored text, None if it is not recognised: the empty text is the zero
      time; otherwise the canonical layout is tried first, then RFC 3339. */
  function ParseTime(s: string): Option<int> {
    if s == "" then Some(0)
    else if |s| == 19 then
      var c := ReadCivil(s, ' ');
      if c.None? then None else Some(SecondsOf(c.value) * SECOND)
    else if |s| > 19 then
      var c, zone := ReadCivil(s[..19], 'T'), ReadZone(s[19..]);
      if c.None? || zone.None? then None else Some((SecondsOf(c.value) - zone.value) * SECOND)
    else None
  }

  lemma ReadTwoBack(n: int)
    requires 0 <= n < 100
    ensures ReadTwo(Two(n)) == Some(n)
  {
  }

  lemma ClockFields(c: Civil)
    requires ValidCivil(c)
    ensures var k := ClockText(c);
            && |k| == 8 && k[2] == ':' && k[5] == ':'
            && k[0..2] == Two(c.hour) && k[3..5] == Two(c.minute) && k[6..8] == Two(c.second)
  {
    assert ClockText(c) == Two(c.hour) + (":" + Two(c.minute) + (":" + Two(c.second)));
  }

  lemma TextFields(c: Civil, sep: char)
    requires ValidCivil(c)
    ensures var s := DateText(c) + [sep] + ClockText(c);
            && |s| == 19 && s[4] == '-' && s[7] == '-' && s[10] == sep && s[13] == ':' && s[16] == ':'
            && s[0..2] == Two(c.year / 100) && s[2..4] == Two(c.year % 100) && s[5..7] == Two(c.month)
            && s[8..10] == Two(c.day) && s[11..13] == Two(c.hour) && s[14..16] == Two(c.minute)
            && s[17..19] == Two(c.second)
  {
    var d, k := DateText(c), ClockText(c);
    var s := d + [sep] + k;
    DateFields(c);
    ClockFields(c);
    assert s[0..2] == d[..4][0..2] == Two(c.year / 100) && s[2..4] == d[..4][2..4] == Two(c.year % 100);
    assert s[5..7] == d[5..7] && s[8..10] == d[8..];
    assert s[11..13] == k[0..2] && s[14..16] == k[3..5] && s[17..19] == k[6..8];
  }

  lemma ReadCivilBack(c: Civil, sep: char)
    requires ValidCivil(c)
    ensures |DateText(c) + [sep] + ClockText(c)| == 19
    ensures ReadCivil(DateText(c) + [sep] + ClockText(c), sep) == Some(c)
  {
    TextFields(c, sep);
    ReadTwoBack(c.year / 100);
    ReadTwoBack(c.year % 100);
    ReadTwoBack(c.month);
    ReadTwoBack(c.day);
    ReadTwoBack(c.hour);
    ReadTwoBack(c.minute);
    ReadTwoBack(c.second);
  }

  /** Round trip: reading a stored instant gives it back, cut to the second. */
  lemma {:induction false} FormatParseRoundTrip(t: int)
    requires Storable(t / SECOND)
    ensures ParseTime(FormatTime(t)) == Some(t / SECOND * SECOND)
  {
    if t != 0 {
      var c := CivilOf(t / SECOND);
      ReadCivilBack(c, ' ');
      assert SqlText(c) == DateText(c) + [' '] + ClockText(c);
    }
  }

  lemma TwoBack(s: string)
    requires |s| == 2 && ReadTwo(s).Some?
    ensures Two(ReadTwo(s).value) == s
  {
  }

  lemma Hundreds(a: int, b: int)
    requires 0 <= b < 100
    ensures (a * 100 + b) / 100 == a && (a * 100 + b) % 100 == b
  {
  }

  /** The fields of a text that is read. */
  lemma ReadFields(s: string, sep: char) returns (c: Civil)
    requires |s| == 19 && ReadCivil(s, sep).Some?
    ensures ReadCivil(s, sep) == Some(c) && ValidCivil(c)
    ensures s[4] == '-' && s[7] == '-' && s[10] == sep && s[13] == ':' && s[16] == ':'
    ensures Two(c.year / 100) == s[0..2] && Two(c.year % 100) == s[2..4] && Two(c.month) == s[5..7]
    ensures Two(c.day) == s[8..10] && Two(c.hour) == s[11..13] && Two(c.minute) == s[14..16]
    ensures Two(c.second) == s[17..19]
  {
    c := ReadCivil(s, sep).value;
    Hundreds(ReadTwo(s[0..2]).value, ReadTwo(s[2..4]).value);
    TwoBack(s[0..2]);
    TwoBack(s[2..4]);
    TwoBack(s[5..7]);
    TwoBack(s[8..10]);
    TwoBack(s[11..13]);
    TwoBack(s[14..16]);
    TwoBack(s[17..19]);
  }

  /** A text is read as the date and time of day it was written for, and no other text is. */
  lemma ReadCivilOnly(s: string, sep: char) returns (c: Civil)
    requires |s| == 19 && ReadCivil(s, sep).Some?
    ensures ReadCivil(s, sep) == Some(c) && s == DateText(c) + [sep] + ClockText(c)
  {
    c := ReadFields(s, sep);
    TextFields(c, sep);
    SameFields(DateText(c) + [sep] + ClockText(c), s);
  }

  lemma SameFields(s: string, t: string)
    requires |s| == |t| == 19
    requires s[4] == t[4] && s[7] == t[7] && s[10] == t[10] && s[13] == t[13] && s[16] == t[16]
    requires s[0..2] == t[0..2] && s[2..4] == t[2..4] && s[5..7] == t[5..7] && s[8..10] == t[8..10]
    requires s[11..13] == t[11..13] && s[14..16] == t[14..16] && s[17..19] == t[17..19]
    ensures s == t
  {
    assert forall x: string :: |x| == 19 ==>
        x == x[0..2] + x[2..4] + [x[4]] + x[5..7] + [x[7]] + x[8..10] + [x[10]] + x[11..13] + [x[13]]
             + x[14..16] + [x[16]] + x[17..19];
  }

  /** The other way round: a text of the canonical length that is read at all is the stored text
      of what it is read as, the zero time apart. */
  lemma {:induction false} ParseFormatRoundTrip(s: string)
    requires |s| == 19 && ParseTime(s).Some?
    ensures var t := ParseTime(s).value; Storable(t / SECOND) && (t != 0 ==> FormatTime(t) == s)
  {
    var c := ReadCivilOnly(s, ' ');
    CivilIsUnique(c);
    assert SecondsOf(c) * SECOND / SECOND == SecondsOf(c);
    assert SqlText(c) == DateText(c) + [' '] + ClockText(c);
  }

  /** East of Greenwich counts positive; the limits are those of the parser. */
  lemma ReadZoneBack(h: int, m: int)
    requires 0 <= h < 100 && 0 <= m < 100
    ensures ReadZone("+" + Two(h) + ":" + Two(m)) == if h <= 24 && m <= 60 then Some(h * 3600 + m * 60) else None
    ensures ReadZone("-" + Two(h) + ":" + Two(m)) == if h <= 24 && m <= 60 then Some(-h * 3600 - m * 60) else None
    ensures ReadZone("Z") == Some(0)
  {
    ReadTwoBack(h);
    ReadTwoBack(m);
    var plus, minus := "+" + Two(h) + ":" + Two(m), "-" + Two(h) + ":" + Two(m);
    assert plus[1..3] == Two(h) && plus[4..6] == Two(m);
    assert minus[1..3] == Two(h) && minus[4..6] == Two(m);
  }

  /** RFC 3339 text of a local date and time with its zone. */
  function LegacyText(c: Civil, zone: string): string
    requires ValidCivil(c)
  {
    DateText(c) + "T" + ClockText(c) + zone
  }

  /** Rows written by older versions are still read as the instant they denote. */
  lemma {:induction false} LegacyTextIsUnderstood(c: Civil, zone: string)
    requires ValidCivil(c) && ReadZone(zone).Some?
    ensures ParseTime(LegacyText(c, zone)) == Some((SecondsOf(c) - ReadZone(zone).value) * SECOND)
  {
    LegacyFields(c, zone);
    ReadCivilBack(c, 'T');
    ParseLonger(LegacyText(c, zone), c);
  }

  lemma ParseLonger(s: string, c: Civil)
    requires |s| >= 19 && ReadCivil(s[..19], 'T') == Some(c) && ReadZone(s[19..]).Some?
    ensures ParseTime(s) == Some((SecondsOf(c) - ReadZone(s[19..]).value) * SECOND)
  {
    assert s[19..] != "";
  }

  lemma LegacyFields(c: Civil, zone: string)
    requires ValidCivil(c)
    ensures |LegacyText(c, zone)| == 19 + |zone|
    ensures LegacyText(c, zone)[..19] == DateText(c) + ['T'] + ClockText(c) && LegacyText(c, zone)[19..] == zone
  {
    DateFields(c);
    ClockFields(c);
  }

  /** But they do not sort: a canonical text comes before an RFC 3339 text exactly when its date
      is not the later one, whatever the times of day.  The two layouts must not be mixed in one
      column. */
  lemma LegacyTextDoesNotSort(a: Civil, b: Civil, zone: string)
    requires ValidCivil(a) && ValidCivil(b)
    ensures TextBefore(SqlText(a), LegacyText(b, zone)) <==> !EarlierDate(b, a)
  {
    DateFields(a);
    DateFields(b);
    SameDate(a, b);
    DateOrder(a, b);
    TextBeforeConcat(DateText(a), DateText(b), " " + ClockText(a), "T" + ClockText(b) + zone);
    assert SqlText(a) == DateText(a) + (" " + ClockText(a));
    assert LegacyText(b, zone) == DateText(b) + ("T" + ClockText(b) + zone);
  }

  /** So for an RFC 3339 text in UTC, which denotes the second SecondsOf(b), the order of texts is
      that of the instants if and only if the dates differ or the canonical text has the earlier
      time of day. */
  lemma LegacyTextSortsIff(a: Civil, b: Civil)
    requires ValidCivil(a) && ValidCivil(b)
    ensures (TextBefore(SqlText(a), LegacyText(b, "Z")) <==> SecondsOf(a) < SecondsOf(b))
            <==> EarlierDate(a, b) || EarlierDate(b, a) || Earlier(a, b)
  {
    LegacyTextDoesNotSort(a, b, "Z");
    EarlierIsFewerSeconds(a, b);
  }
}
