/** Conversion between seconds since 1970 and calendar fields (mygmtime.c), against a calendar that counts day
    by day and takes every fourth year for a leap year. */
module Calendar {
  const DAY_SEC := 24 * 60 * 60
  const YEAR_SEC := 365 * DAY_SEC
  const FOUR_YEAR_SEC := 1461 * DAY_SEC
  const BASE_DOW := 4
  const BASE_YEAR := 70
  const MAX_YEAR := 138
  const LEAP_YEAR_ADJUST := 17

  /** Days before a month, minus one. */
  const LPDAYS: seq<int> := [-1, 30, 59, 90, 120, 151, 181, 212, 243, 273, 304, 334, 365]
  const DAYS: seq<int> := [-1, 30, 58, 89, 119, 150, 180, 211, 242, 272, 303, 333, 364]

  // ---------------------------------------------------------------- day by day

  /** A day: the year since 1900, the month from 0, the day of the month from 1, the days since 1 January and
      since Sunday. */
  datatype Date = Date(year: int, mon: int, mday: int, yday: int, wday: int)

  predicate IsLeap(year: int) {
    year % 4 == 0
  }

  function MonthLength(year: int, mon: int): int {
    if mon == 1 then (if IsLeap(year) then 29 else 28)
    else if mon == 3 || mon == 5 || mon == 8 || mon == 10 then 30
    else 31
  }

  function Tomorrow(d: Date): Date {
    var wday := if d.wday == 6 then 0 else d.wday + 1;
    if d.mday < MonthLength(d.year, d.mon) then Date(d.year, d.mon, d.mday + 1, d.yday + 1, wday)
    else if d.mon < 11 then Date(d.year, d.mon + 1, 1, d.yday + 1, wday)
    else Date(d.year + 1, 0, 1, 0, wday)
  }

  /** The day `n` days after Thursday, 1 January 1970. */
  function Day(n: nat): Date {
    if n == 0 then Date(BASE_YEAR, 0, 1, 0, BASE_DOW) else Tomorrow(Day(n - 1))
  }

  // ---------------------------------------------------------------- the tables against the calendar

  function Table(year: int): (r: seq<int>)
    ensures |r| == 13
  {
    if IsLeap(year) then LPDAYS else DAYS
  }

  /** A day that exists, with the day of the year that the tables give. */
  predicate Exists(d: Date) {
    && 0 <= d.mon <= 11 && 1 <= d.mday <= MonthLength(d.year, d.mon) && 0 <= d.wday <= 6
    && d.yday == Table(d.year)[d.mon] + d.mday
  }

  /** The days from 1970 to a year. */
  function YearStart(year: int): int {
    (year - BASE_YEAR) * 365 + (year - 1) / 4 - LEAP_YEAR_ADJUST
  }

  function YearLength(year: int): int {
    if IsLeap(year) then 366 else 365
  }

  lemma NextYear(year: int)
    ensures YearStart(year + 1) == YearStart(year) + YearLength(year)
  {
  }

  /** The tables are the sums of the lengths of the months. */
  lemma TablesAddUp(year: int, mon: int)
    requires 0 <= mon <= 11
    ensures Table(year)[mon + 1] == Table(year)[mon] + MonthLength(year, mon)
    ensures Table(year)[0] == -1 && Table(year)[12] == YearLength(year) - 1
  {
  }

  lemma TomorrowExists(d: Date)
    requires Exists(d)
    ensures Exists(Tomorrow(d))
    ensures YearStart(Tomorrow(d).year) + Tomorrow(d).yday == YearStart(d.year) + d.yday + 1
  {
    TablesAddUp(d.year, d.mon);
    NextYear(d.year);
    TablesAddUp(d.year + 1, 0);
  }

  /** The days of the calendar exist, and are numbered by the formula that mygmktime uses. */
  lemma {:induction false} DayIsNumbered(n: nat)
    ensures Exists(Day(n)) && YearStart(Day(n).year) + Day(n).yday == n && Day(n).wday == (n + BASE_DOW) % 7
  {
    if n == 0 {
      assert YearStart(BASE_YEAR) == 0;
    } else {
      DayIsNumbered(n - 1);
      TomorrowExists(Day(n - 1));
      WeekDay(n);
    }
  }

  lemma WeekDay(n: nat)
    requires n > 0
    ensures (n + BASE_DOW) % 7 == if (n - 1 + BASE_DOW) % 7 == 6 then 0 else (n - 1 + BASE_DOW) % 7 + 1
  {
  }

  lemma {:induction false} YearsAscend(a: int, b: int)
    requires a < b
    ensures YearStart(a) + YearLength(a) <= YearStart(b)
    decreases b - a
  {
    NextYear(a);
    if a + 1 < b {
      YearsAscend(a + 1, b);
    }
  }

  lemma {:induction false} MonthsAscend(year: int, a: int, b: int)
    requires 0 <= a < b <= 12
    ensures Table(year)[a + 1] <= Table(year)[b]
    decreases b - a
  {
    if a + 1 < b {
      TablesAddUp(year, a + 1);
      MonthsAscend(year, a + 1, b);
    }
  }

  lemma YdayInYear(d: Date)
    requires Exists(d)
    ensures 0 <= d.yday < YearLength(d.year)
    ensures Table(d.year)[d.mon] < d.yday <= Table(d.year)[d.mon + 1]
  {
    TablesAddUp(d.year, d.mon);
    if d.mon > 0 {
      TablesAddUp(d.year, 0);
      MonthsAscend(d.year, 0, d.mon);
    }
    MonthsAscend(d.year, d.mon, 12);
  }

  /** A day that exists is the only one of its number, but for the day of the week. */
  lemma NumberIsUnique(d: Date, d': Date)
    requires Exists(d) && Exists(d') && YearStart(d.year) + d.yday == YearStart(d'.year) + d'.yday && d.wday == d'.wday
    ensures d == d'
  {
    YdayInYear(d);
    YdayInYear(d');
    if d.year < d'.year {
      YearsAscend(d.year, d'.year);
    } else if d'.year < d.year {
      YearsAscend(d'.year, d.year);
    } else if d.mon < d'.mon {
      MonthsAscend(d.year, d.mon, d'.mon);
    } else if d'.mon < d.mon {
      MonthsAscend(d.year, d'.mon, d.mon);
    }
  }

  // ---------------------------------------------------------------- times

  /** The fields of struct tm. */
  datatype Fields = Fields(date: Date, hour: int, min: int, sec: int, isdst: int)

  /** The fields of a time: the day that the calendar reaches, and the time of the day. */
  function FieldsOf(t: nat): Fields {
    var s := t % DAY_SEC;
    Fields(Day(t / DAY_SEC), s / 3600, s % 3600 / 60, s % 60, 0)
  }

  /** The seconds from 1970 to the fields, with carries out of any of them; the days of the week and of the
      year are not looked at. */
  function Carried(f: Fields): int {
    var year, mon := f.date.year + f.date.mon / 12, f.date.mon % 12;
    (((YearStart(year) + Table(year)[mon] + f.date.mday) * 24 + f.hour) * 60 + f.min) * 60 + f.sec
  }

  /** The years that mygmktime takes, from 1969 to 2039. */
  predicate YearInRange(year: int) {
    69 <= year <= 139
  }

  /** A carry out of a field is a carry into the next: twelve months are a year, and days, hours and minutes are
      as long as one knows. */
  lemma CarryIsTime(f: Fields, k: int)
    ensures Carried(f.(date := f.date.(mon := f.date.mon + 12 * k))) == Carried(f.(date := f.date.(year := f.date.year + k)))
    ensures Carried(f.(date := f.date.(mday := f.date.mday + k))) == Carried(f) + 86400 * k
    ensures Carried(f.(hour := f.hour + k)) == Carried(f) + 3600 * k
    ensures Carried(f.(min := f.min + k)) == Carried(f) + 60 * k
    ensures Carried(f.(sec := f.sec + k)) == Carried(f) + k
  {
    Twelve(f.date.mon, k);
    assert f.date.year + (f.date.mon + 12 * k) / 12 == f.date.year + k + f.date.mon / 12;
  }

  lemma Twelve(mon: int, k: int)
    ensures (mon + 12 * k) / 12 == mon / 12 + k && (mon + 12 * k) % 12 == mon % 12
  {
  }

  /** The day of a number is the one that exists with that number, on the right day of the week. */
  lemma DayOfNumber(n: nat, d: Date)
    requires Exists(d) && YearStart(d.year) + d.yday == n && d.wday == (n + BASE_DOW) % 7
    ensures Day(n) == d
  {
    DayIsNumbered(n);
    NumberIsUnique(Day(n), d);
  }

  /** 1 January 2000 is 10957 days after 1 January 1970, and was a Saturday. */
  lemma KnownDay()
    ensures exists n :: n == 10957 && Day(n) == Date(100, 0, 1, 0, 6)
  {
    var n, d := YearStart(100), Date(100, 0, 1, 0, 6);
    assert n == 10957 && (10957 + 4) % 7 == 6;
    DayOfNumber(n, d);
  }

  lemma SecondsOfDay(t: nat)
    ensures ((t / DAY_SEC * 24 + t % DAY_SEC / 3600) * 60 + t % DAY_SEC % 3600 / 60) * 60 + t % DAY_SEC % 60 == t
  {
    var d, s := t / DAY_SEC, t % DAY_SEC;
    var h, m := s / 3600, s % 3600;
    assert t == d * DAY_SEC + s && s == h * 3600 + m && m == m / 60 * 60 + m % 60;
    assert s % 60 == m % 60;
  }

  /** Converting a time to fields and back gives the time. */
  lemma FieldsRoundTrip(t: nat)
    ensures Carried(FieldsOf(t)) == t
  {
    DayIsNumbered(t / DAY_SEC);
    SecondsOfDay(t);
  }

  predicate InRange(f: Fields) {
    Exists(f.date) && 0 <= f.hour <= 23 && 0 <= f.min <= 59 && 0 <= f.sec <= 59 && f.isdst == 0
  }

  lemma FieldsInRange(t: nat)
    ensures InRange(FieldsOf(t))
  {
    DayIsNumbered(t / DAY_SEC);
  }

  lemma SplitTime(n: int, s: int)
    requires 0 <= s < DAY_SEC
    ensures (n * DAY_SEC + s) / DAY_SEC == n && (n * DAY_SEC + s) % DAY_SEC == s
  {
  }

  lemma SplitDay(s: int, hour: int, min: int, sec: int)
    requires s == (hour * 60 + min) * 60 + sec && 0 <= min <= 59 && 0 <= sec <= 59
    ensures s / 3600 == hour && s % 3600 == min * 60 + sec && s % 3600 / 60 == min && s % 60 == sec
  {
    var m := min * 60 + sec;
    assert s == hour * 3600 + m && 0 <= m < 3600;
    assert m / 60 == min && m % 60 == sec;
  }

  /** Fields that are in range, on the right day of the week, are those of their time. */
  lemma InRangeIsFieldsOf(f: Fields)
    requires InRange(f) && 0 <= Carried(f) && f.date.wday == (Carried(f) / DAY_SEC + BASE_DOW) % 7
    ensures FieldsOf(Carried(f)) == f
  {
    var n, s := YearStart(f.date.year) + f.date.yday, (f.hour * 60 + f.min) * 60 + f.sec;
    var t := Carried(f);
    assert t == n * DAY_SEC + s && 0 <= s < DAY_SEC;
    SplitTime(n, s);
    YdayInYear(f.date);
    DayIsNumbered(n);
    NumberIsUnique(f.date, Day(n));
    SplitDay(s, f.hour, f.min, f.sec);
  }

  // ---------------------------------------------------------------- struct tm

  /** Division of C, which rounds toward zero, and its remainder. */
  function Quotient(a: int, b: int): int
    requires b > 0
  {
    if a >= 0 then a / b else -(-a / b)
  }

  function Remainder(a: int, b: int): int
    requires b > 0
  {
    a - b * Quotient(a, b)
  }

  lemma MonthCarry(mon: int)
    ensures var q, r := Quotient(mon, 12), Remainder(mon, 12);
      if r < 0 then mon / 12 == q - 1 && mon % 12 == r + 12 else mon / 12 == q && mon % 12 == r
  {
  }

  /** The year of an interval of four that starts with 1970, 1974 and so on. */
  lemma YearOfInterval(q: nat, k: int)
    requires 0 <= k <= 3
    ensures IsLeap(BASE_YEAR + 4 * q + k) <==> k == 2
    ensures YearStart(BASE_YEAR + 4 * q + k) == 1461 * q + 365 * k + (if k == 3 then 1 else 0)
  {
  }

  lemma DayOfYear(t: int, start: int, caltim: int, length: int)
    requires 0 <= caltim < length * DAY_SEC && t == start * DAY_SEC + caltim
    ensures 0 <= caltim / DAY_SEC < length
    ensures 0 <= caltim - caltim / DAY_SEC * DAY_SEC < DAY_SEC
    ensures t - (start + caltim / DAY_SEC) * DAY_SEC == caltim - caltim / DAY_SEC * DAY_SEC
    ensures t / DAY_SEC == start + caltim / DAY_SEC
  {
  }

  class Tm {
    var tm_sec: int
    var tm_min: int
    var tm_hour: int
    var tm_mday: int
    var tm_mon: int
    var tm_year: int
    var tm_wday: int
    var tm_yday: int
    var tm_isdst: int

    function Get(): Fields
      reads this
    {
      Fields(Date(tm_year, tm_mon, tm_mday, tm_yday, tm_wday), tm_hour, tm_min, tm_sec, tm_isdst)
    }

    constructor (f: Fields)
      ensures Get() == f
    {
      tm_sec, tm_min, tm_hour, tm_isdst := f.sec, f.min, f.hour, f.isdst;
      tm_mday, tm_mon, tm_year, tm_wday, tm_yday := f.date.mday, f.date.mon, f.date.year, f.date.wday, f.date.yday;
    }

    /** mygmtime; a time before 1970 is refused. */
    method MyGmTime(timp: int) returns (ok: bool)
      modifies this
      ensures ok == (timp >= 0) && (ok ==> Get() == FieldsOf(timp)) && (!ok ==> Get() == old(Get()))
    {
      if timp < 0 {
        return false;
      }
      var year, caltim, islpyr := FindYear(timp);
      DayOfYear(timp, YearStart(year), caltim, YearLength(year));
      tm_year := year;
      tm_yday := caltim / DAY_SEC;
      caltim := caltim - tm_yday * DAY_SEC;
      var mdays := if islpyr then LPDAYS else DAYS;
      var mon := FindMonth(mdays, tm_yday, year);
      TablesAddUp(year, mon);
      tm_mon := mon;
      tm_mday := tm_yday - mdays[mon];
      tm_wday := (timp / DAY_SEC + BASE_DOW) % 7;
      tm_hour := caltim / 3600;
      caltim := caltim - tm_hour * 3600;
      tm_min := caltim / 60;
      tm_sec := caltim - tm_min * 60;
      tm_isdst := 0;
      TimeIsRight(timp, Get());
      return true;
    }
  }

  /** The year of a time, the seconds since its start, and whether it is a leap year. */
  method FindYear(timp: int) returns (year: int, caltim: int, islpyr: bool)
    requires timp >= 0
    ensures islpyr == IsLeap(year)
    ensures year >= BASE_YEAR && 0 <= caltim < YearLength(year) * DAY_SEC && timp == YearStart(year) * DAY_SEC + caltim
  {
    var q := timp / FOUR_YEAR_SEC;
    caltim := timp - q * FOUR_YEAR_SEC;
    year := q * 4 + 70;
    islpyr := false;
    YearOfInterval(q, 0);
    YearOfInterval(q, 1);
    YearOfInterval(q, 2);
    YearOfInterval(q, 3);
    if caltim >= YEAR_SEC {
      year := year + 1;
      caltim := caltim - YEAR_SEC;
      if caltim >= YEAR_SEC {
        year := year + 1;
        caltim := caltim - YEAR_SEC;
        if caltim >= YEAR_SEC + DAY_SEC {
          year := year + 1;
          caltim := caltim - (YEAR_SEC + DAY_SEC);
        } else {
          islpyr := true;
        }
      }
    }
  }

  /** The month of a day of the year. */
  method FindMonth(mdays: seq<int>, yday: int, ghost year: int) returns (mon: int)
    requires mdays == Table(year) && 0 <= yday < YearLength(year)
    ensures 0 <= mon <= 11 && mdays[mon] < yday <= mdays[mon + 1]
  {
    var tmptim := 1;
    while mdays[tmptim] < yday
      invariant 1 <= tmptim <= 12 && mdays[tmptim - 1] < yday
      decreases 13 - tmptim
    {
      tmptim := tmptim + 1;
    }
    mon := tmptim - 1;
  }

  lemma MinutesAndSeconds(s: int)
    requires 0 <= s < DAY_SEC
    ensures var m := s - s / 3600 * 3600; 0 <= m / 60 <= 59 && 0 <= m - m / 60 * 60 <= 59
  {
  }

  lemma TimeIsRight(t: nat, f: Fields)
    requires Exists(f.date) && f.date.wday == (t / DAY_SEC + BASE_DOW) % 7 && f.isdst == 0
    requires var s := t - (YearStart(f.date.year) + f.date.yday) * DAY_SEC;
      0 <= s < DAY_SEC && f.hour == s / 3600 && f.min == (s - f.hour * 3600) / 60 && f.sec == s - f.hour * 3600 - f.min * 60
    ensures FieldsOf(t) == f
  {
    var n := YearStart(f.date.year) + f.date.yday;
    var s := t - n * DAY_SEC;
    SplitTime(n, s);
    DayIsNumbered(n);
    NumberIsUnique(f.date, Day(n));
    MinutesAndSeconds(s);
    SplitDay(s, f.hour, f.min, f.sec);
  }

  /** mygmktime: the time of the fields, which are replaced by those in range; or -1, for a year that is out of
      range or a time before 1970, when only the month has been brought into range, unless the year was out of range to
      begin with. */
  method MyGmkTime(tb: Tm) returns (t: int)
    modifies tb
    ensures var f := old(tb.Get());
      var ok := YearInRange(f.date.year) && YearInRange(f.date.year + f.date.mon / 12) && Carried(f) >= 0;
      if ok then t == Carried(f) && tb.Get() == FieldsOf(t)
      else t == -1 && tb.Get() == if YearInRange(f.date.year) then f.(date := f.date.(mon := f.date.mon % 12)) else f
  {
    ghost var f := tb.Get();
    var tmptm1 := tb.tm_year;
    if tmptm1 < BASE_YEAR - 1 || tmptm1 > MAX_YEAR + 1 {
      return -1;
    }
    MonthCarry(tb.tm_mon);
    if tb.tm_mon < 0 || tb.tm_mon > 11 {
      tmptm1 := tmptm1 + Quotient(tb.tm_mon, 12);
      tb.tm_mon := Remainder(tb.tm_mon, 12);
      if tb.tm_mon < 0 {
        tb.tm_mon := tb.tm_mon + 12;
        tmptm1 := tmptm1 - 1;
      }
      if tmptm1 < BASE_YEAR - 1 || tmptm1 > MAX_YEAR + 1 {
        return -1;
      }
    }
    ghost var year, mon := f.date.year + f.date.mon / 12, f.date.mon % 12;
    assert tmptm1 == year && tb.tm_mon == mon;
    LeapDays(tmptm1, tb.tm_mon);
    var tmptm2 := DAYS[tb.tm_mon];
    if tmptm1 % 4 == 0 && tb.tm_mon > 1 {
      tmptm2 := tmptm2 + 1;
    }
    var tmptm3 := (tmptm1 - BASE_YEAR) * 365 + (tmptm1 - 1) / 4 - LEAP_YEAR_ADJUST + tmptm2;
    assert tmptm3 == YearStart(year) + Table(year)[mon];
    tmptm1 := tmptm3 + tb.tm_mday;
    tmptm1 := tmptm1 * 24 + tb.tm_hour;
    tmptm1 := tmptm1 * 60 + tb.tm_min;
    tmptm1 := tmptm1 * 60 + tb.tm_sec;
    assert tmptm1 == Carried(f);
    var tbtemp := new Tm(tb.Get());
    var ok := tbtemp.MyGmTime(tmptm1);
    if !ok {
      return -1;
    }
    tb.tm_sec, tb.tm_min, tb.tm_hour, tb.tm_isdst := tbtemp.tm_sec, tbtemp.tm_min, tbtemp.tm_hour, tbtemp.tm_isdst;
    tb.tm_mday, tb.tm_mon, tb.tm_year, tb.tm_wday, tb.tm_yday := tbtemp.tm_mday, tbtemp.tm_mon, tbtemp.tm_year, tbtemp.tm_wday, tbtemp.tm_yday;
    return tmptm1;
  }

  /** The table of common years, with the leap day added behind February, is the table of leap years. */
  lemma LeapDays(year: int, mon: int)
    requires 0 <= mon <= 11
    ensures Table(year)[mon] == DAYS[mon] + if IsLeap(year) && mon > 1 then 1 else 0
  {
  }

  /** For every time up to the end of 2039: the fields of a time convert back to it and stay as they are. */
  method ThereAndBack(t: nat, tb: Tm) returns (back: int)
    requires Day(t / DAY_SEC).year <= 139
    modifies tb
    ensures back == t && tb.Get() == FieldsOf(t)
  {
    var ok := tb.MyGmTime(t);
    FieldsRoundTrip(t);
    DayIsNumbered(t / DAY_SEC);
    YearsFrom1970(t / DAY_SEC);
    back := MyGmkTime(tb);
  }

  lemma {:induction false} YearsFrom1970(n: nat)
    ensures Day(n).year >= BASE_YEAR
  {
    if n > 0 {
      YearsFrom1970(n - 1);
    }
  }
}
