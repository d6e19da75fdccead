/** Proleptic Gregorian dates as Python's `datetime.date` handles them, and
    the day count of `Record.days_to_birthday`
    (BotAssistant/BotAssistant/address_book.py:74-84). */
module Calendar {
  import opened Errors

  datatype Date = Date(year: int, month: int, day: int)

  const MinYear := 1
  const MaxYear := 9999

  predicate IsLeap(y: int) {
    y % 4 == 0 && (y % 100 != 0 || y % 400 == 0)
  }

  function DaysInYear(y: int): int {
    if IsLeap(y) then 366 else 365
  }

  function DaysInMonth(y: int, m: int): int
    requires 1 <= m <= 12
  {
    if m == 2 then (if IsLeap(y) then 29 else 28)
    else if m == 4 || m == 6 || m == 9 || m == 11 then 30
    else 31
  }

  /** What a `date` object can hold. */
  predicate Valid(d: Date) {
    && MinYear <= d.year <= MaxYear
    && 1 <= d.month <= 12
    && 1 <= d.day <= DaysInMonth(d.year, d.month)
  }

  /** Days in the years before `y`. */
  function DaysBeforeYear(y: int): int
    requires y >= 1
  {
    var n := y - 1;
    n * 365 + n / 4 - n / 100 + n / 400
  }

  /** Days in the months of year `y` before month `m`. */
  function DaysBeforeMonth(y: int, m: int): int
    requires 1 <= m <= 12
  {
    var common :=
      if m == 1 then 0 else if m == 2 then 31 else if m == 3 then 59
      else if m == 4 then 90 else if m == 5 then 120 else if m == 6 then 151
      else if m == 7 then 181 else if m == 8 then 212 else if m == 9 then 243
      else if m == 10 then 273 else if m == 11 then 304 else 334;
    common + (if m > 2 && IsLeap(y) then 1 else 0)
  }

  /** `date.toordinal()`: 1 January of year 1 is day 1. */
  function Ordinal(d: Date): int
    requires Valid(d)
  {
    DaysBeforeYear(d.year) + DaysBeforeMonth(d.year, d.month) + d.day
  }

  /** `date.replace(year=y)`: the year range is checked before the day. */
  function Replace(d: Date, y: int): (r: Result<Date>)
    requires Valid(d)
    ensures r.Ok? <==> MinYear <= y <= MaxYear && d.day <= DaysInMonth(y, d.month)
    ensures r.Ok? ==> r.value == Date(y, d.month, d.day) && Valid(r.value)
    ensures y < MinYear || y > MaxYear ==> r == Err(ValueError(YearOutOfRange))
  {
    if y < MinYear || y > MaxYear then Err(ValueError(YearOutOfRange))
    else if d.day > DaysInMonth(y, d.month) then Err(ValueError(DayOutOfRange))
    else Ok(Date(y, d.month, d.day))
  }

  /** The birthday's month and day exist in year `y`. */
  predicate OccursIn(b: Date, y: int)
    requires Valid(b)
  {
    MinYear <= y <= MaxYear && b.day <= DaysInMonth(y, b.month)
  }

  function Occurrence(b: Date, y: int): (d: Date)
    requires Valid(b) && OccursIn(b, y)
    ensures Valid(d)
  {
    Date(y, b.month, b.day)
  }

  /** Stepping from `y - 1` to `y` adds one to `y / k` exactly when `k` divides `y`. */
  lemma DivStep4(y: int)
    requires y >= 1
    ensures y / 4 - (y - 1) / 4 == if y % 4 == 0 then 1 else 0
  {
  }

  lemma DivStep100(y: int)
    requires y >= 1
    ensures y / 100 - (y - 1) / 100 == if y % 100 == 0 then 1 else 0
  {
  }

  lemma DivStep400(y: int)
    requires y >= 1
    ensures y / 400 - (y - 1) / 400 == if y % 400 == 0 then 1 else 0
  {
  }

  lemma Div400Div100(y: int)
    requires y % 400 == 0
    ensures y % 100 == 0
  {
    var q := y / 400;
    assert y == 400 * q;
    assert y == 100 * (4 * q) + 0;
  }

  lemma Div100Div4(y: int)
    requires y % 100 == 0
    ensures y % 4 == 0
  {
    var q := y / 100;
    assert y == 100 * q;
    assert y == 4 * (25 * q) + 0;
  }

  lemma YearStep(y: int)
    requires y >= 1
    ensures DaysBeforeYear(y + 1) == DaysBeforeYear(y) + DaysInYear(y)
  {
    DivStep4(y);
    DivStep100(y);
    DivStep400(y);
    if y % 400 == 0 {
      Div400Div100(y);
    }
    if y % 100 == 0 {
      Div100Div4(y);
    }
  }

  /** A valid date falls inside its own year. */
  lemma WithinYear(d: Date)
    requires Valid(d)
    ensures DaysBeforeYear(d.year) < Ordinal(d) <= DaysBeforeYear(d.year) + DaysInYear(d.year)
  {
  }

  /** Later years start later: year `a` ends before year `b` begins. */
  lemma {:induction false} YearsAscend(a: int, b: int)
    requires 1 <= a < b
    ensures DaysBeforeYear(a) + DaysInYear(a) <= DaysBeforeYear(b)
    decreases b - a
  {
    YearStep(a);
    if a + 1 < b {
      YearsAscend(a + 1, b);
    }
  }

  /** The same month and day one year later is 365 or 366 days away. */
  lemma NextYearGap(b: Date, y: int)
    requires Valid(b) && OccursIn(b, y) && OccursIn(b, y + 1)
    ensures Ordinal(Occurrence(b, y + 1)) - Ordinal(Occurrence(b, y))
         == if b.month <= 2 then DaysInYear(y) else DaysInYear(y + 1)
  {
    YearStep(y);
  }

  /** `days_to_birthday` for a birthday `b` (already parsed) on the day
      `today`: this year's occurrence if it is still ahead, otherwise next
      year's. `replace` raises onto 29 February of a common year, and past
      year 9999. */
  function DaysUntil(b: Date, today: Date): (r: Result<int>)
    requires Valid(b) && Valid(today)
    ensures r.Ok? ==> 1 <= r.value <= 366
    ensures b.month == 2 && b.day == 29 && !IsLeap(today.year) ==> r == Err(ValueError(DayOutOfRange))
  {
    match Replace(b, today.year)
    case Err(e) => Err(e)
    case Ok(thisYear) =>
      var delta := Ordinal(thisYear) - Ordinal(today);
      if delta > 0 then
        WithinYear(thisYear);
        WithinYear(today);
        Ok(delta)
      else
        match Replace(thisYear, today.year + 1)
        case Err(e) => Err(e)
        case Ok(nextYear) =>
          NextYearGap(b, today.year);
          WithinYear(today);
          YearStep(today.year);
          WithinYear(nextYear);
          Ok(Ordinal(nextYear) - Ordinal(today))
  }

  /** `DaysUntil` succeeds exactly when the occurrences it needs exist. */
  lemma DaysUntilDefinedIff(b: Date, today: Date)
    requires Valid(b) && Valid(today)
    ensures DaysUntil(b, today).Ok? <==>
      OccursIn(b, today.year) &&
      (Ordinal(Occurrence(b, today.year)) > Ordinal(today) || OccursIn(b, today.year + 1))
  {
  }

  /** The result lands on an occurrence of the birthday, and no occurrence in
      any year lies strictly between today and it. */
  lemma DaysUntilIsNextOccurrence(b: Date, today: Date)
    requires Valid(b) && Valid(today)
    requires DaysUntil(b, today).Ok?
    ensures exists y :: OccursIn(b, y) && Ordinal(Occurrence(b, y)) == Ordinal(today) + DaysUntil(b, today).value
    ensures forall y :: OccursIn(b, y) && Ordinal(Occurrence(b, y)) > Ordinal(today) ==>
      Ordinal(Occurrence(b, y)) >= Ordinal(today) + DaysUntil(b, today).value
  {
    var k := DaysUntil(b, today).value;
    var t := today.year;
    var here := Occurrence(b, t);
    if Ordinal(here) > Ordinal(today) {
      assert Ordinal(Occurrence(b, t)) == Ordinal(today) + k;
    } else {
      assert OccursIn(b, t + 1);
      assert Ordinal(Occurrence(b, t + 1)) == Ordinal(today) + k;
    }
    forall y | OccursIn(b, y) && Ordinal(Occurrence(b, y)) > Ordinal(today)
      ensures Ordinal(Occurrence(b, y)) >= Ordinal(today) + k
    {
      var d := Occurrence(b, y);
      WithinYear(d);
      WithinYear(today);
      if y < t {
        YearsAscend(y, t);
      } else if y > t + 1 {
        YearsAscend(t + 1, y);
        if Ordinal(here) <= Ordinal(today) {
          WithinYear(Occurrence(b, t + 1));
        } else {
          YearStep(t);
        }
      } else if y == t + 1 && Ordinal(here) > Ordinal(today) {
        YearStep(t);
      }
    }
  }

  /** On the birthday itself the count rolls over to the same date next
      year: a whole year of 365 or 366 days. */
  lemma DaysUntilOnBirthday(b: Date, today: Date)
    requires Valid(b) && Valid(today)
    requires today.month == b.month && today.day == b.day
    ensures DaysUntil(b, today).Ok? <==> OccursIn(b, today.year + 1)
    ensures DaysUntil(b, today).Ok? ==>
      DaysUntil(b, today).value == (if b.month <= 2 then DaysInYear(today.year) else DaysInYear(today.year + 1))
  {
    if OccursIn(b, today.year + 1) {
      NextYearGap(b, today.year);
    }
  }

  /** Born on 1 January, asked on 1 January 2024: 2024 is a leap year, so
      the next birthday is 366 days away. */
  lemma NewYearIn2024()
    ensures DaysUntil(Date(2000, 1, 1), Date(2024, 1, 1)) == Ok(366)
  {
    DaysUntilOnBirthday(Date(2000, 1, 1), Date(2024, 1, 1));
  }
}
