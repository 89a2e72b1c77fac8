/** Calendar days as numbers, day 0 being the first of January of year 1, and the Gregorian year of a day. */
module Calendar {
  /** The number of the first day of a year. */
  function FirstDay(year: int): int {
    var elapsed := year - 1;
    365 * elapsed + elapsed / 4 - elapsed / 100 + elapsed / 400
  }

  predicate IsLeap(year: int) {
    year % 4 == 0 && (year % 100 != 0 || year % 400 == 0)
  }

  lemma StepByFour(n: int)
    ensures n / 4 - (n - 1) / 4 == if n % 4 == 0 then 1 else 0
  {
  }

  lemma StepByHundred(n: int)
    ensures n / 100 - (n - 1) / 100 == if n % 100 == 0 then 1 else 0
  {
  }

  lemma StepByFourHundred(n: int)
    ensures n / 400 - (n - 1) / 400 == if n % 400 == 0 then 1 else 0
  {
  }

  lemma Centuries(n: int)
    ensures n % 100 == 0 ==> n % 4 == 0
    ensures n % 400 == 0 ==> n % 100 == 0
  {
    if n % 100 == 0 {
      assert n == 4 * (25 * (n / 100));
    }
    if n % 400 == 0 {
      assert n == 100 * (4 * (n / 400));
    }
  }

  lemma YearsHaveDays(year: int)
    ensures FirstDay(1) == 0
    ensures FirstDay(year + 1) - FirstDay(year) == if IsLeap(year) then 366 else 365
  {
    StepByFour(year);
    StepByHundred(year);
    StepByFourHundred(year);
    Centuries(year);
  }

  lemma {:induction false} FirstDayIsMonotone(year: int, later: int)
    requires year <= later
    ensures FirstDay(year) + 365 * (later - year) <= FirstDay(later)
    decreases later - year
  {
    hide FirstDay;
    if year == later {
    } else {
      YearsHaveDays(year);
      FirstDayIsMonotone(year + 1, later);
    }
  }

  /** A year that does not start after the day. */
  function YearBefore(day: int): (year: int)
    ensures FirstDay(year) <= day
  {
    if day >= 0 then day / 366 + 1 else day / 365 + 1
  }

  /** The first year from the given one on that the day does not outlast. */
  function YearFrom(year: int, day: int): (found: int)
    requires FirstDay(year) <= day
    ensures FirstDay(found) <= day < FirstDay(found + 1)
    decreases day - FirstDay(year)
  {
    YearsHaveDays(year);
    if day < FirstDay(year + 1) then year else YearFrom(year + 1, day)
  }

  function YearOf(day: int): (year: int)
    ensures FirstDay(year) <= day < FirstDay(year + 1)
  {
    YearFrom(YearBefore(day), day)
  }

  /** A day is in the one year that starts no later and ends after it. */
  lemma YearIsUnique(day: int, year: int)
    requires FirstDay(year) <= day < FirstDay(year + 1)
    ensures YearOf(day) == year
  {
    hide FirstDay;
    var found := YearOf(day);
    if found < year {
      FirstDayIsMonotone(found + 1, year);
    } else if year < found {
      FirstDayIsMonotone(year + 1, found);
    }
  }

  /** A later day is never in an earlier year. */
  lemma YearIsMonotone(day: int, later: int)
    requires day <= later
    ensures YearOf(day) <= YearOf(later)
  {
    hide FirstDay;
    var year, found := YearOf(day), YearOf(later);
    if found < year {
      FirstDayIsMonotone(found + 1, year);
    }
  }
}
