// Age and eligibility (blindage/issuer/eligibility.py).
module Eligibility {
  import opened Schemas

  datatype Date = Date(year: int, month: int, day: int)

  predicate IsLeap(year: int)
  {
    year % 4 == 0 && (year % 100 != 0 || year % 400 == 0)
  }

  function DaysIn(year: int, month: int): int
  {
    if month == 2 then (if IsLeap(year) then 29 else 28)
    else if month == 4 || month == 6 || month == 9 || month == 11 then 30
    else 31
  }

  predicate ValidDate(d: Date)
  {
    1 <= d.month <= 12 && 1 <= d.day <= DaysIn(d.year, d.month)
  }

  predicate AtLeast(d: Date, e: Date)
  {
    d.year > e.year || (d.year == e.year && (d.month > e.month || (d.month == e.month && d.day >= e.day)))
  }

  function AgeInYears(birth: Date, today: Date): int
  {
    var years := today.year - birth.year;
    if today.month > birth.month || (today.month == birth.month && today.day >= birth.day) then years else years - 1
  }

  function EligibleClaims(birth: Date, today: Date): set<AgeClaim>
  {
    set c: AgeClaim | AgeInYears(birth, today) >= MinAge(c)
  }

  /** The day a person turns n: someone born on 29 February turns n on 1 March outside leap years. */
  function Birthday(birth: Date, n: int): Date
  {
    if birth.month == 2 && birth.day == 29 && !IsLeap(birth.year + n) then Date(birth.year + n, 3, 1)
    else Date(birth.year + n, birth.month, birth.day)
  }

  /** The age reaches n exactly on the n-th birthday. */
  lemma AgeReached(birth: Date, today: Date, n: int)
    requires ValidDate(birth) && ValidDate(today)
    ensures AgeInYears(birth, today) >= n <==> AtLeast(today, Birthday(birth, n))
  {
    hide IsLeap;
    if today.year == birth.year + n && birth.month == 2 && birth.day == 29 && !IsLeap(today.year) {
      assert today.month == 2 ==> today.day <= 28;
    }
  }

  /** Eligibility is decided by birthdays, reaches down to every younger claim, and is never lost. */
  lemma EligibleExact(birth: Date, today: Date, later: Date, c: AgeClaim, d: AgeClaim)
    requires ValidDate(birth) && ValidDate(today)
    ensures c in EligibleClaims(birth, today) <==> AtLeast(today, Birthday(birth, MinAge(c)))
    ensures c in EligibleClaims(birth, today) && MinAge(d) <= MinAge(c) ==> d in EligibleClaims(birth, today)
    ensures c in EligibleClaims(birth, today) && AtLeast(later, today) ==> c in EligibleClaims(birth, later)
  {
    AgeReached(birth, today, MinAge(c));
  }
}
