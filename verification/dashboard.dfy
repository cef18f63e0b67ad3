/**
 * The energy estimates of the dashboard page (src/app/dashboard/page.tsx):
 * age from the birth date, basal metabolic rate by the Harris-Benedict
 * equation, and total daily energy expenditure. "Today" is a parameter.
 */
module Dashboard {
  import opened Options
  import opened Numbers
  import opened Types

  // ---------------------------------------------------------------------------
  // Age

  /**
   * `calculateAge`: the difference of the years, less one when today's
   * (month, day) comes before the birth (month, day).
   */
  function CalculateAge(birth: CalendarDate, today: CalendarDate): (age: int)
    ensures age == today.year - birth.year || age == today.year - birth.year - 1
    ensures OnOrBefore(birth, today) ==> age >= 0
  {
    var age := today.year - birth.year;
    var monthDiff := today.month - birth.month;
    if monthDiff < 0 || (monthDiff == 0 && today.day < birth.day) then age - 1 else age
  }

  /** `a` is the same calendar date as `b` or an earlier one. */
  predicate OnOrBefore(a: CalendarDate, b: CalendarDate)
  {
    || a.year < b.year
    || (a.year == b.year && a.month < b.month)
    || (a.year == b.year && a.month == b.month && a.day <= b.day)
  }

  /** The `n`-th anniversary of `birth` falls on or before `today`. */
  predicate AnniversaryReached(birth: CalendarDate, today: CalendarDate, n: int)
  {
    OnOrBefore(CalendarDate(birth.year + n, birth.month, birth.day), today)
  }

  /**
   * The age is the number of completed years: exactly the anniversaries up
   * to the age have been reached.
   */
  lemma AgeIsCompletedYears(birth: CalendarDate, today: CalendarDate, n: int)
    ensures AnniversaryReached(birth, today, n) <==> n <= CalculateAge(birth, today)
  {
  }

  /** The age falls one short of the year difference exactly before this year's birthday. */
  lemma AgeBeforeBirthday(birth: CalendarDate, today: CalendarDate)
    ensures CalculateAge(birth, today) == today.year - birth.year - 1
        <==> (today.month < birth.month || (today.month == birth.month && today.day < birth.day))
    ensures CalculateAge(birth, today) != today.year - birth.year
        ==> CalculateAge(birth, today) == today.year - birth.year - 1
  {
  }

  /** On the birthday the age is the year difference; on the birth date itself it is zero. */
  lemma AgeOnBirthday(birth: CalendarDate, today: CalendarDate)
    requires today.month == birth.month && today.day == birth.day
    ensures CalculateAge(birth, today) == today.year - birth.year
    ensures today == birth ==> CalculateAge(birth, today) == 0
  {
  }

  // ---------------------------------------------------------------------------
  // Basal metabolic rate

  /** The Harris-Benedict male equation with the body weight fixed at 65 kg. */
  function MaleBmrFormula(height: real, age: real): real
  {
    13.397 * 65.0 + 4.799 * height - 5.677 * age + 88.362
  }

  /** The Harris-Benedict female equation with the body weight fixed at 65 kg. */
  function FemaleBmrFormula(height: real, age: real): real
  {
    9.247 * 65.0 + 3.098 * height - 4.330 * age + 447.593
  }

  /** The equation a profile gets: the male one only for `male`, the female one otherwise. */
  function BmrFormula(gender: Option<Gender>, height: real, age: real): real
  {
    if gender == Some(Male) then MaleBmrFormula(height, age) else FemaleBmrFormula(height, age)
  }

  /** The height the arithmetic sees: a null height multiplies as 0. */
  function HeightValue(p: UserProfile): real
  {
    p.height.GetOr(0.0)
  }

  /**
   * `calculateBMR`: 0 without a profile; otherwise the gender's equation at
   * the profile's height and age, rounded to the nearest integer.
   */
  function CalculateBmr(profile: Option<UserProfile>, today: CalendarDate): (r: int)
    ensures profile == None ==> r == 0
    ensures profile.Some? ==>
      var p := profile.value;
      var f := BmrFormula(p.gender, HeightValue(p), CalculateAge(p.birthDate, today) as real);
      f - 0.5 < r as real <= f + 0.5
  {
    match profile
    case None => 0
    case Some(p) =>
      var age := CalculateAge(p.birthDate, today) as real;
      var height := HeightValue(p);
      if p.gender == Some(Male) then
        Round(13.397 * 65.0 + 4.799 * height - 5.677 * age + 88.362)
      else
        Round(9.247 * 65.0 + 3.098 * height - 4.330 * age + 447.593)
  }

  /** For a fixed gender, the rounded rate never falls as height grows or as age falls. */
  lemma BmrMonotone(gender: Option<Gender>, h1: real, h2: real, age1: real, age2: real)
    requires h1 <= h2 && age1 >= age2
    ensures Round(BmrFormula(gender, h1, age1)) <= Round(BmrFormula(gender, h2, age2))
  {
    RoundMonotone(BmrFormula(gender, h1, age1), BmrFormula(gender, h2, age2));
  }

  /** A taller profile, otherwise identical, never gets a lower basal rate. */
  lemma BmrNonDecreasingInHeight(p: UserProfile, h1: real, h2: real, today: CalendarDate)
    requires h1 <= h2
    ensures CalculateBmr(Some(p.(height := Some(h1))), today) <= CalculateBmr(Some(p.(height := Some(h2))), today)
  {
    var age := CalculateAge(p.birthDate, today) as real;
    BmrMonotone(p.gender, h1, h2, age, age);
  }

  /** The same profile one day later never gets a higher basal rate, since the age can only grow. */
  lemma BmrNonIncreasingWithAge(p: UserProfile, t1: CalendarDate, t2: CalendarDate)
    requires OnOrBefore(t1, t2)
    ensures CalculateBmr(Some(p), t2) <= CalculateBmr(Some(p), t1)
  {
    var a1, a2 := CalculateAge(p.birthDate, t1), CalculateAge(p.birthDate, t2);
    assert a1 <= a2 by {
      AgeIsCompletedYears(p.birthDate, t1, a1);
      AgeIsCompletedYears(p.birthDate, t2, a1);
    }
    BmrMonotone(p.gender, HeightValue(p), HeightValue(p), a2 as real, a1 as real);
  }

  // ---------------------------------------------------------------------------
  // Total daily energy expenditure

  /** The activity multiplier; an unknown or missing level falls back to 1.2. */
  function ActivityMultiplier(level: Option<string>): (k: real)
    ensures 1.2 <= k <= 1.9
  {
    match level
    case Some("sedentary") => 1.2
    case Some("lightly_active") => 1.375
    case Some("moderately_active") => 1.55
    case Some("very_active") => 1.725
    case Some("extra_active") => 1.9
    case _ => 1.2
  }

  /** The five level names the multiplier table knows. */
  predicate KnownActivityLevel(level: string)
  {
    level in {"sedentary", "lightly_active", "moderately_active", "very_active", "extra_active"}
  }

  /** A level outside the table, or none at all, uses the sedentary multiplier. */
  lemma UnknownActivityIsSedentary(level: Option<string>)
    requires level == None || !KnownActivityLevel(level.value)
    ensures ActivityMultiplier(level) == ActivityMultiplier(Some("sedentary")) == 1.2
  {
  }

  /**
   * `calculateTDEE`: 0 without a profile; otherwise the basal rate times the
   * activity multiplier, rounded to the nearest integer.
   */
  function CalculateTdee(profile: Option<UserProfile>, today: CalendarDate): (r: int)
    ensures profile == None ==> r == 0
    ensures profile.Some? ==>
      var e := CalculateBmr(profile, today) as real * ActivityMultiplier(profile.value.activityLevel);
      e - 0.5 < r as real <= e + 0.5
  {
    match profile
    case None => 0
    case Some(p) =>
      var bmr := CalculateBmr(profile, today);
      Round(bmr as real * ActivityMultiplier(p.activityLevel))
  }

  /** With a non-negative basal rate the daily expenditure is never below it. */
  lemma TdeeAtLeastBmr(p: UserProfile, today: CalendarDate)
    requires CalculateBmr(Some(p), today) >= 0
    ensures CalculateTdee(Some(p), today) >= CalculateBmr(Some(p), today)
  {
    var bmr := CalculateBmr(Some(p), today);
    var k := ActivityMultiplier(p.activityLevel);
    assert bmr as real * k >= bmr as real * 1.2;
    RoundMonotone(bmr as real, bmr as real * k);
  }
}
