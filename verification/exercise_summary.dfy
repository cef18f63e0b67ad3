/**
 * The weekly and monthly exercise summaries of
 * src/components/exercise/ExerciseSummary.tsx, taken out of the component
 * as functions of the exercise list and the current time `now` (ms):
 * exercises starting at or after `now` minus 7 (or 30) days are counted,
 * their calories and minutes summed, and their types tallied.
 */
module ExerciseSummary {
  import opened Options
  import opened Types
  import Grouping

  /** Milliseconds in a day. */
  const DayMs: int := 24 * 60 * 60 * 1000

  /** Milliseconds in a minute. */
  const MinuteMs: int := 1000 * 60

  datatype Summary = Summary(
    totalExercises: nat,
    totalCalories: real,
    totalMinutes: real,
    byType: map<string, nat>)

  /** The exercises that started at or after `since`, in input order. */
  function InWindow(exercises: seq<Exercise>, since: int): (w: seq<Exercise>)
    ensures |w| <= |exercises|
  {
    if |exercises| == 0 then []
    else
      var e := exercises[|exercises| - 1];
      InWindow(exercises[..|exercises| - 1], since) + (if e.startTime >= since then [e] else [])
  }

  /** An exercise is in the window exactly when it started at or after `since`; there is no upper bound. */
  lemma {:induction false} InWindowMembership(exercises: seq<Exercise>, since: int, e: Exercise)
    ensures e in InWindow(exercises, since) <==> e in exercises && e.startTime >= since
  {
    if |exercises| > 0 {
      var p, x := exercises[..|exercises| - 1], exercises[|exercises| - 1];
      assert exercises == p + [x];
      InWindowMembership(p, since, e);
    }
  }

  /** The window filter works exercise by exercise, so it distributes over concatenation. */
  lemma {:induction false} InWindowAppend(a: seq<Exercise>, b: seq<Exercise>, since: int)
    ensures InWindow(a + b, since) == InWindow(a, since) + InWindow(b, since)
  {
    if |b| == 0 {
      assert a + b == a;
    } else {
      var q := b[..|b| - 1];
      assert (a + b)[..|a + b| - 1] == a + q;
      InWindowAppend(a, q, since);
    }
  }

  lemma InWindowSingle(e: Exercise, since: int)
    ensures InWindow([e], since) == if e.startTime >= since then [e] else []
  {
    assert [e][..0] == [];
  }

  /** The calories of one exercise; a null count adds nothing (`calories_burned || 0`). */
  function Calories(e: Exercise): real
  {
    e.caloriesBurned.GetOr(0.0)
  }

  /** The summed calories; with no negative count the sum is non-negative. */
  function TotalCalories(exercises: seq<Exercise>): (c: real)
    ensures |exercises| == 0 ==> c == 0.0
    ensures (forall i :: 0 <= i < |exercises| ==> Calories(exercises[i]) >= 0.0) ==> c >= 0.0
  {
    if |exercises| == 0 then 0.0
    else TotalCalories(exercises[..|exercises| - 1]) + Calories(exercises[|exercises| - 1])
  }

  /** The signed length of one exercise in minutes; an end before the start counts negative. */
  function Minutes(e: Exercise): real
  {
    ((e.endTime - e.startTime) as real) / (MinuteMs as real)
  }

  function TotalMinutes(exercises: seq<Exercise>): real
  {
    if |exercises| == 0 then 0.0
    else TotalMinutes(exercises[..|exercises| - 1]) + Minutes(exercises[|exercises| - 1])
  }

  /** The summed signed durations in milliseconds. */
  function TotalDurationMs(exercises: seq<Exercise>): int
  {
    if |exercises| == 0 then 0
    else
      var e := exercises[|exercises| - 1];
      TotalDurationMs(exercises[..|exercises| - 1]) + (e.endTime - e.startTime)
  }

  /** The type key the histogram counts under. */
  function TypeOf(e: Exercise): string
  {
    e.exerciseType
  }

  /** The summary of the exercises in a window. */
  function Summarize(window: seq<Exercise>): (s: Summary)
    ensures s.totalExercises == |window|
    ensures s.totalCalories == TotalCalories(window)
    ensures s.totalMinutes == (TotalDurationMs(window) as real) / 60000.0
    ensures forall t :: t in s.byType <==> Grouping.HasKey(window, TypeOf, t)
    ensures forall t :: t in s.byType ==> s.byType[t] == |Grouping.Select(window, TypeOf, t)| > 0
  {
    TotalMinutesIsTotalDuration(window);
    Summary(|window|, TotalCalories(window), TotalMinutes(window), Grouping.CountBy(window, TypeOf))
  }

  /** The weekly summary: exercises started in the last 7 days. */
  function WeeklyStats(exercises: seq<Exercise>, now: int): (s: Summary)
    ensures s.totalExercises <= |exercises|
    ensures (forall i :: 0 <= i < |exercises| ==> exercises[i].startTime >= now - 7 * DayMs)
        ==> s.totalExercises == |exercises| && s.totalCalories == TotalCalories(exercises)
    ensures (forall i :: 0 <= i < |exercises| ==> exercises[i].startTime < now - 7 * DayMs)
        ==> s.totalExercises == 0 && s.totalCalories == 0.0 && s.byType == map[]
  {
    WindowBounds(exercises, now - 7 * DayMs);
    Summarize(InWindow(exercises, now - 7 * DayMs))
  }

  /** The monthly summary: exercises started in the last 30 days. */
  function MonthlyStats(exercises: seq<Exercise>, now: int): (s: Summary)
    ensures s.totalExercises <= |exercises|
    ensures (forall i :: 0 <= i < |exercises| ==> exercises[i].startTime >= now - 30 * DayMs)
        ==> s.totalExercises == |exercises| && s.totalCalories == TotalCalories(exercises)
    ensures (forall i :: 0 <= i < |exercises| ==> exercises[i].startTime < now - 30 * DayMs)
        ==> s.totalExercises == 0 && s.totalCalories == 0.0 && s.byType == map[]
  {
    WindowBounds(exercises, now - 30 * DayMs);
    Summarize(InWindow(exercises, now - 30 * DayMs))
  }

  /** A window that every exercise reaches keeps them all; one that none reaches is empty. */
  lemma {:induction false} WindowBounds(exercises: seq<Exercise>, since: int)
    ensures (forall i :: 0 <= i < |exercises| ==> exercises[i].startTime >= since) ==> InWindow(exercises, since) == exercises
    ensures (forall i :: 0 <= i < |exercises| ==> exercises[i].startTime < since) ==> InWindow(exercises, since) == []
  {
    if |exercises| > 0 {
      var p := exercises[..|exercises| - 1];
      WindowBounds(p, since);
      assert exercises == p + [exercises[|exercises| - 1]];
    }
  }

  /** One exercise contributes `calories_burned || 0`. */
  lemma CaloriesOfOne(e: Exercise)
    ensures TotalCalories([e]) == (if e.caloriesBurned.Some? then e.caloriesBurned.value else 0.0)
  {
    assert [e][..0] == [];
  }

  // ---------------------------------------------------------------------------
  // Properties

  /** The per-type counts add up to the number of exercises in the window. */
  lemma {:induction false} ByTypeCountsSumToTotal(window: seq<Exercise>)
    ensures var s := Summarize(window);
      && (forall t :: t in s.byType <==> t in Grouping.DistinctKeys(window, TypeOf))
      && Grouping.SelectedTotal(window, TypeOf, Grouping.DistinctKeys(window, TypeOf)) == s.totalExercises
  {
    Grouping.GroupSizesSum(window, TypeOf);
  }

  /** Calorie totals are additive, and an exercise with a null count adds nothing. */
  lemma {:induction false} TotalCaloriesAppend(a: seq<Exercise>, b: seq<Exercise>)
    ensures TotalCalories(a + b) == TotalCalories(a) + TotalCalories(b)
  {
    if |b| == 0 {
      assert a + b == a;
    } else {
      var q := b[..|b| - 1];
      assert (a + b)[..|a + b| - 1] == a + q;
      TotalCaloriesAppend(a, q);
    }
  }

  /** An exercise without a calorie count does not change the total. */
  lemma NullCaloriesCountAsZero(a: seq<Exercise>, e: Exercise, b: seq<Exercise>)
    requires e.caloriesBurned == None
    ensures TotalCalories(a + [e] + b) == TotalCalories(a + b)
  {
    TotalCaloriesAppend(a + [e], b);
    TotalCaloriesAppend(a, [e]);
    TotalCaloriesAppend(a, b);
    assert TotalCalories([e]) == 0.0 by {
      assert [e][..0] == [];
    }
  }

  /**
   * The minute total is the summed signed duration divided once by 60000:
   * negative durations are not clamped.
   */
  lemma {:induction false} TotalMinutesIsTotalDuration(exercises: seq<Exercise>)
    ensures TotalMinutes(exercises) == (TotalDurationMs(exercises) as real) / 60000.0
  {
    if |exercises| > 0 {
      TotalMinutesIsTotalDuration(exercises[..|exercises| - 1]);
    }
  }

  /** A later window start keeps no more exercises than an earlier one. */
  lemma {:induction false} LaterStartFewerExercises(exercises: seq<Exercise>, s1: int, s2: int)
    requires s2 <= s1
    ensures |InWindow(exercises, s1)| <= |InWindow(exercises, s2)|
  {
    if |exercises| > 0 {
      LaterStartFewerExercises(exercises[..|exercises| - 1], s1, s2);
    }
  }

  /** No exercise has a negative calorie count. */
  predicate NonNegativeCalories(exercises: seq<Exercise>)
  {
    forall i :: 0 <= i < |exercises| ==> Calories(exercises[i]) >= 0.0
  }

  /** With no negative counts, a later window start sums no more calories than an earlier one. */
  lemma {:induction false} LaterStartFewerCalories(exercises: seq<Exercise>, s1: int, s2: int)
    requires s2 <= s1 && NonNegativeCalories(exercises)
    ensures TotalCalories(InWindow(exercises, s1)) <= TotalCalories(InWindow(exercises, s2))
  {
    if |exercises| > 0 {
      var p, e := exercises[..|exercises| - 1], exercises[|exercises| - 1];
      assert NonNegativeCalories(p);
      LaterStartFewerCalories(p, s1, s2);
      TotalCaloriesAppend(InWindow(p, s1), if e.startTime >= s1 then [e] else []);
      TotalCaloriesAppend(InWindow(p, s2), if e.startTime >= s2 then [e] else []);
      assert TotalCalories([e]) == Calories(e) by {
        assert [e][..0] == [];
      }
    }
  }

  /** For one reference time the week's count and (non-negative) calories never exceed the month's. */
  lemma WeekWithinMonth(exercises: seq<Exercise>, now: int)
    ensures WeeklyStats(exercises, now).totalExercises <= MonthlyStats(exercises, now).totalExercises
    ensures NonNegativeCalories(exercises)
        ==> WeeklyStats(exercises, now).totalCalories <= MonthlyStats(exercises, now).totalCalories
  {
    LaterStartFewerExercises(exercises, now - 7 * DayMs, now - 30 * DayMs);
    if NonNegativeCalories(exercises) {
      LaterStartFewerCalories(exercises, now - 7 * DayMs, now - 30 * DayMs);
    }
  }

  // ---------------------------------------------------------------------------
  // Labels

  /** `getExerciseTypeLabel`: the display label of a type, or the type itself when unknown. */
  function ExerciseTypeLabel(t: string): (shown: string)
    ensures !HasLabel(t) ==> shown == t
    ensures HasLabel(t) ==> shown != t && |shown| > 0
  {
    match t
    case "walking" => "ウォーキング"
    case "running" => "ランニング"
    case "cycling" => "サイクリング"
    case "swimming" => "水泳"
    case "weight_training" => "筋力トレーニング"
    case "yoga" => "ヨガ"
    case "stretching" => "ストレッチ"
    case "hiit" => "HIIT"
    case "other" => "その他"
    case _ => t
  }

  /** The type names the label table knows. */
  predicate HasLabel(t: string)
  {
    t in {"walking", "running", "cycling", "swimming", "weight_training", "yoga", "stretching", "hiit", "other"}
  }

  /**
   * Known types get a label different from the type name and from every
   * other known type's label; unknown types are shown as they are.
   */
  lemma LabelLookup(t: string, u: string)
    ensures !HasLabel(t) ==> ExerciseTypeLabel(t) == t
    ensures HasLabel(t) ==> ExerciseTypeLabel(t) != t
    ensures HasLabel(t) && HasLabel(u) && t != u ==> ExerciseTypeLabel(t) != ExerciseTypeLabel(u)
  {
  }
}
