/**
 * The state updates of the vital-signs page (src/app/vital-signs/page.tsx):
 * a saved measurement goes in front of the list, a deleted one is dropped
 * by id, and a saved goal replaces the old one. The list is fetched newest
 * first; the statistics panel reads it as it is.
 */
module VitalSignsPage {
  import opened Options
  import opened Types
  import ListUpdates
  import VitalSignStats

  /** The page's local state: the measurements and the goal. */
  datatype PageState = PageState(vitalSigns: seq<VitalSign>, goal: Option<VitalSignGoal>)

  function VitalSignId(v: VitalSign): string { v.id }

  /** `handleVitalSignSubmit`: the new measurement goes first; the goal is untouched. */
  function HandleVitalSignSubmit(s: PageState, v: VitalSign): (t: PageState)
    ensures |t.vitalSigns| == |s.vitalSigns| + 1 && t.vitalSigns[0] == v && t.vitalSigns[1..] == s.vitalSigns
    ensures t.goal == s.goal
  {
    s.(vitalSigns := ListUpdates.Prepend(v, s.vitalSigns))
  }

  /** `handleVitalSignDelete`: every measurement with the id is dropped; the goal is untouched. */
  function HandleVitalSignDelete(s: PageState, id: string): (t: PageState)
    ensures |t.vitalSigns| <= |s.vitalSigns|
    ensures forall j :: 0 <= j < |t.vitalSigns| ==> t.vitalSigns[j].id != id
    ensures t.goal == s.goal
  {
    s.(vitalSigns := ListUpdates.RemoveById(s.vitalSigns, VitalSignId, id))
  }

  /** `handleGoalSubmit`: the saved goal replaces the old one; the list is untouched. */
  function HandleGoalSubmit(s: PageState, g: VitalSignGoal): (t: PageState)
    ensures t.goal == Some(g) && t.vitalSigns == s.vitalSigns
  {
    s.(goal := Some(g))
  }

  /** The statistics the page shows for its current state. */
  function PageStats(s: PageState, period: Option<VitalSignStats.Period>, clock: VitalSignStats.Clock)
    : VitalSignStats.Report
  {
    VitalSignStats.CalculateStats(s.vitalSigns, s.goal, period, clock)
  }

  /**
   * A new measurement inside the window that carries metric `m` becomes
   * that metric's current value, whatever the older records hold.
   */
  lemma SubmittedReadingIsCurrent(s: PageState, v: VitalSign, period: Option<VitalSignStats.Period>,
                                  clock: VitalSignStats.Clock, m: VitalSignStats.Metric)
    requires v.measuredAt >= VitalSignStats.PeriodStart(period, clock)
    requires VitalSignStats.Reading(v, m).Some?
    ensures VitalSignStats.StatsOf(PageStats(HandleVitalSignSubmit(s, v), period, clock), m).current
         == VitalSignStats.Reading(v, m)
  {
    var start := VitalSignStats.PeriodStart(period, clock);
    VitalSignStats.WindowValuesCons(v, s.vitalSigns, start, m);
    VitalSignStats.StatsOfReport([v] + s.vitalSigns, s.goal, period, clock, m);
  }

  /** A measurement outside the window, or one without metric `m`, leaves that metric's statistics as they were. */
  lemma SubmittedOutsideWindowChangesNothing(s: PageState, v: VitalSign, period: Option<VitalSignStats.Period>,
                                             clock: VitalSignStats.Clock, m: VitalSignStats.Metric)
    requires v.measuredAt < VitalSignStats.PeriodStart(period, clock) || VitalSignStats.Reading(v, m) == None
    ensures VitalSignStats.StatsOf(PageStats(HandleVitalSignSubmit(s, v), period, clock), m)
         == VitalSignStats.StatsOf(PageStats(s, period, clock), m)
  {
    var start := VitalSignStats.PeriodStart(period, clock);
    VitalSignStats.WindowValuesCons(v, s.vitalSigns, start, m);
    assert VitalSignStats.RecordContribution(v, start, m) == [];
    assert VitalSignStats.WindowValues([v] + s.vitalSigns, period, clock, m)
        == VitalSignStats.WindowValues(s.vitalSigns, period, clock, m);
    VitalSignStats.StatsOfReport([v] + s.vitalSigns, s.goal, period, clock, m);
    VitalSignStats.StatsOfReport(s.vitalSigns, s.goal, period, clock, m);
  }

  /** Submitting a measurement no older than any listed one keeps the list newest first. */
  lemma SubmitKeepsNewestFirst(s: PageState, v: VitalSign)
    requires VitalSignStats.NewestFirst(s.vitalSigns)
    requires forall j :: 0 <= j < |s.vitalSigns| ==> s.vitalSigns[j].measuredAt <= v.measuredAt
    ensures VitalSignStats.NewestFirst(HandleVitalSignSubmit(s, v).vitalSigns)
  {
    var t := HandleVitalSignSubmit(s, v).vitalSigns;
    forall i, j | 0 <= i < j < |t| ensures t[i].measuredAt >= t[j].measuredAt {
      assert t[j] == s.vitalSigns[j - 1];
      if i > 0 {
        assert t[i] == s.vitalSigns[i - 1];
      }
    }
  }

  /** Deleting keeps the survivors in their order, so a newest-first list stays newest first. */
  lemma {:induction false} DeleteKeepsNewestFirst(xs: seq<VitalSign>, id: string)
    requires VitalSignStats.NewestFirst(xs)
    ensures VitalSignStats.NewestFirst(ListUpdates.RemoveById(xs, VitalSignId, id))
  {
    if |xs| > 0 {
      var p, x := xs[..|xs| - 1], xs[|xs| - 1];
      assert VitalSignStats.NewestFirst(p);
      DeleteKeepsNewestFirst(p, id);
      var rp := ListUpdates.RemoveById(p, VitalSignId, id);
      var r := ListUpdates.RemoveById(xs, VitalSignId, id);
      assert r == rp + (if x.id != id then [x] else []);
      forall i, j | 0 <= i < j < |r| ensures r[i].measuredAt >= r[j].measuredAt {
        if j == |rp| {
          ListUpdates.RemoveMembers(p, VitalSignId, id, r[i]);
          assert r[i] in p;
          var k :| 0 <= k < |p| && p[k] == r[i];
          assert xs[k] == r[i] && xs[|xs| - 1] == r[j];
        } else {
          assert r[i] == rp[i] && r[j] == rp[j];
        }
      }
    }
  }

  /** Exactly the measurements with another id survive a delete. */
  lemma DeleteKeepsOthers(s: PageState, id: string, v: VitalSign)
    ensures v in HandleVitalSignDelete(s, id).vitalSigns <==> v in s.vitalSigns && v.id != id
  {
    ListUpdates.RemoveMembers(s.vitalSigns, VitalSignId, id, v);
  }

  /** Deleting an id no measurement carries changes nothing, and deleting twice is deleting once. */
  lemma DeleteAbsentOrRepeated(s: PageState, id: string)
    ensures (forall j :: 0 <= j < |s.vitalSigns| ==> s.vitalSigns[j].id != id) ==> HandleVitalSignDelete(s, id) == s
    ensures HandleVitalSignDelete(HandleVitalSignDelete(s, id), id) == HandleVitalSignDelete(s, id)
  {
    if ListUpdates.IdAbsent(s.vitalSigns, VitalSignId, id) {
      ListUpdates.RemoveAbsent(s.vitalSigns, VitalSignId, id);
    }
    ListUpdates.RemoveIdempotent(s.vitalSigns, VitalSignId, id);
  }

  /**
   * Deleting keeps the survivors' relative order: the survivors of a list
   * split in two are the first part's survivors followed by the second's.
   */
  lemma DeleteKeepsOrder(a: seq<VitalSign>, b: seq<VitalSign>, goal: Option<VitalSignGoal>, id: string)
    ensures HandleVitalSignDelete(PageState(a + b, goal), id).vitalSigns
         == HandleVitalSignDelete(PageState(a, goal), id).vitalSigns + HandleVitalSignDelete(PageState(b, goal), id).vitalSigns
  {
    ListUpdates.RemoveAppend(a, b, VitalSignId, id);
  }

  /** A new goal changes only the goal column of the statistics, metric by metric. */
  lemma GoalSubmitChangesOnlyTargets(s: PageState, g: VitalSignGoal, period: Option<VitalSignStats.Period>,
                                     clock: VitalSignStats.Clock, m: VitalSignStats.Metric)
    ensures VitalSignStats.StatsOf(PageStats(HandleGoalSubmit(s, g), period, clock), m)
         == VitalSignStats.StatsOf(PageStats(s, period, clock), m).(goal := VitalSignStats.GoalValue(Some(g), m))
  {
    VitalSignStats.StatsOfReport(s.vitalSigns, Some(g), period, clock, m);
    VitalSignStats.StatsOfReport(s.vitalSigns, s.goal, period, clock, m);
  }
}

/**
 * The state updates of the exercises page (src/app/exercises/page.tsx): a
 * created exercise goes in front, an edited one is swapped in by id, and a
 * deleted one is dropped by id.
 */
module ExercisesPage {
  import opened Types
  import ListUpdates
  import ExerciseSummary

  function ExerciseId(e: Exercise): string { e.id }

  /** `handleExerciseCreated`: the new exercise goes first. */
  function HandleExerciseCreated(exercises: seq<Exercise>, e: Exercise): (r: seq<Exercise>)
    ensures |r| == |exercises| + 1 && r[0] == e && r[1..] == exercises
  {
    ListUpdates.Prepend(e, exercises)
  }

  /** `handleExerciseUpdated`: each exercise with the edited one's id is replaced, in place. */
  function HandleExerciseUpdated(exercises: seq<Exercise>, e: Exercise): (r: seq<Exercise>)
    ensures |r| == |exercises|
    ensures forall j :: 0 <= j < |r| ==> r[j].id == exercises[j].id
  {
    ListUpdates.ReplaceById(exercises, ExerciseId, e)
  }

  /** `handleExerciseDeleted`: every exercise with the id is dropped. */
  function HandleExerciseDeleted(exercises: seq<Exercise>, id: string): (r: seq<Exercise>)
    ensures |r| <= |exercises|
    ensures forall j :: 0 <= j < |r| ==> r[j].id != id
  {
    ListUpdates.RemoveById(exercises, ExerciseId, id)
  }

  /** A created exercise raises the weekly count by one exactly when it started within the week. */
  lemma CreatedCountsInWeek(exercises: seq<Exercise>, e: Exercise, now: int)
    ensures ExerciseSummary.WeeklyStats(HandleExerciseCreated(exercises, e), now).totalExercises
         == ExerciseSummary.WeeklyStats(exercises, now).totalExercises
            + (if e.startTime >= now - 7 * ExerciseSummary.DayMs then 1 else 0)
  {
    var since := now - 7 * ExerciseSummary.DayMs;
    ExerciseSummary.InWindowAppend([e], exercises, since);
    ExerciseSummary.InWindowSingle(e, since);
  }

  /** An edited exercise replaces the old one wherever it was listed and leaves every other exercise in place. */
  lemma UpdatedReplacesById(exercises: seq<Exercise>, e: Exercise, j: int)
    requires 0 <= j < |exercises|
    ensures HandleExerciseUpdated(exercises, e)[j] == if exercises[j].id == e.id then e else exercises[j]
  {
    ListUpdates.ReplaceAt(exercises, ExerciseId, e, j);
  }

  /** Updating an exercise whose id is not listed changes nothing. */
  lemma UpdateAbsentUnchanged(exercises: seq<Exercise>, e: Exercise)
    requires forall j :: 0 <= j < |exercises| ==> exercises[j].id != e.id
    ensures HandleExerciseUpdated(exercises, e) == exercises
  {
    assert ListUpdates.IdAbsent(exercises, ExerciseId, ExerciseId(e));
    ListUpdates.ReplaceAbsent(exercises, ExerciseId, e);
  }

  /** Exactly the exercises with another id survive a delete, and deleting twice is deleting once. */
  lemma DeleteKeepsOthersOnce(exercises: seq<Exercise>, id: string, e: Exercise)
    ensures e in HandleExerciseDeleted(exercises, id) <==> e in exercises && e.id != id
    ensures HandleExerciseDeleted(HandleExerciseDeleted(exercises, id), id) == HandleExerciseDeleted(exercises, id)
  {
    ListUpdates.RemoveMembers(exercises, ExerciseId, id, e);
    ListUpdates.RemoveIdempotent(exercises, ExerciseId, id);
  }

  /** Deleting after editing the same exercise gives the same list as deleting it directly. */
  lemma DeleteAfterUpdate(exercises: seq<Exercise>, e: Exercise)
    ensures HandleExerciseDeleted(HandleExerciseUpdated(exercises, e), e.id) == HandleExerciseDeleted(exercises, e.id)
  {
    ListUpdates.RemoveAfterReplace(exercises, ExerciseId, e);
  }

  /** Deleting never raises the weekly count. */
  lemma {:induction false} DeletedNeverRaisesCount(exercises: seq<Exercise>, id: string, since: int)
    ensures |ExerciseSummary.InWindow(HandleExerciseDeleted(exercises, id), since)|
         <= |ExerciseSummary.InWindow(exercises, since)|
  {
    if |exercises| > 0 {
      var p, x := exercises[..|exercises| - 1], exercises[|exercises| - 1];
      DeletedNeverRaisesCount(p, id, since);
      var keep := if x.id != id then [x] else [];
      assert HandleExerciseDeleted(exercises, id) == HandleExerciseDeleted(p, id) + keep;
      ExerciseSummary.InWindowAppend(HandleExerciseDeleted(p, id), keep, since);
      ExerciseSummary.InWindowSingle(x, since);
      assert ExerciseSummary.InWindow([], since) == [];
    }
  }
}
