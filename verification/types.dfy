/**
 * The records the application stores and the computations read
 * (the shapes in src/types/index.ts). Timestamps are milliseconds since the
 * epoch; measurements are exact reals; `None` is a `null` column.
 */
module Types {
  import opened Options

  /** One measurement event. Any metric may be missing on a given record. */
  datatype VitalSign = VitalSign(
    id: string,
    userId: string,
    measuredAt: int,
    weight: Option<real>,
    systolicBp: Option<real>,
    diastolicBp: Option<real>,
    heartRate: Option<real>,
    bodyTemperature: Option<real>,
    notes: Option<string>)

  /** The user's targets. There is no body-temperature target. */
  datatype VitalSignGoal = VitalSignGoal(
    id: string,
    userId: string,
    targetWeight: Option<real>,
    targetSystolicBp: Option<real>,
    targetDiastolicBp: Option<real>,
    targetHeartRate: Option<real>,
    notes: Option<string>)

  /** One exercise session; `exerciseType` is the stored type name. */
  datatype Exercise = Exercise(
    id: string,
    userId: string,
    exerciseType: string,
    startTime: int,
    endTime: int,
    durationMinutes: real,
    distanceKm: Option<real>,
    caloriesBurned: Option<real>,
    notes: Option<string>)

  /** A calendar date in local time; `month` and `day` are compared, never normalised. */
  datatype CalendarDate = CalendarDate(year: int, month: int, day: int)

  datatype Gender = Male | Female | OtherGender

  /** The profile fields the dashboard's energy estimates read. */
  datatype UserProfile = UserProfile(
    height: Option<real>,
    birthDate: CalendarDate,
    gender: Option<Gender>,
    activityLevel: Option<string>)
}
