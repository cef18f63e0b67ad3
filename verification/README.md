# health-tracker: a verified model of the computational core

This project models, in Dafny, the pure logic of the health-tracker web
application (a Next.js and Supabase app for logging vital signs, exercises
and meals) and proves properties of it. The modelled logic is:

- the vital-sign statistics engine `calculateStats` (`VitalSignStats`).
  It takes a rolling window over the records, projects each of the five
  metrics, and computes current, min, max, mean, a two-sample trend and the
  goal target;
- the health arithmetic of `src/utils/common.ts` (`Common`), with the
  generic partitioning it and the exercise summary share (`Grouping`), and
  the numeric helpers (`Numbers`: sums, means, `Math.round`, `toFixed(1)`);
- age, basal metabolic rate and daily energy expenditure on the dashboard
  (`Dashboard`);
- the weekly and monthly exercise summaries and the exercise type labels
  (`ExerciseSummary`);
- error classification (`Errors`);
- password validation on the sign-up form (`SignUp`);
- the pagination arithmetic of `getPaginatedData` (`Pagination`);
- the redirect decisions of both request middlewares (`Urls`,
  `RootMiddleware`, `AppMiddleware`);
- the in-memory list updates of the vital-signs and exercises pages
  (`ListUpdates`, `VitalSignsPage`, `ExercisesPage`).

Everything that reads the ambient world is a parameter:

- the current time is a parameter. The vital-sign window receives the two
  period starts as a `Clock`; the exercise summary receives `now` in
  milliseconds; the dashboard receives `today` as a (year, month, day)
  triple;
- the middleware receives whether a session exists;
- timestamps are `int` milliseconds and measurements are exact `real`s.

JavaScript values that matter are written out:

- `JsNumber` covers null, undefined, NaN and finite numbers;
- `Thrown` covers an `AppError`, a database-shaped plain object, another
  `Error` (which may carry a code and details of its own) and anything
  else;
- `Math.round(x)` is `Floor(x + 0.5)`;
- `Number(x.toFixed(1))` rounds the magnitude half-up to a tenth and puts
  the sign back;
- `String.length` counts UTF-16 code units.

`calculateStats` works as follows:

- its window is rolling: records with `measured_at >= periodStart`, where
  the start is what the date arithmetic for seven days or one month back
  yields;
- each metric's average is the sum of its readings divided by their
  number;
- its trend compares `values[0]` with `values[1]` against 5% of
  `|values[1]|`, and needs only two readings;
- it reports the goal's target value itself;
- it does not sort: "current" is `values[0]`, the newest reading only
  because the page fetches records newest first (`CurrentIsNewest`).

## Model

| member | source | states |
|---|---|---|
| VitalSignStats.PeriodData | src/utils/vitalSignStats.ts:33-35 | the window never holds more records than the input |
| VitalSignStats.PeriodStart | src/utils/vitalSignStats.ts:23-31 | a month period starts at the month-back instant; a week period and a missing period start at the week-back instant |
| VitalSignStats.WindowMembership | src/utils/vitalSignStats.ts:25-35 | a record is in the window exactly when it is in the input and measured at or after the period start: the bound is inclusive and there is no upper bound |
| VitalSignStats.DefaultPeriodIsWeek | src/utils/vitalSignStats.ts:23-31 | a missing period gives the same report as `week`, and its start is the week start |
| VitalSignStats.PeriodDataAppend | src/utils/vitalSignStats.ts:33-35 | the window filter works record by record and distributes over concatenation |
| VitalSignStats.MetricValues | src/utils/vitalSignStats.ts:41-43 | there are never more readings than records |
| VitalSignStats.MetricValuesMembers | src/utils/vitalSignStats.ts:41-43 | a value is among a metric's readings exactly when some record carries it for that metric |
| VitalSignStats.MetricValuesAppend | src/utils/vitalSignStats.ts:41-43 | projecting the non-null readings distributes over concatenation |
| VitalSignStats.WindowValuesCons | src/utils/vitalSignStats.ts:33-43 | the window's readings are the first record's contribution followed by the rest's readings |
| VitalSignStats.TrendOf | src/utils/vitalSignStats.ts:61-71 | no trend with fewer than two readings; stable exactly when the first two differ by less than 5% of the second's magnitude; up means the newest is larger; down means it is not |
| VitalSignStats.MetricStats | src/utils/vitalSignStats.ts:47-80 | the goal passes through; with no readings every other field is null; otherwise current is the first reading, min and max are readings that bound all of them, and avg is the sum of the readings divided by their number, which lies between min and max |
| VitalSignStats.StatsOfReport | src/utils/vitalSignStats.ts:83-104 | each metric's entry is the statistics of that metric's window readings and of its own target |
| VitalSignStats.CalculateStats | src/utils/vitalSignStats.ts:20-105 | every metric's entry is the statistics of that metric's readings in the window together with its own target, and body temperature never has a target |
| VitalSignStats.SameReadingsSameValues | src/utils/vitalSignStats.ts:33-43 | record lists that agree record by record on the time and on one metric give that metric the same readings |
| VitalSignStats.MetricIndependence | src/utils/vitalSignStats.ts:37-43 | a metric's statistics depend only on its own readings; other metrics' values and nulls do not affect them |
| VitalSignStats.NoReadingsAllNull | src/utils/vitalSignStats.ts:47-56 | with no readings in the window, current, min, max, avg and trend are null while the goal still carries the target |
| VitalSignStats.SingleReading | src/utils/vitalSignStats.ts:58-80 | one reading gives current = min = max = avg and a null trend |
| VitalSignStats.TrendUsesFirstTwo | src/utils/vitalSignStats.ts:63-70 | the trend depends on the two newest readings only |
| VitalSignStats.ZeroSecondReadingNeverStable | src/utils/vitalSignStats.ts:64-70 | with a zero second reading the threshold is zero, so the trend is up for a positive newest reading and down otherwise, including two zero readings |
| VitalSignStats.EqualReadingsStable | src/utils/vitalSignStats.ts:64-67 | two equal non-zero newest readings are stable |
| VitalSignStats.GoalLookup | src/utils/vitalSignStats.ts:45-104 | each metric's goal is the matching target of a given goal and null without one; body temperature's is always null because the goal record has no such field |
| VitalSignStats.NewestReadingShift | src/utils/vitalSignStats.ts:41-43 | a front record that contributes no reading does not change which record holds the newest reading |
| VitalSignStats.CurrentIsNewest | src/app/vital-signs/page.tsx:38 | with records newest first, as the page fetches them, current is the reading of an in-window record at least as recent as every other in-window record with that metric |
| Common.IsValidNumber | src/utils/common.ts:28-30 | a valid value is not NaN after conversion, and null is never valid |
| Common.ValidIffNumber | src/utils/common.ts:28-30 | exactly the finite numbers are valid: null, undefined and NaN are not, and null is rejected by the explicit test although `isNaN(null)` is false |
| Common.CalculateBmi | src/utils/common.ts:32-38 | null exactly for an invalid input or a non-positive height; otherwise a multiple of 0.1 within 0.05 of weight / (height / 100)^2 |
| Common.ValidNumbers | src/utils/common.ts:80 | filtering never yields more entries than the input |
| Common.ValidNumbersAppend | src/utils/common.ts:80 | the valid-entry filter distributes over concatenation |
| Common.CalculateAverage | src/utils/common.ts:79-83 | null exactly when no entry is valid; otherwise a multiple of 0.1 within 0.05 of the mean of the valid entries |
| Common.AverageWithinValidRange | src/utils/common.ts:80-82 | the unrounded mean lies between the smallest and largest valid entry, and the average is at most 0.05 outside that range |
| Common.AverageIgnoresInvalid | src/utils/common.ts:80-82 | inserting an invalid entry anywhere does not change the average |
| Common.GroupByDatePlacement | src/utils/common.ts:65-77 | every item is in the group keyed by its formatted date, every group member carries the group's key, and no group is empty |
| Common.GroupByDate | src/utils/common.ts:65-77 | there is a group exactly for each formatted date that some item has, and each group is the in-order selection of the items with that date |
| Common.GroupByDateSizes | src/utils/common.ts:69-76 | the groups are those of the distinct dates, and their sizes add up to the number of items |
| Common.GroupByDateKeepsOrder | src/utils/common.ts:71-75 | for a date occurring in both parts, its group over a concatenation is its group over the first part followed by its group over the second, so input order is kept |
| Grouping.Select | src/utils/common.ts:69-76 | the items selected under a key all carry it, and the selection is non-empty exactly when the key occurs |
| Grouping.SelectMembers | src/utils/common.ts:69-76 | an item is selected under a key exactly when it occurs with that key |
| Grouping.SelectAppend | src/utils/common.ts:69-76 | selection distributes over concatenation, keeping order |
| Grouping.GroupBy | src/utils/common.ts:69-76 | the keys are exactly those that occur, and each group is the non-empty in-order selection for its key |
| Grouping.GroupByAppend | src/utils/common.ts:71-75 | for a key occurring in both parts, its group over a concatenation is the two parts' groups, concatenated |
| Grouping.CountBy | src/components/exercise/ExerciseSummary.tsx:27-30 | the keys are exactly those that occur, and each count is the positive number of items with that key |
| Grouping.DistinctKeys | src/utils/common.ts:69-76 | the keys that occur, each once |
| Grouping.GroupSizesSum | src/utils/common.ts:69-76 | the group sizes over the distinct keys add up to the input length |
| Dashboard.CalculateAge | src/app/dashboard/page.tsx:149-160 | the age is the year difference or one less, and never negative when the birth date is not after today |
| Dashboard.AgeIsCompletedYears | src/app/dashboard/page.tsx:149-160 | the n-th birthday has been reached exactly when n is at most the age |
| Dashboard.AgeBeforeBirthday | src/app/dashboard/page.tsx:152-157 | the age is the year difference minus one exactly when today's (month, day) comes before the birth (month, day), and otherwise the year difference |
| Dashboard.AgeOnBirthday | src/app/dashboard/page.tsx:149-160 | on the birthday the age is the year difference, and on the birth date itself it is 0 |
| Dashboard.CalculateBmr | src/app/dashboard/page.tsx:117-129 | 0 without a profile; otherwise within 0.5 of the male equation for `male`, or of the female equation for every other gender, with the weight fixed at 65 and a null height counting as 0 |
| Dashboard.BmrMonotone | src/app/dashboard/page.tsx:125-127 | for a fixed gender the rounded rate never falls as height grows or age falls |
| Dashboard.BmrNonDecreasingInHeight | src/app/dashboard/page.tsx:117-129 | a taller, otherwise identical profile never gets a lower rate |
| Dashboard.BmrNonIncreasingWithAge | src/app/dashboard/page.tsx:117-160 | the same profile on a later day never gets a higher rate |
| Dashboard.ActivityMultiplier | src/app/dashboard/page.tsx:136-144 | the multiplier is between 1.2 and 1.9 |
| Dashboard.UnknownActivityIsSedentary | src/app/dashboard/page.tsx:144 | an unknown or missing activity level uses 1.2, the sedentary multiplier |
| Dashboard.CalculateTdee | src/app/dashboard/page.tsx:132-146 | 0 without a profile; otherwise within 0.5 of the basal rate times the multiplier |
| Dashboard.TdeeAtLeastBmr | src/app/dashboard/page.tsx:135-145 | with a non-negative basal rate the daily expenditure is at least the basal rate |
| ExerciseSummary.InWindow | src/components/exercise/ExerciseSummary.tsx:15-17 | the window never holds more exercises than the input |
| ExerciseSummary.InWindowMembership | src/components/exercise/ExerciseSummary.tsx:13-40 | an exercise is in the window exactly when it is in the input and started at or after the start, with no upper bound |
| ExerciseSummary.InWindowAppend | src/components/exercise/ExerciseSummary.tsx:15-17 | the window filter distributes over concatenation |
| ExerciseSummary.Summarize | src/components/exercise/ExerciseSummary.tsx:19-31 | the count is the window's size; the calories are the window's calorie sum; the minutes are the window's summed signed durations divided by 60000; the types counted are exactly those that occur, each with its number of exercises |
| ExerciseSummary.WeeklyStats | src/components/exercise/ExerciseSummary.tsx:11-32 | the week never counts more exercises than the list; when every exercise started within the last 7 days all are counted with all their calories, and when none did the summary is empty |
| ExerciseSummary.MonthlyStats | src/components/exercise/ExerciseSummary.tsx:34-55 | the same for the last 30 days |
| ExerciseSummary.WindowBounds | src/components/exercise/ExerciseSummary.tsx:15-17 | a start every exercise reaches keeps the whole list, and one that none reaches keeps nothing |
| ExerciseSummary.TotalCalories | src/components/exercise/ExerciseSummary.tsx:21 | the calorie sum of nothing is 0, and it is non-negative when no count is negative |
| ExerciseSummary.CaloriesOfOne | src/components/exercise/ExerciseSummary.tsx:21 | one exercise adds its calorie count, or 0 when the count is null |
| ExerciseSummary.ByTypeCountsSumToTotal | src/components/exercise/ExerciseSummary.tsx:20-30 | the per-type counts add up to the total count |
| ExerciseSummary.TotalCaloriesAppend | src/components/exercise/ExerciseSummary.tsx:21 | the calorie sum is additive over concatenation |
| ExerciseSummary.NullCaloriesCountAsZero | src/components/exercise/ExerciseSummary.tsx:21-44 | an exercise without a calorie count adds nothing to the total |
| ExerciseSummary.TotalMinutesIsTotalDuration | src/components/exercise/ExerciseSummary.tsx:22-26 | the minute total is the sum of the signed durations divided by 60000; negative durations are not clamped |
| ExerciseSummary.LaterStartFewerExercises | src/components/exercise/ExerciseSummary.tsx:13-40 | a later window start keeps no more exercises |
| ExerciseSummary.LaterStartFewerCalories | src/components/exercise/ExerciseSummary.tsx:21-44 | with no negative calorie counts, a later window start sums no more calories |
| ExerciseSummary.WeekWithinMonth | src/components/exercise/ExerciseSummary.tsx:13-36 | for one reference time, the week's count (and its non-negative calorie total) never exceeds the month's |
| ExerciseSummary.ExerciseTypeLabel | src/components/exercise/ExerciseSummary.tsx:57-70 | an unknown type is shown as it is; a known type gets a non-empty label that differs from the type name, so the fallback to the type name never applies to it |
| ExerciseSummary.LabelLookup | src/components/exercise/ExerciseSummary.tsx:57-70 | an unknown type is shown as it is; each known type gets a label of its own that differs from the type name |
| Errors.NewAppError | src/utils/error.ts:1-10 | the message and code are kept, and the status is the given one or 400 by default |
| Errors.HandleError | src/utils/error.ts:12-22 | an AppError is returned unchanged; another Error keeps its message under UNKNOWN_ERROR / 500; anything else gets the fixed message under UNKNOWN_ERROR / 500 |
| Errors.HandleErrorIdempotent | src/utils/error.ts:12-22 | converting the result again changes nothing |
| Errors.HandleErrorNonAppIsServerError | src/utils/error.ts:17-21 | every non-AppError comes back as UNKNOWN_ERROR with status 500 |
| Errors.IsSupabaseError | src/utils/error.ts:24-26 | only a value carrying a non-empty message, code and details is recognised; an AppError and a non-object never are |
| Errors.GetErrorMessage | src/utils/error.ts:28-49 | precedence: the AppError's message, then a database message for any value with a message, code and details, an Error included, then an Error's message, then the fallback |
| Errors.DatabaseBeforeError | src/utils/error.ts:12-49 | an Error carrying a message, code and details gets the database message for its code from `getErrorMessage`, while `handleError` keeps its own message |
| Errors.DatabaseCodes | src/utils/error.ts:24-41 | 23505 gives the duplicate message, P0001 the constraint message, and every other code the generic database message |
| Errors.IncompleteSupabaseErrorFallsBack | src/utils/error.ts:24-48 | a database-shaped object missing its message, code or details is not recognised and gets the fallback |
| Errors.HandleAuthError | src/utils/error.ts:51-69 | a non-Error gives the login-failure message; every result is one of the four messages |
| Errors.InvalidCredentialsWins | src/utils/error.ts:51-57 | an Error, AppError included, whose message mentions invalid login credentials in any letter case reports invalid credentials, even if it also mentions a later phrase |
| Errors.AuthErrorTable | src/utils/error.ts:51-69 | for an Error, AppError included, each message appears exactly when its phrase occurs in the lower-cased message and no earlier phrase does, and the login-failure message exactly when no phrase occurs; anything else gets the login-failure message |
| Errors.RateLimitNeedsEarlierMisses | src/utils/error.ts:51-65 | the rate-limit message appears exactly for an Error whose lower-cased message contains the phrase and neither earlier phrase |
| Strings.ToLower | src/utils/error.ts:53 | lower-casing keeps the length and maps each character by itself |
| Strings.ContainsSurvivesLowering | src/utils/error.ts:53-55 | a lower-case phrase found in a message is still found after lower-casing it |
| Strings.Utf16Length | src/components/auth/SignUpForm.tsx:27 | the length in UTF-16 code units is between the number of characters and twice that |
| SignUp.ValidatePassword | src/components/auth/SignUpForm.tsx:26-34 | the length error exactly when the password is shorter than six code units, whatever the confirmation; the mismatch error exactly when it is long enough but differs |
| SignUp.AcceptedIff | src/components/auth/SignUpForm.tsx:26-34 | no error exactly when the password is at least six code units long and equals the confirmation |
| SignUp.LengthBoundary | src/components/auth/SignUpForm.tsx:27-29 | six characters always suffice and fewer than three never do |
| SignUp.Submit | src/components/auth/SignUpForm.tsx:53-57 | the shown error is one of the two validation messages, and sign-up is attempted exactly for a long enough, confirmed password |
| SignUp.SubmitAttemptsIffValid | src/components/auth/SignUpForm.tsx:53-57 | sign-up is attempted exactly when validation passes; otherwise the error is shown |
| Pagination.Range | src/utils/database.ts:25-32 | the inclusive range spans exactly `limit` rows, page 1 starts at row 0, and the default request asks for rows 0 to 9 |
| Pagination.Offset | src/utils/database.ts:26 | the offset of a page from 1 on, with a non-negative limit, is non-negative |
| Pagination.ConsecutivePagesAdjacent | src/utils/database.ts:26-32 | page p + 1 starts right after page p ends |
| Pagination.RowOnOnePage | src/utils/database.ts:26-32 | with a positive limit, each row from 0 on lies in page row / limit + 1 and in no other |
| Pagination.Total | src/utils/database.ts:47 | a reported count is kept, and the total is 0 exactly when the count is missing or zero |
| Pagination.Ceil | src/utils/database.ts:50 | `Math.ceil` gives the least integer at or above its argument |
| Pagination.TotalPages | src/utils/database.ts:47-50 | there is a page count exactly when the limit is non-zero |
| Pagination.TotalPagesCoversRows | src/utils/database.ts:50 | with a positive limit, the pages hold every row and the last page is not empty: (n - 1) * limit < total <= n * limit, and zero rows give zero pages |
| Pagination.DefaultPageCount | src/utils/database.ts:25-50 | the default limit of 10 gives the least number of 10-row pages that holds the count, and zero pages for a missing count |
| RootMiddleware.Decide | middleware.ts:38-53 | a redirect stays on the request's origin and drops the query and fragment |
| RootMiddleware.DecisionTable | middleware.ts:24-53 | sign-in exactly for no session on a `/dashboard` path; dashboard exactly for a session on a sign-in or sign-up path; pass otherwise |
| RootMiddleware.RulesExclusive | middleware.ts:39-46 | the two redirect rules never both apply |
| RootMiddleware.NoRedirectLoop | middleware.ts:24-50 | the redirect target, re-evaluated under the same session, passes |
| RootMiddleware.ProtectionByPrefix | middleware.ts:24-28 | protection is by prefix: `/dashboard/...` is protected, while `/vital-signs`, `/exercises` and `/meals` are not |
| AppMiddleware.Decide | src/middleware.ts:13-27 | a redirect changes only the pathname and keeps origin, query and fragment |
| AppMiddleware.DecisionTable | src/middleware.ts:13-27 | no session outside `/auth` goes to sign-in; no session under `/auth` passes; a session under `/auth` goes to the dashboard; a session elsewhere passes |
| AppMiddleware.CallbackRedirectsWithSession | src/middleware.ts:21-25 | a signed-in request for `/auth/callback` is also sent to the dashboard |
| AppMiddleware.NoRedirectLoop | src/middleware.ts:13-25 | the redirect target, re-evaluated under the same session, passes |
| ListUpdates.Prepend | src/app/vital-signs/page.tsx:62-64 | the new record is first, and the old list follows unchanged |
| ListUpdates.RemoveById | src/app/vital-signs/page.tsx:66-68 | no survivor carries the id, and nothing is added |
| ListUpdates.RemoveMembers | src/app/vital-signs/page.tsx:67 | a record survives exactly when it was there with another id |
| ListUpdates.RemoveAppend | src/app/vital-signs/page.tsx:67 | removal distributes over concatenation, so the survivors keep their relative order |
| ListUpdates.RemoveAbsent | src/app/vital-signs/page.tsx:67 | removing an id nobody carries leaves the list unchanged |
| ListUpdates.RemoveIdempotent | src/app/vital-signs/page.tsx:67 | removing twice is removing once |
| ListUpdates.ReplaceById | src/app/exercises/page.tsx:48-52 | the length and every position's id are kept |
| ListUpdates.ReplaceAt | src/app/exercises/page.tsx:49-51 | each position holds the new record exactly when its old record had that id, and is otherwise untouched |
| ListUpdates.ReplaceAbsent | src/app/exercises/page.tsx:49-51 | an update for an id nobody carries changes nothing |
| ListUpdates.ReplaceIdempotent | src/app/exercises/page.tsx:49-51 | applying an update twice is applying it once |
| ListUpdates.RemoveAfterReplace | src/app/exercises/page.tsx:48-56 | deleting after an update equals deleting directly |
| VitalSignsPage.HandleVitalSignSubmit | src/app/vital-signs/page.tsx:62-64 | the list grows by one, the new record is first, the tail is the old list, and the goal is kept |
| VitalSignsPage.HandleVitalSignDelete | src/app/vital-signs/page.tsx:66-68 | no survivor carries the id, and the goal is kept |
| VitalSignsPage.HandleGoalSubmit | src/app/vital-signs/page.tsx:70-72 | the goal is replaced wholesale and the list is kept |
| VitalSignsPage.SubmittedReadingIsCurrent | src/app/vital-signs/page.tsx:62-64 | a submitted in-window record with a reading becomes that metric's current value |
| VitalSignsPage.SubmittedOutsideWindowChangesNothing | src/app/vital-signs/page.tsx:62-64 | a submitted record outside the window, or without the metric, leaves that metric's statistics unchanged |
| VitalSignsPage.SubmitKeepsNewestFirst | src/app/vital-signs/page.tsx:38-64 | submitting a record no older than any listed one keeps the list newest first |
| VitalSignsPage.DeleteKeepsNewestFirst | src/app/vital-signs/page.tsx:38-68 | deleting keeps a newest-first list newest first |
| VitalSignsPage.DeleteKeepsOthers | src/app/vital-signs/page.tsx:66-68 | exactly the records with another id survive |
| VitalSignsPage.DeleteAbsentOrRepeated | src/app/vital-signs/page.tsx:67 | deleting an absent id changes nothing, and deleting twice is deleting once |
| VitalSignsPage.DeleteKeepsOrder | src/app/vital-signs/page.tsx:67 | the survivors keep their relative order |
| VitalSignsPage.GoalSubmitChangesOnlyTargets | src/app/vital-signs/page.tsx:70-72 | a new goal changes only the goal field of each metric's statistics |
| ExercisesPage.HandleExerciseCreated | src/app/exercises/page.tsx:44-46 | the new exercise is first, and the old list follows |
| ExercisesPage.HandleExerciseUpdated | src/app/exercises/page.tsx:48-52 | the length and every position's id are kept |
| ExercisesPage.HandleExerciseDeleted | src/app/exercises/page.tsx:54-56 | no survivor carries the id |
| ExercisesPage.CreatedCountsInWeek | src/app/exercises/page.tsx:44-46 | a created exercise raises the weekly count by one exactly when it started within the week |
| ExercisesPage.UpdatedReplacesById | src/app/exercises/page.tsx:49-51 | the edited exercise replaces exactly the entries with its id |
| ExercisesPage.UpdateAbsentUnchanged | src/app/exercises/page.tsx:49-51 | an update for an id not listed changes nothing |
| ExercisesPage.DeleteKeepsOthersOnce | src/app/exercises/page.tsx:54-56 | exactly the exercises with another id survive, and deleting twice is deleting once |
| ExercisesPage.DeleteAfterUpdate | src/app/exercises/page.tsx:48-56 | deleting after editing equals deleting directly |
| ExercisesPage.DeletedNeverRaisesCount | src/app/exercises/page.tsx:54-56 | a delete never raises a window's exercise count |
| Numbers.MinOf | src/utils/vitalSignStats.ts:75 | the minimum is an element that bounds every element from below |
| Numbers.MaxOf | src/utils/vitalSignStats.ts:76 | the maximum is an element that bounds every element from above |
| Numbers.SumBounds | src/utils/vitalSignStats.ts:58 | a sum of n values within [lo, hi] lies within [n * lo, n * hi] |
| Numbers.MeanBetweenMinAndMax | src/utils/vitalSignStats.ts:58-76 | the mean lies between the minimum and the maximum |
| Numbers.SumAppend | src/utils/vitalSignStats.ts:58 | summing is additive over concatenation |
| Numbers.Round | src/app/dashboard/page.tsx:125 | `Math.round` is within one half of its argument, with ties going up |
| Numbers.RoundMonotone | src/app/dashboard/page.tsx:125-127 | `Math.round` is monotone |
| Numbers.RoundToTenth | src/utils/common.ts:37 | rounding to one decimal gives a multiple of 0.1 within 0.05 that keeps the sign |

## Left out

- Supabase I/O is left out: every select, insert, update and delete,
  `getCurrentUser`, and `getSession` in the middlewares. The session is a
  boolean parameter, and fetched or saved records are inputs.
- React rendering, hooks, navigation, `confirm()` dialogs and the meals
  page are presentation, and are left out. Each page handler is modelled
  as a function from the old state to the new one.
- `VitalSignStats.tsx` and `VitalSignChart.tsx` are presentation only.
  The former reads fields that `calculateStats` does not produce.
- `retryOperation`, `sleep` and `calculateDateRange` are left out: they
  are timers and ambient clocks.
- Calendar arithmetic (`setDate`, `setMonth`, `new Date(...)` parsing,
  time zones) is left out. The period starts and `now` are parameters,
  and `calculateAge` takes (year, month, day) triples. A null birth date,
  which the code parses as 1970-01-01, is not modelled.
- Date formatting (`toLocaleDateString`) is an uninterpreted formatter
  parameter of `groupByDate`.
- IEEE-754 doubles are modelled as exact reals. Float ties at the 5% trend
  threshold, rounding ties hidden by binary representation, overflow and
  infinities may therefore differ from the model.
- `isValidNumber` is modelled only on the numeric-field values null,
  undefined, NaN and finite numbers. Strings, booleans and Infinity,
  which JavaScript's `isNaN` coerces, are out of scope.
- JavaScript object-key lookups are modelled as total tables. Keys such as
  `constructor` or `__proto__` hit `Object.prototype` in the activity
  multiplier and label lookups and in the `reduce` accumulators; this is
  not modelled.
- Lower-casing in `handleAuthError` is ASCII-only. Unicode case mapping
  is out of scope.
- Errors: a missing or falsy field of a thrown object is the empty string.
  A database error's non-string `code` is not modelled. An `AppError` is
  modelled without a `details` field, as its class declares none.
- `parseInt`/`parseFloat` of form inputs are left out. So are the
  middleware `matcher` patterns, which decide which requests reach the
  middleware at all, and the database client's handling of a range that
  is negative or out of bounds.
- Pagination.TotalPages: for a zero limit JavaScript yields Infinity or
  NaN; the model returns `None` instead of choosing a value.
- Numbers.RoundToTenth: exact for exact reals only. `toFixed` works on
  the binary double, so a decimal tie such as 1.05 can round down in the
  source.
- Common.CalculateAverage: states the result as a multiple of 0.1 within
  0.05 of the mean, so at an exact tie it allows either neighbouring tenth
  rather than naming the one `toFixed` picks on the binary double.
- Common.CalculateBmi: states the result to within 0.05 of the
  unrounded index, rather than naming the exact decimal string `toFixed`
  produces.
