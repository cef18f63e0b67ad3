/**
 * Error classification of src/utils/error.ts: the `AppError` record,
 * `handleError`, `isSupabaseError`, `getErrorMessage` and
 * `handleAuthError`. A thrown value is one of four shapes; an empty string
 * stands for a missing (falsy) field.
 */
module Errors {
  import opened Options
  import Strings

  /** An application error: message, machine code and HTTP status. */
  datatype AppError = AppError(message: string, code: string, statusCode: int)

  /** What a `catch` block can receive. */
  datatype Thrown =
      // an `AppError` instance (which is also an `Error`)
    | AppErr(err: AppError)
      // a plain object with the database client's error fields, not an `Error`
    | SupabaseLike(message: string, code: string, details: string)
      // any other `Error` instance; `code` and `details` are the fields a
      // library may attach to it
    | PlainErr(message: string, code: string, details: string)
      // anything else: `null`, a string, a number, ...
    | Other

  /** The code every converted error carries. */
  const UnknownErrorCode := "UNKNOWN_ERROR"

  /** The message for a thrown value that is not an `Error`. */
  const UnexpectedMessage := "An unexpected error occurred"

  /** `new AppError(message, code, statusCode?)`: the status defaults to 400. */
  function NewAppError(message: string, code: string, statusCode: Option<int>): (e: AppError)
    ensures e.message == message && e.code == code
    ensures statusCode == None ==> e.statusCode == 400
    ensures statusCode.Some? ==> e.statusCode == statusCode.value
  {
    AppError(message, code, statusCode.GetOr(400))
  }

  /**
   * `handleError`: an `AppError` is returned as it is, another `Error`
   * keeps its message under UNKNOWN_ERROR / 500, and anything else gets the
   * fixed message under UNKNOWN_ERROR / 500.
   */
  function HandleError(e: Thrown): (r: AppError)
    ensures e.AppErr? ==> r == e.err
    ensures e.PlainErr? ==> r == AppError(e.message, UnknownErrorCode, 500)
    ensures !IsError(e) ==> r == AppError(UnexpectedMessage, UnknownErrorCode, 500)
  {
    match e
    case AppErr(err) => err
    case PlainErr(message, _, _) => NewAppError(message, UnknownErrorCode, Some(500))
    case _ => NewAppError(UnexpectedMessage, UnknownErrorCode, Some(500))
  }

  /** Converting twice is converting once: the result is already an `AppError`. */
  lemma HandleErrorIdempotent(e: Thrown)
    ensures HandleError(AppErr(HandleError(e))) == HandleError(e)
  {
  }

  /** Every thrown value that is not already an `AppError` comes back as UNKNOWN_ERROR with status 500. */
  lemma HandleErrorNonAppIsServerError(e: Thrown)
    requires !e.AppErr?
    ensures HandleError(e).code == UnknownErrorCode && HandleError(e).statusCode == 500
  {
  }

  /** `instanceof Error`: an `AppError` or another `Error`. */
  predicate IsError(e: Thrown)
  {
    e.AppErr? || e.PlainErr?
  }

  /** The `message` of an `Error`. */
  function ErrorMessage(e: Thrown): string
    requires IsError(e)
  {
    if e.AppErr? then e.err.message else e.message
  }

  /**
   * `isSupabaseError`: message, code and details all present and non-empty,
   * whether or not the value is an `Error`. An `AppError` has no `details`.
   */
  function IsSupabaseError(e: Thrown): (b: bool)
    ensures b ==> e.SupabaseLike? || e.PlainErr?
    ensures e.AppErr? || e == Other ==> !b
    ensures b ==> e.message != "" && e.code != "" && e.details != ""
  {
    (e.SupabaseLike? || e.PlainErr?) && e.message != "" && e.code != "" && e.details != ""
  }

  const DuplicateMessage := "既に存在するデータです。"
  const ConstraintMessage := "データの制約違反が発生しました。"
  const DatabaseMessage := "データベースエラーが発生しました。"
  const FallbackMessage := "予期せぬエラーが発生しました。"

  /** The message for a database error code. */
  function DatabaseErrorMessage(code: string): string
  {
    match code
    case "23505" => DuplicateMessage
    case "P0001" => ConstraintMessage
    case _ => DatabaseMessage
  }

  /**
   * `getErrorMessage`: the `AppError`'s message; else the database message
   * for a database-shaped error; else an `Error`'s message; else the
   * fallback.
   */
  function GetErrorMessage(e: Thrown): (r: string)
    ensures e.AppErr? ==> r == e.err.message
    ensures IsSupabaseError(e) ==> r in {DuplicateMessage, ConstraintMessage, DatabaseMessage}
    ensures e.PlainErr? && !IsSupabaseError(e) ==> r == e.message
    ensures e == Other || (e.SupabaseLike? && !IsSupabaseError(e)) ==> r == FallbackMessage
  {
    if e.AppErr? then e.err.message
    else if IsSupabaseError(e) then DatabaseErrorMessage(e.code)
    else if e.PlainErr? then e.message
    else FallbackMessage
  }

  /** Unique-violation and raise-exception codes get their own messages; all other codes one generic message. */
  lemma DatabaseCodes(message: string, code: string, details: string)
    requires message != "" && code != "" && details != ""
    ensures var m := GetErrorMessage(SupabaseLike(message, code, details));
      && (code == "23505" <==> m == DuplicateMessage)
      && (code == "P0001" <==> m == ConstraintMessage)
      && (code != "23505" && code != "P0001" <==> m == DatabaseMessage)
  {
  }

  /**
   * The database test comes before the `Error` test: an `Error` carrying a
   * message, code and details gets the database message for its code, not
   * its own message, while `handleError` still keeps its own message.
   */
  lemma DatabaseBeforeError(message: string, code: string, details: string)
    requires message != "" && code != "" && details != ""
    ensures GetErrorMessage(PlainErr(message, code, details)) == DatabaseErrorMessage(code)
    ensures HandleError(PlainErr(message, code, details)).message == message
  {
  }

  /** A database-shaped object with a missing field is not recognised and gets the fallback. */
  lemma IncompleteSupabaseErrorFallsBack(message: string, code: string, details: string)
    requires message == "" || code == "" || details == ""
    ensures GetErrorMessage(SupabaseLike(message, code, details)) == FallbackMessage
  {
  }

  const InvalidCredentialsMessage := "メールアドレスまたはパスワードが正しくありません。"
  const EmailNotConfirmedMessage := "メールアドレスが確認されていません。メールをご確認ください。"
  const RateLimitMessage := "アクセスが集中しています。しばらく待ってから再度お試しください。"
  const LoginFailedMessage := "ログインに失敗しました。"

  /**
   * `handleAuthError`: for an `Error`, the lower-cased message is searched
   * for the three known phrases in order and the first hit decides; every
   * other case reports a failed login.
   */
  function HandleAuthError(e: Thrown): (r: string)
    ensures !IsError(e) ==> r == LoginFailedMessage
    ensures r in {InvalidCredentialsMessage, EmailNotConfirmedMessage, RateLimitMessage, LoginFailedMessage}
  {
    if IsError(e) then
      var message := Strings.ToLower(ErrorMessage(e));
      if Strings.Contains(message, "invalid login credentials") then InvalidCredentialsMessage
      else if Strings.Contains(message, "email not confirmed") then EmailNotConfirmedMessage
      else if Strings.Contains(message, "rate limit") then RateLimitMessage
      else LoginFailedMessage
    else LoginFailedMessage
  }

  /**
   * An `Error` whose message mentions invalid credentials, in any letter
   * case, reports invalid credentials, even if it also mentions a later
   * phrase.
   */
  lemma InvalidCredentialsWins(e: Thrown)
    requires IsError(e) && Strings.Contains(ErrorMessage(e), "invalid login credentials")
    ensures HandleAuthError(e) == InvalidCredentialsMessage
  {
    Strings.ContainsSurvivesLowering(ErrorMessage(e), "invalid login credentials");
  }

  /**
   * The full table for any thrown value: for an `Error` (an `AppError`
   * included), each known message exactly when its phrase occurs in the
   * lower-cased message and no earlier phrase does, and the login-failure
   * message when none occurs; for anything else the login-failure message.
   */
  lemma AuthErrorTable(e: Thrown)
    ensures !IsError(e) ==> HandleAuthError(e) == LoginFailedMessage
    ensures IsError(e) ==>
      var m := Strings.ToLower(ErrorMessage(e));
      var r := HandleAuthError(e);
      var invalid := Strings.Contains(m, "invalid login credentials");
      var unconfirmed := Strings.Contains(m, "email not confirmed");
      var limited := Strings.Contains(m, "rate limit");
      && (r == InvalidCredentialsMessage <==> invalid)
      && (r == EmailNotConfirmedMessage <==> !invalid && unconfirmed)
      && (r == LoginFailedMessage <==> !invalid && !unconfirmed && !limited)
  {
  }

  /** The rate-limit message needs an `Error` with the phrase and without both earlier phrases. */
  lemma RateLimitNeedsEarlierMisses(e: Thrown)
    ensures HandleAuthError(e) == RateLimitMessage
        <==> (&& IsError(e)
              && var m := Strings.ToLower(ErrorMessage(e));
              && !Strings.Contains(m, "invalid login credentials")
              && !Strings.Contains(m, "email not confirmed")
              && Strings.Contains(m, "rate limit"))
  {
  }
}
