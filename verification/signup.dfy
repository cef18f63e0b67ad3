/**
 * The password check of the sign-up form
 * (src/components/auth/SignUpForm.tsx) and the decision it drives on
 * submit. The sign-up request itself is left to the caller.
 */
module SignUp {
  import opened Options
  import Strings

  /** The minimum password length, in UTF-16 code units. */
  const MinPasswordLength := 6

  const TooShortMessage := "パスワードは6文字以上である必要があります。"
  const MismatchMessage := "パスワードが一致しません。"

  /**
   * `validatePassword`: the length error when the password is shorter than
   * six code units, else the mismatch error when the confirmation differs,
   * else no error.
   */
  function ValidatePassword(password: string, confirmation: string): (r: Option<string>)
    ensures r == Some(TooShortMessage) <==> Strings.Utf16Length(password) < MinPasswordLength
    ensures r == Some(MismatchMessage)
        <==> Strings.Utf16Length(password) >= MinPasswordLength && password != confirmation
  {
    if Strings.Utf16Length(password) < MinPasswordLength then Some(TooShortMessage)
    else if password != confirmation then Some(MismatchMessage)
    else None
  }

  /** A password passes exactly when it is long enough and confirmed verbatim. */
  lemma AcceptedIff(password: string, confirmation: string)
    ensures ValidatePassword(password, confirmation) == None
        <==> Strings.Utf16Length(password) >= MinPasswordLength && password == confirmation
  {
  }

  /**
   * Six characters always suffice; fewer than three never do, because a
   * character outside the BMP counts as at most two code units.
   */
  lemma LengthBoundary(password: string)
    ensures |password| >= MinPasswordLength ==> ValidatePassword(password, password) == None
    ensures |password| < 3 ==> ValidatePassword(password, password) == Some(TooShortMessage)
  {
  }

  /** What submitting the form does. */
  datatype SubmitStep = ShowError(message: string) | AttemptSignUp

  /**
   * The submit handler: a validation error is shown and the form stops;
   * only a valid password reaches the sign-up request.
   */
  function Submit(password: string, confirmation: string): (s: SubmitStep)
    ensures s.ShowError? ==> s.message in {TooShortMessage, MismatchMessage}
    ensures s == AttemptSignUp <==> password == confirmation && Strings.Utf16Length(password) >= MinPasswordLength
  {
    match ValidatePassword(password, confirmation)
    case Some(message) => ShowError(message)
    case None => AttemptSignUp
  }

  /** Sign-up is attempted exactly for a password that passes the check. */
  lemma SubmitAttemptsIffValid(password: string, confirmation: string)
    ensures Submit(password, confirmation) == AttemptSignUp
        <==> Strings.Utf16Length(password) >= MinPasswordLength && password == confirmation
  {
  }
}
