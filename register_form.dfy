/** The registration page's submit handler: it trims the username (not the
    passwords), runs four checks in order and, when all pass, posts the
    trimmed username and the password to the server's `register`. */
module RegisterForm {
  import opened Js
  import opened Text
  import Auth

  const FillAllMessage: string := "Please fill in all fields"
  const ShortUsernameMessage: string := "Username must be at least 3 characters long"
  const ShortPasswordMessage: string := "Password must be at least 6 characters long"
  const MismatchMessage: string := "Passwords do not match"

  const MinUsernameLength: nat := 3
  const MinPasswordLength: nat := 6

  /** What a submit does: show an error message, or send the request body
      `{ username, password }`. */
  datatype FormOutcome = ShowError(message: string) | SendRequest(username: string, password: string)

  /** The submit handler, given the three input boxes' values. */
  function Submit(usernameField: string, password: string, confirmPassword: string): (r: FormOutcome)
    ensures Trim(usernameField) == [] || password == [] || confirmPassword == [] ==>
      r == ShowError(FillAllMessage)
    ensures (Trim(usernameField) != [] && password != [] && confirmPassword != []
             && |Trim(usernameField)| < MinUsernameLength) ==> r == ShowError(ShortUsernameMessage)
    ensures (Trim(usernameField) != [] && password != [] && confirmPassword != []
             && |Trim(usernameField)| >= MinUsernameLength && |password| < MinPasswordLength) ==>
      r == ShowError(ShortPasswordMessage)
    ensures r == ShowError(MismatchMessage) <==>
      |Trim(usernameField)| >= MinUsernameLength && |password| >= MinPasswordLength
      && confirmPassword != [] && password != confirmPassword
    ensures r.SendRequest? <==>
      |Trim(usernameField)| >= MinUsernameLength && |password| >= MinPasswordLength && password == confirmPassword
    ensures r.SendRequest? ==> r.username == Trim(usernameField) && r.password == password
  {
    var username := Trim(usernameField);
    if username == [] || password == [] || confirmPassword == [] then ShowError(FillAllMessage)
    else if |username| < MinUsernameLength then ShowError(ShortUsernameMessage)
    else if |password| < MinPasswordLength then ShowError(ShortPasswordMessage)
    else if password != confirmPassword then ShowError(MismatchMessage)
    else SendRequest(username, password)
  }

  /** A username box holding only whitespace counts as empty. */
  lemma BlankUsernameIsMissing(usernameField: string, password: string, confirmPassword: string)
    requires AllWhitespace(usernameField)
    ensures Submit(usernameField, password, confirmPassword) == ShowError(FillAllMessage)
  {
    TrimEmptyIff(usernameField);
  }

  /** The server's validation of a body with a username of at least 3 and
      a password of at least 6 characters comes down to the username's
      upper bound. */
  lemma ServerChecksOnLongEnough(username: string, password: string)
    requires |username| >= MinUsernameLength && |password| >= MinPasswordLength
    ensures Auth.PassesValidation(Str(username), Str(password)) <==> |username| <= Auth.MaxUsernameLength
  {
  }

  /** The form checks no upper bound on the username: a request it sends
      passes the server's validation exactly when the trimmed username has
      at most 30 characters, and the username it sends has no surrounding
      whitespace to lose. */
  lemma SentRequestMeetsServerChecks(usernameField: string, password: string, confirmPassword: string,
                                     username: string, sentPassword: string)
    requires Submit(usernameField, password, confirmPassword) == SendRequest(username, sentPassword)
    ensures Auth.PassesValidation(Str(username), Str(sentPassword)) <==> |username| <= Auth.MaxUsernameLength
    ensures Trim(username) == username
  {
    ServerChecksOnLongEnough(username, sentPassword);
    TrimIdempotent(usernameField);
  }
}
