/** `handleLogin`, `handleSignup` and `handleRoommateApplication`: an
    all-fields-present check, then a fixed success message and destination, or
    a fixed failure message and no navigation. */
module Forms {
  import opened Feedback

  /** The values a submitted form holds, by form. */
  datatype Submission =
    | Login(email: string, password: string)
    | Signup(name: string, email: string, password: string)
    | RoommateApplication(name: string, email: string, message: string)

  const FillAllFields := "Please fill in all fields."

  /** The values the handler requires, in the order it tests them. */
  function RequiredFields(sub: Submission): seq<string> {
    match sub
    case Login(email, password) => [email, password]
    case Signup(name, email, password) => [name, email, password]
    case RoommateApplication(name, email, message) => [name, email, message]
  }

  /** JavaScript truthiness of the conjunction of the fields: every one of them
      is a non-empty string. White space counts; nothing is trimmed. */
  predicate AllPresent(fields: seq<string>) {
    forall k :: 0 <= k < |fields| ==> fields[k] != ""
  }

  function SuccessMessage(sub: Submission): string {
    match sub
    case Login(_, _) => "Login successful! Redirecting to homepage..."
    case Signup(_, _, _) => "Account created successfully! Redirecting to login..."
    case RoommateApplication(_, _, _) => "Application sent successfully!"
  }

  function Destination(sub: Submission): string {
    match sub
    case Login(_, _) => "index.html"
    case Signup(_, _, _) => "login.html"
    case RoommateApplication(_, _, _) => "roomates.html"
  }

  /** The `console.log` call made on success. */
  function DiagnosticLog(sub: Submission): LogRecord {
    match sub
    case Login(email, _) => LogRecord("Login attempt:", [("email", email)])
    case Signup(name, email, _) => LogRecord("Signup attempt:", [("name", name), ("email", email)])
    case RoommateApplication(name, email, message) =>
      LogRecord("Roommate application:", [("name", name), ("email", email), ("message", message)])
  }

  /** The three submit handlers, after `preventDefault` and the reading of the
      fields. Each navigates exactly when all of its own fields are non-empty
      strings, to its own page with its own message; otherwise it shows the
      fill-in-all-fields message and stays. */
  function HandleSubmit(sub: Submission): (r: Outcome)
    ensures sub.Login? ==> (r.Navigate? <==> sub.email != "" && sub.password != "")
    ensures sub.Signup? ==> (r.Navigate? <==> sub.name != "" && sub.email != "" && sub.password != "")
    ensures sub.RoommateApplication? ==>
              (r.Navigate? <==> sub.name != "" && sub.email != "" && sub.message != "")
    ensures r.Navigate? && sub.Login? ==>
              r.message == "Login successful! Redirecting to homepage..." && r.url == "index.html"
    ensures r.Navigate? && sub.Signup? ==>
              r.message == "Account created successfully! Redirecting to login..." && r.url == "login.html"
    ensures r.Navigate? && sub.RoommateApplication? ==>
              r.message == "Application sent successfully!" && r.url == "roomates.html"
    ensures r.Reject? ==> r.message == FillAllFields
  {
    var fields := RequiredFields(sub);
    if AllPresent(fields) then
      assert fields[0] != "" && fields[1] != "" && (|fields| == 3 ==> fields[2] != "");
      Navigate(DiagnosticLog(sub), SuccessMessage(sub), Destination(sub))
    else
      var k :| 0 <= k < |fields| && fields[k] == "";
      assert k == 0 || k == 1 || k == 2;
      Reject(FillAllFields)
  }

  /** The diagnostic record never holds the password: the login record holds
      the email alone, the signup record the name and the email. */
  lemma LogNeverHoldsPassword(sub: Submission)
    requires HandleSubmit(sub).Navigate?
    ensures "password" !in FieldNames(HandleSubmit(sub).log.fields)
    ensures sub.Login? ==> HandleSubmit(sub).log.fields == [("email", sub.email)]
    ensures sub.Signup? ==> HandleSubmit(sub).log.fields == [("name", sub.name), ("email", sub.email)]
  {
    var names := FieldNames(HandleSubmit(sub).log.fields);
    match sub
    case Login(_, _) => assert names == ["email"];
    case Signup(_, _, _) => assert names == ["name", "email"];
    case RoommateApplication(_, _, _) => assert names == ["name", "email", "message"];
  }

  /** Presence is not trimmed: a field of spaces passes, an empty one fails. */
  lemma PresenceIsNotTrimmed()
    ensures HandleSubmit(Login(" ", " ")).Navigate?
    ensures HandleSubmit(Signup("Ana", "ana@example.com", "")) == Reject(FillAllFields)
    ensures HandleSubmit(RoommateApplication("", " ", " ")) == Reject(FillAllFields)
  {
  }
}
