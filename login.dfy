/**
 The server side of the login page (app/routes/login.tsx): two field
 validators, the allow-list guard on the redirect target, and the form
 action that logs a user in or registers a new one.

 The action is a total function. Besides the submitted form it takes the
 answers of the calls it makes into the session helper and the user table
 (a `Backend` of oracles), and it returns the outcome together with the list
 of those calls in the order it made them, so that "this lookup never
 happens" can be stated.
 */
module Login {
  import opened Forms

  const UsernameTooShort := "Username must be at least 3 characters"
  const PasswordTooShort := "Password must be at least 6 characters"
  const IncorrectCredentials := "Username or password incorrect"
  const RegistrationFailed := "Something went wrong trying to create a new user."

  /** The message for a registration whose username is taken. */
  function UserExists(username: string): string
  {
    "User with username " + username + " already exists"
  }

  /** Where a session may send the user after logging in. */
  const AllowedRedirects: seq<string> := ["/jokes", "/", "https://remix.run"]
  const DefaultRedirect := "/jokes"

  /** A message exactly when the username is shorter than 3 UTF-16 units. */
  function ValidateUsername(username: string): (r: Option<string>)
    ensures r.Some? <==> JsLength(username) < 3
    ensures r.Some? ==> r.value == UsernameTooShort
  {
    if JsLength(username) < 3 then Some(UsernameTooShort) else None
  }

  /** A message exactly when the password is shorter than 6 UTF-16 units. */
  function ValidatePassword(password: string): (r: Option<string>)
    ensures r.Some? <==> JsLength(password) < 6
    ensures r.Some? ==> r.value == PasswordTooShort
  {
    if JsLength(password) < 6 then Some(PasswordTooShort) else None
  }

  /** `list.includes(x)`: a front-to-back scan for `x`. */
  function Includes(list: seq<string>, x: string): (r: bool)
    ensures r <==> x in list
  {
    if list == [] then false
    else if list[0] == x then true
    else
      var r := Includes(list[1..], x);
      assert list == [list[0]] + list[1..];
      r
  }

  /** The open-redirect guard: an allowed target is kept, anything else
      becomes the default. */
  function ValidateUrl(url: string): (r: string)
    ensures r in AllowedRedirects
    ensures r == url <==> url in AllowedRedirects
    ensures url !in AllowedRedirects ==> r == DefaultRedirect
  {
    if Includes(AllowedRedirects, url) then url else DefaultRedirect
  }

  /** Guarding an already guarded target changes nothing. */
  lemma ValidateUrlIdempotent(url: string)
    ensures ValidateUrl(ValidateUrl(url)) == ValidateUrl(url)
  {
  }

  /** `form.get("redirectTo")?.toString() || "/jokes"`: a missing or empty
      value falls back to the default before the guard runs. */
  function RedirectCandidate(form: FormData): (r: string)
    ensures r != ""
    ensures Get(form, "redirectTo").None? ==> r == DefaultRedirect
    ensures Get(form, "redirectTo") == Some(File) ==> r == "[object File]"
    ensures Get(form, "redirectTo") == Some(Text("")) ==> r == DefaultRedirect
    ensures forall t :: t != "" && Get(form, "redirectTo") == Some(Text(t)) ==> r == t
  {
    var v := Get(form, "redirectTo");
    if v.None? then DefaultRedirect
    else var s := EntryToString(v.value); if s == "" then DefaultRedirect else s
  }

  /** The target a successful login or registration redirects to. */
  function RedirectTarget(form: FormData): (r: string)
    ensures r in AllowedRedirects
  {
    ValidateUrl(RedirectCandidate(form))
  }

  /** An absent or empty `redirectTo` means "/jokes". */
  lemma RedirectTargetDefault(form: FormData)
    requires Get(form, "redirectTo").None? || Get(form, "redirectTo") == Some(Text(""))
    ensures RedirectTarget(form) == DefaultRedirect
  {
  }

  /** A text `redirectTo` on the allow-list is honoured as submitted; any
      other value, a file included, means "/jokes". */
  lemma RedirectTargetOfText(form: FormData)
    ensures RedirectTarget(form) != DefaultRedirect ==>
              Get(form, "redirectTo").Some? && Get(form, "redirectTo").value.Text? &&
              RedirectTarget(form) == Get(form, "redirectTo").value.text
    ensures Get(form, "redirectTo").Some? && Get(form, "redirectTo").value.Text? &&
            Get(form, "redirectTo").value.text in AllowedRedirects ==>
              RedirectTarget(form) == Get(form, "redirectTo").value.text
  {
  }

  datatype User = User(id: string, username: string)
  datatype Credentials = Credentials(username: string, password: string)

  /** The calls the action makes into code outside this model, each as an
      oracle: `login` (checks a password), `db.user.findFirst` by username,
      and `register` (creates a user). Each answers with a user or null. */
  datatype Backend = Backend(
    login: Credentials -> Option<User>,
    findUserByName: string -> Option<User>,
    register: Credentials -> Option<User>)

  /** A call the action made, with its argument. */
  datatype Call = LoginCall(credentials: Credentials) | FindUserCall(username: string) | RegisterCall(credentials: Credentials)

  datatype LoginFields = LoginFields(username: string, password: string)
  datatype LoginFieldErrors = LoginFieldErrors(username: Option<string>, password: Option<string>)

  /** How a request ends: a re-rendered form with errors, a new session that
      redirects (`createUserSession(userId, redirectTo)`), or no response at
      all (the action returns undefined). */
  datatype Outcome =
    | BadRequest(data: ActionData<LoginFields, LoginFieldErrors>)
    | CreateSession(userId: string, redirectTo: string)
    | NoResponse

  datatype Response = Response(outcome: Outcome, calls: seq<Call>)

  /** `username`, `password` and `loginType` are all text. */
  predicate WellFormed(form: FormData)
  {
    IsText(Get(form, "username")) && IsText(Get(form, "password")) && IsText(Get(form, "loginType"))
  }

  function Username(form: FormData): string
    requires WellFormed(form)
  {
    Get(form, "username").value.text
  }

  function Password(form: FormData): string
    requires WellFormed(form)
  {
    Get(form, "password").value.text
  }

  function LoginType(form: FormData): string
    requires WellFormed(form)
  {
    Get(form, "loginType").value.text
  }

  /** The action, check by check in the order the route makes them. Every
      session it creates redirects to the guarded target, on the allow-list. */
  function Action(form: FormData, backend: Backend): (r: Response)
    ensures r.outcome.CreateSession? ==> r.outcome.redirectTo == RedirectTarget(form)
    ensures r.outcome.CreateSession? ==> r.outcome.redirectTo in AllowedRedirects
  {
    var redirectTo := RedirectTarget(form);
    if !WellFormed(form) then
      Response(BadRequest(FormError(FormNotSubmitted)), [])
    else
      var username, password := Username(form), Password(form);
      var fieldErrors := LoginFieldErrors(ValidateUsername(username), ValidatePassword(password));
      var fields := LoginFields(username, password);
      if SomeTruthy([fieldErrors.username, fieldErrors.password]) then
        Response(BadRequest(ActionData(Some(fieldErrors), Some(fields), None)), [])
      else
        Authenticate(LoginType(form), Credentials(username, password), redirectTo, backend)
  }

  /** The branch on `loginType` once both fields are valid. A session always
      redirects to the given target; a failure is a message for the whole
      form; nothing is called, and nothing is returned, exactly when the mode
      is neither "login" nor "register". */
  function Authenticate(loginType: string, credentials: Credentials, redirectTo: string, backend: Backend): (r: Response)
    ensures r.outcome.CreateSession? ==> r.outcome.redirectTo == redirectTo
    ensures r.outcome.BadRequest? ==> r.outcome.data.fieldErrors.None? && r.outcome.data.fields.None?
    ensures r.outcome.BadRequest? ==>
              r.outcome.data.formError.Some? &&
              r.outcome.data.formError.value in {IncorrectCredentials, UserExists(credentials.username), RegistrationFailed}
    ensures r.outcome.NoResponse? <==> loginType != "login" && loginType != "register"
    ensures r.calls == [] <==> r.outcome.NoResponse?
  {
    if loginType == "login" then
      var user := backend.login(credentials);
      if user.None? then
        Response(BadRequest(FormError(IncorrectCredentials)), [LoginCall(credentials)])
      else
        Response(CreateSession(user.value.id, redirectTo), [LoginCall(credentials)])
    else if loginType == "register" then
      var userExists := backend.findUserByName(credentials.username);
      if userExists.Some? then
        Response(BadRequest(FormError(UserExists(credentials.username))), [FindUserCall(credentials.username)])
      else
        var user := backend.register(credentials);
        var calls := [FindUserCall(credentials.username), RegisterCall(credentials)];
        if user.None? then
          Response(BadRequest(FormError(RegistrationFailed)), calls)
        else
          Response(CreateSession(user.value.id, redirectTo), calls)
    else
      Response(NoResponse, [])
  }

  /** Both fields pass their validators. */
  predicate FieldsValid(form: FormData)
    requires WellFormed(form)
  {
    JsLength(Username(form)) >= 3 && JsLength(Password(form)) >= 6
  }

  /** A missing or non-text field is reported as a malformed form, and nothing
      is looked up; no other path gives that response. */
  lemma MalformedFormRejected(form: FormData, backend: Backend)
    ensures !WellFormed(form) <==>
            Action(form, backend) == Response(BadRequest(FormError(FormNotSubmitted)), [])
  {
    if WellFormed(form) {
      var username := Username(form);
      assert UserExists(username)[0] == 'U' != FormNotSubmitted[0];
      assert IncorrectCredentials[0] == 'U';
    }
  }

  /** A field that fails its validator stops the action before any lookup:
      both messages are reported and both fields echoed. Field errors arise
      on no other path. */
  lemma {:induction false} FieldErrorsRejected(form: FormData, backend: Backend)
    ensures (WellFormed(form) && !FieldsValid(form)) <==> Action(form, backend).outcome.BadRequest? && Action(form, backend).outcome.data.fieldErrors.Some?
    ensures WellFormed(form) && !FieldsValid(form) ==>
              Action(form, backend) == Response(BadRequest(ActionData(
                Some(LoginFieldErrors(ValidateUsername(Username(form)), ValidatePassword(Password(form)))),
                Some(LoginFields(Username(form), Password(form))),
                None)), [])
  {
    if WellFormed(form) {
      var errors := [ValidateUsername(Username(form)), ValidatePassword(Password(form))];
      if !FieldsValid(form) {
        assert Truthy(errors[0]) || Truthy(errors[1]);
      } else {
        assert !Truthy(errors[0]) && !Truthy(errors[1]);
      }
    }
  }

  /** Nothing is looked up or created unless the form is well formed and both
      fields are valid; in particular a too-short username is rejected before
      the uniqueness check. */
  lemma CallsOnlyAfterValidation(form: FormData, backend: Backend)
    ensures Action(form, backend).calls != [] ==> WellFormed(form) && FieldsValid(form)
  {
    FieldErrorsRejected(form, backend);
  }

  /** In login mode the action makes exactly one credential check: a user
      gets a session that redirects to the guarded target, no user gets the
      one generic message. */
  lemma LoginMode(form: FormData, backend: Backend)
    requires WellFormed(form) && FieldsValid(form) && LoginType(form) == "login"
    ensures var credentials := Credentials(Username(form), Password(form));
            var user := backend.login(credentials);
            Action(form, backend) ==
              Response(if user.None? then BadRequest(FormError(IncorrectCredentials))
                       else CreateSession(user.value.id, RedirectTarget(form)),
                       [LoginCall(credentials)])
  {
    FieldErrorsRejected(form, backend);
  }

  /** A failed login looks the same whatever the reason: the response does
      not depend on which backend refused the credentials, nor on the user
      table or registration. */
  lemma LoginFailureIsGeneric(form: FormData, b1: Backend, b2: Backend)
    requires WellFormed(form) && LoginType(form) == "login"
    requires b1.login(Credentials(Username(form), Password(form))).None?
    requires b2.login(Credentials(Username(form), Password(form))).None?
    ensures Action(form, b1) == Action(form, b2)
  {
  }

  /** In register mode an existing username is reported and `register` is
      never called; otherwise `register` is called once and its answer
      decides between the failure message and a new session. */
  lemma RegisterMode(form: FormData, backend: Backend)
    requires WellFormed(form) && FieldsValid(form) && LoginType(form) == "register"
    ensures var username := Username(form);
            var credentials := Credentials(username, Password(form));
            var r := Action(form, backend);
            if backend.findUserByName(username).Some? then
              r == Response(BadRequest(FormError(UserExists(username))), [FindUserCall(username)])
            else
              r.calls == [FindUserCall(username), RegisterCall(credentials)] &&
              r.outcome == (if backend.register(credentials).None? then BadRequest(FormError(RegistrationFailed))
                            else CreateSession(backend.register(credentials).value.id, RedirectTarget(form)))
  {
    FieldErrorsRejected(form, backend);
  }

  /** `register` is called only when no user with that name was found, and
      only with the submitted credentials. */
  lemma RegisterOnlyForNewName(form: FormData, backend: Backend, c: Credentials)
    ensures RegisterCall(c) in Action(form, backend).calls ==>
              && WellFormed(form) && LoginType(form) == "register"
              && c == Credentials(Username(form), Password(form))
              && backend.findUserByName(c.username).None?
  {
    if RegisterCall(c) !in Action(form, backend).calls {
      return;
    }
    CallsOnlyAfterValidation(form, backend);
    FieldErrorsRejected(form, backend);
    var credentials := Credentials(Username(form), Password(form));
    assert Action(form, backend) == Authenticate(LoginType(form), credentials, RedirectTarget(form), backend);
    AuthenticateRegisters(LoginType(form), credentials, RedirectTarget(form), backend, c);
  }

  /** The same fact for the branch on `loginType` alone. */
  lemma AuthenticateRegisters(loginType: string, credentials: Credentials, redirectTo: string, backend: Backend, c: Credentials)
    requires RegisterCall(c) in Authenticate(loginType, credentials, redirectTo, backend).calls
    ensures loginType == "register" && c == credentials
    ensures backend.findUserByName(credentials.username).None?
  {
  }

  /** The action gives no response exactly when the form is well formed,
      both fields are valid and the mode is neither "login" nor "register". */
  lemma NoResponseForUnknownMode(form: FormData, backend: Backend)
    ensures Action(form, backend).outcome.NoResponse? <==>
            WellFormed(form) && FieldsValid(form) && LoginType(form) != "login" && LoginType(form) != "register"
  {
    FieldErrorsRejected(form, backend);
  }

  /** Registering {username: "ab", password: "secret"} is rejected for the
      short username alone, before the uniqueness check runs. */
  lemma ShortUsernameRegistrationExample(backend: Backend)
    ensures var form := [("loginType", Text("register")), ("username", Text("ab")), ("password", Text("secret"))];
            Action(form, backend) ==
              Response(BadRequest(ActionData(Some(LoginFieldErrors(Some(UsernameTooShort), None)),
                                             Some(LoginFields("ab", "secret")), None)), [])
  {
    var form := [("loginType", Text("register")), ("username", Text("ab")), ("password", Text("secret"))];
    assert form[1..] == [("username", Text("ab")), ("password", Text("secret"))];
    assert form[1..][1..] == [("password", Text("secret"))];
    assert Get(form, "loginType") == Some(Text("register"));
    assert Get(form, "username") == Some(Text("ab"));
    assert Get(form, "password") == Some(Text("secret"));
    JsLengthInBmp("ab");
    assert WellFormed(form) && Username(form) == "ab" && Password(form) == "secret";
    assert ValidateUsername("ab") == Some(UsernameTooShort) && ValidatePassword("secret") == None;
    FieldErrorsRejected(form, backend);
  }
}
