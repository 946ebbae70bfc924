# Jokes app: login and new-joke form handling in Dafny

This project models the server-side request handling of two form routes of a
small jokes web application.

- **Login page** (`app/routes/login.tsx`). It has two field validators and an
  allow-list guard on the redirect target. Its form action logs a user in,
  registers a new one, or re-renders the form with errors.
- **New-joke page** (`app/routes/jokes/new.tsx`). Its loader turns away
  visitors who have no session. It has two field validators. Its form action
  writes one joke and redirects to it, or re-renders the form with errors.

Files:

- `forms.dfy` (module `Forms`): the submitted form and the JavaScript
  behaviour the validators depend on.
  - `FormData.get` returns the first entry with a given name.
  - A form value is either text or a file.
  - `.length` counts UTF-16 code units.
  - `Boolean(...)` truthiness, and `values.some(Boolean)`.
  - The `badRequest` payload `{fieldErrors, fields, formError}`.
- `login.dfy` (module `Login`): the login route. Its action is a total
  function of two inputs:
  - the form;
  - a `Backend` of oracles that stand for `login`, `db.user.findFirst` and
    `register`.

  It returns the outcome and the list of external calls, in the order made.
  This list is what lets the model state that a lookup never happens.
- `new_joke.dfy` (module `NewJoke`): the new-joke route.
  - `Decide` is the action's pure chain of checks.
  - `JokeStore` is the joke table, a class whose `jokes` sequence the
    `Create` method appends to.
  - The `Action` method runs `Decide` and makes the one insert.

On a field error the login action echoes both `username` and `password`
(app/routes/login.tsx:68-74), and the model does the same.

## Model

| member | source | states |
|---|---|---|
| `Forms.Get` | app/routes/login.tsx:43-45 | `form.get(name)` is null exactly when no entry has that name. |
| `Forms.GetFindsFirst` | app/routes/login.tsx:43-45 | A value that `form.get(name)` returns is that of an entry with that name, and no earlier entry has that name. |
| `Forms.JsLength` | app/routes/login.tsx:21 | JavaScript's `.length` lies between the character count and twice the character count. It is 0 exactly for the empty string. |
| `Forms.JsLengthChar` | app/routes/login.tsx:21 | One character has `.length` 1, or 2 when it lies outside the Basic Multilingual Plane. |
| `Forms.JsLengthAppend` | app/routes/jokes/new.tsx:32 | `.length` of a concatenation is the sum of the lengths. Together with `Forms.JsLengthChar` this fixes `.length` on every string. |
| `Forms.JsLengthInBmp` | app/routes/jokes/new.tsx:32 | For text with no character outside the Basic Multilingual Plane, `.length` equals the character count. |
| `Forms.SomeTruthy` | app/routes/login.tsx:69 | `Object.values(fieldErrors).some(Boolean)` holds exactly when some value is a non-empty string. |
| `Login.ValidateUsername` | app/routes/login.tsx:20-24 | Gives a message exactly when the username is shorter than 3. The message is "Username must be at least 3 characters". |
| `Login.ValidatePassword` | app/routes/login.tsx:26-30 | Gives a message exactly when the password is shorter than 6. The message is "Password must be at least 6 characters". |
| `Login.Includes` | app/routes/login.tsx:34 | `urls.includes(url)` holds exactly when `url` is in the list. |
| `Login.ValidateUrl` | app/routes/login.tsx:32-39 | The result is always on the allow-list `/jokes`, `/`, `https://remix.run`. It equals the argument exactly when the argument is on the list. Otherwise it is `/jokes`. |
| `Login.ValidateUrlIdempotent` | app/routes/login.tsx:32-39 | Applying the guard twice is the same as applying it once. |
| `Forms.EntryToString` | app/routes/login.tsx:47 | A text value converts to its own text. A file converts to "[object File]". |
| `Login.RedirectCandidate` | app/routes/login.tsx:47 | A missing `redirectTo` or empty text gives "/jokes". A file gives "[object File]". Any other text is kept as submitted. The candidate is never empty. |
| `Login.RedirectTarget` | app/routes/login.tsx:46-48 | The effective redirect target is always on the allow-list. |
| `Login.RedirectTargetDefault` | app/routes/login.tsx:46-48 | A missing or empty `redirectTo` gives `/jokes`. |
| `Login.RedirectTargetOfText` | app/routes/login.tsx:46-48 | A text `redirectTo` on the allow-list is kept as submitted. Any target other than `/jokes` came from a text field. A file therefore gives `/jokes`. |
| `Login.Action` | app/routes/login.tsx:41-113 | Every session the action creates redirects to the guarded target, which is on the allow-list. |
| `Login.MalformedFormRejected` | app/routes/login.tsx:50-61 | The response is "Form not submitted correctly" with null field errors, null fields and no external call exactly when `username`, `password` or `loginType` is missing or not text. |
| `Login.FieldErrorsRejected` | app/routes/login.tsx:63-75 | A response carries field errors exactly when the form is well formed and a validator fails. It then holds both validators' results and echoes `{username, password}` with a null form error, and no call is made. |
| `Login.CallsOnlyAfterValidation` | app/routes/login.tsx:63-89 | No login, lookup or registration call happens unless the form is well formed and both fields are valid. A short username is therefore rejected before the uniqueness check. |
| `Login.Authenticate` | app/routes/login.tsx:77-113 | After validation the login-type branch behaves as follows. Every session redirects to the target it was given. Every failure is a whole-form message with no field errors or echo. That message is always present and is one of "Username or password incorrect", "User with username … already exists" for the submitted name, or "Something went wrong trying to create a new user." The action calls nothing and returns nothing exactly when `loginType` is neither "login" nor "register". |
| `Login.LoginMode` | app/routes/login.tsx:77-88 | In login mode exactly one credential check is made. A user gets a session for its id that redirects to the guarded target. No user gets "Username or password incorrect". |
| `Login.LoginFailureIsGeneric` | app/routes/login.tsx:80-86 | When the credential check finds no user, two backends give the same response. The response does not reveal why the credentials failed. |
| `Login.RegisterMode` | app/routes/login.tsx:89-111 | In register mode a taken username gives "User with username … already exists" and `register` is not called. Otherwise `register` is called once. Null gives the "Something went wrong" error. A user gets a session with the guarded target. |
| `Login.RegisterOnlyForNewName` | app/routes/login.tsx:89-102 | `register` is called only in register mode, only with the submitted credentials, and only after the lookup found no user with that name. |
| `Login.AuthenticateRegisters` | app/routes/login.tsx:89-102 | In the login-type branch, a `register` call has the submitted credentials. It happens only in register mode, after the lookup found no user. |
| `Login.NoResponseForUnknownMode` | app/routes/login.tsx:77-113 | The action returns nothing exactly when the form is well formed, both fields are valid and `loginType` is neither "login" nor "register". |
| `Login.ShortUsernameRegistrationExample` | app/routes/login.tsx:63-75 | Registering "ab"/"secret" gives the username error and echoes both fields. No lookup happens. |
| `NewJoke.Loader` | app/routes/jokes/new.tsx:23-29 | The loader throws a 401 "Unauthorized" response exactly when the user id is null or empty. Otherwise it returns the empty payload. |
| `NewJoke.ValidateJokeContent` | app/routes/jokes/new.tsx:31-35 | Gives "Content too short" exactly when the content is shorter than 10. |
| `NewJoke.ValidateJokeName` | app/routes/jokes/new.tsx:37-41 | Gives "Name too short" exactly when the name is shorter than 3. |
| `NewJoke.Decide` | app/routes/jokes/new.tsx:44-45 | Without a user id, or with an empty one, the action stops before the form is read, whatever the form holds. No other path stops there. An insert is always attributed to the current user. |
| `NewJoke.MalformedFormRejected` | app/routes/jokes/new.tsx:50-56 | For a signed-in user, the result is "Form not submitted correctly" with null field errors and fields exactly when `name` or `content` is missing or not text. |
| `NewJoke.FieldErrorsRejected` | app/routes/jokes/new.tsx:58-70 | Field errors arise exactly when a validator fails. Both validators' results are reported, so a submission failing both gets both messages. `{name, content}` is echoed and nothing is written. |
| `NewJoke.InsertExactlyWhenValid` | app/routes/jokes/new.tsx:43-73 | A joke is written exactly when there is a non-empty user id and both fields are valid text. It carries the submitted fields and that user as jokester. |
| `NewJoke.JokeStore.Create` | app/routes/jokes/new.tsx:72-74 | The insert appends exactly one row with the given fields. Ids stay distinct. |
| `NewJoke.Action` | app/routes/jokes/new.tsx:43-76 | Without an insert decision the store is unchanged. On success exactly one row is appended, with the submitted name and content and the current user as jokester. The response redirects to `/jokes/<new id>`, and the new row meets both length bounds. |
| `NewJoke.ShortSubmissionExample` | app/routes/jokes/new.tsx:58-70 | {name "Jo", content "short"} gives both "Name too short" and "Content too short", echoes the fields and writes nothing. |
| `NewJoke.ValidSubmissionExample` | app/routes/jokes/new.tsx:58-73 | {name "Joe", content "This is long enough"} from user U writes one joke with those fields and jokester U. |

## Left out

- The random-joke page (`app/routes/jokes/index.tsx`) is not part of this
  model. Its logic is a row count, a floating-point random offset and a
  fetch.
- The implementations of `login`, `register`, `createUserSession`,
  `getUserId`, `requireUserId`, `badRequest` and the database client are not
  part of this model.
  - Their results are inputs: the `Backend` oracles, the `userId` option and
    the `newId` parameter.
  - Password hashing is inside the `login` oracle.
  - The redirect that `requireUserId` throws is one opaque `AuthFailure`.
- Errors thrown while parsing the form (`request.formData()`) or by the
  external calls (`login`, `db.user.findFirst`, `register`,
  `db.joke.create`) are not modelled. Each oracle always answers and the
  insert always succeeds. In the source such an error ends the request at
  the error boundary.
- `requireUserId` is taken to refuse a missing or empty user id, the same
  falsy test the loader makes (app/routes/jokes/new.tsx:25). Its own code is
  not part of this model.
- The joke id that the database generates is a parameter. It is required to
  be unused, which stands for the uniqueness of the generated id.
- The race between the username lookup and the user insert is not modelled.
  Each request is one atomic function evaluation.
- React components, the `useState` change handlers, the catch and error
  boundaries, styles and `console.log` are not modelled. They are rendering
  and diagnostics.
- The thrown 401 of the loader is a value. How the transport layer delivers
  it is not modelled.
- `typeof redirectTo !== "string"` in the login action is not modelled as a
  check. `validateUrl` always yields a string, so that test never fires.
