/**
 The server side of the new-joke page (app/routes/jokes/new.tsx): the
 loader that turns away anonymous visitors, the two field validators, and
 the action that adds a joke.

 The action's checks are a pure decision (`Decide`); the one store write it
 leads to is made by `Action` on a `JokeStore`, the joke table.
 */
module NewJoke {
  import opened Forms

  const NameTooShort := "Name too short"
  const ContentTooShort := "Content too short"

  /** What the loader gives: the thrown 401 "Unauthorized" response, or an
      empty JSON payload. */
  datatype LoaderResult = Thrown(status: int, body: string) | EmptyPayload

  /** The loader. `userId` is the session's user id, or null when there is no
      session; an empty id is falsy too. */
  function Loader(userId: Option<string>): (r: LoaderResult)
    ensures r.Thrown? <==> !Truthy(userId)
    ensures r.Thrown? ==> r.status == 401 && r.body == "Unauthorized"
  {
    if !Truthy(userId) then Thrown(401, "Unauthorized") else EmptyPayload
  }

  /** A message exactly when the content is shorter than 10 UTF-16 units. */
  function ValidateJokeContent(content: string): (r: Option<string>)
    ensures r.Some? <==> JsLength(content) < 10
    ensures r.Some? ==> r.value == ContentTooShort
  {
    if JsLength(content) < 10 then Some(ContentTooShort) else None
  }

  /** A message exactly when the name is shorter than 3 UTF-16 units. */
  function ValidateJokeName(name: string): (r: Option<string>)
    ensures r.Some? <==> JsLength(name) < 3
    ensures r.Some? ==> r.value == NameTooShort
  {
    if JsLength(name) < 3 then Some(NameTooShort) else None
  }

  datatype JokeFields = JokeFields(name: string, content: string)
  datatype JokeFieldErrors = JokeFieldErrors(name: Option<string>, content: Option<string>)

  /** Where the action's checks lead: `requireUserId` refuses the request,
      the form is re-rendered with errors, or a joke with these fields is
      written for this jokester. */
  datatype Decision =
    | AuthRequired
    | Reject(data: ActionData<JokeFields, JokeFieldErrors>)
    | Insert(fields: JokeFields, jokesterId: string)

  /** `name` and `content` are both text. */
  predicate WellFormed(form: FormData)
  {
    IsText(Get(form, "name")) && IsText(Get(form, "content"))
  }

  function Name(form: FormData): string
    requires WellFormed(form)
  {
    Get(form, "name").value.text
  }

  function Content(form: FormData): string
    requires WellFormed(form)
  {
    Get(form, "content").value.text
  }

  /** The action's checks in order. `userId` is the session's user id, or
      None when there is none; `requireUserId` refuses the request, before the
      form is read, when the id is missing or empty, as the loader does. */
  function Decide(userId: Option<string>, form: FormData): (d: Decision)
    ensures d.AuthRequired? <==> !Truthy(userId)
    ensures d.Insert? ==> Truthy(userId) && d.jokesterId == userId.value
  {
    if !Truthy(userId) then AuthRequired
    else if !WellFormed(form) then Reject(FormError(FormNotSubmitted))
    else
      var name, content := Name(form), Content(form);
      var fieldErrors := JokeFieldErrors(ValidateJokeName(name), ValidateJokeContent(content));
      var fields := JokeFields(name, content);
      if SomeTruthy([fieldErrors.name, fieldErrors.content]) then
        Reject(ActionData(Some(fieldErrors), Some(fields), None))
      else
        Insert(fields, userId.value)
  }

  /** Both fields pass their validators. */
  predicate FieldsValid(form: FormData)
    requires WellFormed(form)
  {
    JsLength(Name(form)) >= 3 && JsLength(Content(form)) >= 10
  }

  /** A missing or non-text field gives the malformed-form message with no
      field errors and no echo; no other path gives it. */
  lemma MalformedFormRejected(userId: Option<string>, form: FormData)
    requires Truthy(userId)
    ensures !WellFormed(form) <==> Decide(userId, form) == Reject(FormError(FormNotSubmitted))
  {
  }

  /** Both validators always run: a failing field is reported with both
      messages and both fields echoed, and nothing is written. Field errors
      arise on no other path. */
  lemma {:induction false} FieldErrorsRejected(userId: Option<string>, form: FormData)
    requires Truthy(userId)
    ensures (WellFormed(form) && !FieldsValid(form)) <==> Decide(userId, form).Reject? && Decide(userId, form).data.fieldErrors.Some?
    ensures WellFormed(form) && !FieldsValid(form) ==>
              Decide(userId, form) == Reject(ActionData(
                Some(JokeFieldErrors(ValidateJokeName(Name(form)), ValidateJokeContent(Content(form)))),
                Some(JokeFields(Name(form), Content(form))),
                None))
  {
    if WellFormed(form) {
      var errors := [ValidateJokeName(Name(form)), ValidateJokeContent(Content(form))];
      if !FieldsValid(form) {
        assert Truthy(errors[0]) || Truthy(errors[1]);
      } else {
        assert !Truthy(errors[0]) && !Truthy(errors[1]);
      }
    }
  }

  /** A joke is written exactly when the user is known and both fields are
      text and valid, and then with the submitted fields and that user as
      its jokester. */
  lemma InsertExactlyWhenValid(userId: Option<string>, form: FormData)
    ensures Decide(userId, form).Insert? <==> Truthy(userId) && WellFormed(form) && FieldsValid(form)
    ensures Decide(userId, form).Insert? ==>
              Decide(userId, form) == Insert(JokeFields(Name(form), Content(form)), userId.value)
  {
    if Truthy(userId) {
      FieldErrorsRejected(userId, form);
    }
  }

  /** A joke row in the store. */
  datatype Joke = Joke(id: string, name: string, content: string, jokesterId: string)

  function Ids(jokes: seq<Joke>): set<string>
  {
    set j | j in jokes :: j.id
  }

  /** Every joke the action writes has a name of at least 3 and a content of
      at least 10 UTF-16 units. */
  predicate WellSized(joke: Joke)
  {
    JsLength(joke.name) >= 3 && JsLength(joke.content) >= 10
  }

  /** The joke table, as far as this route uses it. */
  class JokeStore {
    var jokes: seq<Joke>

    /** Ids are distinct. */
    ghost predicate Valid()
      reads this
    {
      forall i, j :: 0 <= i < j < |jokes| ==> jokes[i].id != jokes[j].id
    }

    constructor ()
      ensures Valid() && jokes == []
    {
      jokes := [];
    }

    /** `db.joke.create`: appends one row under the id the database chose. */
    method Create(id: string, name: string, content: string, jokesterId: string) returns (joke: Joke)
      requires Valid() && id !in Ids(jokes)
      modifies this
      ensures Valid()
      ensures joke == Joke(id, name, content, jokesterId)
      ensures jokes == old(jokes) + [joke]
    {
      joke := Joke(id, name, content, jokesterId);
      assert forall i :: 0 <= i < |jokes| ==> jokes[i] in jokes;
      jokes := jokes + [joke];
    }
  }

  /** The action's response: `requireUserId` refused the request, the form is
      re-rendered with errors, or a redirect to the new joke's page. */
  datatype ActionResponse =
    | AuthFailure
    | BadRequest(data: ActionData<JokeFields, JokeFieldErrors>)
    | Redirect(location: string)

  /** The action. `newId` is the id the database generates for the row it
      would insert. */
  method Action(store: JokeStore, userId: Option<string>, form: FormData, newId: string) returns (r: ActionResponse)
    requires store.Valid() && newId !in Ids(store.jokes)
    modifies store
    ensures store.Valid()
    ensures match Decide(userId, form)
            case AuthRequired => r == AuthFailure && store.jokes == old(store.jokes)
            case Reject(data) => r == BadRequest(data) && store.jokes == old(store.jokes)
            case Insert(fields, jokesterId) =>
              && r == Redirect("/jokes/" + newId)
              && store.jokes == old(store.jokes) + [Joke(newId, fields.name, fields.content, jokesterId)]
              && WellSized(store.jokes[|store.jokes| - 1])
  {
    var decision := Decide(userId, form);
    match decision
    case AuthRequired =>
      r := AuthFailure;
    case Reject(data) =>
      r := BadRequest(data);
    case Insert(fields, jokesterId) =>
      InsertExactlyWhenValid(userId, form);
      var joke := store.Create(newId, fields.name, fields.content, jokesterId);
      r := Redirect("/jokes/" + joke.id);
  }

  /** {name: "Jo", content: "short"} from a signed-in user: both messages,
      both fields echoed, nothing written. */
  lemma ShortSubmissionExample(user: string)
    requires user != ""
    ensures var form := [("name", Text("Jo")), ("content", Text("short"))];
            Decide(Some(user), form) ==
              Reject(ActionData(Some(JokeFieldErrors(Some(NameTooShort), Some(ContentTooShort))),
                                Some(JokeFields("Jo", "short")), None))
  {
    var form := [("name", Text("Jo")), ("content", Text("short"))];
    assert Get(form, "name") == Some(Text("Jo"));
    assert form[1..] == [("content", Text("short"))];
    assert Get(form, "content") == Some(Text("short"));
    JsLengthInBmp("Jo");
    JsLengthInBmp("short");
    FieldErrorsRejected(Some(user), form);
  }

  /** {name: "Joe", content: "This is long enough"} from user U: a joke with
      those fields and jokester U is written. */
  lemma ValidSubmissionExample(user: string)
    requires user != ""
    ensures var form := [("name", Text("Joe")), ("content", Text("This is long enough"))];
            Decide(Some(user), form) == Insert(JokeFields("Joe", "This is long enough"), user)
  {
    var form := [("name", Text("Joe")), ("content", Text("This is long enough"))];
    assert Get(form, "name") == Some(Text("Joe"));
    assert form[1..] == [("content", Text("This is long enough"))];
    assert Get(form, "content") == Some(Text("This is long enough"));
    InsertExactlyWhenValid(Some(user), form);
  }
}
