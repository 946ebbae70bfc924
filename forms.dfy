/**
 The request-level vocabulary both form routes share: the submitted form as
 the server sees it, JavaScript's notions of string length and truthiness that
 the validators rely on, and the structured `badRequest` payload that a route
 returns when it re-renders its form with errors.
 */
module Forms {

  datatype Option<+T> = None | Some(value: T)

  /** One value of a submitted form: text, or an uploaded file (the only
      other kind of value a form entry can hold). */
  datatype Entry = Text(text: string) | File

  /** A submitted form: its entries in submission order. A name may occur
      more than once. */
  type FormData = seq<(string, Entry)>

  /** `FormData.get(name)`: the value of the FIRST entry with that name, or
      null when there is none. */
  function Get(form: FormData, name: string): (r: Option<Entry>)
    ensures r.None? <==> NameAbsent(form, name)
  {
    if |form| == 0 then None
    else if form[0].0 == name then Some(form[0].1)
    else
      var r := Get(form[1..], name);
      assert forall i :: 1 <= i < |form| ==> form[i] == form[1..][i - 1];
      r
  }

  /** A value found by `Get` is that of the first entry with the name. */
  lemma {:induction false} GetFindsFirst(form: FormData, name: string)
    requires Get(form, name).Some?
    ensures exists i :: 0 <= i < |form| && form[i] == (name, Get(form, name).value) && NameAbsent(form[..i], name)
  {
    if form[0].0 == name {
      assert form[0] == (name, Get(form, name).value) && NameAbsent(form[..0], name);
    } else {
      GetFindsFirst(form[1..], name);
      var i :| 0 <= i < |form[1..]| && form[1..][i] == (name, Get(form[1..], name).value) && NameAbsent(form[1..][..i], name);
      assert form[..i + 1] == [form[0]] + form[1..][..i];
      assert form[i + 1] == (name, Get(form, name).value) && NameAbsent(form[..i + 1], name);
    }
  }

  /** No entry of `form` carries `name`. */
  predicate NameAbsent(form: FormData, name: string)
  {
    forall i :: 0 <= i < |form| ==> form[i].0 != name
  }

  /** `typeof v === "string"` for the result of `FormData.get`. */
  predicate IsText(v: Option<Entry>)
  {
    v.Some? && v.value.Text?
  }

  /** `String(v)` of a form value: a file prints as "[object File]". */
  function EntryToString(e: Entry): (s: string)
    ensures e.Text? ==> s == e.text
    ensures e.File? ==> s == "[object File]"
  {
    match e
    case Text(t) => t
    case File => "[object File]"
  }

  /** The number of UTF-16 code units in `s`, which is what JavaScript's
      `.length` counts: a character outside the Basic Multilingual Plane is
      stored as a surrogate pair and counts twice. */
  function JsLength(s: string): (n: nat)
    ensures |s| <= n <= 2 * |s|
    ensures n == 0 <==> s == []
  {
    if s == [] then 0
    else (if s[0] as int >= 0x1_0000 then 2 else 1) + JsLength(s[1..])
  }

  /** A single character is one UTF-16 code unit, or two (a surrogate pair)
      when it lies outside the Basic Multilingual Plane. */
  lemma JsLengthChar(c: char)
    ensures JsLength([c]) == if c as int >= 0x1_0000 then 2 else 1
  {
  }

  /** JavaScript's length of a concatenation is the sum of the lengths; with
      `JsLengthChar` this fixes `JsLength` on every string. */
  lemma {:induction false} JsLengthAppend(s: string, t: string)
    ensures JsLength(s + t) == JsLength(s) + JsLength(t)
  {
    if s == [] {
      assert s + t == t;
    } else {
      assert (s + t)[0] == s[0];
      assert (s + t)[1..] == s[1..] + t;
      JsLengthAppend(s[1..], t);
    }
  }

  /** Every character of `s` is a single UTF-16 code unit. */
  predicate InBmp(s: string)
  {
    forall i :: 0 <= i < |s| ==> s[i] as int < 0x1_0000
  }

  /** For text without surrogate pairs JavaScript's length is the number of
      characters. */
  lemma {:induction false} JsLengthInBmp(s: string)
    requires InBmp(s)
    ensures JsLength(s) == |s|
  {
    if s != [] {
      assert InBmp(s[1..]) by {
        forall i | 0 <= i < |s[1..]| ensures s[1..][i] as int < 0x1_0000 {
          assert s[1..][i] == s[i + 1];
        }
      }
      JsLengthInBmp(s[1..]);
    }
  }

  /** `Boolean(v)` for a value that is a string or undefined: the empty
      string and undefined are falsy. */
  predicate Truthy(v: Option<string>)
  {
    v.Some? && v.value != ""
  }

  /** `values.some(Boolean)`: some value in the list is truthy. */
  function SomeTruthy(values: seq<Option<string>>): (r: bool)
    ensures r <==> exists i :: 0 <= i < |values| && Truthy(values[i])
  {
    if values == [] then false
    else if Truthy(values[0]) then true
    else
      var r := SomeTruthy(values[1..]);
      assert forall i :: 1 <= i < |values| ==> values[i] == values[1..][i - 1];
      r
  }

  /** The payload of `badRequest`: the per-field error messages, the echoed
      field values and a message for the whole form, each possibly null. */
  datatype ActionData<Fields, Errors> =
    ActionData(fieldErrors: Option<Errors>, fields: Option<Fields>, formError: Option<string>)

  /** The message both routes give when a field is missing or not text. */
  const FormNotSubmitted := "Form not submitted correctly"

  /** A failure of the whole form: one message, no field errors, no echo. */
  function FormError<Fields, Errors>(message: string): ActionData<Fields, Errors>
  {
    ActionData(None, None, Some(message))
  }
}
