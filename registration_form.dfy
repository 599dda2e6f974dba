/** The registration form of the landing page (app/page.tsx): the schema
    that validates it, its default values, the address it navigates to, and
    the `isSubmitting` flag that disables the submit button while a
    submission is pending. */
module RegistrationForm {

  import opened Wrappers
  import opened JsStrings
  import opened UriComponent

  /** The three form fields; `message` is optional in the schema. */
  datatype FormValues = FormValues(name: JsString, message: Option<JsString>, address: JsString)

  /** The schema keys, in their declaration order. */
  datatype Field = Name | Message | Address

  /** A validation issue: the field it belongs to and the text shown under it. */
  datatype Issue = Issue(path: Field, text: JsString)

  const NameMinLength: nat := 2
  const AddressMinLength: nat := 5

  function NameTooShort(): JsString { Lit("Name must be at least 2 characters.") }

  function AddressTooShort(): JsString { Lit("Address must be at least 5 characters.") }

  /** The values the form starts with: every field empty. */
  function DefaultValues(): FormValues { FormValues([], Some([]), []) }

  /** The issues the schema reports for `v`, in key order: a string shorter
      than its minimum length is an issue with that field's fixed text; the
      message is never checked. */
  function Issues(v: FormValues): (issues: seq<Issue>)
    ensures Issue(Name, NameTooShort()) in issues <==> |v.name| < NameMinLength
    ensures Issue(Address, AddressTooShort()) in issues <==> |v.address| < AddressMinLength
    ensures forall k :: 0 <= k < |issues| ==>
      issues[k] == Issue(Name, NameTooShort()) || issues[k] == Issue(Address, AddressTooShort())
    ensures forall k, l :: 0 <= k < l < |issues| ==> issues[k].path == Name && issues[l].path == Address
  {
    (if |v.name| < NameMinLength then [Issue(Name, NameTooShort())] else [])
    + (if |v.address| < AddressMinLength then [Issue(Address, AddressTooShort())] else [])
  }

  /** Parsing the form with the schema: the values themselves when there is
      no issue, all the issues otherwise. */
  function Validate(v: FormValues): (r: Result<FormValues, seq<Issue>>)
    ensures r.Ok? <==> |v.name| >= NameMinLength && |v.address| >= AddressMinLength
    ensures r.Ok? ==> r.value == v
    ensures r.Err? ==> r.error == Issues(v) && |r.error| > 0
  {
    var issues := Issues(v);
    if issues == [] then Ok(v) else Err(issues)
  }

  /** The message shown under a field: the first issue reported for it. */
  function FieldMessage(issues: seq<Issue>, f: Field): (m: Option<JsString>)
    ensures m.Some? <==> exists k :: 0 <= k < |issues| && issues[k].path == f
    ensures m.Some? ==> exists k :: 0 <= k < |issues| && issues[k].path == f && issues[k].text == m.value
  {
    if issues == [] then None
    else if issues[0].path == f then Some(issues[0].text)
    else FieldMessage(issues[1..], f)
  }

  /** Each field shows its own fixed text exactly when it is too short. */
  lemma FieldMessages(v: FormValues)
    ensures FieldMessage(Issues(v), Name)
            == if |v.name| < NameMinLength then Some(NameTooShort()) else None
    ensures FieldMessage(Issues(v), Address)
            == if |v.address| < AddressMinLength then Some(AddressTooShort()) else None
    ensures FieldMessage(Issues(v), Message) == None
  {
  }

  /** The message never decides validation: replacing it, or leaving it out,
      does not change the outcome. */
  lemma MessageNeverRejects(v: FormValues, m: Option<JsString>)
    ensures Validate(v.(message := m)).Ok? <==> Validate(v).Ok?
    ensures Issues(v.(message := m)) == Issues(v)
  {
  }

  /** The form as first shown fails both length checks, so it cannot be
      submitted unedited. */
  lemma DefaultFormRejected()
    ensures Validate(DefaultValues())
            == Err([Issue(Name, NameTooShort()), Issue(Address, AddressTooShort())])
  {
    var v := DefaultValues();
    assert |v.name| == 0 && |v.address| == 0;
    assert Issues(v) == [Issue(Name, NameTooShort())] + [Issue(Address, AddressTooShort())];
    assert [Issue(Name, NameTooShort())] + [Issue(Address, AddressTooShort())]
           == [Issue(Name, NameTooShort()), Issue(Address, AddressTooShort())];
  }

  /** The path of the confirmation page, ready for the encoded name. */
  function ConfirmationPrefix(): JsString { Lit("/confirmation?name=") }

  /** The address `onSubmit` navigates to: the confirmation path followed by
      the encoded name. Encoding throws on a name with an unpaired surrogate. */
  function ConfirmationUrl(name: JsString): (r: Result<JsString, UriError>)
    ensures r.Ok? <==> WellFormed(name)
    ensures r.Ok? ==>
      |ConfirmationPrefix()| <= |r.value|
      && r.value[..|ConfirmationPrefix()|] == ConfirmationPrefix()
      && DecodeUriComponent(r.value[|ConfirmationPrefix()|..]) == Ok(name)
  {
    EncodeSucceedsIffWellFormed(name);
    match EncodeUriComponent(name)
    case Err(e) => Err(e)
    case Ok(encoded) =>
      DecodeEncode(name);
      var url := ConfirmationPrefix() + encoded;
      assert url[..|ConfirmationPrefix()|] == ConfirmationPrefix();
      assert url[|ConfirmationPrefix()|..] == encoded;
      Ok(url)
  }

  /** The query value of that address has no raw space, `&`, `=`, `#` or `+`. */
  lemma ConfirmationQueryIsEscaped(name: JsString)
    requires WellFormed(name)
    ensures ConfirmationUrl(name).Ok?
    ensures forall i :: |ConfirmationPrefix()| <= i < |ConfirmationUrl(name).value| ==>
      ConfirmationUrl(name).value[i] !in {' ' as int, '&' as int, '=' as int, '#' as int, '+' as int}
  {
    EncodeSucceedsIffWellFormed(name);
    EncodedHasNoDelimiters(name);
    var encoded := EncodeUriComponent(name).value;
    var url := ConfirmationUrl(name).value;
    assert url == ConfirmationPrefix() + encoded;
    forall i | |ConfirmationPrefix()| <= i < |url|
      ensures url[i] !in {' ' as int, '&' as int, '=' as int, '#' as int, '+' as int}
    {
      assert url[i] == encoded[i - |ConfirmationPrefix()|];
    }
  }

  /** "Ahmed Khan" is sent as `/confirmation?name=Ahmed%20Khan`. */
  lemma AhmedKhanUrl()
    ensures ConfirmationUrl(Lit("Ahmed Khan")) == Ok(ConfirmationPrefix() + Lit("Ahmed%20Khan"))
  {
    EncodeAhmedKhan();
  }

  lemma EncodeAhmedKhan()
    ensures EncodeUriComponent(Lit("Ahmed Khan")) == Ok(Lit("Ahmed%20Khan"))
  {
    var ahmed, space, khan, escape := Lit("Ahmed"), Lit(" "), Lit("Khan"), Lit("%20");
    EncodeAhmedSpace();
    LitWellFormed("Ahmed ");
    LitWellFormed("Khan");
    assert ahmed + space == Lit("Ahmed ");
    EncodeUnreserved(khan);
    EncodeAppend(ahmed + space, khan);
    assert Lit("Ahmed Khan") == ahmed + space + khan;
    assert Lit("Ahmed%20Khan") == ahmed + escape + khan;
  }

  lemma EncodeAhmedSpace()
    ensures EncodeUriComponent(Lit("Ahmed") + Lit(" ")) == Ok(Lit("Ahmed") + Lit("%20"))
  {
    var ahmed, space, escape := Lit("Ahmed"), Lit(" "), Lit("%20");
    LitWellFormed("Ahmed");
    LitWellFormed(" ");
    EncodeUnreserved(ahmed);
    assert space == [32] && escape == [37, 50, 48];
    assert Utf8Encode(32) == [32];
    assert PercentEscapes([32]) == [37, 50, 48];
    assert EncodeUriComponent(space) == Ok(escape);
    EncodeAppend(ahmed, space);
  }

  /** What pressing the submit button did. */
  datatype SubmitOutcome =
    | Ignored                       // the button was disabled
    | Rejected(issues: seq<Issue>)  // validation failed; nothing was scheduled
    | Started                       // `onSubmit` ran and scheduled the completion

  /** What the scheduled completion did when it ran. */
  datatype Completion =
    | Navigated(url: JsString)      // the router went to the confirmation page
    | Threw(error: UriError)        // encoding the name threw before navigating

  /** The page's submission state. */
  class RegistrationPage {

    /** The `isSubmitting` state flag. */
    var isSubmitting: bool

    /** The values held by the pending completion callback, if any. */
    var pending: Option<FormValues>

    /** Only validated values are ever pending, and only while submitting. */
    ghost predicate Valid()
      reads this
    {
      pending.Some? ==> isSubmitting && Validate(pending.value).Ok?
    }

    /** The `disabled` attribute of the submit button. */
    predicate SubmitDisabled()
      reads this
    {
      isSubmitting
    }

    constructor ()
      ensures Valid() && !isSubmitting && pending == None
    {
      isSubmitting := false;
      pending := None;
    }

    /** Pressing the submit button with the current field values. A disabled
        button does nothing; otherwise the values are validated, and valid
        values start a submission. */
    method PressSubmit(v: FormValues) returns (outcome: SubmitOutcome)
      requires Valid()
      modifies this
      ensures Valid()
      ensures old(SubmitDisabled()) ==>
        outcome == Ignored && isSubmitting == old(isSubmitting) && pending == old(pending)
      ensures !old(SubmitDisabled()) && Validate(v).Err? ==>
        outcome == Rejected(Issues(v)) && !isSubmitting && pending == None
      ensures !old(SubmitDisabled()) && Validate(v).Ok? ==>
        outcome == Started && SubmitDisabled() && pending == Some(v)
    {
      if SubmitDisabled() {
        return Ignored;
      }
      var parsed := Validate(v);
      if parsed.Err? {
        return Rejected(parsed.error);
      }
      isSubmitting := true;
      pending := Some(parsed.value);
      outcome := Started;
    }

    /** The scheduled completion runs: it navigates to the confirmation page
        for the pending name and clears `isSubmitting`. When encoding the name
        throws, the callback stops there and `isSubmitting` stays set. */
    method Complete() returns (c: Completion)
      requires Valid() && pending.Some?
      modifies this
      ensures Valid() && pending == None
      ensures ConfirmationUrl(old(pending).value.name).Ok? ==>
        c == Navigated(ConfirmationUrl(old(pending).value.name).value) && !SubmitDisabled()
      ensures ConfirmationUrl(old(pending).value.name).Err? ==>
        c == Threw(ConfirmationUrl(old(pending).value.name).error) && SubmitDisabled()
    {
      var v := pending.value;
      pending := None;
      var url := ConfirmationUrl(v.name);
      if url.Err? {
        return Threw(url.error);
      }
      c := Navigated(url.value);
      isSubmitting := false;
    }
  }

  /** A name of two lone surrogates passes validation, but encoding it
      throws, so the button stays disabled after the completion runs. */
  lemma LoneSurrogateNameKeepsButtonDisabled()
    ensures var v := FormValues([0xD800, 0xD800], None, Lit("12 Main St"));
      Validate(v).Ok? && ConfirmationUrl(v.name).Err?
  {
    var name: JsString := [0xD800, 0xD800];
    assert !PairedAt(name, 0);
    assert Validate(FormValues(name, None, Lit("12 Main St"))).Ok?;
  }

  /** The same name submitted on a page: the completion throws instead of
      navigating, the button stays disabled, and a further press of the
      submit button is ignored, so the page can never submit again. */
  method LoneSurrogateSession() returns (c: Completion, again: SubmitOutcome)
    ensures c.Threw?
    ensures again == Ignored
  {
    var page := new RegistrationPage();
    var v := FormValues([0xD800, 0xD800], None, Lit("12 Main St"));
    LoneSurrogateNameKeepsButtonDisabled();
    var started := page.PressSubmit(v);
    assert started == Started;
    c := page.Complete();
    assert page.SubmitDisabled();
    again := page.PressSubmit(FormValues(Lit("Ahmed Khan"), None, Lit("123 Main St")));
  }

  /** A whole session: the empty form is refused, a filled one is submitted,
      a second press while submitting is ignored, and the completion
      navigates and enables the button again. */
  method RegistrationSession() returns (url: JsString)
    ensures url == ConfirmationPrefix() + Lit("Ahmed%20Khan")
  {
    var page := new RegistrationPage();
    var first := page.PressSubmit(DefaultValues());
    DefaultFormRejected();
    assert first.Rejected? && !page.SubmitDisabled();
    var filled := FormValues(Lit("Ahmed Khan"), Some([]), Lit("123 Main St"));
    var second := page.PressSubmit(filled);
    assert second == Started && page.SubmitDisabled();
    var third := page.PressSubmit(filled);
    assert third == Ignored && page.pending == Some(filled);
    AhmedKhanUrl();
    var done := page.Complete();
    assert done == Navigated(ConfirmationPrefix() + Lit("Ahmed%20Khan"));
    assert !page.SubmitDisabled();
    url := done.url;
  }
}
