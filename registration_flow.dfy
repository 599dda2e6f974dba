/** The two pages together: the address the registration form navigates to
    carries the name to the confirmation page, which greets it. */
module RegistrationFlow {

  import opened Wrappers
  import opened JsStrings
  import opened UriComponent
  import opened RegistrationForm
  import opened Confirmation

  /** A submission the form accepts reaches the confirmation page with the
      name intact: the query value of the address decodes back to the name,
      the page greets that name rather than "Guest", and the first card is
      the registrant's, badged. */
  lemma SubmittedNameIsGreeted(v: FormValues)
    requires Validate(v).Ok? && WellFormed(v.name)
    ensures ConfirmationUrl(v.name).Ok?
    ensures var url := ConfirmationUrl(v.name).value;
      DecodeUriComponent(url[|ConfirmationPrefix()|..]) == Ok(v.name)
    ensures Render(Some(v.name)).greeting == v.name
    ensures Render(Some(v.name)).cards[0].title == v.name
    ensures Render(Some(v.name)).cards[0].youBadge
  {
    FirstCardIsTheRegistrant(Some(v.name));
  }

  /** A name of two spaces passes validation and is greeted as itself, but
      its avatar shows no initials, since splitting it on spaces leaves only
      empty parts. */
  lemma BlankNameHasNoInitials()
    ensures Validate(FormValues([Space, Space], None, Lit("12 Main St"))).Ok?
    ensures Render(Some([Space, Space])).greeting == [Space, Space]
    ensures Render(Some([Space, Space])).cards[0].initials == []
  {
    var name: JsString := [Space, Space];
    InitialsIgnoreOuterSpaces([Space]);
    InitialsIgnoreOuterSpaces([]);
    InitialsOfEmpty();
    assert [Space] + [Space] == name;
    assert Render(Some(name)).cards[0] == RenderCard(AllAttendees(name)[0], name);
  }
}
