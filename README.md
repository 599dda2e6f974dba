# Iftar invitation: registration and confirmation pages

This project models the two pages of the Iftar invitation web application.

The registration page (`app/page.tsx`) has four modelled parts:
- the form schema: a name of at least 2 characters, an optional message, and an address of at least 5 characters, each failure with its fixed error text;
- the form's default values;
- the submit handler, which sets the submitting flag, navigates to `/confirmation?name=` followed by `encodeURIComponent(name)`, and clears the flag again;
- the submit button, which is disabled while submitting.

The confirmation page (`app/confirmation/page.tsx`) has these modelled parts:
- the greeted name, which is the `name` query value or "Guest";
- the attendee list: the new registrant in front of the five mock attendees;
- `getInitials`;
- the message-or-placeholder rule of each card;
- the "You" badge;
- the attendee count.

Strings are modelled as JavaScript holds them, as sequences of UTF-16 code units, so `length`, `split`, `part[0]` and `encodeURIComponent` work on code units. This includes the URIError that `encodeURIComponent` throws on an unpaired surrogate.

Modules:
- `Wrappers`: `Option` and `Result`.
- `JsStrings`: code units, surrogate pairs, well-formed strings, string literals, and the string built-ins the pages use: `split` and `join` on one separator, `join("")` over parts that may be `undefined`, and `toUpperCase`.
- `UriComponent`: `encodeURIComponent` as section 19.2.6.5 of ECMA-262 defines it (UTF-8 octets, `%XX` escapes with upper-case hex digits, the unreserved set), with `decodeURIComponent` (section 19.2.6.3) as its inverse.
- `RegistrationForm`: the schema, the validation result, the navigation address, and the submission state of the page as a class.
- `Confirmation`: the mock data, the greeted name, the attendee list, initials and cards.
- `RegistrationFlow`: the two pages together.

Three details of the code that the model keeps as written:
- **Attendee data.** The confirmation page lists hard-coded mock attendees plus the new entry. It fetches nothing and stores nothing.
- **Word splitting.** `getInitials` splits on the single space character only. A tab or newline inside a name does not separate words (`InitialsOfWord`), and runs of spaces give empty parts, which add no initial.
- **The badge.** The "You" badge goes on every card whose name equals the greeted name, not only the first one. Registering as "Ahmed Khan" badges the mock Ahmed Khan as well (`BadgeOnEveryMatch`).

## Model

| member | source | states |
|---|---|---|
| RegistrationForm.Issues | app/page.tsx:17-25 | the name issue is reported iff the name has fewer than 2 code units; the address issue iff the address has fewer than 5; no other issue exists; the name issue comes before the address issue |
| RegistrationForm.Validate | app/page.tsx:17-25 | parsing succeeds iff both minimum lengths hold, and then returns the values unchanged; otherwise it fails with exactly the non-empty list of issues |
| RegistrationForm.DefaultValues | app/page.tsx:33-37 | the form starts with an empty name, an empty message and an empty address; `DefaultFormRejected` shows these cannot be submitted |
| RegistrationForm.FieldMessage | app/page.tsx:134-172 | a field shows a message iff some issue is about that field, and the message shown is the text of such an issue |
| RegistrationForm.FieldMessages | app/page.tsx:18-24 | the name field shows "Name must be at least 2 characters." exactly when the name is too short, and the address field likewise shows its text; the message field never shows an error |
| RegistrationForm.MessageNeverRejects | app/page.tsx:21 | the optional message, whether present or absent and whatever its content, changes neither the verdict nor the issues |
| RegistrationForm.DefaultFormRejected | app/page.tsx:33-37 | the default values (all empty) are rejected, with both the name issue and the address issue |
| RegistrationForm.ConfirmationUrl | app/page.tsx:45 | the address is built iff the name is well-formed UTF-16 (otherwise encoding throws); it starts with `/confirmation?name=`, and its query value decodes back to the name |
| RegistrationForm.ConfirmationQueryIsEscaped | app/page.tsx:45 | no raw space, `&`, `=`, `#` or `+` appears in the query part of the address |
| RegistrationForm.AhmedKhanUrl | app/page.tsx:45 | the name "Ahmed Khan" gives the address `/confirmation?name=Ahmed%20Khan` |
| RegistrationForm.RegistrationPage.constructor | app/page.tsx:29 | the page starts not submitting, with nothing pending |
| RegistrationForm.RegistrationPage.SubmitDisabled | app/page.tsx:179 | the button is disabled exactly while the page is submitting; `PressSubmit` shows that a press then does nothing |
| RegistrationForm.RegistrationPage.PressSubmit | app/page.tsx:40-41 | a press while the button is disabled changes nothing; invalid values are rejected with their issues and start nothing; valid values set the submitting flag and schedule the navigation |
| RegistrationForm.RegistrationPage.Complete | app/page.tsx:43-47 | the scheduled callback navigates to the confirmation address and clears the submitting flag; if encoding throws, it does not navigate and the flag stays set |
| RegistrationForm.LoneSurrogateNameKeepsButtonDisabled | app/page.tsx:17-25 | a name of two lone surrogates passes validation, but building its confirmation address fails |
| RegistrationForm.LoneSurrogateSession | app/page.tsx:40-47 | on a page, submitting that name starts a submission whose completion throws instead of navigating; a later press of the submit button is ignored, because the button stays disabled |
| RegistrationForm.RegistrationSession | app/page.tsx:179 | in a session, the empty form is refused and a filled form starts a submission; a second press while the button is disabled is ignored; completion navigates to `/confirmation?name=Ahmed%20Khan` |
| UriComponent.EncodeUriComponent | app/page.tsx:45 | `encodeURIComponent`: unreserved units are kept and every other code point becomes the `%XX` escapes of its UTF-8 octets; `EncodeSucceedsIffWellFormed` says when it throws and `DecodeEncode` says it can be inverted |
| UriComponent.EncodeSucceedsIffWellFormed | app/page.tsx:45 | `encodeURIComponent` returns normally iff the string has no unpaired surrogate |
| UriComponent.DecodeEncode | app/page.tsx:45 | for every well-formed string, decoding the encoding gives the string back |
| UriComponent.EncodeGivesEncodedForm | app/page.tsx:45 | the output consists only of unreserved characters and `%XY` escapes with upper-case hex digits |
| UriComponent.EncodedFormUnits | app/page.tsx:45 | every unit of an encoded form is unreserved, `%`, or an upper-case hex digit |
| UriComponent.EncodedHasNoDelimiters | app/page.tsx:45 | the output holds no space, `&`, `=`, `#`, `+`, `?` or `/` |
| UriComponent.EncodeAppend | app/page.tsx:45 | the encoding of a concatenation of well-formed strings is the concatenation of their encodings |
| UriComponent.EncodeUnreserved | app/page.tsx:45 | a string of unreserved characters encodes to itself |
| UriComponent.CodePointAt | app/page.tsx:45 | the code point read at the start is unpaired iff the first unit is a trail surrogate or a lead surrogate without a trail; otherwise the units read are the UTF-16 encoding of that code point |
| UriComponent.Utf8Encode | app/page.tsx:45 | a scalar value takes 1, 2, 3 or 4 octets according to its range, with the matching lead-octet range and continuation octets after it |
| UriComponent.Utf8RoundTrip | app/page.tsx:45 | decoding the UTF-8 octets of a scalar value gives the value back |
| UriComponent.HexRoundTrip | app/page.tsx:45 | every hex digit emitted reads back as its value |
| UriComponent.EscapeRunRoundTrip | app/page.tsx:45 | the escapes of one code point decode to that code point's UTF-16 units, and consume exactly those escapes |
| JsStrings.PairRoundTrip | app/page.tsx:45 | a lead and a trail surrogate stand for a scalar value whose UTF-16 encoding is that pair |
| JsStrings.LitWellFormed | app/page.tsx:45 | string literals contain no surrogate, so they can always be encoded |
| JsStrings.Split | app/confirmation/page.tsx:90 | `split(" ")` gives one part more than there are separators, and no part contains the separator |
| JsStrings.JoinSplit | app/confirmation/page.tsx:90 | joining the parts of a split with the separator gives back the string |
| JsStrings.SplitJoin | app/confirmation/page.tsx:90 | splitting a join of separator-free parts gives back the parts |
| JsStrings.UpperCaseAppend | app/confirmation/page.tsx:92-93 | upper-casing a concatenation is concatenating the upper-cased halves, so upper-casing the joined initials equals joining the upper-cased initials |
| JsStrings.UpperCaseIdempotent | app/confirmation/page.tsx:93 | upper-casing an upper-cased string changes nothing |
| JsStrings.UpperCaseLeavesNoLower | app/confirmation/page.tsx:93 | no ASCII lower-case letter remains after upper-casing, and every unit that is not one stays unchanged |
| Confirmation.MockAttendees | app/confirmation/page.tsx:14-50 | five mock attendees, with ids 1 to 5 in order |
| Confirmation.DisplayName | app/confirmation/page.tsx:54 | the greeted name is the query value when it is present and non-empty, and "Guest" otherwise; it is never empty |
| Confirmation.AllAttendees | app/confirmation/page.tsx:57-66 | the list is the registrant, with id 6 and the greeted name, followed by the five mock attendees in their order |
| Confirmation.IdsAreDistinct | app/confirmation/page.tsx:59 | no two entries of the list share an id, so the card keys are unique |
| Confirmation.NewAttendee | app/confirmation/page.tsx:58-64 | the registrant's entry has id 6 (one past the mock list), the greeted name, "Just registered!" and "Address provided"; `AllAttendees` and `FirstCardIsTheRegistrant` state this |
| Confirmation.GetInitials | app/confirmation/page.tsx:88-94 | at most one initial per space-separated part, no initial is a space, and no initial is a lower-case ASCII letter |
| Confirmation.InitialsOfParts | app/confirmation/page.tsx:88-94 | the initials are the upper-cased first units of the non-empty parts of the split, one per part, in order |
| Confirmation.FirstsOfNonEmpty | app/confirmation/page.tsx:91-92 | joining the first units of the parts, where an empty part contributes `undefined`, keeps exactly one unit per non-empty part |
| Confirmation.InitialsAreWordStarts | app/confirmation/page.tsx:88-94 | the initials are the upper-cased units that are not a space and that start the name or follow a space |
| Confirmation.WordStartsAppend | app/confirmation/page.tsx:88-94 | the word starts of a concatenation are those of each half, where the second half continues from whether the first half ended in a space |
| Confirmation.InitialsOfWord | app/confirmation/page.tsx:88-94 | a space-free name, even one containing a tab, has exactly one initial: its upper-cased first unit |
| Confirmation.InitialsOfTwoWords | app/confirmation/page.tsx:88-94 | two words joined by one space have two initials, the upper-cased first units of the words |
| Confirmation.InitialsIgnoreOuterSpaces | app/confirmation/page.tsx:88-94 | a leading or trailing space leaves the initials unchanged |
| Confirmation.InitialsIgnoreDoubledSpaces | app/confirmation/page.tsx:88-94 | two spaces between words give the same initials as one |
| Confirmation.InitialsOfEmpty | app/confirmation/page.tsx:88-94 | the empty name has no initials |
| Confirmation.CardBodyFor | app/confirmation/page.tsx:167-173 | a card quotes the message iff the message is present and non-empty; a `null` or empty message shows the placeholder |
| Confirmation.RenderCard | app/confirmation/page.tsx:149-184 | a card's avatar shows the initials of the attendee's name; the card shows the attendee's name and address and the body rule above, and has the badge iff the attendee's name equals the greeted name |
| Confirmation.Render | app/confirmation/page.tsx:116-187 | the page greets the display name, its heading counts the list, and it shows one card per list entry, in list order |
| Confirmation.SixAttendees | app/confirmation/page.tsx:141 | the heading always counts six attendees |
| Confirmation.FirstCardIsTheRegistrant | app/confirmation/page.tsx:57-66 | the first card shows the greeted name, "Just registered!" and "Address provided", and always has the badge |
| Confirmation.BadgeOnEveryMatch | app/confirmation/page.tsx:176 | for the name "Ahmed Khan", the first two cards both have the badge and no other card has it |
| Confirmation.MockMessages | app/confirmation/page.tsx:32 | Mohammed Rahman's card, whose message is `null`, shows "No message provided"; every other mock card quotes its message |
| RegistrationFlow.SubmittedNameIsGreeted | app/page.tsx:45 | a well-formed name that the form accepts reaches the confirmation page intact: the query decodes to it, the page greets it (never "Guest"), and the first card shows it with the badge |
| RegistrationFlow.BlankNameHasNoInitials | app/confirmation/page.tsx:88-94 | a name of two spaces passes validation and is greeted as itself, but its avatar has no initials |

## Left out

- The markup, styling, icons and animations of both pages, and the static texts, apart from those the model names.
- The one-second `setTimeout` delay and the `console.log` of the values. The delay is modelled only as the split between `PressSubmit` and `Complete`. Presses in between are modelled; the timer itself is not.
- The form library's plumbing (`useForm`, `zodResolver`, re-validation while typing). Validation is modelled as one parse of the submitted values.
- `useSearchParams`. The confirmation page takes the `name` query value as given. Parsing a query string, with `+` read as a space and invalid escapes replaced, is not modelled. For addresses the form builds, the query value is decoded with `decodeURIComponent`. Such addresses hold no `+`, `&` or `#` in the value, so the two decodings agree there.
- The router (`router.push`). Navigation is modelled as the address it is given.
- The layout file (`app/layout.tsx`). It is not part of this model.
- JsStrings.ToUpperCase: maps only the ASCII letters. JavaScript upper-cases every Unicode letter, and some of them change the length (for example `ß` becomes `SS`). `UpperCaseAppend` and the one-unit-per-unit shape depend on this restriction.
- JsStrings.Lit: gives every character of a literal one code unit. This is exact for the pages' literals, which are all ASCII. A literal character beyond U+FFFF would map to U+FFFD rather than to a surrogate pair.
- UriComponent.DecodeUriComponent: is the inverse used in the proofs. Its own error cases (bad escapes, overlong UTF-8) are modelled, but no lemma beyond the round trip is proved about them.
