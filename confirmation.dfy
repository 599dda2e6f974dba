/** The confirmation page (app/confirmation/page.tsx): the name taken from
    the query, the attendee list built from the new registrant and the mock
    attendees, and what each attendee card shows. */
module Confirmation {

  import opened Wrappers
  import opened JsStrings

  /** One attendee record; a `null` message is `None`. */
  datatype Attendee = Attendee(
    id: nat, name: JsString, message: Option<JsString>, address: JsString, avatar: JsString)

  function AvatarUrl(): JsString { Lit("/placeholder.svg?height=40&width=40") }

  function Guest(): JsString { Lit("Guest") }

  /** The five attendees the page lists before the new one. */
  function MockAttendees(): (mock: seq<Attendee>)
    ensures |mock| == 5
    ensures forall k :: 0 <= k < |mock| ==> mock[k].id == k + 1
  {
    [ Attendee(1, Lit("Ahmed Khan"), Some(Lit("Looking forward to the event!")),
               Lit("123 Main St, City"), AvatarUrl()),
      Attendee(2, Lit("Fatima Ali"), Some(Lit("I'm vegetarian, please accommodate.")),
               Lit("456 Oak Ave, Town"), AvatarUrl()),
      Attendee(3, Lit("Mohammed Rahman"), None,
               Lit("789 Pine Rd, Village"), AvatarUrl()),
      Attendee(4, Lit("Aisha Patel"), Some(Lit("I'll bring some dessert to share.")),
               Lit("101 Elm St, County"), AvatarUrl()),
      Attendee(5, Lit("Yusuf Omar"), Some(Lit("Can I bring my family?")),
               Lit("202 Maple Dr, District"), AvatarUrl()) ]
  }

  /** The name the page greets: the `name` query value, or "Guest" when it
      is absent or empty (both are falsy for `||`). */
  function DisplayName(query: Option<JsString>): (name: JsString)
    ensures query.Some? && query.value != [] ==> name == query.value
    ensures query.None? || query.value == [] ==> name == Guest()
    ensures name != []
  {
    if query.Some? && query.value != [] then query.value else Guest()
  }

  /** The entry for the person who has just registered. */
  function NewAttendee(name: JsString): Attendee {
    Attendee(|MockAttendees()| + 1, name, Some(Lit("Just registered!")),
             Lit("Address provided"), AvatarUrl())
  }

  /** The new entry in front of the mock attendees, in their order. */
  function AllAttendees(name: JsString): (all: seq<Attendee>)
    ensures |all| == |MockAttendees()| + 1
    ensures all[0].name == name && all[0].id == |MockAttendees()| + 1
    ensures forall k :: 1 <= k < |all| ==> all[k] == MockAttendees()[k - 1]
  {
    [NewAttendee(name)] + MockAttendees()
  }

  /** Card keys are the ids, and no two entries share one. */
  lemma IdsAreDistinct(name: JsString)
    ensures forall j, k :: 0 <= j < k < |AllAttendees(name)| ==>
      AllAttendees(name)[j].id != AllAttendees(name)[k].id
  {
    var all := AllAttendees(name);
    forall j, k | 0 <= j < k < |all| ensures all[j].id != all[k].id {
      assert all[k].id == k;
      if j > 0 { assert all[j].id == j; }
    }
  }

  // ---------------------------------------------------------------------
  // Initials
  // ---------------------------------------------------------------------

  /** `part[0]` of every part; `undefined` (`None`) for an empty part. */
  function FirstUnits(parts: seq<JsString>): (firsts: seq<Option<CodeUnit>>)
    ensures |firsts| == |parts|
    ensures forall k :: 0 <= k < |parts| ==>
      firsts[k] == if parts[k] == [] then None else Some(parts[k][0])
  {
    seq(|parts|, k requires 0 <= k < |parts| => if parts[k] == [] then None else Some(parts[k][0]))
  }

  /** `getInitials`: split on " ", take the first unit of each part, join,
      upper-case. */
  function GetInitials(name: JsString): (initials: JsString)
    ensures |initials| <= Count(name, Space) + 1
    ensures Space !in initials
    ensures forall k :: 0 <= k < |initials| ==> !('a' as int <= initials[k] <= 'z' as int)
  {
    var parts := Split(name, Space);
    FirstsAvoid(parts, Space);
    UpperCaseLeavesNoLower(Concat(FirstUnits(parts)));
    ToUpperCase(Concat(FirstUnits(parts)))
  }

  /** A unit that no part contains is not among the first units either. */
  lemma {:induction false} FirstsAvoid(parts: seq<JsString>, u: CodeUnit)
    requires forall k :: 0 <= k < |parts| ==> u !in parts[k]
    ensures u !in Concat(FirstUnits(parts))
    decreases |parts|
  {
    if parts != [] {
      FirstsAvoid(parts[1..], u);
      assert FirstUnits(parts)[1..] == FirstUnits(parts[1..]);
      if parts[0] != [] { assert parts[0][0] in parts[0]; }
    }
  }

  /** The non-empty parts, in order. */
  function NonEmpty(parts: seq<JsString>): (r: seq<JsString>)
    ensures |r| <= |parts|
    ensures forall k :: 0 <= k < |r| ==> r[k] != []
  {
    if parts == [] then []
    else if parts[0] == [] then NonEmpty(parts[1..])
    else [parts[0]] + NonEmpty(parts[1..])
  }

  /** Joining the first units keeps one unit per non-empty part, in order. */
  lemma {:induction false} FirstsOfNonEmpty(parts: seq<JsString>)
    ensures |Concat(FirstUnits(parts))| == |NonEmpty(parts)|
    ensures forall k :: 0 <= k < |NonEmpty(parts)| ==>
      Concat(FirstUnits(parts))[k] == NonEmpty(parts)[k][0]
    decreases |parts|
  {
    if parts != [] {
      FirstsOfNonEmpty(parts[1..]);
      assert FirstUnits(parts)[1..] == FirstUnits(parts[1..]);
    }
  }

  /** The initials are the upper-cased first units of the non-empty
      space-separated parts, one per part, in order. */
  lemma InitialsOfParts(name: JsString)
    ensures |GetInitials(name)| == |NonEmpty(Split(name, Space))|
    ensures forall k :: 0 <= k < |GetInitials(name)| ==>
      GetInitials(name)[k] == UpperUnit(NonEmpty(Split(name, Space))[k][0])
  {
    FirstsOfNonEmpty(Split(name, Space));
  }

  /** The units of `s` that begin a word: not a space, and either first or
      right after a space (`afterSpace` says whether the unit before `s` was
      a space or there was none). */
  function WordStarts(s: JsString, afterSpace: bool): (r: JsString)
    ensures |r| <= |s|
  {
    if s == [] then []
    else (if s[0] != Space && afterSpace then [s[0]] else []) + WordStarts(s[1..], s[0] == Space)
  }

  lemma {:induction false} FirstsAreWordStarts(s: JsString)
    ensures Concat(FirstUnits(Split(s, Space))) == WordStarts(s, true)
    ensures Concat(FirstUnits(Split(s, Space)[1..])) == WordStarts(s, false)
    decreases |s|
  {
    if s != [] {
      FirstsAreWordStarts(s[1..]);
      var rest := Split(s[1..], Space);
      if s[0] == Space {
        assert Split(s, Space)[1..] == rest;
        assert FirstUnits(Split(s, Space)) == [None] + FirstUnits(rest);
      } else {
        var parts := Split(s, Space);
        assert parts[1..] == rest[1..];
        assert FirstUnits(parts) == [Some(s[0])] + FirstUnits(rest[1..]);
        assert FirstUnits(rest) == [FirstUnits(rest)[0]] + FirstUnits(rest[1..]);
        assert FirstUnits(rest)[1..] == FirstUnits(rest[1..]);
      }
    }
  }

  /** So the initials are the upper-cased word starts of the name: a word
      begins only after a space, so tabs and other white space do not
      separate words, and runs of spaces add nothing. */
  lemma InitialsAreWordStarts(name: JsString)
    ensures GetInitials(name) == ToUpperCase(WordStarts(name, true))
  {
    FirstsAreWordStarts(name);
  }

  /** Word starts of a concatenation: the second half continues with
      whether the first half ended in a space. */
  lemma {:induction false} WordStartsAppend(a: JsString, b: JsString, afterSpace: bool)
    ensures WordStarts(a + b, afterSpace) ==
      WordStarts(a, afterSpace) + WordStarts(b, if a == [] then afterSpace else a[|a| - 1] == Space)
    decreases |a|
  {
    if a == [] {
      assert a + b == b;
    } else {
      var t := a[1..];
      var head: JsString := if a[0] != Space && afterSpace then [a[0]] else [];
      var flag := if a == [] then afterSpace else a[|a| - 1] == Space;
      assert (a + b)[0] == a[0];
      assert (a + b)[1..] == t + b;
      WordStartsAppend(t, b, a[0] == Space);
      assert (if t == [] then a[0] == Space else t[|t| - 1] == Space) == flag;
      calc {
        WordStarts(a + b, afterSpace);
        head + WordStarts(t + b, a[0] == Space);
        head + (WordStarts(t, a[0] == Space) + WordStarts(b, flag));
        (head + WordStarts(t, a[0] == Space)) + WordStarts(b, flag);
        WordStarts(a, afterSpace) + WordStarts(b, flag);
      }
    }
  }

  /** A word without spaces has one start when it follows a space, and none
      otherwise. */
  lemma {:induction false} WordStartsOfWord(w: JsString, afterSpace: bool)
    requires w != [] && Space !in w
    ensures WordStarts(w, afterSpace) == if afterSpace then [w[0]] else []
    decreases |w|
  {
    assert w[0] in w;
    if |w| > 1 {
      assert w[1] in w[1..];
      WordStartsOfWord(w[1..], false);
    }
  }

  /** A run of spaces starts no word. */
  lemma {:induction false} WordStartsOfSpaces(s: JsString, afterSpace: bool)
    requires forall i :: 0 <= i < |s| ==> s[i] == Space
    ensures WordStarts(s, afterSpace) == []
    decreases |s|
  {
    if s != [] {
      WordStartsOfSpaces(s[1..], true);
    }
  }

  /** A word without spaces has one initial, its upper-cased first unit;
      a tab or any other white space inside it does not split it. */
  lemma InitialsOfWord(w: JsString)
    requires w != [] && Space !in w
    ensures GetInitials(w) == [UpperUnit(w[0])]
  {
    InitialsAreWordStarts(w);
    WordStartsOfWord(w, true);
  }

  /** Two words with one space between them ("Ahmed Khan") have two
      initials ("AK"). */
  lemma InitialsOfTwoWords(first: JsString, last: JsString)
    requires first != [] && Space !in first
    requires last != [] && Space !in last
    ensures GetInitials(first + [Space] + last) == [UpperUnit(first[0]), UpperUnit(last[0])]
  {
    var s := first + [Space] + last;
    assert WordStarts(s, true) == [first[0], last[0]] by {
      assert s == first + ([Space] + last);
      WordStartsAppend(first, [Space] + last, true);
      WordStartsOfWord(first, true);
      assert WordStarts([Space] + last, false) == WordStarts(last, true);
      WordStartsOfWord(last, true);
    }
    InitialsAreWordStarts(s);
  }

  /** Spaces before or after the name add no initial. */
  lemma InitialsIgnoreOuterSpaces(name: JsString)
    ensures GetInitials([Space] + name) == GetInitials(name)
    ensures GetInitials(name + [Space]) == GetInitials(name)
  {
    assert WordStarts([Space] + name, true) == WordStarts(name, true) by {
      assert ([Space] + name)[1..] == name;
    }
    assert WordStarts(name + [Space], true) == WordStarts(name, true) by {
      WordStartsAppend(name, [Space], true);
      WordStartsOfSpaces([Space], if name == [] then true else name[|name| - 1] == Space);
    }
    InitialsAreWordStarts([Space] + name);
    InitialsAreWordStarts(name + [Space]);
    InitialsAreWordStarts(name);
  }

  /** Two spaces between words give the same initials as one. */
  lemma InitialsIgnoreDoubledSpaces(a: JsString, b: JsString)
    ensures GetInitials(a + [Space, Space] + b) == GetInitials(a + [Space] + b)
  {
    var flag := if a == [] then true else a[|a| - 1] == Space;
    assert WordStarts([Space, Space] + b, flag) == WordStarts(b, true) by {
      assert ([Space, Space] + b)[1..] == [Space] + b;
      assert ([Space] + b)[1..] == b;
    }
    assert WordStarts([Space] + b, flag) == WordStarts(b, true) by {
      assert ([Space] + b)[1..] == b;
    }
    assert a + [Space, Space] + b == a + ([Space, Space] + b);
    assert a + [Space] + b == a + ([Space] + b);
    WordStartsAppend(a, [Space, Space] + b, true);
    WordStartsAppend(a, [Space] + b, true);
    InitialsAreWordStarts(a + [Space, Space] + b);
    InitialsAreWordStarts(a + [Space] + b);
  }

  /** The empty name has no initials. */
  lemma InitialsOfEmpty()
    ensures GetInitials([]) == []
  {
    InitialsAreWordStarts([]);
  }

  // ---------------------------------------------------------------------
  // Cards
  // ---------------------------------------------------------------------

  /** The body of a card: the quoted message, or the placeholder. */
  datatype CardBody = QuotedMessage(message: JsString) | NoMessage

  function NoMessageText(): JsString { Lit("No message provided") }

  /** A card quotes the message when it is truthy, that is present and
      non-empty; a `null` or empty message shows the placeholder. */
  function CardBodyFor(a: Attendee): (b: CardBody)
    ensures b.QuotedMessage? <==> a.message.Some? && a.message.value != []
    ensures b.QuotedMessage? ==> b.message == a.message.value
  {
    if a.message.Some? && a.message.value != [] then QuotedMessage(a.message.value) else NoMessage
  }

  /** The text a card body shows. */
  function BodyText(b: CardBody): JsString {
    match b
    case QuotedMessage(m) => Lit("\"") + m + Lit("\"")
    case NoMessage => NoMessageText()
  }

  /** What a card shows: the avatar initials, the name, the address, the body
      and whether it carries the "You" badge. */
  datatype Card = Card(initials: JsString, title: JsString, address: JsString,
                       body: CardBody, youBadge: bool)

  /** The card for one attendee; the badge marks every attendee whose name
      equals the display name exactly. */
  function RenderCard(a: Attendee, displayName: JsString): (c: Card)
    ensures c.youBadge <==> a.name == displayName
    ensures c.title == a.name && c.address == a.address
    ensures c.body == CardBodyFor(a)
    ensures c.initials == GetInitials(a.name)
  {
    Card(GetInitials(a.name), a.name, a.address, CardBodyFor(a), a.name == displayName)
  }

  /** The confirmation page for a `name` query value: the greeted name, the
      attendee count of the heading and the cards, one per attendee, in
      list order. */
  datatype ConfirmationView = ConfirmationView(greeting: JsString, count: nat, cards: seq<Card>)

  function Render(query: Option<JsString>): (v: ConfirmationView)
    ensures v.greeting == DisplayName(query)
    ensures v.count == |v.cards| == |MockAttendees()| + 1
    ensures forall k :: 0 <= k < |v.cards| ==>
      v.cards[k] == RenderCard(AllAttendees(DisplayName(query))[k], DisplayName(query))
  {
    var name := DisplayName(query);
    var all := AllAttendees(name);
    ConfirmationView(name, |all|, seq(|all|, k requires 0 <= k < |all| => RenderCard(all[k], name)))
  }

  /** The heading counts six attendees. */
  lemma SixAttendees(query: Option<JsString>)
    ensures Render(query).count == 6
  {
  }

  /** The first card is the new registrant's: it always has the badge and
      always quotes "Just registered!", never the placeholder. */
  lemma FirstCardIsTheRegistrant(query: Option<JsString>)
    ensures Render(query).cards[0].youBadge
    ensures Render(query).cards[0].title == DisplayName(query)
    ensures Render(query).cards[0].body == QuotedMessage(Lit("Just registered!"))
    ensures Render(query).cards[0].address == Lit("Address provided")
  {
  }

  /** Every card whose name equals the display name has the badge, not only
      the first: registering as "Ahmed Khan" marks the mock Ahmed Khan too. */
  lemma BadgeOnEveryMatch()
    ensures var cards := Render(Some(Lit("Ahmed Khan"))).cards;
      cards[0].youBadge && cards[1].youBadge
      && forall k :: 2 <= k < |cards| ==> !cards[k].youBadge
  {
    var name := Lit("Ahmed Khan");
    var cards := Render(Some(name)).cards;
    var all := AllAttendees(name);
    assert DisplayName(Some(name)) == name;
    var mock := MockAttendees();
    assert all[1] == mock[0] && all[1].name == name;
    assert cards[1].youBadge;
    forall k | 2 <= k < |cards| ensures !cards[k].youBadge {
      assert all[k] == mock[k - 1];
      assert cards[k] == RenderCard(all[k], name);
      assert mock[k - 1].name != name by {
        if k == 4 {
          assert |mock[3].name| != |name|;
        } else {
          assert mock[k - 1].name[0] != name[0];
        }
      }
    }
  }

  /** Mohammed Rahman's card, whose message is `null`, shows the placeholder;
      the other mock cards quote their messages. */
  lemma MockMessages()
    ensures forall query: Option<JsString> :: Render(query).cards[3].body == NoMessage
    ensures forall query: Option<JsString> :: BodyText(Render(query).cards[3].body) == NoMessageText()
    ensures forall query: Option<JsString>, k :: 0 <= k < 6 && k != 3 ==>
      Render(query).cards[k].body.QuotedMessage?
  {
  }
}
