/**
 * The event records the report engine reads: events, contributions, their
 * person links, persons and accepted paper revisions. They are plain values;
 * the engine never changes them.
 *
 * Optional text fields (a contribution's title, a person's middle name and
 * affiliation) are strings in which "" stands for both `None` and the empty
 * string: every place that reads them tests their truth value, under which
 * the two behave alike.
 */
module Records {
  import opened Text
  import opened Sorting
  import opened Seqs

  datatype Option<T> = None | Some(value: T)

  type Year = y: int | 1000 <= y <= 9999 witness 1000
  type Month = m: int | 1 <= m <= 12 witness 1
  type Day = d: int | 1 <= d <= 31 witness 1
  type Hour = h: int | 0 <= h < 24
  type Minute = m: int | 0 <= m < 60
  type Second = s: int | 0 <= s < 60
  type Microsecond = u: int | 0 <= u < 1000000

  /** A calendar date, Python's `datetime.date`. */
  datatype Date = Date(year: Year, month: Month, day: Day)

  /** A start instant, Python's `datetime.datetime` as stored. */
  datatype Instant = Instant(date: Date, hour: Hour, minute: Minute, second: Second, microsecond: Microsecond)

  datatype Person = Person(lastName: string, firstName: string, middleName: string, affiliation: string)

  datatype PersonLink = PersonLink(person: Person, isSpeaker: bool)

  /** The states of a paper revision. */
  datatype RevisionState = Submitted | Accepted | Rejected | ToBeCorrected

  datatype PaperRevision = PaperRevision(state: RevisionState)

  datatype Contribution = Contribution(
    id: nat,
    title: string,
    isDeleted: bool,
    start: Option<Instant>,
    personLinks: seq<PersonLink>,
    acceptedRevision: Option<PaperRevision>)

  datatype Event = Event(title: string, contributions: seq<Contribution>)

  /** `[link.person for link in c.person_links if link.is_speaker]` */
  function SpeakersOf(links: seq<PersonLink>): (r: seq<Person>)
    ensures |r| <= |links|
    ensures forall p :: p in r <==> exists l :: l in links && l.isSpeaker && l.person == p
  {
    if links == [] then []
    else
      assert forall l :: l in links <==> l == links[0] || l in links[1..];
      (if links[0].isSpeaker then [links[0].person] else []) + SpeakersOf(links[1..])
  }

  function Speakers(c: Contribution): seq<Person> {
    SpeakersOf(c.personLinks)
  }

  /** How many of the links are marked as speakers. */
  function SpeakerLinkCount(links: seq<PersonLink>): nat {
    if links == [] then 0 else (if links[0].isSpeaker then 1 else 0) + SpeakerLinkCount(links[1..])
  }

  /** One link gives its person when it is a speaker link, and nothing otherwise. */
  lemma SpeakersOfSingle(l: PersonLink)
    ensures SpeakersOf([l]) == if l.isSpeaker then [l.person] else []
  {
  }

  /** The speakers of joined link lists are joined in the same order: the comprehension keeps link order. */
  lemma {:induction false} SpeakersOfConcat(a: seq<PersonLink>, b: seq<PersonLink>)
    ensures SpeakersOf(a + b) == SpeakersOf(a) + SpeakersOf(b)
  {
    if a == [] {
      assert a + b == b;
    } else {
      assert (a + b)[0] == a[0] && (a + b)[1..] == a[1..] + b;
      SpeakersOfConcat(a[1..], b);
      var head := if a[0].isSpeaker then [a[0].person] else [];
      assert SpeakersOf(a + b) == head + (SpeakersOf(a[1..]) + SpeakersOf(b));
      AppendAssociates(head, SpeakersOf(a[1..]), SpeakersOf(b));
    }
  }

  /** There is one speaker per speaker link, repeats included. */
  lemma {:induction false} SpeakersOfCount(links: seq<PersonLink>)
    ensures |SpeakersOf(links)| == SpeakerLinkCount(links)
  {
    if links != [] {
      SpeakersOfCount(links[1..]);
    }
  }

  /** Python's ordering of `date` values. */
  predicate DateLe(a: Date, b: Date) {
    a.year < b.year ||
    (a.year == b.year && (a.month < b.month || (a.month == b.month && a.day <= b.day)))
  }

  /** Python's ordering of `datetime` values (all stored in one time zone). */
  predicate InstantLe(a: Instant, b: Instant) {
    if a.date != b.date then DateLe(a.date, b.date)
    else if a.hour != b.hour then a.hour < b.hour
    else if a.minute != b.minute then a.minute < b.minute
    else if a.second != b.second then a.second < b.second
    else a.microsecond <= b.microsecond
  }

  /** The sort key `x.start_dt`; only ever applied to contributions that have one. */
  predicate StartLe(a: Contribution, b: Contribution) {
    match (a.start, b.start)
    case (Some(s), Some(t)) => InstantLe(s, t)
    case (None, _) => true
    case (Some(_), None) => false
  }

  /** The sort key `x.title.lower() if x.title else ''`. */
  function TitleKey(c: Contribution): string {
    Lower(c.title)
  }

  predicate TitleLe(a: Contribution, b: Contribution) {
    StrLe(TitleKey(a), TitleKey(b))
  }

  lemma DateLeIsTotalOrder()
    ensures TotalPreorder(DateLe)
    ensures forall a, b :: DateLe(a, b) && DateLe(b, a) ==> a == b
  {
  }

  lemma StartLeIsTotalPreorder()
    ensures TotalPreorder(StartLe)
  {
    forall a: Instant, b: Instant, c: Instant | InstantLe(a, b) && InstantLe(b, c)
      ensures InstantLe(a, c)
    {
      DateLeIsTotalOrder();
    }
  }

  lemma TitleLeIsTotalPreorder()
    ensures TotalPreorder(TitleLe)
  {
    forall a, b ensures TitleLe(a, b) || TitleLe(b, a) {
      StrLeTotal(TitleKey(a), TitleKey(b));
    }
    forall a, b, c | TitleLe(a, b) && TitleLe(b, c) ensures TitleLe(a, c) {
      StrLeTransitive(TitleKey(a), TitleKey(b), TitleKey(c));
    }
  }
}
