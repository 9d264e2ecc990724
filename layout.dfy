/**
 * What the three generators write, as functions of the event: the preamble,
 * one session per start date, the section of contributions without a start
 * instant and, for the publications list, the "not found" line. Each section
 * lists its contributions by lower-cased title and gives one numbered entry
 * per speaker, numbered from 1 within the section.
 */
module Layout {
  import opened Text
  import opened Sorting
  import opened Records
  import opened Formatting
  import opened Grouping
  import opened Documents
  import opened Seqs

  /** The three generators: list of talks, conference report, list of publications. */
  datatype Kind = ContributionsList | ConferenceReport | PublicationsList

  const Untitled: string := "Без названия"

  /** `contribution.title or 'Без названия'` */
  function DisplayTitle(c: Contribution): string {
    if c.title == "" then Untitled else c.title
  }

  /** The publications list takes only contributions whose accepted revision is in the accepted state. */
  predicate Eligible(kind: Kind, c: Contribution) {
    kind != PublicationsList || c.acceptedRevision == Some(PaperRevision(Accepted))
  }

  /** A contribution and one of its speakers: the source of one numbered entry. */
  type Credit = (Contribution, Person)

  function Speaking(c: Contribution, ps: seq<Person>): seq<Credit> {
    seq(|ps|, i requires 0 <= i < |ps| => (c, ps[i]))
  }

  /** The entries one contribution gives: one per speaker, when it is eligible. */
  function EntriesOf(kind: Kind, c: Contribution): seq<Credit> {
    if Eligible(kind, c) then Speaking(c, Speakers(c)) else []
  }

  /**
   * The entries of a section whose contributions are already in title order:
   * every speaker of every eligible contribution, in that order.
   */
  function Credits(kind: Kind, ss: seq<Contribution>): seq<Credit> {
    Flatten(ss, EntriesFor(kind))
  }

  function EntriesFor(kind: Kind): Contribution -> seq<Credit> {
    c => EntriesOf(kind, c)
  }

  /** The concatenation of `f(s[0]), f(s[1]), ...`. */
  function Flatten<T, U>(s: seq<T>, f: T -> seq<U>): seq<U> {
    if s == [] then [] else f(s[0]) + Flatten(s[1..], f)
  }

  /** `sorted(contributions, key=lambda x: x.title.lower() if x.title else '')` */
  function TitleOrder(cs: seq<Contribution>): seq<Contribution> {
    SortBy(cs, TitleLe)
  }

  function SectionCredits(kind: Kind, cs: seq<Contribution>): seq<Credit> {
    Credits(kind, TitleOrder(cs))
  }

  /** `SpeakerName` indexes the first name, so the List and the Report need one. */
  predicate HasFirstName(p: Person) {
    |p.firstName| > 0
  }

  /** Every speaker of `c` has a first name. */
  predicate Named(c: Contribution) {
    forall m {:trigger HasFirstName(Speakers(c)[m])} :: 0 <= m < |Speakers(c)| ==> HasFirstName(Speakers(c)[m])
  }

  predicate SpeakersNamed(cs: seq<Contribution>) {
    forall k {:trigger Named(cs[k])} :: 0 <= k < |cs| ==> Named(cs[k])
  }

  predicate CreditsNamed(xs: seq<Credit>) {
    forall k {:trigger HasFirstName(xs[k].1)} :: 0 <= k < |xs| ==> HasFirstName(xs[k].1)
  }

  lemma NamedSpeaker(cs: seq<Contribution>, c: Contribution, p: Person)
    requires SpeakersNamed(cs) && c in cs && p in Speakers(c)
    ensures HasFirstName(p)
  {
    var k :| 0 <= k < |cs| && cs[k] == c;
    assert Named(cs[k]);
    var m :| 0 <= m < |Speakers(c)| && Speakers(c)[m] == p;
  }

  /** The cells of one row of the contributions table. */
  function ListRow(x: Credit, n: nat): seq<string>
    requires HasFirstName(x.1)
  {
    [NatToString(n), SpeakerName(x.1) + ". " + DisplayTitle(x.0), StudentStatus(x.1), ""]
  }

  /** The runs of one entry paragraph of the report or of the publications list. */
  function EntryRuns(kind: Kind, x: Credit, n: nat): seq<string>
    requires kind == PublicationsList || HasFirstName(x.1)
  {
    if kind == PublicationsList then
      ["    " + NatToString(n) + ". ", FullName(x.1)]
      + (if x.1.affiliation != "" then [", " + x.1.affiliation] else [])
      + ["\n", DisplayTitle(x.0)]
    else
      [NatToString(n) + ". ", SpeakerName(x.1), ". " + DisplayTitle(x.0)]
  }

  /** The rows for `xs`, numbered from `n`. */
  function Rows(xs: seq<Credit>, n: nat): seq<seq<string>>
    requires CreditsNamed(xs)
    decreases |xs|
  {
    if xs == [] then []
    else Rows(xs[..|xs| - 1], n) + [ListRow(xs[|xs| - 1], n + |xs| - 1)]
  }

  /** The entry paragraphs for `xs`, numbered from `n`. */
  function Paragraphs(kind: Kind, xs: seq<Credit>, n: nat): seq<Block>
    requires kind == PublicationsList || CreditsNamed(xs)
    decreases |xs|
  {
    if xs == [] then []
    else Paragraphs(kind, xs[..|xs| - 1], n) + [Paragraph(EntryRuns(kind, xs[|xs| - 1], n + |xs| - 1))]
  }

  const TableHeader: seq<string> :=
    ["№", "Фамилия и инициалы докладчика, название доклада", "Статус (магистр / студент)", "Решение"]

  /** The body of one section: a table for the list of talks, paragraphs otherwise. */
  function Body(kind: Kind, cs: seq<Contribution>): seq<Block>
    requires kind == PublicationsList || SpeakersNamed(cs)
  {
    var xs := SectionCredits(kind, cs);
    SectionCreditsNamed(kind, cs);
    if kind == ContributionsList then [Table(TableHeader, Rows(xs, 1))] else Paragraphs(kind, xs, 1)
  }

  const SessionWord: string := "Заседание"

  /** The heading of session `i` of `total`: numbered only when there are several. */
  function SessionTitle(kind: Kind, i: nat, total: nat): string {
    (if total > 1 then SessionWord + " " + NatToString(i) else SessionWord)
    + (if kind == PublicationsList then "." else "")
  }

  function Session(kind: Kind, i: nat, total: nat, d: Date, bucket: seq<Contribution>): seq<Block>
    requires kind == PublicationsList || SpeakersNamed(bucket)
  {
    [Heading(SessionTitle(kind, i, total), 1), Paragraph([RussianDate(d, kind == ConferenceReport)])]
    + Body(kind, bucket) + [Paragraph([])]
  }

  predicate GroupsRenderable(kind: Kind, dates: seq<Date>, buckets: map<Date, seq<Contribution>>) {
    forall d :: d in dates ==> d in buckets && (kind == PublicationsList || SpeakersNamed(buckets[d]))
  }

  /** The sessions for `dates`, numbered from 1, out of `total`. */
  function Sessions(kind: Kind, dates: seq<Date>, buckets: map<Date, seq<Contribution>>, total: nat): seq<Block>
    requires GroupsRenderable(kind, dates, buckets)
    decreases |dates|
  {
    if dates == [] then []
    else
      var d := dates[|dates| - 1];
      Sessions(kind, dates[..|dates| - 1], buckets, total) + Session(kind, |dates|, total, d, buckets[d])
  }

  const NoTimeHeading: string := "Доклады без указанного времени"

  /** The section of contributions without a start instant, present only when there are some. */
  function NoTimeSection(kind: Kind, cs: seq<Contribution>): seq<Block>
    requires kind == PublicationsList || SpeakersNamed(cs)
  {
    if cs == [] then [] else [Heading(NoTimeHeading, 1)] + Body(kind, cs)
  }

  function DocumentTitle(kind: Kind): string {
    match kind
    case ContributionsList => "СПИСОК ДОКЛАДОВ"
    case ConferenceReport => "ОТЧЕТ О ПРОВЕДЕНИИ КОНФЕРЕНЦИИ"
    case PublicationsList => "СПИСОК ПУБЛИКАЦИЙ"
  }

  function Preamble(kind: Kind, e: Event): seq<Block> {
    [Heading(DocumentTitle(kind), 0), Paragraph(["\"" + e.title + "\""]), Paragraph([])]
  }

  const NotFoundText: string := "Статьи, принятые к публикации, не найдены."

  predicate HasEntries(kind: Kind, cs: seq<Contribution>) {
    SectionCredits(kind, cs) != []
  }

  /** Some section of the document has an entry. */
  predicate AnyEntries(kind: Kind, cs: seq<Contribution>) {
    (exists d :: d in Buckets(cs) && HasEntries(kind, Buckets(cs)[d])) || HasEntries(kind, Untimed(cs))
  }

  /** The generators need a first name only of the speakers of contributions that are not deleted. */
  predicate EventRenderable(kind: Kind, e: Event) {
    kind == PublicationsList ||
    forall c, p :: c in e.contributions && !c.isDeleted && p in Speakers(c) ==> HasFirstName(p)
  }

  /** The whole document a generator writes for `e`. */
  function Rendered(kind: Kind, e: Event): (doc: seq<Block>)
    requires EventRenderable(kind, e)
    ensures |doc| >= 3 && doc[..3] == Preamble(kind, e)
  {
    var cs := e.contributions;
    GroupsAreRenderable(kind, e);
    var sessions := Sessions(kind, GroupOrder(cs), Buckets(cs), |GroupOrder(cs)|);
    var noTime := NoTimeSection(kind, Untimed(cs));
    var closing := if kind == PublicationsList && !AnyEntries(kind, cs) then [Paragraph([NotFoundText])] else [];
    AppendKeepsPrefix(Preamble(kind, e), sessions, noTime, closing);
    Preamble(kind, e) + sessions + noTime + closing
  }

  // ---------------------------------------------------------------------------
  // Properties of the entries of one section

  lemma {:induction false} FlattenConcat<T, U>(a: seq<T>, b: seq<T>, f: T -> seq<U>)
    ensures Flatten(a + b, f) == Flatten(a, f) + Flatten(b, f)
  {
    if a == [] {
      assert a + b == b;
    } else {
      FlattenConcat(a[1..], b, f);
      assert (a + b)[0] == a[0];
      assert (a + b)[1..] == a[1..] + b;
    }
  }

  /** Entries of consecutive runs of contributions are consecutive. */
  lemma CreditsConcat(kind: Kind, a: seq<Contribution>, b: seq<Contribution>)
    ensures Credits(kind, a + b) == Credits(kind, a) + Credits(kind, b)
  {
    FlattenConcat(a, b, EntriesFor(kind));
  }

  lemma CreditsAppend(kind: Kind, ss: seq<Contribution>, c: Contribution)
    ensures Credits(kind, ss + [c]) == Credits(kind, ss) + EntriesOf(kind, c)
  {
    CreditsConcat(kind, ss, [c]);
    var f := EntriesFor(kind);
    assert [c][1..] == [];
    assert Flatten([c], f) == f(c) + Flatten([], f);
    assert f(c) == EntriesOf(kind, c);
  }

  /** The entries of one more contribution of `ss`, in a walk over it. */
  lemma CreditsGrow(kind: Kind, ss: seq<Contribution>, i: nat)
    requires i < |ss|
    ensures Credits(kind, ss[..i + 1]) == Credits(kind, ss[..i]) + EntriesOf(kind, ss[i])
  {
    assert ss[..i + 1] == ss[..i] + [ss[i]];
    CreditsAppend(kind, ss[..i], ss[i]);
  }

  /**
   * A contribution with k speakers gives exactly k consecutive entries, one
   * per speaker in link order, between the entries of the contributions
   * before it and those after it; one that is not eligible gives none.
   */
  lemma ContributionGivesConsecutiveEntries(kind: Kind, a: seq<Contribution>, c: Contribution, b: seq<Contribution>)
    ensures Credits(kind, a + [c] + b) == Credits(kind, a) + EntriesOf(kind, c) + Credits(kind, b)
    ensures |EntriesOf(kind, c)| == if Eligible(kind, c) then SpeakerLinkCount(c.personLinks) else 0
    ensures forall k :: 0 <= k < |EntriesOf(kind, c)| ==> EntriesOf(kind, c)[k] == (c, Speakers(c)[k])
  {
    CreditsConcat(kind, a + [c], b);
    CreditsAppend(kind, a, c);
    SpeakersOfCount(c.personLinks);
  }

  /** An entry comes from an eligible contribution of the section and one of its speakers, and every such pair gives one. */
  lemma {:induction false} CreditsMembership(kind: Kind, ss: seq<Contribution>, c: Contribution, p: Person)
    ensures (c, p) in Credits(kind, ss) <==> c in ss && Eligible(kind, c) && p in Speakers(c)
  {
    if ss != [] {
      var first, rest := ss[0], ss[1..];
      CreditsMembership(kind, rest, c, p);
      assert ss == [first] + rest;
      var head := EntriesOf(kind, first);
      assert (c, p) in head <==> c == first && Eligible(kind, c) && p in Speakers(c) by {
        if c == first && Eligible(kind, c) && p in Speakers(c) {
          var k :| 0 <= k < |Speakers(c)| && Speakers(c)[k] == p;
          assert head[k] == (c, p);
        }
      }
    }
  }

  /** A section has no entry exactly when none of its contributions is eligible and has a speaker. */
  lemma {:induction false} CreditsEmpty(kind: Kind, ss: seq<Contribution>)
    ensures Credits(kind, ss) == [] <==> forall c :: c in ss && Eligible(kind, c) ==> Speakers(c) == []
  {
    if ss != [] {
      CreditsEmpty(kind, ss[1..]);
      assert ss == [ss[0]] + ss[1..];
      forall c | c in ss ensures c == ss[0] || c in ss[1..] {
      }
    }
  }

  /** Entries in ascending lower-cased title order of their contributions. */
  predicate InTitleOrder(xs: seq<Credit>) {
    forall i, j :: 0 <= i < j < |xs| ==> TitleLe(xs[i].0, xs[j].0)
  }

  lemma {:induction false} CreditsOfOrdered(kind: Kind, ss: seq<Contribution>)
    requires Sorted(ss, TitleLe)
    ensures InTitleOrder(Credits(kind, ss))
  {
    if ss != [] {
      var first, rest := ss[0], ss[1..];
      assert Sorted(rest, TitleLe) by {
        forall i, j | 0 <= i < j < |rest| ensures TitleLe(rest[i], rest[j]) {
          assert rest[i] == ss[i + 1] && rest[j] == ss[j + 1];
        }
      }
      CreditsOfOrdered(kind, rest);
      var head := EntriesOf(kind, first);
      var back := Credits(kind, rest);
      var xs := Credits(kind, ss);
      assert xs == head + back;
      forall i, j | 0 <= i < j < |xs| ensures TitleLe(xs[i].0, xs[j].0) {
        if i >= |head| {
          assert xs[i] == back[i - |head|] && xs[j] == back[j - |head|];
        } else {
          assert xs[i] == head[i];
          if j < |head| {
            assert xs[j] == head[j];
            StrLeTotal(TitleKey(first), TitleKey(first));
          } else {
            assert xs[j] == back[j - |head|];
            CreditsMembership(kind, rest, xs[j].0, xs[j].1);
            var k :| 0 <= k < |rest| && rest[k] == xs[j].0;
            assert ss[k + 1] == xs[j].0;
          }
        }
      }
    }
  }

  lemma SectionCreditsMembership(kind: Kind, cs: seq<Contribution>, c: Contribution, p: Person)
    ensures (c, p) in SectionCredits(kind, cs) <==> c in cs && Eligible(kind, c) && p in Speakers(c)
  {
    TitleLeIsTotalPreorder();
    SortByIsOrderedPermutation(cs, TitleLe);
    CreditsMembership(kind, TitleOrder(cs), c, p);
    assert c in TitleOrder(cs) <==> c in multiset(TitleOrder(cs));
  }

  lemma SectionCreditsNamed(kind: Kind, cs: seq<Contribution>)
    requires kind == PublicationsList || SpeakersNamed(cs)
    ensures kind == PublicationsList || CreditsNamed(SectionCredits(kind, cs))
  {
    if kind != PublicationsList {
      var xs := SectionCredits(kind, cs);
      forall k | 0 <= k < |xs| ensures HasFirstName(xs[k].1) {
        SectionCreditsMembership(kind, cs, xs[k].0, xs[k].1);
        NamedSpeaker(cs, xs[k].0, xs[k].1);
      }
    }
  }

  /** The entries of a section come in ascending lower-cased title order. */
  lemma SectionCreditsInTitleOrder(kind: Kind, cs: seq<Contribution>)
    ensures InTitleOrder(SectionCredits(kind, cs))
  {
    TitleLeIsTotalPreorder();
    SortByIsOrderedPermutation(cs, TitleLe);
    CreditsOfOrdered(kind, TitleOrder(cs));
  }

  /** A section has entries exactly when one of its contributions is eligible and has a speaker. */
  lemma HasEntriesIff(kind: Kind, cs: seq<Contribution>)
    ensures HasEntries(kind, cs) <==> exists c :: c in cs && Eligible(kind, c) && Speakers(c) != []
  {
    TitleLeIsTotalPreorder();
    SortByIsOrderedPermutation(cs, TitleLe);
    CreditsEmpty(kind, TitleOrder(cs));
    forall c ensures c in cs <==> c in TitleOrder(cs) {
      assert c in cs <==> c in multiset(cs);
    }
  }

  /** Numbering: the i-th row carries the number n + i and is made from the i-th entry. */
  lemma {:induction false} RowsNumbered(xs: seq<Credit>, n: nat)
    requires CreditsNamed(xs)
    ensures |Rows(xs, n)| == |xs|
    ensures forall i :: 0 <= i < |xs| ==> Rows(xs, n)[i] == ListRow(xs[i], n + i)
    decreases |xs|
  {
    if xs != [] {
      var init := xs[..|xs| - 1];
      assert CreditsNamed(init) by {
        forall k | 0 <= k < |init| ensures HasFirstName(init[k].1) {
          assert init[k] == xs[k];
        }
      }
      RowsNumbered(init, n);
      var rows := Rows(init, n);
      assert Rows(xs, n) == rows + [ListRow(xs[|xs| - 1], n + |xs| - 1)];
      forall i | 0 <= i < |xs| ensures Rows(xs, n)[i] == ListRow(xs[i], n + i) {
        if i < |init| {
          assert Rows(xs, n)[i] == rows[i] && init[i] == xs[i];
        }
      }
    }
  }

  /** Numbering: the i-th paragraph carries the number n + i and is made from the i-th entry. */
  lemma {:induction false} ParagraphsNumbered(kind: Kind, xs: seq<Credit>, n: nat)
    requires kind == PublicationsList || CreditsNamed(xs)
    ensures |Paragraphs(kind, xs, n)| == |xs|
    ensures forall i :: 0 <= i < |xs| ==> Paragraphs(kind, xs, n)[i] == Paragraph(EntryRuns(kind, xs[i], n + i))
    decreases |xs|
  {
    if xs != [] {
      var init := xs[..|xs| - 1];
      assert kind == PublicationsList || CreditsNamed(init) by {
        forall k | 0 <= k < |init| ensures init[k] == xs[k] {
        }
      }
      ParagraphsNumbered(kind, init, n);
    }
  }

  /** A session heading carries a number exactly when there are at least two sessions. */
  lemma SessionTitleNumbered(kind: Kind, i: nat, total: nat)
    ensures var t := SessionTitle(kind, i, total);
      (exists k :: 0 <= k < |t| && IsDigit(t[k])) <==> total > 1
    ensures var t := SessionTitle(kind, i, total);
      |t| > 0 && (t[|t| - 1] == '.' <==> kind == PublicationsList)
  {
    var t := SessionTitle(kind, i, total);
    var number := NatToString(i);
    if total > 1 {
      var k := |SessionWord| + 1;
      assert t[k] == number[0];
    } else {
      forall k | 0 <= k < |t| ensures !IsDigit(t[k]) {
      }
    }
    if kind != PublicationsList && total > 1 {
      assert t[|t| - 1] == number[|number| - 1];
    }
  }

  // ---------------------------------------------------------------------------
  // Properties of the whole document

  lemma GroupsAreRenderable(kind: Kind, e: Event)
    requires EventRenderable(kind, e)
    ensures var cs := e.contributions;
      GroupsRenderable(kind, GroupOrder(cs), Buckets(cs)) &&
      (kind == PublicationsList || SpeakersNamed(Untimed(cs)))
  {
    var cs := e.contributions;
    GroupOrderIsAscending(cs);
    FirstDatesFacts(Timed(cs));
    forall d | d in GroupOrder(cs) ensures d in Buckets(cs) {
      var c :| c in cs && IsTimed(c) && StartsOn(c, d);
      GroupingIsPartition(cs, c);
    }
    if kind != PublicationsList {
      forall d | d in Buckets(cs) ensures SpeakersNamed(Buckets(cs)[d]) {
        var b := Buckets(cs)[d];
        forall k | 0 <= k < |b| ensures Named(b[k]) {
          GroupingIsPartition(cs, b[k]);
          forall m | 0 <= m < |Speakers(b[k])| ensures HasFirstName(Speakers(b[k])[m]) {
            assert Speakers(b[k])[m] in Speakers(b[k]);
          }
        }
      }
      var u := Untimed(cs);
      forall k | 0 <= k < |u| ensures Named(u[k]) {
        UntimedCount(cs, u[k]);
        assert u[k] in multiset(u);
        forall m | 0 <= m < |Speakers(u[k])| ensures HasFirstName(Speakers(u[k])[m]) {
          assert Speakers(u[k])[m] in Speakers(u[k]);
        }
      }
    }
  }

  /**
   * Some section has an entry exactly when some contribution that is not
   * deleted is eligible and has a speaker; for the publications list the
   * "not found" paragraph is written exactly when there is no such one.
   */
  lemma AnyEntriesIff(kind: Kind, cs: seq<Contribution>)
    ensures AnyEntries(kind, cs) <==>
      exists c :: c in cs && !c.isDeleted && Eligible(kind, c) && Speakers(c) != []
  {
    HasEntriesIff(kind, Untimed(cs));
    if c :| c in cs && !c.isDeleted && Eligible(kind, c) && Speakers(c) != [] {
      GroupingIsPartition(cs, c);
      if IsTimed(c) {
        var d := c.start.value.date;
        assert c in multiset(Buckets(cs)[d]);
        HasEntriesIff(kind, Buckets(cs)[d]);
      } else {
        assert c in multiset(Untimed(cs));
      }
    }
    if exists d :: d in Buckets(cs) && HasEntries(kind, Buckets(cs)[d]) {
      var d :| d in Buckets(cs) && HasEntries(kind, Buckets(cs)[d]);
      HasEntriesIff(kind, Buckets(cs)[d]);
      var c :| c in Buckets(cs)[d] && Eligible(kind, c) && Speakers(c) != [];
      GroupingIsPartition(cs, c);
    }
    if HasEntries(kind, Untimed(cs)) {
      var c :| c in Untimed(cs) && Eligible(kind, c) && Speakers(c) != [];
      UntimedCount(cs, c);
      assert c in multiset(Untimed(cs));
    }
  }

  lemma SessionsEndWithBlank(kind: Kind, dates: seq<Date>, buckets: map<Date, seq<Contribution>>, total: nat)
    requires GroupsRenderable(kind, dates, buckets) && dates != []
    ensures var s := Sessions(kind, dates, buckets, total); |s| > 0 && s[|s| - 1] == Paragraph([])
  {
  }

  lemma NoTimeEndsWithoutNotFound(cs: seq<Contribution>)
    requires cs != []
    ensures var s := NoTimeSection(PublicationsList, cs); |s| > 0 && s[|s| - 1] != Paragraph([NotFoundText])
  {
    var body := Body(PublicationsList, cs);
    if body != [] {
      var xs := SectionCredits(PublicationsList, cs);
      assert body == Paragraphs(PublicationsList, xs, 1);
      assert |body[|body| - 1].runs| >= 4;
    }
  }

  lemma LastBlockIsNotNotFound(e: Event)
    requires AnyEntries(PublicationsList, e.contributions)
    ensures var doc := Rendered(PublicationsList, e);
      doc[|doc| - 1] != Paragraph([NotFoundText])
  {
    var cs := e.contributions;
    var kind := PublicationsList;
    GroupsAreRenderable(kind, e);
    var sessions := Sessions(kind, GroupOrder(cs), Buckets(cs), |GroupOrder(cs)|);
    var noTime := NoTimeSection(kind, Untimed(cs));
    var doc := Rendered(kind, e);
    assert doc == Preamble(kind, e) + sessions + noTime;
    if Untimed(cs) != [] {
      NoTimeEndsWithoutNotFound(Untimed(cs));
      assert doc[|doc| - 1] == noTime[|noTime| - 1];
    } else {
      var d :| d in Buckets(cs) && HasEntries(kind, Buckets(cs)[d]);
      DateLeIsTotalOrder();
      SortByIsOrderedPermutation(FirstDates(Timed(cs)), DateLe);
      assert d in multiset(GroupOrder(cs));
      SessionsEndWithBlank(kind, GroupOrder(cs), Buckets(cs), |GroupOrder(cs)|);
      assert doc[|doc| - 1] == sessions[|sessions| - 1];
    }
  }

  lemma NotFoundIffNoAcceptedPaper(e: Event)
    ensures var doc := Rendered(PublicationsList, e);
      (doc[|doc| - 1] == Paragraph([NotFoundText])) <==>
      !exists c :: c in e.contributions && !c.isDeleted &&
        c.acceptedRevision == Some(PaperRevision(Accepted)) && Speakers(c) != []
  {
    AnyEntriesIff(PublicationsList, e.contributions);
    var doc := Rendered(PublicationsList, e);
    var cs := e.contributions;
    if AnyEntries(PublicationsList, cs) {
      LastBlockIsNotNotFound(e);
    }
  }

  // ---------------------------------------------------------------------------
  // Single steps of the generators' loops

  lemma TitleOrderNamed(cs: seq<Contribution>)
    requires SpeakersNamed(cs)
    ensures SpeakersNamed(TitleOrder(cs))
  {
    TitleLeIsTotalPreorder();
    SortByIsOrderedPermutation(cs, TitleLe);
    var t := TitleOrder(cs);
    forall k | 0 <= k < |t| ensures Named(t[k]) {
      assert t[k] in multiset(t);
      forall m | 0 <= m < |Speakers(t[k])| ensures HasFirstName(Speakers(t[k])[m]) {
        assert Speakers(t[k])[m] in Speakers(t[k]);
        NamedSpeaker(cs, t[k], Speakers(t[k])[m]);
      }
    }
  }

  /** Without the publications' closing paragraph, the document is the preamble, the sessions and the untimed section. */
  lemma RenderedParts(kind: Kind, e: Event)
    requires kind != PublicationsList && EventRenderable(kind, e)
    ensures var cs := e.contributions;
      GroupsRenderable(kind, GroupOrder(cs), Buckets(cs)) && SpeakersNamed(Untimed(cs)) &&
      Rendered(kind, e) == Preamble(kind, e) + Sessions(kind, GroupOrder(cs), Buckets(cs), |GroupOrder(cs)|)
        + NoTimeSection(kind, Untimed(cs))
  {
    GroupsAreRenderable(kind, e);
  }

  /** The publications list is the preamble, the sessions, the untimed section and the closing line. */
  lemma PublicationsRenderedParts(e: Event)
    ensures var cs := e.contributions;
      GroupsRenderable(PublicationsList, GroupOrder(cs), Buckets(cs)) &&
      Rendered(PublicationsList, e) == Preamble(PublicationsList, e)
        + Sessions(PublicationsList, GroupOrder(cs), Buckets(cs), |GroupOrder(cs)|)
        + NoTimeSection(PublicationsList, Untimed(cs))
        + (if AnyEntries(PublicationsList, cs) then [] else [Paragraph([NotFoundText])])
  {
    GroupsAreRenderable(PublicationsList, e);
  }

  lemma RowsAppend(xs: seq<Credit>, x: Credit, n: nat, last: nat)
    requires CreditsNamed(xs) && HasFirstName(x.1) && last == n + |xs|
    ensures CreditsNamed(xs + [x])
    ensures Rows(xs + [x], n) == Rows(xs, n) + [ListRow(x, last)]
  {
    assert (xs + [x])[..|xs|] == xs;
    assert forall k :: 0 <= k < |xs| ==> (xs + [x])[k] == xs[k];
  }

  lemma ParagraphsAppend(kind: Kind, xs: seq<Credit>, x: Credit, n: nat, last: nat)
    requires kind == PublicationsList || (CreditsNamed(xs) && HasFirstName(x.1))
    requires last == n + |xs|
    ensures kind == PublicationsList || CreditsNamed(xs + [x])
    ensures Paragraphs(kind, xs + [x], n) == Paragraphs(kind, xs, n) + [Paragraph(EntryRuns(kind, x, last))]
  {
    assert (xs + [x])[..|xs|] == xs;
    assert forall k :: 0 <= k < |xs| ==> (xs + [x])[k] == xs[k];
  }

  /** The walkers' `sorted(date_groups.keys())` names every key once and only keys. */
  lemma SortedKeysRenderable(kind: Kind, groups: DateGroups)
    requires groups.Valid()
    requires GroupsRenderable(kind, groups.order, groups.buckets)
    ensures |SortBy(groups.order, DateLe)| == |groups.order|
    ensures forall d :: d in SortBy(groups.order, DateLe) <==> d in groups.buckets
    ensures GroupsRenderable(kind, SortBy(groups.order, DateLe), groups.buckets)
  {
    DateLeIsTotalOrder();
    SortByIsOrderedPermutation(groups.order, DateLe);
    var sorted := SortBy(groups.order, DateLe);
    assert |sorted| == |multiset(sorted)|;
    forall d ensures d in sorted <==> d in groups.order {
      assert d in sorted <==> d in multiset(sorted);
    }
  }

  lemma SessionsStep(kind: Kind, dates: seq<Date>, buckets: map<Date, seq<Contribution>>, total: nat, i: nat)
    requires GroupsRenderable(kind, dates, buckets) && i < |dates|
    ensures GroupsRenderable(kind, dates[..i + 1], buckets)
    ensures Sessions(kind, dates[..i + 1], buckets, total) ==
      Sessions(kind, dates[..i], buckets, total) + Session(kind, i + 1, total, dates[i], buckets[dates[i]])
  {
    assert dates[..i + 1][..i] == dates[..i];
    forall d | d in dates[..i + 1] ensures d in dates {
    }
  }

  /** Writing session `i + 1` after the first `i` sessions gives the first `i + 1`. */
  lemma SessionsExtend(kind: Kind, start: seq<Block>, dates: seq<Date>, buckets: map<Date, seq<Contribution>>,
                       total: nat, i: nat, before: seq<Block>, after: seq<Block>)
    requires GroupsRenderable(kind, dates, buckets) && i < |dates|
    requires before == start + Sessions(kind, dates[..i], buckets, total)
    requires after == before + Session(kind, i + 1, total, dates[i], buckets[dates[i]])
    ensures GroupsRenderable(kind, dates[..i + 1], buckets)
    ensures after == start + Sessions(kind, dates[..i + 1], buckets, total)
  {
    SessionsStep(kind, dates, buckets, total, i);
    AppendAssociates(start, Sessions(kind, dates[..i], buckets, total),
      Session(kind, i + 1, total, dates[i], buckets[dates[i]]));
  }

  /** Some session of `dates` lists an entry; the flag the publications walker keeps. */
  predicate AnySessionEntries(kind: Kind, dates: seq<Date>, buckets: map<Date, seq<Contribution>>)
    requires GroupsRenderable(kind, dates, buckets)
    decreases |dates|
  {
    dates != [] &&
    (AnySessionEntries(kind, dates[..|dates| - 1], buckets) || HasEntries(kind, buckets[dates[|dates| - 1]]))
  }

  lemma {:induction false} AnySessionEntriesIff(kind: Kind, dates: seq<Date>, buckets: map<Date, seq<Contribution>>)
    requires GroupsRenderable(kind, dates, buckets)
    ensures AnySessionEntries(kind, dates, buckets) <==> exists d :: d in dates && HasEntries(kind, buckets[d])
    decreases |dates|
  {
    if dates != [] {
      var init := dates[..|dates| - 1];
      assert GroupsRenderable(kind, init, buckets) by {
        forall d | d in init ensures d in dates {
        }
      }
      AnySessionEntriesIff(kind, init, buckets);
      assert dates == init + [dates[|dates| - 1]];
    }
  }

  lemma AnySessionEntriesStep(kind: Kind, dates: seq<Date>, buckets: map<Date, seq<Contribution>>, i: nat)
    requires GroupsRenderable(kind, dates, buckets) && i < |dates|
    ensures GroupsRenderable(kind, dates[..i], buckets) && GroupsRenderable(kind, dates[..i + 1], buckets)
    ensures AnySessionEntries(kind, dates[..i + 1], buckets) <==>
      AnySessionEntries(kind, dates[..i], buckets) || HasEntries(kind, buckets[dates[i]])
  {
    assert dates[..i + 1][..i] == dates[..i];
    forall d | d in dates[..i + 1] ensures d in dates {
    }
  }

  /** The dictionary's keys, once sorted again by the walkers, stay as they are. */
  lemma GroupOrderSortedAgain(cs: seq<Contribution>)
    ensures SortBy(GroupOrder(cs), DateLe) == GroupOrder(cs)
  {
    DateLeIsTotalOrder();
    SortByIsOrderedPermutation(FirstDates(Timed(cs)), DateLe);
    SortByOfSorted(GroupOrder(cs), DateLe);
  }
}
