/**
 * The three document generators and the module-level functions that run
 * them. Each generator holds the event and the document it writes to; its
 * methods append blocks to that document, and each one's postcondition says
 * that what it appended is the corresponding part of `Rendered`.
 */
module Generators {
  import opened Text
  import opened Sorting
  import opened Records
  import opened Formatting
  import opened Grouping
  import opened Documents
  import opened Seqs
  import opened Layout

  /** `ContributionsListGenerator`: the list of talks, one table per session. */
  class ContributionsListGenerator {
    const event: Event
    const doc: Document

    /** The event is passed in instead of being loaded by its id. */
    constructor(event: Event)
      ensures this.event == event && fresh(doc) && doc.blocks == []
    {
      this.event := event;
      doc := new Document();
    }

    method Generate()
      requires EventRenderable(ContributionsList, event)
      modifies doc
      ensures doc.blocks == old(doc.blocks) + Rendered(ContributionsList, event)
    {
      doc.AddHeading("СПИСОК ДОКЛАДОВ", 0);
      doc.AddParagraph("\"" + event.title + "\"");
      doc.AddParagraph("");
      ghost var preamble := doc.blocks;
      assert preamble == old(doc.blocks) + Preamble(ContributionsList, event);

      ghost var cs := event.contributions;
      RenderedParts(ContributionsList, event);
      ghost var sessions := Sessions(ContributionsList, GroupOrder(cs), Buckets(cs), |GroupOrder(cs)|);
      ghost var noTime := NoTimeSection(ContributionsList, Untimed(cs));

      var dateGroups, noTimeContribs := ContributionsByDate(event.contributions);
      GroupOrderSortedAgain(cs);
      // `if date_groups:` -- the dictionary is not empty
      if |dateGroups.order| > 0 {
        AddDateGroupedContributions(dateGroups);
      } else {
        AppendEmpty(preamble, sessions);
      }
      ghost var timed := doc.blocks;
      assert timed == preamble + sessions;

      if noTimeContribs != [] {
        AddNoTimeContributions(noTimeContribs);
        AppendAssociates(timed, [Heading(NoTimeHeading, 1)], Body(ContributionsList, noTimeContribs));
      } else {
        AppendEmpty(timed, noTime);
      }
      AppendedInSteps(old(doc.blocks), Preamble(ContributionsList, event), sessions, noTime, preamble, timed, doc.blocks);
    }

    /** `_add_date_grouped_contributions`: one session per date, in ascending date order. */
    method AddDateGroupedContributions(dateGroups: DateGroups)
      requires dateGroups.Valid() && GroupsRenderable(ContributionsList, dateGroups.order, dateGroups.buckets)
      modifies doc
      ensures GroupsRenderable(ContributionsList, SortBy(dateGroups.order, DateLe), dateGroups.buckets) &&
        doc.blocks == old(doc.blocks) +
          Sessions(ContributionsList, SortBy(dateGroups.order, DateLe), dateGroups.buckets, |dateGroups.order|)
    {
      var sortedDates := SortBy(dateGroups.order, DateLe);
      SortedKeysRenderable(ContributionsList, dateGroups);
      for i := 0 to |sortedDates|
        invariant GroupsRenderable(ContributionsList, sortedDates[..i], dateGroups.buckets)
        invariant doc.blocks == old(doc.blocks) +
          Sessions(ContributionsList, sortedDates[..i], dateGroups.buckets, |sortedDates|)
      {
        var dateKey := sortedDates[i];
        assert dateKey in sortedDates;
        ghost var before := doc.blocks;
        AddSession(i + 1, |sortedDates|, dateKey, dateGroups.buckets[dateKey]);
        SessionsExtend(ContributionsList, old(doc.blocks), sortedDates, dateGroups.buckets, |sortedDates|, i, before, doc.blocks);
      }
      assert sortedDates[..|sortedDates|] == sortedDates;
    }

    /** The body of the walker's loop: session `i` of `total`, held on `dateKey`. */
    method AddSession(i: nat, total: nat, dateKey: Date, dateContributions: seq<Contribution>)
      requires SpeakersNamed(dateContributions)
      modifies doc
      ensures doc.blocks == old(doc.blocks) + Session(ContributionsList, i, total, dateKey, dateContributions)
    {
      var dateStr := FormatRussianDate(dateKey, false);
      var meetingTitle := if total > 1 then "Заседание " + NatToString(i) else "Заседание";
      assert meetingTitle == SessionTitle(ContributionsList, i, total);
      doc.AddHeading(meetingTitle, 1);
      doc.AddParagraph(dateStr);
      ghost var started := doc.blocks;
      ghost var head := [Heading(meetingTitle, 1), Paragraph([dateStr])];
      AppendTwo(old(doc.blocks), Heading(meetingTitle, 1), Paragraph([dateStr]));
      CreateContributionsTable(dateContributions);
      ghost var listed := doc.blocks;
      doc.AddParagraph("");
      AppendedInSteps(old(doc.blocks), head, Body(ContributionsList, dateContributions), [Paragraph([])], started, listed, doc.blocks);
    }

    /** `_add_no_time_contributions` */
    method AddNoTimeContributions(contributions: seq<Contribution>)
      requires SpeakersNamed(contributions)
      modifies doc
      ensures doc.blocks == old(doc.blocks) + [Heading(NoTimeHeading, 1)] + Body(ContributionsList, contributions)
    {
      doc.AddHeading("Доклады без указанного времени", 1);
      CreateContributionsTable(contributions);
    }

    /**
     * `_create_contributions_table`: a table with the header row, then one
     * row per speaker of every contribution, in title order, numbered from 1.
     */
    method CreateContributionsTable(contributions: seq<Contribution>)
      requires SpeakersNamed(contributions)
      modifies doc
      ensures doc.blocks == old(doc.blocks) + Body(ContributionsList, contributions)
    {
      ghost var start := doc.blocks;
      doc.AddTable(TableHeader);
      var rowNumber := 1;
      var ordered := TitleOrder(contributions);
      TitleOrderNamed(contributions);
      for i := 0 to |ordered|
        invariant CreditsNamed(Credits(ContributionsList, ordered[..i]))
        invariant doc.blocks == start + [Table(TableHeader, Rows(Credits(ContributionsList, ordered[..i]), 1))]
        invariant rowNumber == 1 + |Credits(ContributionsList, ordered[..i])|
      {
        var contribution := ordered[i];
        ghost var done := Credits(ContributionsList, ordered[..i]);
        CreditsGrow(ContributionsList, ordered, i);
        assert doc.blocks[..|doc.blocks| - 1] == start;
        // `if not speakers: continue`
        if Speakers(contribution) != [] {
          rowNumber := AddSpeakerRows(contribution, done, rowNumber);
        } else {
          assert done + EntriesOf(ContributionsList, contribution) == done;
        }
      }
      assert ordered[..|ordered|] == ordered;
    }

    /** The inner loop of `_create_contributions_table`: a row per speaker of `contribution`. */
    method AddSpeakerRows(contribution: Contribution, ghost done: seq<Credit>, rowNumber: nat) returns (next: nat)
      requires Named(contribution) && CreditsNamed(done) && rowNumber == 1 + |done|
      requires |doc.blocks| > 0 && doc.blocks[|doc.blocks| - 1] == Table(TableHeader, Rows(done, 1))
      modifies doc
      ensures CreditsNamed(done + EntriesOf(ContributionsList, contribution))
      ensures doc.blocks == old(doc.blocks[..|doc.blocks| - 1]) +
        [Table(TableHeader, Rows(done + EntriesOf(ContributionsList, contribution), 1))]
      ensures next == rowNumber + |EntriesOf(ContributionsList, contribution)|
    {
      ghost var prefix := doc.blocks[..|doc.blocks| - 1];
      ghost var entries := EntriesOf(ContributionsList, contribution);
      ghost var sofar := done;
      var speakers := Speakers(contribution);
      assert done + entries[..0] == done;
      next := rowNumber;
      for j := 0 to |speakers|
        invariant sofar == done + entries[..j]
        invariant CreditsNamed(sofar)
        invariant doc.blocks == prefix + [Table(TableHeader, Rows(sofar, 1))]
        invariant next == 1 + |sofar|
      {
        var speaker := speakers[j];
        assert HasFirstName(speaker);
        assert entries[j] == (contribution, speaker);
        PrefixGrows(done, entries, j);
        RowsAppend(sofar, (contribution, speaker), 1, next);
        var speakerName := SpeakerName(speaker);
        var contributionTitle := if contribution.title != "" then contribution.title else "Без названия";
        var status := DetermineStudentStatus(speaker);
        doc.AddRow([NatToString(next), speakerName + ". " + contributionTitle, status, ""]);
        sofar := sofar + [(contribution, speaker)];
        next := next + 1;
      }
      assert entries[..|speakers|] == entries;
    }
  }

  /** `ConferenceReportGenerator`: the report, one numbered paragraph per talk and speaker. */
  class ConferenceReportGenerator {
    const event: Event
    const doc: Document

    constructor(event: Event)
      ensures this.event == event && fresh(doc) && doc.blocks == []
    {
      this.event := event;
      doc := new Document();
    }

    method Generate()
      requires EventRenderable(ConferenceReport, event)
      modifies doc
      ensures doc.blocks == old(doc.blocks) + Rendered(ConferenceReport, event)
    {
      doc.AddHeading("ОТЧЕТ О ПРОВЕДЕНИИ КОНФЕРЕНЦИИ", 0);
      doc.AddParagraph("\"" + event.title + "\"");
      doc.AddParagraph("");
      ghost var preamble := doc.blocks;
      assert preamble == old(doc.blocks) + Preamble(ConferenceReport, event);

      ghost var cs := event.contributions;
      RenderedParts(ConferenceReport, event);
      ghost var sessions := Sessions(ConferenceReport, GroupOrder(cs), Buckets(cs), |GroupOrder(cs)|);
      ghost var noTime := NoTimeSection(ConferenceReport, Untimed(cs));

      var dateGroups, noTimeContribs := ContributionsByDate(event.contributions);
      GroupOrderSortedAgain(cs);
      if |dateGroups.order| > 0 {
        AddDateGroupedContributions(dateGroups);
      } else {
        AppendEmpty(preamble, sessions);
      }
      ghost var timed := doc.blocks;
      assert timed == preamble + sessions;

      if noTimeContribs != [] {
        AddNoTimeContributions(noTimeContribs);
        AppendAssociates(timed, [Heading(NoTimeHeading, 1)], Body(ConferenceReport, noTimeContribs));
      } else {
        AppendEmpty(timed, noTime);
      }
      AppendedInSteps(old(doc.blocks), Preamble(ConferenceReport, event), sessions, noTime, preamble, timed, doc.blocks);
    }

    /** `_add_date_grouped_contributions`: one session per date, dated with the time. */
    method AddDateGroupedContributions(dateGroups: DateGroups)
      requires dateGroups.Valid() && GroupsRenderable(ConferenceReport, dateGroups.order, dateGroups.buckets)
      modifies doc
      ensures GroupsRenderable(ConferenceReport, SortBy(dateGroups.order, DateLe), dateGroups.buckets) &&
        doc.blocks == old(doc.blocks) +
          Sessions(ConferenceReport, SortBy(dateGroups.order, DateLe), dateGroups.buckets, |dateGroups.order|)
    {
      var sortedDates := SortBy(dateGroups.order, DateLe);
      SortedKeysRenderable(ConferenceReport, dateGroups);
      for i := 0 to |sortedDates|
        invariant GroupsRenderable(ConferenceReport, sortedDates[..i], dateGroups.buckets)
        invariant doc.blocks == old(doc.blocks) +
          Sessions(ConferenceReport, sortedDates[..i], dateGroups.buckets, |sortedDates|)
      {
        var dateKey := sortedDates[i];
        assert dateKey in sortedDates;
        ghost var before := doc.blocks;
        AddSession(i + 1, |sortedDates|, dateKey, dateGroups.buckets[dateKey]);
        SessionsExtend(ConferenceReport, old(doc.blocks), sortedDates, dateGroups.buckets, |sortedDates|, i, before, doc.blocks);
      }
      assert sortedDates[..|sortedDates|] == sortedDates;
    }

    /** The body of the walker's loop: session `i` of `total`, held on `dateKey`. */
    method AddSession(i: nat, total: nat, dateKey: Date, dateContributions: seq<Contribution>)
      requires SpeakersNamed(dateContributions)
      modifies doc
      ensures doc.blocks == old(doc.blocks) + Session(ConferenceReport, i, total, dateKey, dateContributions)
    {
      var dateStr := FormatRussianDate(dateKey, true);
      var meetingTitle := if total > 1 then "Заседание " + NatToString(i) else "Заседание";
      assert meetingTitle == SessionTitle(ConferenceReport, i, total);
      doc.AddHeading(meetingTitle, 1);
      doc.AddParagraph(dateStr);
      ghost var started := doc.blocks;
      ghost var head := [Heading(meetingTitle, 1), Paragraph([dateStr])];
      AppendTwo(old(doc.blocks), Heading(meetingTitle, 1), Paragraph([dateStr]));
      AddContributionsList(dateContributions);
      ghost var listed := doc.blocks;
      doc.AddParagraph("");
      AppendedInSteps(old(doc.blocks), head, Body(ConferenceReport, dateContributions), [Paragraph([])], started, listed, doc.blocks);
    }

    /** `_add_no_time_contributions` */
    method AddNoTimeContributions(contributions: seq<Contribution>)
      requires SpeakersNamed(contributions)
      modifies doc
      ensures doc.blocks == old(doc.blocks) + [Heading(NoTimeHeading, 1)] + Body(ConferenceReport, contributions)
    {
      doc.AddHeading("Доклады без указанного времени", 1);
      AddContributionsList(contributions);
    }

    /**
     * `_add_contributions_list`: one paragraph per speaker of every
     * contribution, in title order, numbered from 1.
     */
    method AddContributionsList(contributions: seq<Contribution>)
      requires SpeakersNamed(contributions)
      modifies doc
      ensures doc.blocks == old(doc.blocks) + Body(ConferenceReport, contributions)
    {
      var rowNumber := 1;
      var ordered := TitleOrder(contributions);
      TitleOrderNamed(contributions);
      for i := 0 to |ordered|
        invariant CreditsNamed(Credits(ConferenceReport, ordered[..i]))
        invariant doc.blocks == old(doc.blocks) + Paragraphs(ConferenceReport, Credits(ConferenceReport, ordered[..i]), 1)
        invariant rowNumber == 1 + |Credits(ConferenceReport, ordered[..i])|
      {
        var contribution := ordered[i];
        ghost var done := Credits(ConferenceReport, ordered[..i]);
        CreditsGrow(ConferenceReport, ordered, i);
        // `if not speakers: continue`
        if Speakers(contribution) != [] {
          rowNumber := AddSpeakerParagraphs(contribution, old(doc.blocks), done, rowNumber);
        } else {
          assert done + EntriesOf(ConferenceReport, contribution) == done;
        }
      }
      assert ordered[..|ordered|] == ordered;
    }

    /** The inner loop of `_add_contributions_list`: a paragraph per speaker of `contribution`. */
    method AddSpeakerParagraphs(contribution: Contribution, ghost start: seq<Block>, ghost done: seq<Credit>, rowNumber: nat)
      returns (next: nat)
      requires Named(contribution) && CreditsNamed(done) && rowNumber == 1 + |done|
      requires doc.blocks == start + Paragraphs(ConferenceReport, done, 1)
      modifies doc
      ensures CreditsNamed(done + EntriesOf(ConferenceReport, contribution))
      ensures doc.blocks == start + Paragraphs(ConferenceReport, done + EntriesOf(ConferenceReport, contribution), 1)
      ensures next == rowNumber + |EntriesOf(ConferenceReport, contribution)|
    {
      ghost var entries := EntriesOf(ConferenceReport, contribution);
      ghost var sofar := done;
      var speakers := Speakers(contribution);
      assert done + entries[..0] == done;
      next := rowNumber;
      for j := 0 to |speakers|
        invariant sofar == done + entries[..j]
        invariant CreditsNamed(sofar)
        invariant doc.blocks == start + Paragraphs(ConferenceReport, sofar, 1)
        invariant next == 1 + |sofar|
      {
        var speaker := speakers[j];
        assert HasFirstName(speaker);
        assert entries[j] == (contribution, speaker);
        PrefixGrows(done, entries, j);
        ParagraphsAppend(ConferenceReport, sofar, (contribution, speaker), 1, next);
        AddSpeakerParagraph(contribution, speaker, next);
        AppendAssociates(start, Paragraphs(ConferenceReport, sofar, 1),
          [Paragraph(EntryRuns(ConferenceReport, (contribution, speaker), next))]);
        sofar := sofar + [(contribution, speaker)];
        next := next + 1;
      }
      assert entries[..|speakers|] == entries;
    }

    /** One paragraph of the list: the number, the short name and the title, as three runs. */
    method AddSpeakerParagraph(contribution: Contribution, speaker: Person, rowNumber: nat)
      requires HasFirstName(speaker)
      modifies doc
      ensures doc.blocks == old(doc.blocks) + [Paragraph(EntryRuns(ConferenceReport, (contribution, speaker), rowNumber))]
    {
      doc.AddParagraph("");
      LastOfAppend(old(doc.blocks), Paragraph([]));
      var numberRun := NatToString(rowNumber) + ". ";
      doc.AddRun(numberRun);
      AppendEmpty([numberRun], []);
      LastOfAppend(old(doc.blocks), Paragraph([numberRun]));
      var speakerName := SpeakerName(speaker);
      doc.AddRun(speakerName);
      assert [numberRun] + [speakerName] == [numberRun, speakerName];
      LastOfAppend(old(doc.blocks), Paragraph([numberRun, speakerName]));
      var contributionTitle := if contribution.title != "" then contribution.title else "Без названия";
      doc.AddRun(". " + contributionTitle);
      assert [numberRun, speakerName] + [". " + contributionTitle] ==
        EntryRuns(ConferenceReport, (contribution, speaker), rowNumber);
    }
  }

  /**
   * `PublicationsListGenerator`: the authors and titles of the talks whose
   * accepted paper revision is in the accepted state, and a "not found" line
   * when there are none.
   */
  class PublicationsListGenerator {
    const event: Event
    const doc: Document

    constructor(event: Event)
      ensures this.event == event && fresh(doc) && doc.blocks == []
    {
      this.event := event;
      doc := new Document();
    }

    method Generate()
      modifies doc
      ensures doc.blocks == old(doc.blocks) + Rendered(PublicationsList, event)
    {
      doc.AddHeading("СПИСОК ПУБЛИКАЦИЙ", 0);
      doc.AddParagraph("\"" + event.title + "\"");
      doc.AddParagraph("");
      ghost var preamble := doc.blocks;
      assert preamble == old(doc.blocks) + Preamble(PublicationsList, event);

      ghost var cs := event.contributions;
      PublicationsRenderedParts(event);
      ghost var sessions := Sessions(PublicationsList, GroupOrder(cs), Buckets(cs), |GroupOrder(cs)|);
      ghost var noTime := NoTimeSection(PublicationsList, Untimed(cs));

      var dateGroups, noTimeContribs := ContributionsByDate(event.contributions);
      GroupOrderSortedAgain(cs);
      var hasPublications := false;
      if |dateGroups.order| > 0 {
        var found := AddDateGroupedPublications(dateGroups);
        hasPublications := found || hasPublications;
      } else {
        AppendEmpty(preamble, sessions);
      }
      ghost var timed := doc.blocks;
      assert timed == preamble + sessions;

      if noTimeContribs != [] {
        var found := AddNoTimePublications(noTimeContribs);
        hasPublications := found || hasPublications;
        AppendAssociates(timed, [Heading(NoTimeHeading, 1)], Body(PublicationsList, noTimeContribs));
      } else {
        AppendEmpty(timed, noTime);
      }
      ghost var written := doc.blocks;
      AppendedInSteps(old(doc.blocks), Preamble(PublicationsList, event), sessions, noTime, preamble, timed, written);
      assert hasPublications <==> AnyEntries(PublicationsList, cs);

      ghost var closing: seq<Block> := if AnyEntries(PublicationsList, cs) then [] else [Paragraph([NotFoundText])];
      if !hasPublications {
        doc.AddParagraph("");
        LastOfAppend(written, Paragraph([]));
        doc.AddRun("Статьи, принятые к публикации, не найдены.");
        AppendEmpty([NotFoundText], []);
      } else {
        AppendEmpty(written, closing);
      }
      assert doc.blocks == written + closing;
      AppendAssociates(old(doc.blocks), Preamble(PublicationsList, event) + sessions + noTime, closing);
    }

    /**
     * `_add_date_grouped_publications`: one session per date, in ascending
     * date order; reports whether any session listed a publication.
     */
    method AddDateGroupedPublications(dateGroups: DateGroups) returns (hasPublications: bool)
      requires dateGroups.Valid()
      modifies doc
      ensures GroupsRenderable(PublicationsList, SortBy(dateGroups.order, DateLe), dateGroups.buckets) &&
        doc.blocks == old(doc.blocks) +
          Sessions(PublicationsList, SortBy(dateGroups.order, DateLe), dateGroups.buckets, |dateGroups.order|)
      ensures hasPublications <==>
        exists d :: d in dateGroups.buckets && HasEntries(PublicationsList, dateGroups.buckets[d])
    {
      var sortedDates := SortBy(dateGroups.order, DateLe);
      assert GroupsRenderable(PublicationsList, dateGroups.order, dateGroups.buckets);
      SortedKeysRenderable(PublicationsList, dateGroups);
      hasPublications := false;
      for i := 0 to |sortedDates|
        invariant GroupsRenderable(PublicationsList, sortedDates[..i], dateGroups.buckets)
        invariant doc.blocks == old(doc.blocks) +
          Sessions(PublicationsList, sortedDates[..i], dateGroups.buckets, |sortedDates|)
        invariant hasPublications <==> AnySessionEntries(PublicationsList, sortedDates[..i], dateGroups.buckets)
      {
        AnySessionEntriesStep(PublicationsList, sortedDates, dateGroups.buckets, i);
        var dateKey := sortedDates[i];
        ghost var before := doc.blocks;
        var hasDatePublications := AddSession(i + 1, |sortedDates|, dateKey, dateGroups.buckets[dateKey]);
        hasPublications := hasPublications || hasDatePublications;
        SessionsExtend(PublicationsList, old(doc.blocks), sortedDates, dateGroups.buckets, |sortedDates|, i, before, doc.blocks);
      }
      assert sortedDates[..|sortedDates|] == sortedDates;
      AnySessionEntriesIff(PublicationsList, sortedDates, dateGroups.buckets);
    }

    /** The body of the walker's loop: session `i` of `total`, held on `dateKey`. */
    method AddSession(i: nat, total: nat, dateKey: Date, dateContributions: seq<Contribution>)
      returns (hasDatePublications: bool)
      modifies doc
      ensures doc.blocks == old(doc.blocks) + Session(PublicationsList, i, total, dateKey, dateContributions)
      ensures hasDatePublications <==> HasEntries(PublicationsList, dateContributions)
    {
      var dateStr := FormatRussianDate(dateKey, false);
      var meetingTitle := if total > 1 then "Заседание " + NatToString(i) + "." else "Заседание.";
      assert meetingTitle == SessionTitle(PublicationsList, i, total);
      doc.AddHeading(meetingTitle, 1);
      doc.AddParagraph(dateStr);
      ghost var started := doc.blocks;
      ghost var head := [Heading(meetingTitle, 1), Paragraph([dateStr])];
      AppendTwo(old(doc.blocks), Heading(meetingTitle, 1), Paragraph([dateStr]));
      hasDatePublications := AddPublicationsList(dateContributions);
      ghost var listed := doc.blocks;
      doc.AddParagraph("");
      AppendedInSteps(old(doc.blocks), head, Body(PublicationsList, dateContributions), [Paragraph([])], started, listed, doc.blocks);
    }

    /** `_add_no_time_publications` */
    method AddNoTimePublications(contributions: seq<Contribution>) returns (found: bool)
      modifies doc
      ensures doc.blocks == old(doc.blocks) + [Heading(NoTimeHeading, 1)] + Body(PublicationsList, contributions)
      ensures found <==> HasEntries(PublicationsList, contributions)
    {
      doc.AddHeading("Доклады без указанного времени", 1);
      found := AddPublicationsList(contributions);
    }

    /**
     * `_add_publications_list`: in title order, one paragraph per speaker of
     * every contribution with an accepted paper, numbered from 1; reports
     * whether it wrote any.
     */
    method AddPublicationsList(contributions: seq<Contribution>) returns (hasPublications: bool)
      modifies doc
      ensures doc.blocks == old(doc.blocks) + Body(PublicationsList, contributions)
      ensures hasPublications <==> HasEntries(PublicationsList, contributions)
    {
      var rowNumber := 1;
      hasPublications := false;
      var ordered := TitleOrder(contributions);
      for i := 0 to |ordered|
        invariant doc.blocks == old(doc.blocks) + Paragraphs(PublicationsList, Credits(PublicationsList, ordered[..i]), 1)
        invariant rowNumber == 1 + |Credits(PublicationsList, ordered[..i])|
        invariant hasPublications <==> Credits(PublicationsList, ordered[..i]) != []
      {
        var contribution := ordered[i];
        ghost var done := Credits(PublicationsList, ordered[..i]);
        CreditsGrow(PublicationsList, ordered, i);
        var revision := contribution.acceptedRevision;
        if revision.Some? && revision.value.state == Accepted {
          // `if not authors: continue`
          if Speakers(contribution) != [] {
            rowNumber, hasPublications :=
              AddAuthorParagraphs(contribution, old(doc.blocks), done, rowNumber, hasPublications);
          } else {
            assert done + EntriesOf(PublicationsList, contribution) == done;
          }
        } else {
          assert done + EntriesOf(PublicationsList, contribution) == done;
        }
      }
      assert ordered[..|ordered|] == ordered;
    }

    /** The inner loop of `_add_publications_list`: a paragraph per speaker of `contribution`. */
    method AddAuthorParagraphs(contribution: Contribution, ghost start: seq<Block>, ghost done: seq<Credit>,
                               rowNumber: nat, found: bool) returns (next: nat, hasPublications: bool)
      requires Eligible(PublicationsList, contribution)
      requires rowNumber == 1 + |done| && doc.blocks == start + Paragraphs(PublicationsList, done, 1)
      modifies doc
      ensures doc.blocks == start + Paragraphs(PublicationsList, done + EntriesOf(PublicationsList, contribution), 1)
      ensures next == rowNumber + |EntriesOf(PublicationsList, contribution)|
      ensures hasPublications <==> found || EntriesOf(PublicationsList, contribution) != []
    {
      ghost var entries := EntriesOf(PublicationsList, contribution);
      ghost var sofar := done;
      var authors := Speakers(contribution);
      assert done + entries[..0] == done;
      next := rowNumber;
      hasPublications := found;
      for j := 0 to |authors|
        invariant sofar == done + entries[..j]
        invariant doc.blocks == start + Paragraphs(PublicationsList, sofar, 1)
        invariant next == 1 + |sofar|
        invariant hasPublications <==> found || j > 0
      {
        var author := authors[j];
        assert entries[j] == (contribution, author);
        PrefixGrows(done, entries, j);
        ParagraphsAppend(PublicationsList, sofar, (contribution, author), 1, next);
        AddAuthorParagraph(contribution, author, next);
        AppendAssociates(start, Paragraphs(PublicationsList, sofar, 1),
          [Paragraph(EntryRuns(PublicationsList, (contribution, author), next))]);
        sofar := sofar + [(contribution, author)];
        next := next + 1;
        hasPublications := true;
      }
      assert entries[..|authors|] == entries;
    }

    /**
     * One paragraph of the list: the indented number, the full name, the
     * affiliation when there is one, a line break and the title, as runs.
     */
    method AddAuthorParagraph(contribution: Contribution, author: Person, rowNumber: nat)
      modifies doc
      ensures doc.blocks == old(doc.blocks) + [Paragraph(EntryRuns(PublicationsList, (contribution, author), rowNumber))]
    {
      doc.AddParagraph("");
      LastOfAppend(old(doc.blocks), Paragraph([]));
      var numberRun := "    " + NatToString(rowNumber) + ". ";
      doc.AddRun(numberRun);
      AppendEmpty([numberRun], []);
      var fullName := FullName(author);
      ghost var runs := [numberRun];
      LastOfAppend(old(doc.blocks), Paragraph(runs));
      doc.AddRun(fullName);
      runs := runs + [fullName];
      if author.affiliation != "" {
        LastOfAppend(old(doc.blocks), Paragraph(runs));
        doc.AddRun(", " + author.affiliation);
        runs := runs + [", " + author.affiliation];
      }
      LastOfAppend(old(doc.blocks), Paragraph(runs));
      doc.AddRun("\n");
      runs := runs + ["\n"];
      var articleTitle := if contribution.title != "" then contribution.title else "Без названия";
      LastOfAppend(old(doc.blocks), Paragraph(runs));
      doc.AddRun(articleTitle);
      assert runs + [articleTitle] == EntryRuns(PublicationsList, (contribution, author), rowNumber);
    }
  }

  // ---------------------------------------------------------------------------
  // The module-level wrappers. Each takes the event instead of its id and
  // returns the body of the document instead of its saved bytes.

  /** `generate_docx_list` */
  method GenerateDocxList(event: Event) returns (document: seq<Block>)
    requires EventRenderable(ContributionsList, event)
    ensures document == Rendered(ContributionsList, event)
  {
    var generator := new ContributionsListGenerator(event);
    generator.Generate();
    document := generator.doc.blocks;
    AppendEmpty(Rendered(ContributionsList, event), []);
  }

  /** `generate_docx_report` */
  method GenerateDocxReport(event: Event) returns (document: seq<Block>)
    requires EventRenderable(ConferenceReport, event)
    ensures document == Rendered(ConferenceReport, event)
  {
    var generator := new ConferenceReportGenerator(event);
    generator.Generate();
    document := generator.doc.blocks;
    AppendEmpty(Rendered(ConferenceReport, event), []);
  }

  /** `generate_docx_papers` */
  method GenerateDocxPapers(event: Event) returns (document: seq<Block>)
    ensures document == Rendered(PublicationsList, event)
  {
    var generator := new PublicationsListGenerator(event);
    generator.Generate();
    document := generator.doc.blocks;
    AppendEmpty(Rendered(PublicationsList, event), []);
  }
}
