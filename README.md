# A model of the indico_exportdocs report engine

This project models the report engine of the `indico_exportdocs` Indico plugin. The engine lives in `util.py`. It turns an event into one of three Word documents:

- the list of talks (`ContributionsListGenerator`): a table per session;
- the conference report (`ConferenceReportGenerator`): numbered paragraphs per session;
- the list of publications (`PublicationsListGenerator`): numbered paragraphs for papers whose accepted revision is in the accepted state, and a "not found" line when there are none at all.

The model has these parts:

- `Records` (records.dfy): the event, its contributions, person links, persons and paper revisions as values, together with the orderings the engine sorts by.
  - Dates and instants compare field by field.
  - Titles compare by their lower-cased text.
- `Text` (text.dfy): the Python string operations the engine relies on.
  - `str.lower`, for the Latin and Cyrillic alphabets.
  - `in`, `str.replace` and `str(n)`.
  - `%02d`.
  - String ordering.
- `Sorting` (sorting.dfy): Python's `sorted` and `list.sort`, as a reference stable insertion sort `SortBy`. It is proved to return an ordered permutation that keeps equal elements in input order.
- `Formatting` (formatting.dfy): the helpers of `DocxGenerator`.
  - The Russian date line is a method whose loop runs `str.replace` over the month table. It is proved equal to the day, genitive month and year it is meant to spell out.
  - The speaker's short name and the full name.
  - The affiliation classifier is a method with the source's two keyword loops, proved equal to a first-match classification.
- `Grouping` (grouping.dfy): `_get_contributions_by_date`, as a method.
  - It fills an insertion-ordered dictionary of buckets, sorts each bucket by start instant, then sorts the keys.
  - It is proved to partition the contributions that are not deleted. Every bucket is sorted and stable, the keys ascend, and the "no time" list keeps input order.
- `Documents` (document.dfy): the part of a python-docx document the engine writes to.
  - The document is a class whose only state is its list of blocks.
  - A block is a heading, a paragraph of runs, or a table with a header row and further rows.
- `Layout` (layout.dfy): the document each generator writes, as functions of the event (`Rendered`). The lemmas about it cover:
  - which entries a section has;
  - their order;
  - their numbering;
  - the session headings;
  - the "not found" line.
- `Generators` (generators.dfy): the three generator classes and the three module-level wrappers.
  - The generators are imperative. Each method appends to the shared document and keeps a row counter and, for publications, a found flag.
  - Every method is proved to append exactly the blocks `Layout` describes. Each `generate` is proved to write `Rendered(kind, event)`.

Points about the code worth knowing:

- Entry numbers restart at 1 in every section, for the report and the publications list as well as for the talks table. The code resets `row_number` at the start of every call.
- The section of contributions without a start time is headed "Доклады без указанного времени", not "Заседание".
- The publications list still writes each session's heading and date line when that session has no accepted paper.
- In the report the date line always ends in ", 00-00". `_format_russian_date` is handed a `date`, whose hour and minute are zero.

## Model

| member | source | states |
|---|---|---|
| Formatting.FormatRussianDate | util.py:65-75 | After translating every month of the table, the string is the zero-padded day, the Russian genitive month, the year and "г.", plus ", 00-00" when time is asked for. |
| Formatting.TranslationStep | util.py:72-73 | One `replace` of the table rewrites the month in the date line exactly when it is that entry's month, and otherwise leaves the line unchanged. |
| Formatting.RussianDateHasNoLatinCapitals | util.py:65-75 | The finished date line holds no Latin capital letter, so no later `replace` in the table can match inside it. |
| Formatting.MonthTableFacts | util.py:34-38 | The translation table has twelve entries, whose English names are the month names `%B` yields, in calendar order. |
| Formatting.GenitiveMonthsWithoutCapitals | util.py:34-38 | No Russian month name in the table holds a Latin capital letter. |
| Formatting.EnglishMonthsCapitalized | util.py:34-38 | Every English month name starts with a Latin capital letter, has at least three letters, and has no other capital letters. |
| Formatting.MonthNamesDifferEarly | util.py:34-38 | Two different English month names already differ in their first three letters, so one never matches inside another. |
| Formatting.YearFieldHasFourDigits | util.py:68-70 | The `%Y` field is exactly four digits that read back as the year. |
| Formatting.DateAffixesHaveNoCapitals | util.py:68-70 | The day field and the year/"г."/time tail of the date line hold no Latin capital letter. |
| Formatting.SpeakerName | util.py:95-98 | The short name is the last name, a space, the first letter of the first name, and "." with the second letter when the first name has one, so it is 2 or 4 characters longer than the last name. |
| Formatting.SpeakerNameDeterminesParts | util.py:95-98 | Two persons get the same short name only when they share the last name, the first letter of the first name, whether a second letter is present, and that second letter. |
| Formatting.SpeakerNameExamples | util.py:97-98 | "Anna Petrov" gives "Petrov A.n", and a one-letter first name gives no dot. |
| Formatting.FullNameUsesEveryPart | util.py:100-104 | The full name is made of the characters of the last, first and middle names, each used once, plus one space, or two when there is a middle name. |
| Formatting.FullNameSplitsIntoParts | util.py:100-104 | When no name part contains a space, splitting the full name at spaces gives [last, first, middle] when there is a middle name, and [first, last] otherwise. |
| Formatting.MentionsAnyIff | util.py:116-122 | The keyword loop finds a hit exactly when some keyword of the list occurs in the text. |
| Formatting.DetermineStudentStatus | util.py:106-124 | The two keyword loops return the first-match classification of the affiliation. |
| Formatting.StudentStatusOutcomes | util.py:106-124 | An empty affiliation gives "Не указан". A student keyword gives "Студент", even when a master keyword is also present. Otherwise a master keyword gives "Магистр". Otherwise the affiliation is returned as written. |
| Formatting.MasterStudentIsStudent | util.py:113-118 | An example of student keywords winning over master keywords: "Master student" classifies as "Студент". |
| Formatting.UnmatchedAffiliationKeptAsWritten | util.py:124 | An example of an affiliation that matches no keyword: "MIPT" is returned as written, not lower-cased. |
| Text.Lower | util.py:111 | The modelled `str.lower` keeps the length, lowers each character on its own, and leaves no Latin or Cyrillic capital in the result. |
| Text.LowerKeepsLowered | util.py:111 | A string is unchanged by `str.lower` exactly when it holds no Latin or Cyrillic capital, so lowering twice is the same as lowering once. |
| Text.LowerChar | util.py:111 | A Latin capital becomes the small letter at the same alphabet position, А..Я becomes а..я and Ѐ..Џ becomes ѐ..џ in the same way, and every other character is unchanged. No capital of these alphabets is left. |
| Text.Replace | util.py:73 | `replace` returns the text unchanged when the pattern is its own replacement or longer than the text. |
| Text.ReplaceAtOnlyCapital | util.py:73 | When the pattern starts with a capital and only one position of the text holds a capital, `replace` rewrites the one occurrence there, or returns the text unchanged. |
| Text.ReplaceWithoutCapital | util.py:73 | `replace` with a capitalised pattern leaves a text without capitals unchanged. |
| Text.NatToString | util.py:241 | `str(n)` is a non-empty string of digits. |
| Text.NatToStringValue | util.py:241 | The digits of `str(n)` read back as n, and they start with "0" only when n is 0, so there is no leading zero. |
| Text.TwoDigits | util.py:68 | `%02d` gives exactly two digits whose value is n, so a day below 10 is padded with a leading "0". |
| Text.StrLeTotal | util.py:231 | Python's string comparison relates any two strings. |
| Text.StrLeTransitive | util.py:231 | Python's string comparison is transitive. |
| Text.StrLeAntisymmetric | util.py:231 | Two strings that compare both ways are equal. |
| Records.SpeakersOf | util.py:232 | The speakers are exactly the persons of the links marked as speakers, and there are no more of them than links. |
| Records.SpeakersOfSingle | util.py:232 | One link gives its person when it is marked as a speaker, and nothing otherwise. |
| Records.SpeakersOfConcat | util.py:232 | The speakers of two runs of links are the speakers of the first followed by those of the second, so speakers come in link order. |
| Records.SpeakersOfCount | util.py:232 | There is one speaker per link marked as a speaker. |
| Records.DateLeIsTotalOrder | util.py:93 | Dates compare as a total order, so sorting the keys gives one well-defined ascending order. |
| Records.StartLeIsTotalPreorder | util.py:91 | Start instants compare as a total preorder. |
| Records.TitleLeIsTotalPreorder | util.py:231 | The lower-cased title key, with '' for no title, compares as a total preorder. |
| Sorting.SortByIsOrderedPermutation | util.py:91 | Sorting returns an ordered sequence with the same elements, counted with multiplicity. |
| Sorting.SortByIsStable | util.py:91 | Sorting keeps elements with equal keys in their input order. |
| Sorting.InsertPermutes | util.py:91 | Inserting an element adds exactly that element. |
| Sorting.InsertSorted | util.py:91 | Inserting into a sorted sequence keeps it sorted. |
| Sorting.InsertEquivalents | util.py:91 | Inserting puts the new element in front of the elements already present that have an equal key. Because the sort inserts each element into the sorted rest of the input, this keeps input order. |
| Sorting.SortByOfSorted | util.py:93 | Sorting an already sorted sequence changes nothing. |
| Grouping.Timed | util.py:79-80 | The timed list holds only contributions that are not deleted and have a start instant. |
| Grouping.Untimed | util.py:81-82 | The no-time list holds only contributions that are not deleted and have no start instant. |
| Grouping.ContributionsByDate | util.py:77-93 | The method returns the keys in ascending date order, one sorted bucket per start date, and the no-time list. Every key has a bucket. |
| Grouping.GroupingIsPartition | util.py:79-87 | A timed contribution lands in the bucket of its start date, as many times as it occurs in the input. Anything in a bucket is a timed input contribution of that date. A contribution is in the no-time list as often as in the input when it is untimed, and never otherwise. Deleted contributions appear nowhere. |
| Grouping.TimedCount | util.py:79-80 | The timed list holds each contribution that is not deleted and has a start instant as often as the input does, and no other. |
| Grouping.UntimedCount | util.py:81-82 | The no-time list holds each contribution that is not deleted and has no start instant as often as the input does, and no other. |
| Grouping.UntimedKeepsOrder | util.py:81-82 | The no-time list of a concatenation is the concatenation of the no-time lists, so the input order is kept. |
| Grouping.OnDateCount | util.py:85-87 | A date's bucket before sorting holds each contribution of that date as often as the timed list does, and no other. |
| Grouping.FirstDatesFacts | util.py:84-87 | The dictionary's keys have no repeats and are exactly the dates some timed contribution starts on. |
| Grouping.GroupOrderIsAscending | util.py:93 | The returned keys strictly ascend and are exactly the start dates of timed contributions. |
| Grouping.BucketIsSortedAndStable | util.py:89-91 | Every bucket is sorted by start instant. Contributions with equal start instants keep their input order. |
| Grouping.SortedPermutationOfDistinct | util.py:93 | Sorting keys that have no repeats gives keys that have no repeats. |
| Layout.ContributionGivesConsecutiveEntries | util.py:231-237 | A contribution's entries sit together between those of its neighbours. There is one per link marked as a speaker, in link order, when it is eligible, and none otherwise. |
| Layout.CreditsMembership | util.py:231-237 | A (contribution, speaker) pair has an entry exactly when the contribution is in the section, is eligible, and the person is one of its speakers. |
| Layout.SectionCreditsMembership | util.py:313-319 | After sorting by title, a section still has an entry for exactly the speakers of its eligible contributions. |
| Layout.CreditsEmpty | util.py:234-235 | A section has no entry exactly when none of its eligible contributions has a speaker. |
| Layout.SectionCreditsInTitleOrder | util.py:231 | Entries come in ascending order of lower-cased title, with untitled contributions first. |
| Layout.CreditsOfOrdered | util.py:231-237 | The entries of contributions taken in title order come in title order. |
| Layout.HasEntriesIff | util.py:394-404 | A section has an entry exactly when it holds an eligible contribution with a speaker. |
| Layout.RowsNumbered | util.py:230-263 | The table has one row per entry. Row i is numbered n+i and holds the short name, ". ", the title or "Без названия", the status, and an empty decision cell. |
| Layout.ParagraphsNumbered | util.py:312-332 | The report and publications sections have one paragraph per entry, numbered n+i. |
| Layout.SessionTitleNumbered | util.py:199 | A session heading holds a digit exactly when there are at least two date groups. It ends with "." exactly in the publications list. |
| Layout.SessionsEndWithBlank | util.py:206 | Each run of sessions ends with the empty paragraph written after the last one. |
| Layout.AnyEntriesIff | util.py:345-353 | Some section of the document has an entry exactly when some contribution that is not deleted is eligible and has a speaker. |
| Layout.NotFoundIffNoAcceptedPaper | util.py:355-358 | The publications list ends with the "not found" paragraph exactly when no contribution that is not deleted has an accepted revision in the accepted state and a speaker. |
| Layout.LastBlockIsNotNotFound | util.py:355-358 | When some section has an entry, the document does not end with the "not found" paragraph. |
| Layout.GroupsAreRenderable | util.py:178-186 | Every sorted key has a bucket. For the talks list and the report, every speaker in a bucket or in the no-time list has a first name, so the short name can be taken. |
| Layout.Rendered | util.py:172-189 | Every document starts with its preamble: the title heading, the event line and the blank paragraph. Its sessions and sections are described by `AnyEntriesIff` and `NotFoundIffNoAcceptedPaper`. |
| Layout.SessionsExtend | util.py:193-206 | Writing the session of the next date extends the sessions written so far by exactly that session. |
| Layout.GroupOrderSortedAgain | util.py:193 | Sorting the already ascending keys again changes nothing. |
| Layout.AnySessionEntriesIff | util.py:368-382 | The flag accumulated over the sessions is true exactly when some session has an entry. |
| Generators.ContributionsListGenerator.Generate | util.py:172-189 | Appends exactly the rendered talks list. |
| Generators.ContributionsListGenerator.AddDateGroupedContributions | util.py:191-206 | Appends one session per date, in ascending date order, numbered 1..k out of k. |
| Generators.ContributionsListGenerator.AddSession | util.py:195-206 | Appends the session heading, the date line, the table and an empty paragraph. |
| Generators.ContributionsListGenerator.AddNoTimeContributions | util.py:208-211 | Appends the no-time heading and that section's table. |
| Generators.ContributionsListGenerator.CreateContributionsTable | util.py:213-263 | Appends one table whose rows are the section's entries, numbered from 1. |
| Generators.ContributionsListGenerator.AddSpeakerRows | util.py:237-263 | Adds one row per speaker to the last table. The counter advances by the number of speakers. |
| Generators.ConferenceReportGenerator.Generate | util.py:269-286 | Appends exactly the rendered report. |
| Generators.ConferenceReportGenerator.AddDateGroupedContributions | util.py:288-303 | Appends one session per date, in ascending date order, with the time in the date line. |
| Generators.ConferenceReportGenerator.AddSession | util.py:292-303 | Appends the session heading, the date line, the paragraphs and an empty paragraph. |
| Generators.ConferenceReportGenerator.AddNoTimeContributions | util.py:305-308 | Appends the no-time heading and that section's paragraphs. |
| Generators.ConferenceReportGenerator.AddContributionsList | util.py:310-332 | Appends one paragraph per entry, in title order, numbered from 1. |
| Generators.ConferenceReportGenerator.AddSpeakerParagraphs | util.py:319-332 | Appends one numbered paragraph per speaker. The counter advances by the number of speakers. |
| Generators.ConferenceReportGenerator.AddSpeakerParagraph | util.py:320-330 | Appends one paragraph with the runs "n. ", the short name, and ". " followed by the title. |
| Generators.PublicationsListGenerator.Generate | util.py:338-361 | Appends exactly the rendered publications list, including the "not found" paragraph when nothing qualified. |
| Generators.PublicationsListGenerator.AddDateGroupedPublications | util.py:363-382 | Appends one session per date. Returns true exactly when some date's bucket has an entry. |
| Generators.PublicationsListGenerator.AddSession | util.py:368-380 | Appends the session heading, the date line, the paragraphs and an empty paragraph. Returns true exactly when the session has an entry. |
| Generators.PublicationsListGenerator.AddNoTimePublications | util.py:384-387 | Appends the no-time heading and its paragraphs. Returns true exactly when that section has an entry. |
| Generators.PublicationsListGenerator.AddPublicationsList | util.py:389-428 | Appends one paragraph per speaker of each contribution with an accepted revision, in title order, numbered from 1. Returns true exactly when it wrote one. |
| Generators.PublicationsListGenerator.AddAuthorParagraphs | util.py:406-426 | Appends one numbered paragraph per speaker. The counter advances by their number. The flag becomes true exactly when a paragraph was written. |
| Generators.PublicationsListGenerator.AddAuthorParagraph | util.py:407-423 | Appends one paragraph with the runs "    n. ", the full name, ", affiliation" when there is one, a line break, and the title. |
| Generators.GenerateDocxList | util.py:432-435 | The talks list written for a fresh document is exactly the rendered talks list. |
| Generators.GenerateDocxReport | util.py:437-440 | The report written for a fresh document is exactly the rendered report. |
| Generators.GenerateDocxPapers | util.py:442-445 | The publications list written for a fresh document is exactly the rendered publications list. |

## Left out

- Everything python-docx does besides holding the blocks is left out, because it is a foreign library which this model does not describe:
  - margins (`_setup_document`);
  - fonts, sizes, line spacing and colours (`_set_black_color`, `_apply_document_styling`);
  - bold runs, alignments and the table style;
  - `p.italic`;
  - serialising to bytes (`_save_to_bytes`).
- `Event.get(event_id)` is a database lookup. The generators and wrappers take the event as a value instead, and the wrappers return the document's blocks rather than .docx bytes.
- `strftime` is modelled for the C locale, where `%B` gives the English month names. Years are 1000..9999, so `%Y` always writes four digits. Years below 1000 are left out: whether `%Y` pads them with zeros differs between Python versions.
- Text.LowerChar: lowers only the Latin and Cyrillic capitals (А..Я and Ѐ..Џ), not the rest of Unicode that `str.lower` covers. This is enough for the keywords, which are Latin, Cyrillic and digits. For titles that start with a Latin-1 or Greek capital, the title sort order can differ from Python's: Python puts "éclair" before "Úlfur", because it lowers "Ú" to "ú", which comes after "é". The model keeps "Ú", which comes before "é", so it gives the opposite order.
- Formatting.SpeakerName: requires a non-empty first name. The source raises IndexError there. The talks list and the report therefore require `EventRenderable`: every speaker of a contribution that is not deleted has a first name. The publications list uses only the full name and requires nothing.
- Optional attributes (`title`, `middle_name`, `affiliation`) are strings, with "" standing for `None`. The source tests only whether they are truthy. The `hasattr` checks on the accepted revision become an `Option` of a revision.
- Documents.Document.AddParagraph: `add_paragraph("")` is modelled as a paragraph with no runs. A run holding a line break (`"\n"`) is kept as an ordinary run.
- The Flask controllers, the Indico menu and template hooks, the plugin registration and the browser script are outside the report engine.
