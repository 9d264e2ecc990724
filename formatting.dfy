/**
 * The formatting helpers of `DocxGenerator`: the Russian date line, the
 * speaker's short name, the full name and the status inferred from the
 * affiliation text.
 */
module Formatting {
  import opened Text
  import opened Records

  /** What `strftime('%B')` yields, month by month, in the C locale. */
  const EnglishMonthNames: seq<string> :=
    ["January", "February", "March", "April", "May", "June",
     "July", "August", "September", "October", "November", "December"]

  /** `MONTH_TRANSLATIONS`, in the order its entries are iterated. */
  const MonthTranslations: seq<(string, string)> :=
    [("January", "января"), ("February", "февраля"), ("March", "марта"), ("April", "апреля"),
     ("May", "мая"), ("June", "июня"), ("July", "июля"), ("August", "августа"),
     ("September", "сентября"), ("October", "октября"), ("November", "ноября"), ("December", "декабря")]

  /** The genitive Russian name of a month. */
  function GenitiveMonth(m: Month): string {
    MonthTranslations[m - 1].1
  }

  /**
   * The time part of `'%d %B %Y г., %H-%M'`. The formatter is only ever given
   * a `date`, whose hour and minute read as zero.
   */
  function TimeSuffix(includeTime: bool): string {
    if includeTime then ", " + TwoDigits(0) + "-" + TwoDigits(0) else ""
  }

  /** The day field and the space after it: `'%d '`. */
  function DayPart(d: Date): string {
    TwoDigits(d.day) + " "
  }

  /** Everything after the month: `' %Y г.'`, with the time when asked for. */
  function YearPart(d: Date, includeTime: bool): string {
    " " + NatToString(d.year) + " г." + TimeSuffix(includeTime)
  }

  /** `date_obj.strftime('%d %B %Y г.')`, with `, %H-%M` when asked for. */
  function Strftime(d: Date, includeTime: bool): string {
    DayPart(d) + EnglishMonthNames[d.month - 1] + YearPart(d, includeTime)
  }

  /** The date line as it reads in the report: day, genitive month, year, "г.". */
  function RussianDate(d: Date, includeTime: bool): string {
    DayPart(d) + GenitiveMonth(d.month) + YearPart(d, includeTime)
  }

  predicate NoCapitals(s: string) {
    forall j :: 0 <= j < |s| ==> !IsUpperLatin(s[j])
  }

  /** The table translates the month names `%B` yields, in calendar order. */
  lemma MonthTableFacts()
    ensures |MonthTranslations| == 12 && |EnglishMonthNames| == 12
    ensures forall i :: 0 <= i < 12 ==> MonthTranslations[i].0 == EnglishMonthNames[i]
  {
  }

  /** Each English month name starts with the only capital it holds. */
  lemma EnglishMonthsCapitalized()
    ensures forall i :: 0 <= i < 12 ==> IsCapitalized(EnglishMonthNames[i])
  {
  }

  /** No Russian month name holds a Latin capital. */
  lemma GenitiveMonthsWithoutCapitals()
    ensures forall i :: 0 <= i < 12 ==> NoCapitals(MonthTranslations[i].1)
  {
  }

  /** A capital Latin letter followed by at least two letters without capitals. */
  predicate IsCapitalized(w: string) {
    |w| >= 3 && IsUpperLatin(w[0]) && NoCapitals(w[1..])
  }

  lemma MonthNamesDifferEarly(i: int, j: int)
    requires 0 <= i < 12 && 0 <= j < 12 && i != j
    ensures |EnglishMonthNames[i]| >= 3 && |EnglishMonthNames[j]| >= 3
    ensures EnglishMonthNames[i][..3] != EnglishMonthNames[j][..3]
  {
    var a, b := EnglishMonthNames[i], EnglishMonthNames[j];
    assert a[0] != b[0] || a[1] != b[1] || a[2] != b[2];
  }

  lemma NoCapitalsConcat(a: string, b: string)
    requires NoCapitals(a) && NoCapitals(b)
    ensures NoCapitals(a + b)
  {
    forall j | 0 <= j < |a + b| ensures !IsUpperLatin((a + b)[j]) {
      if j >= |a| {
        assert (a + b)[j] == b[j - |a|];
      }
    }
  }

  lemma DateAffixesHaveNoCapitals(d: Date, includeTime: bool)
    ensures NoCapitals(DayPart(d))
    ensures NoCapitals(YearPart(d, includeTime))
  {
    var y := NatToString(d.year);
    assert NoCapitals(" " + y) by {
      forall j | 1 <= j < |" " + y| ensures !IsUpperLatin((" " + y)[j]) {
        assert (" " + y)[j] == y[j - 1];
      }
    }
    NoCapitalsConcat(" " + y, " г.");
    NoCapitalsConcat(" " + y + " г.", TimeSuffix(includeTime));
  }

  /** `%Y` writes the year as exactly four digits that read back as the year. */
  lemma YearFieldHasFourDigits(d: Date)
    ensures |NatToString(d.year)| == 4 && DecimalValue(NatToString(d.year)) == d.year
  {
    var y: nat := d.year;
    NatToStringValue(y);
    assert |NatToString(y / 1000)| == 1;
    assert |NatToString(y / 100)| == |NatToString(y / 100 / 10)| + 1;
    assert |NatToString(y / 10)| == |NatToString(y / 10 / 10)| + 1;
    assert |NatToString(y)| == |NatToString(y / 10)| + 1;
  }

  /** Replacing a capitalized word in a line that has no capital letter changes nothing. */
  lemma ReplaceInLineWithoutCapitals(s: string, w: string, r: string)
    requires IsCapitalized(w) && NoCapitals(s)
    ensures Replace(s, w, r) == s
  {
    ReplaceAtOnlyCapital(s, w, r, |s|);
  }

  /**
   * In `pre + word + post`, where only `word` starts with a capital, a
   * capitalized `w` is replaced exactly when it is a prefix of `word + post`.
   */
  lemma {:induction false} ReplaceAroundWord(pre: string, word: string, post: string, w: string, r: string)
    requires IsCapitalized(w) && IsCapitalized(word) && NoCapitals(pre) && NoCapitals(post)
    ensures var s := pre + word + post;
      Replace(s, w, r) ==
        if |w| <= |word + post| && (word + post)[..|w|] == w then pre + r + (word + post)[|w|..] else s
  {
    var s := pre + word + post;
    var p := |pre|;
    forall j | 0 <= j < |s| && j != p ensures !IsUpperLatin(s[j]) {
      if j < p {
        assert s[j] == pre[j];
      } else if j < p + |word| {
        assert s[j] == word[1..][j - p - 1];
      } else {
        assert s[j] == post[j - p - |word|];
      }
    }
    ReplaceAtOnlyCapital(s, w, r, p);
    assert s[..p] == pre;
    assert s[p..] == word + post;
    assert p + |w| <= |s| ==> s[p..p + |w|] == (word + post)[..|w|];
    assert p + |w| <= |s| ==> s[p + |w|..] == (word + post)[|w|..];
  }

  /**
   * One pass of the translation loop: replacing entry `i` of the table in a
   * line whose month `m` is still in English while `i <= m`.
   */
  lemma {:induction false} TranslationStep(pre: string, post: string, m: int, i: int)
    requires 0 <= m < 12 && 0 <= i < 12
    requires NoCapitals(pre) && NoCapitals(post)
    requires MonthTranslations[i].0 != []
    ensures var month := if i <= m then EnglishMonthNames[m] else MonthTranslations[m].1;
      var month' := if i + 1 <= m then EnglishMonthNames[m] else MonthTranslations[m].1;
      Replace(pre + month + post, MonthTranslations[i].0, MonthTranslations[i].1) == pre + month' + post
  {
    MonthTableFacts();
    EnglishMonthsCapitalized();
    GenitiveMonthsWithoutCapitals();
    var w, r := MonthTranslations[i].0, MonthTranslations[i].1;
    if i > m {
      var s := pre + MonthTranslations[m].1 + post;
      NoCapitalsConcat(pre, MonthTranslations[m].1);
      NoCapitalsConcat(pre + MonthTranslations[m].1, post);
      ReplaceInLineWithoutCapitals(s, w, r);
    } else {
      var word := EnglishMonthNames[m];
      ReplaceAroundWord(pre, word, post, w, r);
      if i < m {
        MonthNamesDifferEarly(i, m);
      } else {
        assert (word + post)[..|w|] == w;
        assert (word + post)[|w|..] == post;
      }
    }
  }

  /**
   * `_format_russian_date`: format with `strftime`, then replace each English
   * month name of `MONTH_TRANSLATIONS` by its Russian genitive, in table order.
   */
  method FormatRussianDate(d: Date, includeTime: bool) returns (s: string)
    ensures s == RussianDate(d, includeTime)
  {
    s := Strftime(d, includeTime);
    DateAffixesHaveNoCapitals(d, includeTime);
    ghost var m := d.month - 1;
    for i := 0 to |MonthTranslations|
      invariant s == DayPart(d) + (if i <= m then EnglishMonthNames[m] else MonthTranslations[m].1) + YearPart(d, includeTime)
    {
      assert MonthTranslations[i].0 != [];
      TranslationStep(DayPart(d), YearPart(d, includeTime), m, i);
      s := Replace(s, MonthTranslations[i].0, MonthTranslations[i].1);
    }
  }

  /** Every English month name is gone from the date line. */
  lemma RussianDateHasNoLatinCapitals(d: Date, includeTime: bool)
    ensures NoCapitals(RussianDate(d, includeTime))
  {
    GenitiveMonthsWithoutCapitals();
    DateAffixesHaveNoCapitals(d, includeTime);
    assert NoCapitals(GenitiveMonth(d.month));
    NoCapitalsConcat(DayPart(d), GenitiveMonth(d.month));
    NoCapitalsConcat(DayPart(d) + GenitiveMonth(d.month), YearPart(d, includeTime));
  }

  /**
   * `_get_speaker_name`: the last name, a space, the first letter of the first
   * name and, when the first name is longer, a dot and its second letter.
   * Indexing an empty first name raises in the source, hence the requires.
   */
  function SpeakerName(p: Person): (name: string)
    requires |p.firstName| > 0
    ensures |name| == |p.lastName| + (if |p.firstName| > 1 then 4 else 2)
    ensures name[..|p.lastName|] == p.lastName && name[|p.lastName|] == ' '
    ensures name[|p.lastName| + 1] == p.firstName[0]
    ensures |p.firstName| > 1 ==> name[|p.lastName| + 2] == '.' && name[|p.lastName| + 3] == p.firstName[1]
  {
    var middleInitial := if |p.firstName| > 1 then ['.', p.firstName[1]] else [];
    p.lastName + " " + [p.firstName[0]] + middleInitial
  }

  /**
   * The short name gives back what it was made from: two persons have the
   * same short name only when they share the last name and the one or two
   * letters taken from the first name.
   */
  lemma {:induction false} SpeakerNameDeterminesParts(p: Person, q: Person)
    requires |p.firstName| > 0 && |q.firstName| > 0
    requires SpeakerName(p) == SpeakerName(q)
    ensures p.lastName == q.lastName
    ensures p.firstName[0] == q.firstName[0]
    ensures |p.firstName| > 1 <==> |q.firstName| > 1
    ensures |p.firstName| > 1 ==> p.firstName[1] == q.firstName[1]
  {
    var s := SpeakerName(p);
    var a, b := p.lastName, q.lastName;
    assert s[|a|] == ' ' && s[..|a|] == a;
    assert s[|b|] == ' ' && s[..|b|] == b;
    // a space never sits where the other name has its dot, so the last names have one length
    assert |p.firstName| > 1 ==> s[|a| + 2] == '.';
    assert |q.firstName| > 1 ==> s[|b| + 2] == '.';
    assert |a| == |b|;
    assert a == b;
    assert s[|a| + 1] == p.firstName[0] && s[|a| + 1] == q.firstName[0];
    if |p.firstName| > 1 || |q.firstName| > 1 {
      assert |s| == |a| + 4;
      assert s[|a| + 3] == p.firstName[1] && s[|a| + 3] == q.firstName[1];
    }
  }

  /**
   * `_get_full_name`: "last first middle" when there is a middle name, and
   * "first last" otherwise.
   */
  function FullName(p: Person): string {
    if p.middleName != "" then p.lastName + " " + p.firstName + " " + p.middleName
    else p.firstName + " " + p.lastName
  }

  /** The full name is made of every name part once, and one space between each two. */
  lemma FullNameUsesEveryPart(p: Person)
    ensures multiset(FullName(p)) == multiset(p.lastName) + multiset(p.firstName) + multiset(p.middleName)
      + (if p.middleName != "" then multiset{' ', ' '} else multiset{' '})
  {
  }

  /**
   * Splitting the full name at spaces gives back the name parts, in an order
   * that depends on whether there is a middle name.
   */
  lemma {:induction false} FullNameSplitsIntoParts(p: Person)
    requires ' ' !in p.lastName && ' ' !in p.firstName && ' ' !in p.middleName
    ensures Split(FullName(p), ' ') ==
      if p.middleName != "" then [p.lastName, p.firstName, p.middleName] else [p.firstName, p.lastName]
  {
    if p.middleName != "" {
      var tail := p.firstName + [' '] + p.middleName;
      SplitNoSeparator(p.middleName, ' ');
      SplitAtSeparator(p.firstName, ' ', p.middleName);
      assert Split(tail, ' ') == [p.firstName, p.middleName];
      SplitAtSeparator(p.lastName, ' ', tail);
      assert FullName(p) == p.lastName + [' '] + tail;
    } else {
      SplitNoSeparator(p.lastName, ' ');
      SplitAtSeparator(p.firstName, ' ', p.lastName);
      assert FullName(p) == p.firstName + [' '] + p.lastName;
    }
  }

  const NotSpecified: string := "Не указан"
  const StudentLabel: string := "Студент"
  const MasterLabel: string := "Магистр"

  const StudentKeywords: seq<string> :=
    ["студент", "student", "бакалавр", "bachelor", "1 курс", "2 курс", "3 курс", "4 курс"]
  const MasterKeywords: seq<string> :=
    ["магистр", "master", "магистрант", "5 курс", "6 курс"]

  /** Some keyword of the list occurs in `text`, trying them in order. */
  predicate MentionsAny(text: string, keywords: seq<string>) {
    keywords != [] && (Contains(text, keywords[0]) || MentionsAny(text, keywords[1..]))
  }

  lemma {:induction false} MentionsAnyIff(text: string, keywords: seq<string>)
    ensures MentionsAny(text, keywords) <==> exists i :: 0 <= i < |keywords| && Contains(text, keywords[i])
  {
    if keywords != [] {
      MentionsAnyIff(text, keywords[1..]);
      assert forall i :: 0 < i < |keywords| ==> keywords[1..][i - 1] == keywords[i];
      if exists i :: 0 <= i < |keywords| && Contains(text, keywords[i]) {
        var i :| 0 <= i < |keywords| && Contains(text, keywords[i]);
        if i > 0 {
          assert Contains(text, keywords[1..][i - 1]);
        }
      }
    }
  }

  /** The status an affiliation text is classified as. */
  function StudentStatus(p: Person): string {
    if p.affiliation == "" then NotSpecified
    else if MentionsAny(Lower(p.affiliation), StudentKeywords) then StudentLabel
    else if MentionsAny(Lower(p.affiliation), MasterKeywords) then MasterLabel
    else p.affiliation
  }

  /**
   * `_determine_student_status`: no affiliation gives "Не указан"; otherwise
   * the student keywords are tried first and the master keywords second, in
   * the lower-cased affiliation, and the first hit decides; with no hit the
   * affiliation itself is the status.
   */
  method DetermineStudentStatus(p: Person) returns (status: string)
    ensures status == StudentStatus(p)
  {
    if p.affiliation == "" {
      return NotSpecified;
    }
    var affiliationLower := Lower(p.affiliation);
    for i := 0 to |StudentKeywords|
      invariant forall j :: 0 <= j < i ==> !Contains(affiliationLower, StudentKeywords[j])
    {
      if Contains(affiliationLower, StudentKeywords[i]) {
        MentionsAnyIff(affiliationLower, StudentKeywords);
        return StudentLabel;
      }
    }
    MentionsAnyIff(affiliationLower, StudentKeywords);
    for i := 0 to |MasterKeywords|
      invariant forall j :: 0 <= j < i ==> !Contains(affiliationLower, MasterKeywords[j])
    {
      if Contains(affiliationLower, MasterKeywords[i]) {
        MentionsAnyIff(affiliationLower, MasterKeywords);
        return MasterLabel;
      }
    }
    MentionsAnyIff(affiliationLower, MasterKeywords);
    return p.affiliation;
  }

  /** Some student keyword occurs in the lower-cased affiliation. */
  predicate StudentKeywordIn(affiliation: string) {
    exists i :: 0 <= i < |StudentKeywords| && Contains(Lower(affiliation), StudentKeywords[i])
  }

  /** Some master keyword occurs in the lower-cased affiliation. */
  predicate MasterKeywordIn(affiliation: string) {
    exists i :: 0 <= i < |MasterKeywords| && Contains(Lower(affiliation), MasterKeywords[i])
  }

  /**
   * The classification, case by case: no affiliation, some student keyword,
   * no student keyword but some master keyword, no keyword at all.
   */
  lemma StudentStatusOutcomes(p: Person)
    ensures p.affiliation == "" ==> StudentStatus(p) == NotSpecified
    ensures (p.affiliation != "" && StudentKeywordIn(p.affiliation)) ==> StudentStatus(p) == StudentLabel
    ensures (p.affiliation != "" && !StudentKeywordIn(p.affiliation) && MasterKeywordIn(p.affiliation)) ==>
      StudentStatus(p) == MasterLabel
    ensures (p.affiliation != "" && !StudentKeywordIn(p.affiliation) && !MasterKeywordIn(p.affiliation)) ==>
      StudentStatus(p) == p.affiliation
  {
    MentionsAnyIff(Lower(p.affiliation), StudentKeywords);
    MentionsAnyIff(Lower(p.affiliation), MasterKeywords);
  }

  /** A student keyword wins even when a master keyword is also present. */
  lemma MasterStudentIsStudent()
    ensures StudentStatus(Person("Petrov", "Anna", "", "Master student")) == StudentLabel
  {
    var low := Lower("Master student");
    assert low == "master student";
    assert OccursAt(low, StudentKeywords[1], 7);
  }

  /** The affiliation is returned as written, not lower-cased, when nothing matches. */
  lemma UnmatchedAffiliationKeptAsWritten()
    ensures StudentStatus(Person("Petrov", "Anna", "", "MIPT")) == "MIPT"
  {
    var low := Lower("MIPT");
    assert low == "mipt";
    forall i | 0 <= i < |StudentKeywords| ensures !Contains(low, StudentKeywords[i]) {
    }
    forall i | 0 <= i < |MasterKeywords| ensures !Contains(low, MasterKeywords[i]) {
    }
    MentionsAnyIff(low, StudentKeywords);
    MentionsAnyIff(low, MasterKeywords);
  }

  lemma SpeakerNameExamples()
    ensures SpeakerName(Person("Petrov", "Anna", "", "")) == "Petrov A.n"
    ensures SpeakerName(Person("Petrov", "A", "", "")) == "Petrov A"
  {
  }
}
