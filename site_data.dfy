/**
 * The site's own records as the page reads them, and what the two
 * computed highlights come to on them: the total teaching hours and the
 * five recent conferences.
 *
 * Every text is written as a concatenation of shorter literals
 * (`"7.5 hr" + "s (5 sessions)"`, the conference constants). The verifier
 * evaluates a function applied to a whole string literal character by
 * character, which makes the extractors' proofs on these texts far too
 * costly; split at the end of the part the pattern reads, the same proofs
 * only look at that part.
 */
module SiteData {
  import opened Wrappers
  import opened TextScan
  import opened Extractors
  import opened ExtractorFacts
  import opened TeachingHours
  import opened RecentConferences

  // ----- Teaching records -----

  /** The `hours` texts of `teachingInstructor`, in order. */
  const InstructorHours: seq<Option<string>> := [
    Some("7.5 hr" + "s (5 sessions)"),
    Some("9 hr" + "s (6 sessions)"),
    Some("1.5 hr" + "s (1 session)"),
    Some("1.25 hr" + "s (1 session)"),
    Some("10.5 hr" + "s (7 sessions)")
  ]

  /** The `hours` texts of `teachingTA`, in order. */
  const TaHours: seq<Option<string>> := [
    Some("3 hr" + "s (2 sessions)"),
    Some("4.5 hr" + "s (3 sessions)"),
    Some("No " + "tutorials"),
    Some("9 hr" + "s (6 sessions)")
  ]

  // ----- Conference names -----

  const Msom2025: string := "INFORMS MSOM " + "2025" + " (UK)"
  const EurOma2025: string := "32nd EurOMA " + "2025" + " (Italy) — Doctoral Seminar & Main Conference"
  const Poms2024: string := "34th POMS " + "2024" + " (USA)"
  const Forum2024: string := "11th EurOMA Sustainable Operations " + "& Supply Chains Forum " + "2024" + " (Germany)"
  const Forum2025: string := "12th EurOMA Sustainable Operations " + "& Supply Chains Forum " + "2025"
  const BehavioralOps2025: string := "18th Behavioral Operations " + "Conference " + "2025" + " (Germany)"

  /** The `conferences` of `papersUnderReview`: the second paper lists none. */
  const PaperConferences: seq<Option<seq<string>>> := [
    Some([Msom2025, EurOma2025, Poms2024, Forum2024]),
    None
  ]

  /** The `conferences` of `workInProgress`. */
  const WipConferences: seq<Option<seq<string>>> := [
    Some([Forum2025]),
    Some([BehavioralOps2025])
  ]

  // ----- Total teaching hours -----

  lemma SumByFour<T>(f: T -> real, a: T, b: T, c: T, d: T)
    ensures SumBy(f, [a, b, c, d]) == f(a) + f(b) + f(c) + f(d)
  {
    assert [a][..0] == [];
    assert SumBy(f, [a]) == f(a);
    assert [a, b][..1] == [a];
    assert SumBy(f, [a, b]) == f(a) + f(b);
    assert [a, b, c][..2] == [a, b];
    assert SumBy(f, [a, b, c]) == f(a) + f(b) + f(c);
    assert [a, b, c, d][..3] == [a, b, c];
  }

  lemma SumByFive<T>(f: T -> real, a: T, b: T, c: T, d: T, e: T)
    ensures SumBy(f, [a, b, c, d, e]) == f(a) + f(b) + f(c) + f(d) + f(e)
  {
    assert [a, b, c, d, e][..4] == [a, b, c, d];
    SumByFour(f, a, b, c, d);
  }

  lemma InstructorHoursTotal()
    ensures ListHours(InstructorHours) == 29.75
  {
    HoursWithSessions("s (5 sessions)");
    HoursWhole("s (6 sessions)");
    HoursOneAndAHalf("s (1 session)");
    HoursWithTwoDecimals("s (1 session)");
    HoursTwoDigitWhole("s (7 sessions)");
    SumByFive(HoursOrZero, Some("7.5 hr" + "s (5 sessions)"), Some("9 hr" + "s (6 sessions)"),
              Some("1.5 hr" + "s (1 session)"), Some("1.25 hr" + "s (1 session)"),
              Some("10.5 hr" + "s (7 sessions)"));
  }

  lemma NoTutorialsCountZero()
    ensures HoursOrZero(Some("No " + "tutorials")) == 0.0
  {
    NoHoursWithoutNumber("tutorials");
  }

  lemma TaHoursTotal()
    ensures ListHours(TaHours) == 16.5
  {
    HoursThree("s (2 sessions)");
    HoursFourAndAHalf("s (3 sessions)");
    NoTutorialsCountZero();
    HoursWhole("s (6 sessions)");
    SumByFour(HoursOrZero, Some("3 hr" + "s (2 sessions)"), Some("4.5 hr" + "s (3 sessions)"),
              Some("No " + "tutorials"), Some("9 hr" + "s (6 sessions)"));
  }

  /** The "Total teaching hours" highlight, before rounding for display: 46.25. */
  lemma ShippedTotalTeachingHours()
    ensures TotalTeachingHours(InstructorHours, TaHours) == 46.25
  {
    InstructorHoursTotal();
    TaHoursTotal();
    TotalIsSumOfLists(InstructorHours, TaHours);
  }

  // ----- Recent conferences -----

  /** A name no more recent than any name of an already sorted list is appended to it. */
  lemma SortKeepsAppended<T>(key: T -> Option<int>, xs: seq<T>, x: T)
    requires SortByYear(key, xs) == xs
    requires forall i | 0 <= i < |xs| :: !Precedes(key(x), key(xs[i]))
    ensures SortByYear(key, xs + [x]) == xs + [x]
  {
    SortAppend(key, xs, x);
    InsertAtEnd(key, x, xs);
  }

  /** Names of one year followed by names of an earlier year stay in input order. */
  lemma SortFour<T>(key: T -> Option<int>, a: T, b: T, c: T, d: T, newer: int, older: int)
    requires older < newer
    requires key(a) == Some(newer) && key(b) == Some(newer)
    requires key(c) == Some(older) && key(d) == Some(older)
    ensures SortByYear(key, [a, b, c, d]) == [a, b, c, d]
  {
    assert [a][..0] == [];
    InsertAtEnd(key, a, []);
    assert SortByYear(key, [a]) == [a];
    SortKeepsAppended(key, [a], b);
    assert [a] + [b] == [a, b];
    SortKeepsAppended(key, [a, b], c);
    assert [a, b] + [c] == [a, b, c];
    SortKeepsAppended(key, [a, b, c], d);
    assert [a, b, c] + [d] == [a, b, c, d];
  }

  /**
   * Six names whose years run new, new, old, old, new, new sort to the
   * four new ones in input order, then the two old ones.
   */
  lemma SortSix<T>(key: T -> Option<int>, a: T, b: T, c: T, d: T, e: T, f: T, newer: int, older: int)
    requires older < newer
    requires key(a) == Some(newer) && key(b) == Some(newer) && key(e) == Some(newer) && key(f) == Some(newer)
    requires key(c) == Some(older) && key(d) == Some(older)
    ensures SortByYear(key, [a, b, c, d, e, f]) == [a, b, e, f, c, d]
  {
    SortFour(key, a, b, c, d, newer, older);
    assert [a, b, c, d] + [e] == [a, b, c, d, e];
    SortAppend(key, [a, b, c, d], e);
    InsertBefore(key, e, [a, b], [c, d]);
    assert [a, b] + [c, d] == [a, b, c, d];
    assert SortByYear(key, [a, b, c, d, e]) == [a, b, e, c, d];
    assert [a, b, c, d, e] + [f] == [a, b, c, d, e, f];
    SortAppend(key, [a, b, c, d, e], f);
    InsertBefore(key, f, [a, b, e], [c, d]);
    assert [a, b, e] + [c, d] == [a, b, e, c, d];
  }

  lemma YearOfMsom2025()
    ensures ExtractYear(Msom2025) == Some(2025)
  {
    YearAfterText("INFORMS MSOM ", "2025", " (UK)");
  }

  lemma YearOfEurOma2025()
    ensures ExtractYear(EurOma2025) == Some(2025)
  {
    YearAfterText("32nd EurOMA ", "2025", " (Italy) — Doctoral Seminar & Main Conference");
  }

  lemma YearOfPoms2024()
    ensures ExtractYear(Poms2024) == Some(2024)
  {
    YearAfterText("34th POMS ", "2024", " (USA)");
  }

  lemma YearOfForum2024()
    ensures ExtractYear(Forum2024) == Some(2024)
  {
    YearAfterText("11th EurOMA Sustainable Operations " + "& Supply Chains Forum ", "2024", " (Germany)");
  }

  lemma YearOfForum2025()
    ensures ExtractYear(Forum2025) == Some(2025)
  {
    YearAfterText("12th EurOMA Sustainable Operations " + "& Supply Chains Forum ", "2025", "");
    assert Forum2025 == "12th EurOMA Sustainable Operations " + "& Supply Chains Forum " + "2025" + "";
  }

  lemma YearOfBehavioralOps2025()
    ensures ExtractYear(BehavioralOps2025) == Some(2025)
  {
    YearAfterText("18th Behavioral Operations " + "Conference ", "2025", " (Germany)");
  }

  lemma AllShippedConferences()
    ensures AllConferences(PaperConferences, WipConferences)
         == [Msom2025, EurOma2025, Poms2024, Forum2024, Forum2025, BehavioralOps2025]
  {
    FlatAppend([], PaperConferences[0]);
    assert [] + [PaperConferences[0]] == PaperConferences[..1];
    FlatAppend(PaperConferences[..1], PaperConferences[1]);
    assert PaperConferences[..1] + [PaperConferences[1]] == PaperConferences;
    FlatAppend([], WipConferences[0]);
    assert [] + [WipConferences[0]] == WipConferences[..1];
    FlatAppend(WipConferences[..1], WipConferences[1]);
    assert WipConferences[..1] + [WipConferences[1]] == WipConferences;
  }

  lemma ShippedNamesDistinct()
    ensures NoDups([Msom2025, EurOma2025, Poms2024, Forum2024, Forum2025, BehavioralOps2025])
  {
    assert |Msom2025| == 22 && |EurOma2025| == 61 && |Poms2024| == 20;
    assert |Forum2024| == 71 && |Forum2025| == 61 && |BehavioralOps2025| == 52;
    assert EurOma2025[0] == '3' && Forum2025[0] == '1';
  }

  /** The "Recent conferences" list the page shows. */
  lemma ShippedRecentConferences()
    ensures Recent(PaperConferences, WipConferences, DefaultLimit)
         == [Msom2025, EurOma2025, Forum2025, BehavioralOps2025, Poms2024]
  {
    var all := [Msom2025, EurOma2025, Poms2024, Forum2024, Forum2025, BehavioralOps2025];
    AllShippedConferences();
    ShippedNamesDistinct();
    DedupOfDistinct(all);
    YearOfMsom2025();
    YearOfEurOma2025();
    YearOfPoms2024();
    YearOfForum2024();
    YearOfForum2025();
    YearOfBehavioralOps2025();
    SortSix(ExtractYear, Msom2025, EurOma2025, Poms2024, Forum2024, Forum2025, BehavioralOps2025, 2025, 2024);
  }
}
