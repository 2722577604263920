/**
 * What the three extractors return on texts of a given shape, and on the
 * texts of the site's own teaching and education records.
 *
 * The site's texts are stated as the part the pattern reads followed by
 * any rest, and fixed texts as concatenations (`"Not " + "Available"`):
 * the verifier evaluates an extractor applied to a whole string literal
 * character by character, which is far more costly than reasoning about
 * the text's shape.
 */
module ExtractorFacts {
  import opened Wrappers
  import opened TextScan
  import opened Extractors

  // ----- Texts that begin with the number -----

  /** A text that begins with a numeral, optional spaces, `/`, optional spaces, `5` is rated that numeral. */
  lemma RatingAtStart(s: string, e: nat, m: nat, q: nat)
    requires Numeral(s, 0, e) && e <= m < q < |s|
    requires AllSpaces(s, e, m) && s[m] == '/' && AllSpaces(s, m + 1, q) && s[q] == '5'
    ensures ExtractRating(Some(s)) == Some(DecimalValue(s, 0, e))
  {
    assert FiveFrom(s, m + 1);
    assert SlashFiveFrom(s, e);
    NumberAtStart(Rating, s, e);
  }

  /** A text that begins with a numeral, optional spaces and `hr` in any case counts that many hours. */
  lemma HoursAtStart(s: string, e: nat, m: nat)
    requires Numeral(s, 0, e) && e <= m && m + 1 < |s|
    requires AllSpaces(s, e, m) && IsH(s[m]) && IsR(s[m + 1])
    ensures ExtractHours(Some(s)) == Some(DecimalValue(s, 0, e))
  {
    assert HrFrom(s, e);
    NumberAtStart(Hours, s, e);
  }

  // ----- Texts without a number -----

  /** Without both a `/` and a `5` there is no rating. */
  lemma NoRatingWithoutSlashAndFive(s: string)
    requires '/' !in s || '5' !in s
    ensures ExtractRating(Some(s)) == None
  {
    forall i: nat, e: nat
      ensures !Matches(Rating, s, i, e)
    {
      if Matches(Rating, s, i, e) {
        RatingNeedsSlashAndFive(s, i, e);
      }
    }
  }

  /** A text without digits yields no rating, no hours and no year. */
  lemma NothingWithoutDigits(s: string)
    requires forall k | 0 <= k < |s| :: !IsDigit(s[k])
    ensures ExtractRating(Some(s)) == None
    ensures ExtractHours(Some(s)) == None
    ensures ExtractYear(s) == None
  {
    forall p: Pattern, i: nat, e: nat
      ensures !Matches(p, s, i, e)
    {
      if Matches(p, s, i, e) {
        MatchStartsWithDigit(p, s, i, e);
      }
    }
  }

  /** In `d./5`, the numeral at `d` is `d` alone (the dot has no digit after it), and `.` is not `/`. */
  lemma NoRatingMatchAtLeadingDigit(d: char, e: nat)
    requires IsDigit(d)
    ensures !Matches(Rating, [d, '.', '/', '5'], 0, e)
  {
    var s := [d, '.', '/', '5'];
    if Matches(Rating, s, 0, e) {
      RatingScanFinds(s, 0, e);
      DigitsEndExact(s, 0, 1);
    }
  }

  /** In `d./5`, the `5` is a numeral with nothing after it. */
  lemma NoRatingMatchAtFinalDigit(d: char, e: nat)
    requires IsDigit(d)
    ensures !Matches(Rating, [d, '.', '/', '5'], 3, e)
  {
    var s := [d, '.', '/', '5'];
    if Matches(Rating, s, 3, e) {
      RatingScanFinds(s, 3, e);
    }
  }

  /** A dot must be followed by a digit: `d./5` holds no rating. */
  lemma NoRatingMatchForTrailingDot(d: char)
    requires IsDigit(d)
    ensures forall i: nat, e: nat :: !Matches(Rating, [d, '.', '/', '5'], i, e)
  {
    var s := [d, '.', '/', '5'];
    NoMatchAtEnd(Rating, s);
    forall i: nat, e: nat | i < 4
      ensures !Matches(Rating, s, i, e)
    {
      if i == 0 {
        NoRatingMatchAtLeadingDigit(d, e);
      } else if i == 3 {
        NoRatingMatchAtFinalDigit(d, e);
      } else if Matches(Rating, s, i, e) {
        MatchStartsWithDigit(Rating, s, i, e);
      }
    }
  }

  lemma NoRatingForTrailingDot(d: char)
    requires IsDigit(d)
    ensures ExtractRating(Some([d, '.', '/', '5'])) == None
  {
    NoRatingMatchForTrailingDot(d);
  }

  // ----- Years -----

  /** A text whose first `20dd` starts at `k` has that year. */
  lemma YearAt(s: string, k: nat)
    requires k + 4 <= |s| && AllDigits(s, k, k + 4) && s[k] == '2' && s[k + 1] == '0'
    requires forall i: nat, e: nat | i < k :: !Matches(Year, s, i, e)
    ensures ExtractYear(s) == Some(2000 + 10 * DigitValue(s[k + 2]) + DigitValue(s[k + 3]))
  {
    assert Matches(Year, s, k, k + 4);
    FirstMatchIsFound(Year, s, k, k + 4);
    YearValue(s, k);
  }

  /**
   * A text made of a part without `0`, a four-digit `20dd` and any rest has
   * that year: no earlier position can start `20`, and the rest is never read.
   */
  lemma YearAfterText(a: string, y: string, b: string)
    requires '0' !in a
    requires |y| == 4 && y[0] == '2' && y[1] == '0' && IsDigit(y[2]) && IsDigit(y[3])
    ensures ExtractYear(a + y + b) == Some(2000 + 10 * DigitValue(y[2]) + DigitValue(y[3]))
  {
    var s := a + y + b;
    var k := |a|;
    assert forall j | 0 <= j < 4 :: s[k + j] == y[j];
    assert forall j | 0 <= j < k :: s[j] == a[j];
    assert forall i: nat, e: nat | i < k :: !Matches(Year, s, i, e) by {
      forall i: nat, e: nat | i < k ensures !Matches(Year, s, i, e) {
        assert s[i + 1] != '0' by {
          if i + 1 < k { assert a[i + 1] != '0'; } else { assert s[i + 1] == y[0]; }
        }
      }
    }
    YearAt(s, k);
  }

  // ----- The site's own texts -----
  // Each example is stated for the text's leading part followed by any
  // rest, which covers the text itself and keeps the proof to that part.

  /** "4.77/5 (46 students)" is rated 4.77. */
  lemma RatingWithStudentCount(rest: string)
    ensures ExtractRating(Some("4.77/5" + rest)) == Some(4.77)
  {
    var s := "4.77/5" + rest;
    ValueOfDigitDotTwoDigits(s, 0);
    assert DecimalValue(s, 0, 4) == 4.77;
    RatingAtStart(s, 4, 4, 5);
  }

  /** "4.90/5 (82 students)" is rated 4.9: a trailing zero does not change the value. */
  lemma RatingWithTrailingZero(rest: string)
    ensures ExtractRating(Some("4.90/5" + rest)) == Some(4.9)
  {
    var s := "4.90/5" + rest;
    ValueOfDigitDotTwoDigits(s, 0);
    assert DecimalValue(s, 0, 4) == 4.9;
    RatingAtStart(s, 4, 4, 5);
  }

  /** The pattern does not require the `5` to end a number: `4/50` reads as 4. */
  lemma RatingOutOfFifty(rest: string)
    ensures ExtractRating(Some("4/5" + rest)) == Some(4.0)
  {
    var s := "4/5" + rest;
    ValueOfDigit(s, 0);
    assert DecimalValue(s, 0, 1) == 4.0;
    RatingAtStart(s, 1, 1, 2);
  }

  /** A missing or empty text has no rating. */
  lemma NoRatingWithoutText()
    ensures ExtractRating(None) == None
    ensures ExtractRating(Some("")) == None
  {
  }

  lemma NoRatingNotAvailable()
    ensures ExtractRating(Some("Not " + "Available")) == None
  {
    NoRatingWithoutSlashAndFive("Not " + "Available");
  }

  /** A grade on a scale other than 5 is not a rating. */
  lemma NoRatingForGrade()
    ensures ExtractRating(Some("CGPA: " + "3.61/4")) == None
  {
    NoRatingWithoutSlashAndFive("CGPA: " + "3.61/4");
  }

  /** The `5` of "2025" does not make a rating when no `/` precedes it. */
  lemma NoRatingForScheduledCourse()
    ensures ExtractRating(Some("Course scheduled " + "in Term 2 AY2025–26")) == None
  {
    NoRatingWithoutSlashAndFive("Course scheduled " + "in Term 2 AY2025–26");
  }

  lemma NoRatingForDotWithoutFraction()
    ensures ExtractRating(Some("4./5")) == None
  {
    NoRatingForTrailingDot('4');
  }

  /** "7.5 hrs (5 sessions)" counts 7.5 hours. */
  lemma HoursWithSessions(rest: string)
    ensures ExtractHours(Some("7.5 hr" + rest)) == Some(7.5)
  {
    var s := "7.5 hr" + rest;
    ValueOfDigitDotDigit(s, 0);
    assert DecimalValue(s, 0, 3) == 7.5;
    HoursAtStart(s, 3, 4);
  }

  /** "1.25 hrs (1 session)" counts 1.25 hours. */
  lemma HoursWithTwoDecimals(rest: string)
    ensures ExtractHours(Some("1.25 hr" + rest)) == Some(1.25)
  {
    var s := "1.25 hr" + rest;
    ValueOfDigitDotTwoDigits(s, 0);
    assert DecimalValue(s, 0, 4) == 1.25;
    HoursAtStart(s, 4, 5);
  }

  /** `hr` is matched in any case and needs no space before it: "3HR" counts 3 hours. */
  lemma HoursUpperCase(rest: string)
    ensures ExtractHours(Some("3HR" + rest)) == Some(3.0)
  {
    var s := "3HR" + rest;
    ValueOfDigit(s, 0);
    assert DecimalValue(s, 0, 1) == 3.0;
    HoursAtStart(s, 1, 1);
  }

  /** "9 hrs (6 sessions)" counts 9 hours. */
  lemma HoursWhole(rest: string)
    ensures ExtractHours(Some("9 hr" + rest)) == Some(9.0)
  {
    var s := "9 hr" + rest;
    ValueOfDigit(s, 0);
    assert DecimalValue(s, 0, 1) == 9.0;
    HoursAtStart(s, 1, 2);
  }

  /** "3 hrs (2 sessions)" counts 3 hours. */
  lemma HoursThree(rest: string)
    ensures ExtractHours(Some("3 hr" + rest)) == Some(3.0)
  {
    var s := "3 hr" + rest;
    ValueOfDigit(s, 0);
    assert DecimalValue(s, 0, 1) == 3.0;
    HoursAtStart(s, 1, 2);
  }

  /** "1.5 hrs (1 session)" counts 1.5 hours. */
  lemma HoursOneAndAHalf(rest: string)
    ensures ExtractHours(Some("1.5 hr" + rest)) == Some(1.5)
  {
    var s := "1.5 hr" + rest;
    ValueOfDigitDotDigit(s, 0);
    assert DecimalValue(s, 0, 3) == 1.5;
    HoursAtStart(s, 3, 4);
  }

  /** "4.5 hrs (3 sessions)" counts 4.5 hours. */
  lemma HoursFourAndAHalf(rest: string)
    ensures ExtractHours(Some("4.5 hr" + rest)) == Some(4.5)
  {
    var s := "4.5 hr" + rest;
    ValueOfDigitDotDigit(s, 0);
    assert DecimalValue(s, 0, 3) == 4.5;
    HoursAtStart(s, 3, 4);
  }

  /** "10.5 hrs (7 sessions)" counts 10.5 hours: the integer part may have several digits. */
  lemma HoursTwoDigitWhole(rest: string)
    ensures ExtractHours(Some("10.5 hr" + rest)) == Some(10.5)
  {
    var s := "10.5 hr" + rest;
    ValueOfTwoDigitsDotDigit(s, 0);
    assert DecimalValue(s, 0, 4) == 10.5;
    HoursAtStart(s, 4, 5);
  }

  /** "No tutorials" counts no hours: neither part of the text has a digit. */
  lemma NoHoursWithoutNumber(rest: string)
    requires forall k | 0 <= k < |rest| :: !IsDigit(rest[k])
    ensures ExtractHours(Some("No " + rest)) == None
  {
    var s := "No " + rest;
    assert forall k | 3 <= k < |s| :: s[k] == rest[k - 3];
    NothingWithoutDigits(s);
  }

  /** Digits before the year do not hide it when they do not start `20dd`: "100 2025" has year 2025. */
  lemma YearAfterOtherNumber(rest: string)
    ensures ExtractYear("100 " + "2025" + rest) == Some(2025)
  {
    var s := "100 " + "2025" + rest;
    assert s[..8] == "100 " + "2025";
    assert forall i: nat, e: nat | i < 4 :: !Matches(Year, s, i, e);
    YearAt(s, 4);
  }

  /** The year of "32nd EurOMA 2025 (Italy) — Doctoral Seminar & Main Conference". */
  lemma YearOfConference(rest: string)
    ensures ExtractYear("32nd EurOMA " + "2025" + rest) == Some(2025)
  {
    YearAfterText("32nd EurOMA ", "2025", rest);
  }
}
