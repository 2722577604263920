/**
 * `extractRating`, `extractHours` and `extractYear` of src/App.tsx: each is
 * one leftmost, non-global `String.prototype.match` of a fixed pattern with
 * one capture group. The patterns are written out as ghost predicates
 * (`Matches`, the language of the pattern at a start position), the
 * scanner (`MatchAt`, `Leftmost`) is proved to find exactly the leftmost
 * match, and the extractors read the captured text as a number.
 */
module Extractors {
  import opened Wrappers
  import opened TextScan

  /** The three patterns:
   *  Rating  `([0-9]+(?:\.[0-9]+)?)\s*\/\s*5`
   *  Hours   `([0-9]+(?:\.[0-9]+)?)\s*hr\w*` with the `i` flag
   *  Year    `(20[0-9]{2})`
   */
  datatype Pattern = Rating | Hours | Year

  /** Positions of capture group 1 in the subject string. */
  datatype Capture = Capture(start: nat, end: nat)

  /** `\s*\/\s*5` matches a prefix of `s[e..]`. */
  ghost predicate SlashFiveFrom(s: string, e: nat) {
    exists m :: e <= m < |s| && AllSpaces(s, e, m) && s[m] == '/' && FiveFrom(s, m + 1)
  }

  /** `\s*5` matches a prefix of `s[a..]`. */
  ghost predicate FiveFrom(s: string, a: nat) {
    exists p :: a <= p < |s| && AllSpaces(s, a, p) && s[p] == '5'
  }

  /** `h` and `r` under the `i` flag (no other code point folds to them). */
  predicate IsH(c: char) { c == 'h' || c == 'H' }
  predicate IsR(c: char) { c == 'r' || c == 'R' }

  /** `\s*hr\w*` matches a prefix of `s[e..]`; `\w*` may match nothing, so it never constrains the match. */
  ghost predicate HrFrom(s: string, e: nat) {
    exists m :: e <= m && m + 1 < |s| && AllSpaces(s, e, m) && IsH(s[m]) && IsR(s[m + 1])
  }

  /** Pattern `p` matches at start `i` with capture group 1 = `s[i..e]`. */
  ghost predicate Matches(p: Pattern, s: string, i: nat, e: nat) {
    match p
    case Rating => e <= |s| && Numeral(s, i, e) && SlashFiveFrom(s, e)
    case Hours => e <= |s| && Numeral(s, i, e) && HrFrom(s, e)
    case Year =>
      e == i + 4 && AllDigits(s, i, e) && s[i] == '2' && s[i + 1] == '0'
  }

  /** The match `(i, e)` is the one `match` reports: no match starts earlier. */
  ghost predicate LeftmostMatch(p: Pattern, s: string, i: nat, e: nat) {
    Matches(p, s, i, e) && forall i': nat, e': nat | i' < i :: !Matches(p, s, i', e')
  }

  /**
   * Tries pattern `p` at start `i` only, greedily, and returns the end of
   * capture group 1. It answers for every possible capture: the pattern
   * matches at `i` capturing `s[i..e]` exactly when the result is `Some(e)`.
   */
  function MatchAt(p: Pattern, s: string, i: nat): (r: Option<nat>)
    requires i < |s|
    ensures forall e: nat :: Matches(p, s, i, e) <==> r == Some(e)
  {
    match p
    case Rating =>
      if !IsDigit(s[i]) then None
      else
        var e := NumeralEnd(s, i);
        var m := SpacesEnd(s, e);
        if m < |s| && s[m] == '/' then
          var q := SpacesEnd(s, m + 1);
          if q < |s| && s[q] == '5' then
            RatingSound(s, i, e, m, q);
            Some(e)
          else
            RatingMisses(s, i);
            None
        else
          RatingMisses(s, i);
          None
    case Hours =>
      if !IsDigit(s[i]) then None
      else
        var e := NumeralEnd(s, i);
        var m := SpacesEnd(s, e);
        if m + 1 < |s| && IsH(s[m]) && IsR(s[m + 1]) then
          HoursSound(s, i, e, m);
          Some(e)
        else
          HoursMisses(s, i);
          None
    case Year =>
      if i + 4 <= |s| && s[i] == '2' && s[i + 1] == '0' && IsDigit(s[i + 2]) && IsDigit(s[i + 3]) then
        Some(i + 4)
      else
        None
  }

  /** The greedy rating scan gives a match, and no other capture matches at `i`. */
  lemma RatingSound(s: string, i: nat, e: nat, m: nat, q: nat)
    requires i < |s| && IsDigit(s[i]) && e == NumeralEnd(s, i)
    requires m == SpacesEnd(s, e) && m < |s| && s[m] == '/'
    requires q == SpacesEnd(s, m + 1) && q < |s| && s[q] == '5'
    ensures forall e': nat :: Matches(Rating, s, i, e') <==> e' == e
  {
    assert FiveFrom(s, m + 1);
    assert SlashFiveFrom(s, e);
    forall e': nat | Matches(Rating, s, i, e') ensures e' == e {
      TailForcesGreedy(s, i, e');
    }
  }

  /** When the greedy rating scan fails, the pattern does not match at `i` at all. */
  lemma RatingMisses(s: string, i: nat)
    requires i < |s| && IsDigit(s[i])
    requires var m := SpacesEnd(s, NumeralEnd(s, i));
      !(m < |s| && s[m] == '/' && SpacesEnd(s, m + 1) < |s| && s[SpacesEnd(s, m + 1)] == '5')
    ensures forall e': nat :: !Matches(Rating, s, i, e')
  {
    forall e': nat | Matches(Rating, s, i, e') ensures false {
      RatingScanFinds(s, i, e');
    }
  }

  /** Any rating match at `i` is one the greedy scan finds. */
  lemma RatingScanFinds(s: string, i: nat, e: nat)
    requires Matches(Rating, s, i, e)
    ensures i < |s| && IsDigit(s[i]) && NumeralEnd(s, i) == e
    ensures var m := SpacesEnd(s, e);
      m < |s| && s[m] == '/' && SpacesEnd(s, m + 1) < |s| && s[SpacesEnd(s, m + 1)] == '5'
  {
    RatingTailIsGreedy(s, i, e);
    SlashFiveIsGreedy(s, e);
  }

  /** The greedy `\s*` scans find the `/` and the `5` of any `\s*\/\s*5` match. */
  lemma SlashFiveIsGreedy(s: string, e: nat)
    requires SlashFiveFrom(s, e)
    ensures var m := SpacesEnd(s, e);
      m < |s| && s[m] == '/' && SpacesEnd(s, m + 1) < |s| && s[SpacesEnd(s, m + 1)] == '5'
  {
    var m :| e <= m < |s| && AllSpaces(s, e, m) && s[m] == '/' && FiveFrom(s, m + 1);
    SpacesEndExact(s, e, m);
    var q :| m + 1 <= q < |s| && AllSpaces(s, m + 1, q) && s[q] == '5';
    SpacesEndExact(s, m + 1, q);
  }

  /** The greedy hours scan gives a match, and no other capture matches at `i`. */
  lemma HoursSound(s: string, i: nat, e: nat, m: nat)
    requires i < |s| && IsDigit(s[i]) && e == NumeralEnd(s, i)
    requires m == SpacesEnd(s, e) && m + 1 < |s| && IsH(s[m]) && IsR(s[m + 1])
    ensures forall e': nat :: Matches(Hours, s, i, e') <==> e' == e
  {
    assert HrFrom(s, e);
    forall e': nat | Matches(Hours, s, i, e') ensures e' == e {
      TailForcesGreedy(s, i, e');
    }
  }

  /** When the greedy hours scan fails, the pattern does not match at `i` at all. */
  lemma HoursMisses(s: string, i: nat)
    requires i < |s| && IsDigit(s[i])
    requires var m := SpacesEnd(s, NumeralEnd(s, i)); !(m + 1 < |s| && IsH(s[m]) && IsR(s[m + 1]))
    ensures forall e': nat :: !Matches(Hours, s, i, e')
  {
    forall e': nat | Matches(Hours, s, i, e') ensures false {
      HoursScanFinds(s, i, e');
    }
  }

  /** Any hours match at `i` is one the greedy scan finds. */
  lemma HoursScanFinds(s: string, i: nat, e: nat)
    requires Matches(Hours, s, i, e)
    ensures i < |s| && IsDigit(s[i]) && NumeralEnd(s, i) == e
    ensures var m := SpacesEnd(s, e); m + 1 < |s| && IsH(s[m]) && IsR(s[m + 1])
  {
    HoursTailIsGreedy(s, i, e);
    HrIsGreedy(s, e);
  }

  /** The greedy `\s*` scan finds the `hr` of any `\s*hr` match. */
  lemma HrIsGreedy(s: string, e: nat)
    requires HrFrom(s, e)
    ensures var m := SpacesEnd(s, e); m + 1 < |s| && IsH(s[m]) && IsR(s[m + 1])
  {
    var m :| e <= m && m + 1 < |s| && AllSpaces(s, e, m) && IsH(s[m]) && IsR(s[m + 1]);
    SpacesEndExact(s, e, m);
  }

  /**
   * What follows the numeral in both patterns starts with white space, `/`
   * or `h`/`H`, none of which can continue a numeral, so the numeral of any
   * match is the greedy one.
   */
  lemma TailForcesGreedy(s: string, i: nat, e: nat)
    requires Matches(Rating, s, i, e) || Matches(Hours, s, i, e)
    ensures i < |s| && IsDigit(s[i]) && NumeralEnd(s, i) == e
  {
    if Matches(Rating, s, i, e) {
      RatingTailIsGreedy(s, i, e);
    } else {
      HoursTailIsGreedy(s, i, e);
    }
  }

  lemma RatingTailIsGreedy(s: string, i: nat, e: nat)
    requires Matches(Rating, s, i, e)
    ensures i < |s| && IsDigit(s[i]) && NumeralEnd(s, i) == e
  {
    var m :| e <= m < |s| && AllSpaces(s, e, m) && s[m] == '/' && FiveFrom(s, m + 1);
    StopsNumeral(s, i, e, m);
  }

  lemma HoursTailIsGreedy(s: string, i: nat, e: nat)
    requires Matches(Hours, s, i, e)
    ensures i < |s| && IsDigit(s[i]) && NumeralEnd(s, i) == e
  {
    var m :| e <= m && m + 1 < |s| && AllSpaces(s, e, m) && IsH(s[m]) && IsR(s[m + 1]);
    StopsNumeral(s, i, e, m);
  }

  /** A numeral followed by spaces and then `/` or `h`/`H` is the greedy numeral. */
  lemma StopsNumeral(s: string, i: nat, e: nat, m: nat)
    requires Numeral(s, i, e)
    requires AllSpaces(s, e, m) && m < |s| && (s[m] == '/' || IsH(s[m]))
    ensures i < |s| && IsDigit(s[i]) && NumeralEnd(s, i) == e
  {
    if e < m {
      assert IsSpace(s[e]);
    }
    NumeralIsGreedy(s, i, e);
  }

  /**
   * The leftmost match starting at or after `from`: the scan of
   * `RegExpBuiltinExec`, which tries the pattern at each position in turn.
   */
  function Leftmost(p: Pattern, s: string, from: nat): (r: Option<Capture>)
    requires from <= |s|
    ensures r.Some? ==> from <= r.value.start && Matches(p, s, r.value.start, r.value.end)
    ensures r.Some? ==> forall i: nat, e: nat | from <= i < r.value.start :: !Matches(p, s, i, e)
    ensures r.None? ==> forall i: nat, e: nat | from <= i :: !Matches(p, s, i, e)
    decreases |s| - from
  {
    if from == |s| then
      NoMatchAtEnd(p, s);
      None
    else
      match MatchAt(p, s, from)
      case Some(e) => Some(Capture(from, e))
      case None => Leftmost(p, s, from + 1)
  }

  /** Every match of every pattern is non-empty, so none starts at or after the end. */
  lemma NoMatchAtEnd(p: Pattern, s: string)
    ensures forall i: nat, e: nat | |s| <= i :: !Matches(p, s, i, e)
  {
  }

  /** The leftmost match of the whole string. */
  function Find(p: Pattern, s: string): (r: Option<Capture>)
    ensures r.Some? ==> LeftmostMatch(p, s, r.value.start, r.value.end)
    ensures r.None? <==> forall i: nat, e: nat :: !Matches(p, s, i, e)
  {
    Leftmost(p, s, 0)
  }

  /** There is only one leftmost match: position and capture are both determined. */
  lemma LeftmostMatchUnique(p: Pattern, s: string, i: nat, e: nat, i': nat, e': nat)
    requires LeftmostMatch(p, s, i, e) && LeftmostMatch(p, s, i', e')
    ensures i == i' && e == e'
  {
    assert !(i < i') && !(i' < i);
    assert i < |s| by {
      NoMatchAtEnd(p, s);
    }
    assert MatchAt(p, s, i) == Some(e) == Some(e');
  }

  /** A match that no earlier match precedes is the one `match` reports. */
  lemma FirstMatchIsFound(p: Pattern, s: string, i: nat, e: nat)
    requires LeftmostMatch(p, s, i, e)
    ensures Find(p, s) == Some(Capture(i, e))
  {
    var c := Find(p, s).value;
    LeftmostMatchUnique(p, s, i, e, c.start, c.end);
  }

  /** Every match of every pattern starts with a digit. */
  lemma MatchStartsWithDigit(p: Pattern, s: string, i: nat, e: nat)
    requires Matches(p, s, i, e)
    ensures i < |s| && IsDigit(s[i])
  {
    if p != Year {
      TailForcesGreedy(s, i, e);
    }
  }

  /** A rating match needs a `/` and a `5` somewhere in the text. */
  lemma RatingNeedsSlashAndFive(s: string, i: nat, e: nat)
    requires Matches(Rating, s, i, e)
    ensures '/' in s && '5' in s
  {
    var m :| e <= m < |s| && AllSpaces(s, e, m) && s[m] == '/' && FiveFrom(s, m + 1);
    var q :| m + 1 <= q < |s| && AllSpaces(s, m + 1, q) && s[q] == '5';
  }

  /**
   * `extractRating`: `null` (None) for a missing or empty text, otherwise
   * the value of the numeral of the leftmost `<number> \s* / \s* 5`.
   */
  function ExtractRating(text: Option<string>): (r: Option<real>)
    ensures r.None? <==> text.None? || forall i: nat, e: nat :: !Matches(Rating, text.value, i, e)
    ensures r.Some? ==> exists i: nat, e: nat :: LeftmostMatch(Rating, text.value, i, e) && r.value == DecimalValue(text.value, i, e)
  {
    ExtractNumber(Rating, text)
  }

  /**
   * `extractHours`: `null` (None) for a missing or empty text, otherwise
   * the value of the numeral of the leftmost `<number> \s* hr`, any case.
   */
  function ExtractHours(text: Option<string>): (r: Option<real>)
    ensures r.None? <==> text.None? || forall i: nat, e: nat :: !Matches(Hours, text.value, i, e)
    ensures r.Some? ==> exists i: nat, e: nat :: LeftmostMatch(Hours, text.value, i, e) && r.value == DecimalValue(text.value, i, e)
    ensures r.Some? ==> 0.0 <= r.value
  {
    ExtractNumber(Hours, text)
  }

  /** The shared body of the two numeric extractors: the `!text` guard, the match and `parseFloat`. */
  function ExtractNumber(p: Pattern, text: Option<string>): (r: Option<real>)
    requires p != Year
    ensures r.None? <==> text.None? || forall i: nat, e: nat :: !Matches(p, text.value, i, e)
    ensures r.Some? ==> exists i: nat, e: nat :: LeftmostMatch(p, text.value, i, e) && r.value == DecimalValue(text.value, i, e)
  {
    match text
    case None => None
    case Some(s) =>
      if s == "" then
        None
      else
        match Find(p, s)
        case None => None
        case Some(c) =>
          assert Numeral(s, c.start, c.end);
          Some(DecimalValue(s, c.start, c.end))
  }

  /** A number that matches at the very start of a text is the extracted one. */
  lemma NumberAtStart(p: Pattern, s: string, e: nat)
    requires p != Year && Matches(p, s, 0, e)
    ensures ExtractNumber(p, Some(s)) == Some(DecimalValue(s, 0, e))
  {
    FirstMatchIsFound(p, s, 0, e);
  }

  /** `extractYear`: the leftmost `20dd` read as a base-ten integer, so always in 2000..2099. */
  function ExtractYear(s: string): (r: Option<int>)
    ensures r.None? <==> forall i: nat, e: nat :: !Matches(Year, s, i, e)
    ensures r.Some? ==> exists i: nat, e: nat :: LeftmostMatch(Year, s, i, e) && r.value == DigitsValue(s, i, e)
    ensures r.Some? ==> 2000 <= r.value <= 2099
  {
    match Find(Year, s)
    case None => None
    case Some(c) =>
      var i := c.start;
      YearValue(s, i);
      Some(DigitsValue(s, i, i + 4))
  }

  /** Four digits starting with `20` spell 2000 plus the last two, a number in 2000..2099. */
  lemma YearValue(s: string, i: nat)
    requires AllDigits(s, i, i + 4) && s[i] == '2' && s[i + 1] == '0'
    ensures DigitsValue(s, i, i + 4) == 2000 + 10 * DigitValue(s[i + 2]) + DigitValue(s[i + 3])
    ensures 2000 <= DigitsValue(s, i, i + 4) <= 2099
  {
    assert DigitsValue(s, i, i + 2) == 20 by {
      assert DigitsValue(s, i, i + 1) == 2;
    }
    assert DigitsValue(s, i, i + 3) == 200 + DigitValue(s[i + 2]);
  }
}
