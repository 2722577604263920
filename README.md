# academic-site: the page's data helpers in Dafny

The academic site is a single-page React application (`src/App.tsx`) that
shows one researcher's profile from a built-in data object across nine
pages (summary, research, teaching, …). Apart from rendering, its logic is
a handful of small pure helpers:

- `extractRating` reads a course rating such as `4.77/5 (46 students)`
  as the number before `/5`;
- `extractHours` reads a teaching record's `7.5 hrs (5 sessions)` as the
  number before `hr`;
- `extractYear` reads the first `20dd` in a conference name;
- the "Total teaching hours" highlight adds up the hours of all
  instructor and teaching-assistant records;
- `recentConferences(limit)` lists the distinct conference names of the
  papers, latest year first;
- `fromHash` turns the URL fragment into one of the nine page ids, and the
  hash listener and write-back keep the current page and the fragment in
  step.

The model gives each helper as a Dafny function and proves what it does.

- Each regular expression is specified by a ghost predicate `Matches` that
  describes the pattern's language directly. A greedy scanner (`MatchAt`,
  `Leftmost`, `Find`) is proved to return exactly the leftmost match, and
  the capture at a given start is proved unique. So the regex engine's
  backtracking order never changes the result.
- `parseFloat` and `parseInt` are modelled as exact decimal values: a
  `real` for the numerals and an `int` for the years.
- `Array.prototype.sort` is stable, as ECMAScript 2019 and later require.
  It is modelled by a stable insertion sort that reads only the sign of
  the page's comparator.
- The site's own records appear in module `SiteData`. On them the model
  derives the total of 46.25 hours and the five conferences the page
  shows.

Files:

- `wrappers.dfy`: `Option`.
- `scan.dfy`: digits, white space, numerals and their values.
- `extractors.dfy`: the three patterns and extractors.
- `extractor_facts.dfy`: what the extractors return on given texts.
- `hours.dfy`: the hours total.
- `conferences.dfy`: `recentConferences`.
- `pages.dfy`: navigation.
- `site_data.dfy`: the site's records.

## Model

| member | source | states |
|---|---|---|
| Extractors.Matches | src/App.tsx:273-281 | the language of each pattern at a start: rating is a numeral, `\s*`, `/`, `\s*`, `5`; hours is a numeral, `\s*`, `h`, `r` (`\w*` adds nothing to whether it matches); year is `2`, `0` and two digits; capture group 1 is `s[i..e]` |
| Extractors.SlashFiveFrom | src/App.tsx:273 | `\s*\/\s*5` follows the capture |
| Extractors.FiveFrom | src/App.tsx:273 | `\s*5` follows the `/` |
| Extractors.HrFrom | src/App.tsx:278 | `\s*hr\w*` follows the capture, letters in either case |
| Extractors.IsH | src/App.tsx:278 | under the `i` flag without `u`, exactly `h` and `H` match `h` |
| Extractors.IsR | src/App.tsx:278 | under the `i` flag without `u`, exactly `r` and `R` match `r` |
| Extractors.MatchAt | src/App.tsx:273-281 | at a given start, the scanner returns `Some(e)` exactly when the pattern matches `s[i..e]`, and `None` when no match starts there |
| Extractors.Leftmost | src/App.tsx:273-281 | the search from `from` returns a match with no match starting between `from` and it, or `None` when no match starts at or after `from` |
| Extractors.Find | src/App.tsx:273-281 | `String.prototype.match`: the result is the leftmost match, and `None` holds exactly when the text contains no match |
| Extractors.LeftmostMatchUnique | src/App.tsx:273-281 | a text has at most one leftmost match (start and end), so a backtracking engine and the scanner capture the same text |
| Extractors.FirstMatchIsFound | src/App.tsx:273-281 | whenever a leftmost match exists, `Find` returns it |
| Extractors.TailForcesGreedy | src/App.tsx:273-278 | in a rating or hours match, the captured numeral is the longest numeral at its start |
| Extractors.RatingSound | src/App.tsx:273 | the greedy numeral, spaces, `/`, spaces, `5` is the only rating match at its start |
| Extractors.RatingMisses | src/App.tsx:273 | if the greedy numeral is not followed by spaces, `/`, spaces and `5`, no rating match starts there |
| Extractors.RatingScanFinds | src/App.tsx:273 | every rating match is the greedy numeral followed by optional spaces, `/`, optional spaces and `5` |
| Extractors.HoursSound | src/App.tsx:278 | the greedy numeral, spaces and `hr` in either case is the only hours match at its start |
| Extractors.HoursMisses | src/App.tsx:278 | if the greedy numeral is not followed by spaces and `hr`, no hours match starts there |
| Extractors.HoursScanFinds | src/App.tsx:278 | every hours match is the greedy numeral followed by optional spaces and `hr` in either case |
| Extractors.StopsNumeral | src/App.tsx:273-278 | a numeral followed by spaces and then `/` or `h` is the greedy numeral at its start |
| Extractors.NoMatchAtEnd | src/App.tsx:273-281 | no match starts at or past the end of the text |
| Extractors.MatchStartsWithDigit | src/App.tsx:273-281 | every match of the three patterns starts with a digit |
| Extractors.RatingNeedsSlashAndFive | src/App.tsx:273 | a text with a rating match contains both `/` and `5` |
| Extractors.ExtractRating | src/App.tsx:271-275 | no value exactly when the text is null, empty or has no match of `number\s*/\s*5`; otherwise the value of the numeral in the leftmost match |
| Extractors.ExtractHours | src/App.tsx:276-280 | no value exactly when the text is null, empty or has no match of `number\s*hr` (any case); otherwise the leftmost match's numeral, which is never negative |
| Extractors.ExtractNumber | src/App.tsx:272-274 | the shared body: `!text` and "no match" give no value, otherwise it is the leftmost match's numeral value |
| Extractors.NumberAtStart | src/App.tsx:272-279 | a text that matches at position 0 yields that match's numeral |
| Extractors.ExtractYear | src/App.tsx:281 | no value exactly when there is no `20dd`; otherwise the leftmost one's decimal value, which lies in 2000..2099 |
| Extractors.YearValue | src/App.tsx:281 | `parseInt` of `20dd` is 2000 + 10·d + d |
| TextScan.IsDigit | src/App.tsx:273-281 | `[0-9]`: the ten ASCII digits |
| TextScan.IsSpace | src/App.tsx:273-278 | JavaScript's `\s`: the WhiteSpace and LineTerminator code points of ECMA-262 |
| TextScan.Numeral | src/App.tsx:273-278 | `s[i..e]` is in the language of `[0-9]+(?:\.[0-9]+)?`: digits, optionally a dot followed by at least one digit |
| TextScan.NumeralEnd | src/App.tsx:273 | the greedy `[0-9]+(?:\.[0-9]+)?` scan from a digit ends after a numeral that no further digit follows |
| TextScan.NumeralIsGreedy | src/App.tsx:273 | a numeral followed by neither a digit nor a dot is the greedy one |
| TextScan.DecimalValue | src/App.tsx:274 | `parseFloat` of a numeral is non-negative and its integer part is the value of the integer digits |
| TextScan.DecimalValueWithFraction | src/App.tsx:274 | `parseFloat` of `ddd.fff` is the integer digits plus the fraction digits over 10 to the power of their count |
| TextScan.DecimalValueOfDigits | src/App.tsx:274 | `parseFloat` of a run of digits is its integer value |
| TextScan.DigitsValue | src/App.tsx:281 | `parseInt(_, 10)` of n digits is below 10ⁿ |
| ExtractorFacts.RatingAtStart | src/App.tsx:271-275 | a text that begins with a numeral, optional spaces, `/`, optional spaces and `5` is rated that numeral |
| ExtractorFacts.HoursAtStart | src/App.tsx:276-280 | a text that begins with a numeral, optional spaces and `hr` counts that many hours |
| ExtractorFacts.NoRatingWithoutSlashAndFive | src/App.tsx:273 | a text that lacks `/` or lacks `5` has no rating |
| ExtractorFacts.NothingWithoutDigits | src/App.tsx:271-281 | a text without digits has no rating, no hours and no year |
| ExtractorFacts.NoRatingForTrailingDot | src/App.tsx:273 | `d./5` has no rating: a dot needs fraction digits after it |
| ExtractorFacts.YearAt | src/App.tsx:281 | a text whose first `20dd` starts at `k` (no match starts before `k`) has that year |
| ExtractorFacts.YearAfterText | src/App.tsx:281 | text without `0`, then `20dd`, then anything, has year `20dd` |
| ExtractorFacts.RatingWithStudentCount | src/App.tsx:164 | "4.77/5 (46 students)" is rated 4.77 |
| ExtractorFacts.RatingWithTrailingZero | src/App.tsx:171 | "4.90/5 (82 students)" is rated 4.9 |
| ExtractorFacts.RatingOutOfFifty | src/App.tsx:273 | `4/50` is rated 4, because the pattern does not require the `5` to end a number |
| ExtractorFacts.NoRatingWithoutText | src/App.tsx:272 | `null` and the empty text have no rating |
| ExtractorFacts.NoRatingNotAvailable | src/App.tsx:173 | "Not Available" has no rating |
| ExtractorFacts.NoRatingForGrade | src/App.tsx:273 | "CGPA: 3.61/4" has no rating |
| ExtractorFacts.NoRatingForScheduledCourse | src/App.tsx:163 | "Course scheduled in Term 2 AY2025–26" has no rating |
| ExtractorFacts.NoRatingForDotWithoutFraction | src/App.tsx:273 | "4./5" has no rating |
| ExtractorFacts.HoursWithSessions | src/App.tsx:163 | "7.5 hrs (5 sessions)" counts 7.5 hours |
| ExtractorFacts.HoursWhole | src/App.tsx:164 | "9 hrs (6 sessions)" counts 9 hours |
| ExtractorFacts.HoursOneAndAHalf | src/App.tsx:165 | "1.5 hrs (1 session)" counts 1.5 hours |
| ExtractorFacts.HoursWithTwoDecimals | src/App.tsx:166 | "1.25 hrs (1 session)" counts 1.25 hours |
| ExtractorFacts.HoursTwoDigitWhole | src/App.tsx:167 | "10.5 hrs (7 sessions)" counts 10.5 hours |
| ExtractorFacts.HoursThree | src/App.tsx:170 | "3 hrs (2 sessions)" counts 3 hours |
| ExtractorFacts.HoursFourAndAHalf | src/App.tsx:171 | "4.5 hrs (3 sessions)" counts 4.5 hours |
| ExtractorFacts.HoursUpperCase | src/App.tsx:278 | `3HR` counts 3 hours: `hr` is matched in any case and needs no space before it |
| ExtractorFacts.NoHoursWithoutNumber | src/App.tsx:172 | "No " followed by any text without digits, such as "No tutorials", counts no hours |
| ExtractorFacts.YearAfterOtherNumber | src/App.tsx:281 | "100 2025" has year 2025: other digits before the year do not hide it |
| ExtractorFacts.YearOfConference | src/App.tsx:94 | "32nd EurOMA 2025 (Italy) — …" has year 2025 |
| TeachingHours.HoursColumn | src/App.tsx:455-456 | `records.map((t) => extractHours(t.hours))`: one entry per record, the extracted hours of that record |
| TeachingHours.Present | src/App.tsx:457 | `filter(n != null)`: the values kept are exactly the present ones, and there are no more of them than records |
| TeachingHours.Zeroed | src/App.tsx:457-458 | the column with each missing value read as 0 |
| TeachingHours.HoursOrZero | src/App.tsx:457-458 | one record's contribution: its hours when present and 0 otherwise, never negative |
| TeachingHours.Reduce | src/App.tsx:458 | `reduce((a,b)=>a+b, acc)`, front to back; its contract is carried by `ReduceIsSum` (it equals `acc` plus the sum) |
| TeachingHours.ReduceIsSum | src/App.tsx:458 | `reduce((a,b)=>a+b, acc)` equals `acc` plus the sum |
| TeachingHours.SumPresentIsSumZeroed | src/App.tsx:457-458 | dropping the missing values sums to the same as counting them as 0 |
| TeachingHours.PresentAppend | src/App.tsx:454-457 | filtering a concatenation equals concatenating the filtered parts |
| TeachingHours.SumAppend | src/App.tsx:458 | the sum of a concatenation is the sum of the parts |
| TeachingHours.ColumnSumIsListHours | src/App.tsx:454-458 | the sum of one list's column, with missing values read as 0, is that list's hours |
| TeachingHours.ListHoursAppend | src/App.tsx:454-458 | the hours of a concatenation of record lists is the sum of their hours |
| TeachingHours.ListHoursPermutation | src/App.tsx:454-458 | reordering the records leaves their hours unchanged |
| TeachingHours.TotalTeachingHours | src/App.tsx:453-461 | the highlight's total: `map`, concatenation, `filter` and `reduce` from 0; its contract is carried by `TotalIsSumOfLists`, `TotalOrderIndependent`, `TotalNonNegative` and `MissingHoursAddNothing` |
| TeachingHours.TotalIsSumOfLists | src/App.tsx:453-461 | the total is the instructor records' hours plus the TA records' hours, with a missing value counting 0 |
| TeachingHours.TotalOrderIndependent | src/App.tsx:674-682 | any rearrangement of the records between and within the two lists gives the same total |
| TeachingHours.TotalNonNegative | src/App.tsx:453-461 | the total is never negative |
| TeachingHours.MissingHoursAddNothing | src/App.tsx:457 | adding a record whose hours cannot be read leaves the total unchanged |
| RecentConferences.ConferencesOf | src/App.tsx:283-284 | `p.conferences \|\| []`: a missing list reads as empty |
| RecentConferences.FlatConferences | src/App.tsx:283-284 | `flatMap(p => p.conferences \|\| [])`: a name occurs exactly when some item's list (a missing list reads as empty) has it |
| RecentConferences.AllConferences | src/App.tsx:283-285 | `[...fromPR, ...fromWIP]`: a name occurs exactly when it is in the list of some paper under review or some work in progress |
| RecentConferences.Dedup | src/App.tsx:286 | `Array.from(new Set(all))` has no repeated name and exactly the names of `all` |
| RecentConferences.DedupKeepsFirstOccurrenceOrder | src/App.tsx:286 | the distinct names come in the order of their first occurrence |
| RecentConferences.DedupLength | src/App.tsx:286 | the distinct names are as many as the set of all names |
| RecentConferences.DedupOfDistinct | src/App.tsx:286 | a list without repeats is kept as it is |
| RecentConferences.YearCompare | src/App.tsx:287 | the comparator's sign is negative when `a` sorts first (later year, or year vs. none), positive in the reverse case, and zero exactly when the years are equal or both missing |
| RecentConferences.InsertPos | src/App.tsx:287 | a stable insertion goes after every element that the new one does not strictly precede, and before one it does |
| RecentConferences.Insert | src/App.tsx:287 | one insertion step of the stable sort: one element longer, with `x` at the position `InsertPos` gives; `InsertPermutation`, `InsertSorted` and `InsertStable` carry the rest |
| RecentConferences.InsertPermutation | src/App.tsx:287 | inserting adds exactly that element |
| RecentConferences.SortByYear | src/App.tsx:287 | `unique.sort(...)` keeps the length; `SortPermutation`, `SortIsSorted` and `SortIsStable` carry its contract (a permutation, latest year first, stable) |
| RecentConferences.SortPermutation | src/App.tsx:287 | sorting is a permutation |
| RecentConferences.SortIsSorted | src/App.tsx:287 | after sorting, no name is more recent than a name before it |
| RecentConferences.SortIsStable | src/App.tsx:287 | after sorting, names of equal year keep their input order |
| RecentConferences.InsertAtEnd | src/App.tsx:287 | a name no more recent than any sorted name goes last |
| RecentConferences.InsertBefore | src/App.tsx:287 | a name goes just before the first sorted name it is more recent than |
| RecentConferences.Take | src/App.tsx:287 | `slice(0, limit)` is the first `min(limit, length)` names |
| RecentConferences.NoDupsByCount | src/App.tsx:286 | a list has no repeats exactly when each of its names occurs once in its multiset |
| RecentConferences.PermutationKeepsNoDups | src/App.tsx:286-287 | a permutation of a list without repeats has none |
| RecentConferences.TopByYear | src/App.tsx:286-287 | dedup, stable sort by year, cut: never more than `limit` names; `TopHasNoDuplicates`, `TopComesFromInput`, `TopLength`, `TopSortedByYear`, `TopTiesInInputOrder` and `TopCutOff` carry the rest |
| RecentConferences.Recent | src/App.tsx:282-288 | `recentConferences(limit)`: never more than `limit` names; `RecentComesFromInputs`, `RecentHasNoDuplicates`, `RecentLength`, `RecentLatestFirst`, `RecentTiesInFirstOccurrenceOrder` and `RecentCutOff` carry the rest |
| RecentConferences.DefaultLimit | src/App.tsx:282 | the default `limit = 5`, the value the page passes at src/App.tsx:482 |
| RecentConferences.RecentComesFromInputs | src/App.tsx:282-288 | every listed name is in the conference list of a paper under review or of a work in progress |
| RecentConferences.RecentHasNoDuplicates | src/App.tsx:282-288 | no name is listed twice |
| RecentConferences.RecentLength | src/App.tsx:282-288 | exactly `min(limit, number of distinct names)` names |
| RecentConferences.RecentLatestFirst | src/App.tsx:282-288 | years never increase down the list, and names without a year come last |
| RecentConferences.RecentTiesInFirstOccurrenceOrder | src/App.tsx:282-288 | names of one year appear in the order of their first occurrence in the input |
| RecentConferences.RecentCutOff | src/App.tsx:282-288 | a name left out is never more recent than a listed one; on equal years the listed one occurs first in the input |
| Pages.PageIds | src/App.tsx:291-301 | the nine `id`s of `PAGES`, in navigation order |
| Pages.DefaultPage | src/App.tsx:305 | `useState("summary")`: the page before any fragment is read |
| Pages.LowerChar | src/App.tsx:331 | `toLowerCase` on one character: `A`–`Z` go to `a`–`z`, every other character is kept (see `AsciiLower` under "## Left out") |
| Pages.StripHash | src/App.tsx:331 | a leading `#` is dropped, and a text without one is kept |
| Pages.AsciiLower | src/App.tsx:331 | lowering keeps the length and maps each character on its own |
| Pages.FromHash | src/App.tsx:330-333 | the result is always one of the nine ids of `PAGES`; there is one exactly when the lowered, hash-stripped text is an id, and it is that text |
| Pages.PageHash | src/App.tsx:343 | `` `#${page}` `` is `#` followed by the id |
| Pages.PageIdsAreLowerCase | src/App.tsx:291-301 | every page id is already in lower case |
| Pages.HashRoundTrip | src/App.tsx:330-343 | reading back the fragment written for a page gives that page |
| Pages.BareIdIsRead | src/App.tsx:331-332 | a fragment without `#` that is an id is read as that id |
| Pages.ReadIsInverseOfWrite | src/App.tsx:330-343 | the fragment read for a page, lowered, is what the page writes back |
| Pages.FromHashIgnoresCase | src/App.tsx:331 | lowering the fragment first changes nothing |
| Pages.DoubleHashIsRejected | src/App.tsx:331-332 | only one `#` is stripped, so `##…` is never a page |
| Pages.OnHashChange | src/App.tsx:334-336 | a fragment naming a page switches to it, and any other fragment keeps the current page |
| Pages.InitialPage | src/App.tsx:305-335 | the first page is the fragment's page, or `summary` |
| Pages.OnHashChangeKeepsPageId | src/App.tsx:305-336 | the current page is always one of the nine ids |
| Pages.WriteBackIsStable | src/App.tsx:336-347 | after a change, writing `#page` back and reading it again leaves the page as it is |
| Pages.FragmentOfAnyCase | src/App.tsx:331-332 | `#` followed by an id in any letter case is read as that id |
| Pages.CapitalisedFragment | src/App.tsx:331-332 | `#Teaching` reads as `teaching` |
| Pages.BareResearch | src/App.tsx:331-332 | `research` reads as `research` |
| Pages.DoubleHashSummary | src/App.tsx:331-332 | `##summary` is not a page |
| Pages.UnknownFragment | src/App.tsx:331-332 | `#unknown` is not a page |
| SiteData.InstructorHoursTotal | src/App.tsx:162-168 | the instructor records' hours add up to 29.75 |
| SiteData.TaHoursTotal | src/App.tsx:169-174 | the teaching-assistant records' hours add up to 16.5, with "No tutorials" counting 0 |
| SiteData.ShippedTotalTeachingHours | src/App.tsx:453-461 | on the site's records the total, before `toFixed(1)`, is 46.25 |
| SiteData.SortSix | src/App.tsx:287 | names dated new, new, old, old, new, new sort to the four new ones in input order and then the two old ones |
| SiteData.ShippedNamesDistinct | src/App.tsx:92-126 | the six conference names of the site are pairwise different |
| SiteData.AllShippedConferences | src/App.tsx:83-126 | the names gathered are the first paper's four and then the two working papers' one each; the second paper lists none |
| SiteData.ShippedRecentConferences | src/App.tsx:482 | `recentConferences(5)` on the site's data is INFORMS MSOM 2025, 32nd EurOMA 2025, 12th EurOMA Forum 2025, 18th Behavioral Operations Conference 2025, 34th POMS 2024 |

## Left out

- Rendering, layout and styling of the pages are not modelled. Nor are the JSON-LD block, the photo-width effect (`src/App.tsx:307-326`) or the scroll-to-top: none of them computes anything the model could state.
- `isHistoryReplaceSafe` is not modelled, and neither is the choice between `history.replaceState` and assigning `location.hash` (`src/App.tsx:263-270`, `341-347`). Both are browser effects. The model keeps only the page state they drive (`OnHashChange`, `PageHash`).
- Event listeners, their registration and removal, and React's state scheduling are not modelled. The hash listener becomes the state-transition function `Pages.OnHashChange`.
- The URL fragment is a parameter of `FromHash`, `InitialPage` and `OnHashChange`. Nothing reads `window.location`.
- Numbers are exact: IEEE-754 rounding in `parseFloat` and in the `+` of the hours total is not modelled. The site's values (quarters and halves) are exact in binary, so the total 46.25 is also the floating-point result.
- `toFixed(1)`, which turns 46.25 into the displayed text, is decimal formatting of a float and is not modelled.
- The highlighted average rating "4.62" is a literal on the page, not a computation, so there is nothing to model.
- Pages.AsciiLower: only `A`–`Z` are lowered, not all of Unicode as `toLowerCase` does. For `fromHash` the result is the same. Every page id consists of the ASCII letters `a`–`z` and contains no `k`. The only non-ASCII character whose lower case is an ASCII letter is KELVIN SIGN (U+212A, lowered to `k`). So no text lowers to a page id under one lowering but not under the other.
- Characters are Unicode scalar values, whereas JavaScript strings are UTF-16 code units. The two agree on all of the site's texts, which contain no characters outside the Basic Multilingual Plane.
- RecentConferences.SortByYear: `Array.prototype.sort`'s algorithm is engine-defined. The model is a stable insertion sort. Since the standard requires a stable sort, and the comparator here is a consistent total preorder, every conforming engine gives this same order.
- RecentConferences.Take: `limit` is a natural number, so `slice` with a negative or fractional `limit` is not modelled. The only call passes 5, and the default is also 5.
- ExtractorFacts.HoursWithSessions and the other per-text examples are stated for the text's leading part followed by any rest. Each covers the site's text and every other text with that beginning.
- The `\w*` after `hr` in the hours pattern is not modelled: it can only lengthen a match, never decide whether there is one or what group 1 captures.
- src/main.tsx (mounting the component) and vite.config.ts (build settings) are not part of this model.
