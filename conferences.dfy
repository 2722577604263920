/**
 * `recentConferences(limit)` of src/App.tsx: the conference names of the
 * papers under review followed by those of the working papers, each name
 * once (first occurrence kept, as `Array.from(new Set(...))` does), sorted
 * by year, latest first and names without a year last, with equal years
 * in their original order (`Array.prototype.sort` is stable), and cut to
 * the first `limit`.
 */
module RecentConferences {
  import opened Wrappers
  import opened Extractors

  /** `p.conferences || []`: a missing list reads as empty. */
  function ConferencesOf(list: Option<seq<string>>): seq<string> {
    list.GetOr([])
  }

  /** `items.flatMap((p) => p.conferences || [])`. */
  function FlatConferences(items: seq<Option<seq<string>>>): (r: seq<string>)
    ensures forall c :: c in r <==> exists k | 0 <= k < |items| :: c in ConferencesOf(items[k])
  {
    if items == [] then []
    else
      var init := items[..|items| - 1];
      var r := FlatConferences(init) + ConferencesOf(items[|items| - 1]);
      assert forall k | 0 <= k < |init| :: init[k] == items[k];
      r
  }

  predicate NoDups<T(==)>(s: seq<T>) {
    forall i, j | 0 <= i < j < |s| :: s[i] != s[j]
  }

  /** The position of the first occurrence of `x`. */
  function FirstIndex<T(==)>(s: seq<T>, x: T): (k: nat)
    requires x in s
    ensures k < |s| && s[k] == x
    ensures forall j | 0 <= j < k :: s[j] != x
  {
    if s[0] == x then 0 else 1 + FirstIndex(s[1..], x)
  }

  /** `Array.from(new Set(xs))`: every element once, in the order of first occurrence. */
  function Dedup<T(==,!new)>(xs: seq<T>): (r: seq<T>)
    ensures NoDups(r)
    ensures forall x :: x in r <==> x in xs
  {
    if xs == [] then []
    else
      var d := Dedup(xs[..|xs| - 1]);
      if xs[|xs| - 1] in d then d else d + [xs[|xs| - 1]]
  }

  /** Whether year `x` sorts strictly before year `y`: later years first, a missing year after every year. */
  predicate Precedes(x: Option<int>, y: Option<int>) {
    x.Some? && (y.None? || x.value > y.value)
  }

  /**
   * The comparator `(extractYear(b) ?? -Infinity) - (extractYear(a) ?? -Infinity)`
   * by sign, which is all `sort` reads of it: -1 and 1 stand for the
   * infinite differences, and 0 for `-Infinity - -Infinity`, a NaN, which
   * `sort` treats as +0.
   */
  function YearCompare(ya: Option<int>, yb: Option<int>): (c: int)
    ensures c < 0 <==> Precedes(ya, yb)
    ensures c > 0 <==> Precedes(yb, ya)
    ensures c == 0 <==> ya == yb
  {
    match (ya, yb)
    case (Some(x), Some(y)) => y - x
    case (Some(_), None) => -1
    case (None, Some(_)) => 1
    case (None, None) => 0
  }

  /** Later (or equal) years first: no element is preceded by one after it. */
  ghost predicate SortedByYear<T>(key: T -> Option<int>, s: seq<T>) {
    forall i, j | 0 <= i < j < |s| :: !Precedes(key(s[j]), key(s[i]))
  }

  /** Elements of equal year appear in the order they have in `u`. */
  ghost predicate StableWrt<T>(key: T -> Option<int>, s: seq<T>, u: seq<T>) {
    forall i, j | 0 <= i < j < |s| && key(s[i]) == key(s[j]) ::
      s[i] in u && s[j] in u && FirstIndex(u, s[i]) < FirstIndex(u, s[j])
  }

  /** Where a stable insertion puts `x`: after every element it does not strictly precede. */
  function InsertPos<T>(key: T -> Option<int>, x: T, r: seq<T>): (p: nat)
    ensures p <= |r|
    ensures forall i | 0 <= i < p :: !Precedes(key(x), key(r[i]))
    ensures p < |r| ==> Precedes(key(x), key(r[p]))
  {
    if r == [] || YearCompare(key(x), key(r[0])) < 0 then 0 else 1 + InsertPos(key, x, r[1..])
  }

  /** A stable insertion of `x` into `r`: one longer, with `x` at its insertion position. */
  function Insert<T>(key: T -> Option<int>, x: T, r: seq<T>): (s: seq<T>)
    ensures |s| == |r| + 1 && s[InsertPos(key, x, r)] == x
  {
    var p := InsertPos(key, x, r);
    r[..p] + [x] + r[p..]
  }

  /** `sort` with the year comparator, as a stable insertion sort in input order. */
  function SortByYear<T>(key: T -> Option<int>, xs: seq<T>): (r: seq<T>)
    ensures |r| == |xs|
  {
    if xs == [] then [] else Insert(key, xs[|xs| - 1], SortByYear(key, xs[..|xs| - 1]))
  }

  /** `slice(0, limit)` for a non-negative `limit`. */
  function Take<T>(s: seq<T>, limit: nat): (r: seq<T>)
    ensures |r| == if limit < |s| then limit else |s|
    ensures forall i | 0 <= i < |r| :: r[i] == s[i]
  {
    if limit < |s| then s[..limit] else s
  }

  /** `[...fromPR, ...fromWIP]`. */
  function AllConferences(papers: seq<Option<seq<string>>>, wip: seq<Option<seq<string>>>): (r: seq<string>)
    ensures forall c :: c in r <==>
      (exists k | 0 <= k < |papers| :: c in ConferencesOf(papers[k])) ||
      (exists k | 0 <= k < |wip| :: c in ConferencesOf(wip[k]))
  {
    FlatConferences(papers) + FlatConferences(wip)
  }

  /** The first `limit` distinct names of `xs` in year order. */
  function TopByYear<T(==,!new)>(key: T -> Option<int>, xs: seq<T>, limit: nat): (r: seq<T>)
    ensures |r| <= limit
  {
    Take(SortByYear(key, Dedup(xs)), limit)
  }

  /** `recentConferences(limit)`. */
  function Recent(papers: seq<Option<seq<string>>>, wip: seq<Option<seq<string>>>, limit: nat): (r: seq<string>)
    ensures |r| <= limit
  {
    TopByYear(ExtractYear, AllConferences(papers, wip), limit)
  }

  /** The page calls `recentConferences(5)`. */
  const DefaultLimit: nat := 5

  // ----- Dedup -----

  lemma {:induction false} FirstIndexOfPrefix<T>(xs: seq<T>, ys: seq<T>, x: T)
    requires x in xs
    ensures x in xs + ys && FirstIndex(xs + ys, x) == FirstIndex(xs, x)
    decreases |xs|
  {
    if xs[0] != x {
      assert (xs + ys)[1..] == xs[1..] + ys;
      FirstIndexOfPrefix(xs[1..], ys, x);
    }
  }

  lemma FirstIndexOfLast<T>(xs: seq<T>, x: T)
    requires x !in xs
    ensures x in xs + [x] && FirstIndex(xs + [x], x) == |xs|
  {
    assert forall k | 0 <= k < |xs| :: (xs + [x])[k] == xs[k];
  }

  /** The distinct elements keep the order of their first occurrences. */
  lemma {:induction false} DedupKeepsFirstOccurrenceOrder<T(!new)>(xs: seq<T>)
    ensures forall i, j | 0 <= i < j < |Dedup(xs)| :: FirstIndex(xs, Dedup(xs)[i]) < FirstIndex(xs, Dedup(xs)[j])
    decreases |xs|
  {
    if xs != [] {
      var init := xs[..|xs| - 1];
      var x := xs[|xs| - 1];
      var d := Dedup(init);
      DedupKeepsFirstOccurrenceOrder(init);
      assert xs == init + [x];
      forall y | y in init
        ensures FirstIndex(xs, y) == FirstIndex(init, y)
      {
        FirstIndexOfPrefix(init, [x], y);
      }
      if x !in d {
        FirstIndexOfLast(init, x);
        var r := d + [x];
        forall i, j | 0 <= i < j < |r|
          ensures FirstIndex(xs, r[i]) < FirstIndex(xs, r[j])
        {
          assert r[i] == d[i];
          if j < |d| {
            assert r[j] == d[j];
          }
        }
      }
    }
  }

  function Elements<T(==)>(s: seq<T>): set<T> {
    set x | x in s
  }

  /** A sequence without duplicates has as many elements as its set. */
  lemma {:induction false} NoDupsCardinality<T>(s: seq<T>)
    requires NoDups(s)
    ensures |Elements(s)| == |s|
    decreases |s|
  {
    if s != [] {
      var init := s[..|s| - 1];
      NoDupsCardinality(init);
      assert Elements(s) == Elements(init) + {s[|s| - 1]};
      assert s[|s| - 1] !in Elements(init);
    }
  }

  /** As many names survive `new Set` as there are distinct names. */
  lemma DedupLength<T(!new)>(xs: seq<T>)
    ensures |Dedup(xs)| == |Elements(xs)|
  {
    NoDupsCardinality(Dedup(xs));
    assert Elements(Dedup(xs)) == Elements(xs);
  }

  // ----- Sorting -----

  lemma InsertFacts<T>(key: T -> Option<int>, x: T, r: seq<T>)
    ensures var p := InsertPos(key, x, r);
      var s := Insert(key, x, r);
      |s| == |r| + 1 && s[p] == x &&
      (forall i | 0 <= i < p :: s[i] == r[i]) &&
      (forall i | p < i < |s| :: s[i] == r[i - 1])
  {
  }

  lemma InsertPermutation<T>(key: T -> Option<int>, x: T, r: seq<T>)
    ensures multiset(Insert(key, x, r)) == multiset(r) + multiset{x}
  {
    var p := InsertPos(key, x, r);
    assert r == r[..p] + r[p..];
  }

  lemma {:induction false} SortPermutation<T>(key: T -> Option<int>, xs: seq<T>)
    ensures multiset(SortByYear(key, xs)) == multiset(xs)
    decreases |xs|
  {
    if xs != [] {
      var init := xs[..|xs| - 1];
      SortPermutation(key, init);
      InsertPermutation(key, xs[|xs| - 1], SortByYear(key, init));
      assert xs == init + [xs[|xs| - 1]];
    }
  }

  /** Inserting at that place keeps a sorted sequence sorted. */
  lemma InsertSorted<T>(key: T -> Option<int>, x: T, r: seq<T>)
    requires SortedByYear(key, r)
    ensures SortedByYear(key, Insert(key, x, r))
  {
    var p := InsertPos(key, x, r);
    var s := Insert(key, x, r);
    InsertFacts(key, x, r);
    forall i, j | 0 <= i < j < |s|
      ensures !Precedes(key(s[j]), key(s[i]))
    {
      if j == p {
        assert s[i] == r[i];
      } else if i == p {
        assert s[j] == r[j - 1];
        assert !Precedes(key(r[j - 1]), key(r[p]));
      } else {
        var i' := if i < p then i else i - 1;
        var j' := if j < p then j else j - 1;
        assert s[i] == r[i'] && s[j] == r[j'] && i' < j';
      }
    }
  }

  lemma {:induction false} SortIsSorted<T>(key: T -> Option<int>, xs: seq<T>)
    ensures SortedByYear(key, SortByYear(key, xs))
    decreases |xs|
  {
    if xs != [] {
      SortIsSorted(key, xs[..|xs| - 1]);
      InsertSorted(key, xs[|xs| - 1], SortByYear(key, xs[..|xs| - 1]));
    }
  }

  /** Inserting the newest element keeps equal years in input order. */
  lemma InsertStable<T>(key: T -> Option<int>, u: seq<T>, x: T, r: seq<T>)
    requires x !in u && multiset(r) == multiset(u)
    requires SortedByYear(key, r) && StableWrt(key, r, u)
    ensures StableWrt(key, Insert(key, x, r), u + [x])
  {
    var p := InsertPos(key, x, r);
    var s := Insert(key, x, r);
    var u' := u + [x];
    InsertFacts(key, x, r);
    forall y | y in u
      ensures y in u' && FirstIndex(u', y) == FirstIndex(u, y)
    {
      FirstIndexOfPrefix(u, [x], y);
    }
    FirstIndexOfLast(u, x);
    forall i, j | 0 <= i < j < |s| && key(s[i]) == key(s[j])
      ensures s[i] in u' && s[j] in u' && FirstIndex(u', s[i]) < FirstIndex(u', s[j])
    {
      if j == p {
        assert s[i] == r[i] && r[i] in multiset(u);
      } else if i == p {
        assert false;
      } else {
        var i' := if i < p then i else i - 1;
        var j' := if j < p then j else j - 1;
        assert s[i] == r[i'] && s[j] == r[j'] && i' < j';
      }
    }
  }

  /** The sort is stable: names of equal year keep their relative order. */
  lemma {:induction false} SortIsStable<T>(key: T -> Option<int>, xs: seq<T>)
    requires NoDups(xs)
    ensures StableWrt(key, SortByYear(key, xs), xs)
    decreases |xs|
  {
    if xs != [] {
      var init := xs[..|xs| - 1];
      var x := xs[|xs| - 1];
      assert xs == init + [x];
      assert x !in init;
      SortIsStable(key, init);
      SortIsSorted(key, init);
      SortPermutation(key, init);
      InsertStable(key, init, x, SortByYear(key, init));
    }
  }

  /** Nothing to remove from a list without duplicates. */
  lemma {:induction false} DedupOfDistinct<T(!new)>(xs: seq<T>)
    requires NoDups(xs)
    ensures Dedup(xs) == xs
    decreases |xs|
  {
    if xs != [] {
      DedupOfDistinct(xs[..|xs| - 1]);
    }
  }

  lemma {:induction false} InsertPosPastPrefix<T>(key: T -> Option<int>, x: T, p: seq<T>, q: seq<T>)
    requires forall i | 0 <= i < |p| :: !Precedes(key(x), key(p[i]))
    requires q == [] || Precedes(key(x), key(q[0]))
    ensures InsertPos(key, x, p + q) == |p|
    decreases |p|
  {
    if p == [] {
      assert p + q == q;
    } else {
      assert (p + q)[1..] == p[1..] + q;
      InsertPosPastPrefix(key, x, p[1..], q);
    }
  }

  /** A name that is not later than any listed name goes to the end. */
  lemma InsertAtEnd<T>(key: T -> Option<int>, x: T, r: seq<T>)
    requires forall i | 0 <= i < |r| :: !Precedes(key(x), key(r[i]))
    ensures Insert(key, x, r) == r + [x]
  {
    InsertPosPastPrefix(key, x, r, []);
    assert r + [] == r;
  }

  /** A name goes just before the first listed name it is strictly later than. */
  lemma InsertBefore<T>(key: T -> Option<int>, x: T, p: seq<T>, q: seq<T>)
    requires forall i | 0 <= i < |p| :: !Precedes(key(x), key(p[i]))
    requires q != [] && Precedes(key(x), key(q[0]))
    ensures Insert(key, x, p + q) == p + [x] + q
  {
    InsertPosPastPrefix(key, x, p, q);
    assert (p + q)[..|p|] == p && (p + q)[|p|..] == q;
  }

  /** Sorting one more name is inserting it into the sorted rest. */
  lemma SortAppend<T>(key: T -> Option<int>, xs: seq<T>, x: T)
    ensures SortByYear(key, xs + [x]) == Insert(key, x, SortByYear(key, xs))
  {
    assert (xs + [x])[..|xs|] == xs;
  }

  lemma FlatAppend(items: seq<Option<seq<string>>>, item: Option<seq<string>>)
    ensures FlatConferences(items + [item]) == FlatConferences(items) + ConferencesOf(item)
  {
    assert (items + [item])[..|items|] == items;
  }

  // ----- The selection -----

  lemma {:induction false} NoDupsByCount<T>(s: seq<T>)
    ensures NoDups(s) <==> forall x | x in s :: multiset(s)[x] == 1
    decreases |s|
  {
    if s != [] {
      var init := s[..|s| - 1];
      var x := s[|s| - 1];
      assert s == init + [x];
      NoDupsByCount(init);
      if NoDups(s) {
        assert x !in init;
        forall y | y in s
          ensures multiset(s)[y] == 1
        {
          if y != x {
            assert y in init;
          }
        }
      } else {
        var i, j :| 0 <= i < j < |s| && s[i] == s[j];
        if j < |s| - 1 {
          assert init[i] == init[j];
          assert !NoDups(init);
          var y :| y in init && multiset(init)[y] != 1;
          assert y in s && multiset(s)[y] >= multiset(init)[y];
        } else {
          assert s[i] in init;
          assert multiset(s)[x] == multiset(init)[x] + 1;
        }
      }
    }
  }

  /** Rearranging a sequence without duplicates leaves it without duplicates. */
  lemma PermutationKeepsNoDups<T>(s: seq<T>, t: seq<T>)
    requires NoDups(s) && multiset(s) == multiset(t)
    ensures NoDups(t)
  {
    NoDupsByCount(s);
    NoDupsByCount(t);
  }

  /** The pieces of the selection: a stable sorted permutation of the distinct names, cut to length. */
  lemma SelectionFacts<T(!new)>(key: T -> Option<int>, xs: seq<T>)
    ensures var u := Dedup(xs);
      var s := SortByYear(key, u);
      NoDups(s) && multiset(s) == multiset(u) && SortedByYear(key, s) && StableWrt(key, s, u)
  {
    var u := Dedup(xs);
    SortPermutation(key, u);
    PermutationKeepsNoDups(u, SortByYear(key, u));
    SortIsSorted(key, u);
    SortIsStable(key, u);
  }

  /** Distinct names in `Dedup` order are in first-occurrence order in the input. */
  lemma UniqueOrderIsInputOrder<T(!new)>(xs: seq<T>, x: T, y: T)
    requires x in xs && y in xs
    requires x in Dedup(xs) && y in Dedup(xs) && FirstIndex(Dedup(xs), x) < FirstIndex(Dedup(xs), y)
    ensures FirstIndex(xs, x) < FirstIndex(xs, y)
  {
    DedupKeepsFirstOccurrenceOrder(xs);
  }

  lemma TopHasNoDuplicates<T(!new)>(key: T -> Option<int>, xs: seq<T>, limit: nat)
    ensures NoDups(TopByYear(key, xs, limit))
  {
    SelectionFacts(key, xs);
  }

  lemma TopComesFromInput<T(!new)>(key: T -> Option<int>, xs: seq<T>, limit: nat)
    ensures forall c | c in TopByYear(key, xs, limit) :: c in xs
  {
    SelectionFacts(key, xs);
    var s := SortByYear(key, Dedup(xs));
    forall c | c in TopByYear(key, xs, limit)
      ensures c in xs
    {
      assert c in s;
      assert c in multiset(Dedup(xs));
    }
  }

  lemma TopLength<T(!new)>(key: T -> Option<int>, xs: seq<T>, limit: nat)
    ensures |TopByYear(key, xs, limit)| == if limit < |Elements(xs)| then limit else |Elements(xs)|
  {
    DedupLength(xs);
  }

  lemma TopSortedByYear<T(!new)>(key: T -> Option<int>, xs: seq<T>, limit: nat)
    ensures SortedByYear(key, TopByYear(key, xs, limit))
  {
    SelectionFacts(key, xs);
  }

  lemma TopTiesInInputOrder<T(!new)>(key: T -> Option<int>, xs: seq<T>, limit: nat)
    ensures var r := TopByYear(key, xs, limit);
      forall i, j | 0 <= i < j < |r| && key(r[i]) == key(r[j]) ::
        r[i] in xs && r[j] in xs && FirstIndex(xs, r[i]) < FirstIndex(xs, r[j])
  {
    SelectionFacts(key, xs);
    TopComesFromInput(key, xs, limit);
    var u := Dedup(xs);
    var s := SortByYear(key, u);
    var r := TopByYear(key, xs, limit);
    forall i, j | 0 <= i < j < |r| && key(r[i]) == key(r[j])
      ensures r[i] in xs && r[j] in xs && FirstIndex(xs, r[i]) < FirstIndex(xs, r[j])
    {
      assert r[i] == s[i] && r[j] == s[j];
      UniqueOrderIsInputOrder(xs, r[i], r[j]);
    }
  }

  lemma TopCutOff<T(!new)>(key: T -> Option<int>, xs: seq<T>, limit: nat)
    ensures var r := TopByYear(key, xs, limit);
      forall c, i | c in xs && c !in r && 0 <= i < |r| ::
        !Precedes(key(c), key(r[i])) &&
        (key(c) == key(r[i]) ==> r[i] in xs && FirstIndex(xs, r[i]) < FirstIndex(xs, c))
  {
    SelectionFacts(key, xs);
    TopComesFromInput(key, xs, limit);
    var u := Dedup(xs);
    var s := SortByYear(key, u);
    var r := TopByYear(key, xs, limit);
    forall c, i | c in xs && c !in r && 0 <= i < |r|
      ensures !Precedes(key(c), key(r[i]))
      ensures key(c) == key(r[i]) ==> r[i] in xs && FirstIndex(xs, r[i]) < FirstIndex(xs, c)
    {
      assert c in multiset(s);
      var q :| 0 <= q < |s| && s[q] == c;
      assert r[i] == s[i];
      if q < |r| {
        assert false;
      }
      if key(c) == key(r[i]) {
        UniqueOrderIsInputOrder(xs, r[i], c);
      }
    }
  }

  // ----- recentConferences -----

  /** Every name comes from the conference list of a paper under review or of a working paper. */
  lemma RecentComesFromInputs(papers: seq<Option<seq<string>>>, wip: seq<Option<seq<string>>>, limit: nat)
    ensures forall c | c in Recent(papers, wip, limit) ::
      (exists k | 0 <= k < |papers| :: c in ConferencesOf(papers[k])) ||
      (exists k | 0 <= k < |wip| :: c in ConferencesOf(wip[k]))
  {
    TopComesFromInput(ExtractYear, AllConferences(papers, wip), limit);
  }

  /** No name is listed twice. */
  lemma RecentHasNoDuplicates(papers: seq<Option<seq<string>>>, wip: seq<Option<seq<string>>>, limit: nat)
    ensures NoDups(Recent(papers, wip, limit))
  {
    TopHasNoDuplicates(ExtractYear, AllConferences(papers, wip), limit);
  }

  /** As many names as asked for, or all distinct names if there are fewer. */
  lemma RecentLength(papers: seq<Option<seq<string>>>, wip: seq<Option<seq<string>>>, limit: nat)
    ensures var n := |Elements(AllConferences(papers, wip))|;
      |Recent(papers, wip, limit)| == if limit < n then limit else n
  {
    TopLength(ExtractYear, AllConferences(papers, wip), limit);
  }

  /** Years never increase down the list, and names without a year come after all names with one. */
  lemma RecentLatestFirst(papers: seq<Option<seq<string>>>, wip: seq<Option<seq<string>>>, limit: nat)
    ensures var r := Recent(papers, wip, limit);
      forall i, j | 0 <= i < j < |r| ::
        (ExtractYear(r[i]).None? ==> ExtractYear(r[j]).None?) &&
        (ExtractYear(r[i]).Some? && ExtractYear(r[j]).Some? ==> ExtractYear(r[i]).value >= ExtractYear(r[j]).value)
  {
    TopSortedByYear(ExtractYear, AllConferences(papers, wip), limit);
  }

  /** Names of the same year keep the order in which they first appear in the input. */
  lemma RecentTiesInFirstOccurrenceOrder(papers: seq<Option<seq<string>>>, wip: seq<Option<seq<string>>>, limit: nat)
    ensures var all := AllConferences(papers, wip);
      var r := Recent(papers, wip, limit);
      forall i, j | 0 <= i < j < |r| && ExtractYear(r[i]) == ExtractYear(r[j]) ::
        r[i] in all && r[j] in all && FirstIndex(all, r[i]) < FirstIndex(all, r[j])
  {
    TopTiesInInputOrder(ExtractYear, AllConferences(papers, wip), limit);
  }

  /**
   * A name left out is never more recent than a name shown, and when the
   * years are equal the name shown occurs first in the input.
   */
  lemma RecentCutOff(papers: seq<Option<seq<string>>>, wip: seq<Option<seq<string>>>, limit: nat)
    ensures var all := AllConferences(papers, wip);
      var r := Recent(papers, wip, limit);
      forall c, i | c in all && c !in r && 0 <= i < |r| ::
        !Precedes(ExtractYear(c), ExtractYear(r[i])) &&
        (ExtractYear(c) == ExtractYear(r[i]) ==> r[i] in all && FirstIndex(all, r[i]) < FirstIndex(all, c))
  {
    TopCutOff(ExtractYear, AllConferences(papers, wip), limit);
  }
}
