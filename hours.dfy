/**
 * The "Total teaching hours" figure of src/App.tsx: hours are extracted
 * from every instructor record and then from every teaching-assistant
 * record, `null`s are dropped, and the rest are summed with
 * `reduce((a, b) => a + b, 0)`. The model stops at the exact total; the
 * `toFixed(1)` display string is not modelled.
 */
module TeachingHours {
  import opened Wrappers
  import opened Extractors

  /** `records.map((t) => extractHours(t.hours))`, for the `hours` field of each record. */
  function HoursColumn(hours: seq<Option<string>>): (r: seq<Option<real>>)
    ensures |r| == |hours|
    ensures forall k | 0 <= k < |hours| :: r[k] == ExtractHours(hours[k])
  {
    if hours == [] then [] else HoursColumn(hours[..|hours| - 1]) + [ExtractHours(hours[|hours| - 1])]
  }

  /** `.filter((n) => n != null)`: the present values, in order. */
  function Present(xs: seq<Option<real>>): (r: seq<real>)
    ensures |r| <= |xs|
    ensures forall v :: v in r <==> Some(v) in xs
  {
    if xs == [] then []
    else
      var rest := Present(xs[1..]);
      assert forall v :: Some(v) in xs <==> xs[0] == Some(v) || Some(v) in xs[1..];
      match xs[0]
      case None => rest
      case Some(v) => [v] + rest
  }

  /** `.reduce((a, b) => a + b, acc)`: a left fold, adding from the front. */
  function Reduce(acc: real, xs: seq<real>): real
    decreases |xs|
  {
    if xs == [] then acc else Reduce(acc + xs[0], xs[1..])
  }

  /**
   * The sum of a sequence, as a reference definition independent of the fold order.
   * It is the same sum as `SumBy(x => x, xs)` below; a separate definition over
   * plain numbers keeps the reference for `Reduce` free of a function argument,
   * and `ColumnSumIsListHours` connects it with the per-record `SumBy`.
   */
  function Sum(xs: seq<real>): real
    decreases |xs|
  {
    if xs == [] then 0.0 else xs[|xs| - 1] + Sum(xs[..|xs| - 1])
  }

  /** Every value, with an absent one counted as zero. */
  function Zeroed(xs: seq<Option<real>>): (r: seq<real>)
    ensures |r| == |xs|
    ensures forall k | 0 <= k < |xs| :: r[k] == xs[k].GetOr(0.0)
  {
    if xs == [] then [] else Zeroed(xs[..|xs| - 1]) + [xs[|xs| - 1].GetOr(0.0)]
  }

  /** The total as the page computes it: instructor records first, then TA records. */
  function TotalTeachingHours(instructor: seq<Option<string>>, ta: seq<Option<string>>): real {
    Reduce(0.0, Present(HoursColumn(instructor) + HoursColumn(ta)))
  }

  /** The sum of `f` over a sequence. */
  function SumBy<T>(f: T -> real, xs: seq<T>): real
    decreases |xs|
  {
    if xs == [] then 0.0 else SumBy(f, xs[..|xs| - 1]) + f(xs[|xs| - 1])
  }

  /** The hours of one record as a summand: absence counts as zero. */
  function HoursOrZero(hours: Option<string>): (v: real)
    ensures v >= 0.0
    ensures ExtractHours(hours).None? ==> v == 0.0
    ensures ExtractHours(hours).Some? ==> v == ExtractHours(hours).value
  {
    ExtractHours(hours).GetOr(0.0)
  }

  /** The hours of a list of records, each absent value counted as zero: the reference for the total. */
  function ListHours(hours: seq<Option<string>>): real {
    SumBy(HoursOrZero, hours)
  }

  lemma {:induction false} ReduceIsSum(acc: real, xs: seq<real>)
    ensures Reduce(acc, xs) == acc + Sum(xs)
    decreases |xs|
  {
    if xs != [] {
      ReduceIsSum(acc + xs[0], xs[1..]);
      SumFront(xs);
    }
  }

  /** Peeling the first element off a sum. */
  lemma {:induction false} SumFront(xs: seq<real>)
    requires xs != []
    ensures Sum(xs) == xs[0] + Sum(xs[1..])
    decreases |xs|
  {
    if |xs| > 1 {
      SumFront(xs[..|xs| - 1]);
      assert xs[..|xs| - 1][1..] == xs[1..][..|xs[1..]| - 1];
    }
  }

  lemma {:induction false} SumAppend(xs: seq<real>, ys: seq<real>)
    ensures Sum(xs + ys) == Sum(xs) + Sum(ys)
    decreases |ys|
  {
    if ys == [] {
      assert xs + ys == xs;
    } else {
      assert (xs + ys)[..|xs + ys| - 1] == xs + ys[..|ys| - 1];
      SumAppend(xs, ys[..|ys| - 1]);
    }
  }

  lemma {:induction false} PresentAppend(xs: seq<Option<real>>, ys: seq<Option<real>>)
    ensures Present(xs + ys) == Present(xs) + Present(ys)
    decreases |xs|
  {
    if xs == [] {
      assert xs + ys == ys;
    } else {
      assert (xs + ys)[0] == xs[0];
      assert (xs + ys)[1..] == xs[1..] + ys;
      PresentAppend(xs[1..], ys);
    }
  }

  /** Dropping the absent values and summing is summing with absence as zero. */
  lemma {:induction false} SumPresentIsSumZeroed(xs: seq<Option<real>>)
    ensures Sum(Present(xs)) == Sum(Zeroed(xs))
    decreases |xs|
  {
    if xs != [] {
      SumPresentIsSumZeroed(xs[1..]);
      SumFront(Zeroed(xs));
      assert Zeroed(xs)[1..] == Zeroed(xs[1..]);
      if xs[0].Some? {
        SumFront(Present(xs));
      }
    }
  }

  lemma {:induction false} ZeroedAppend(xs: seq<Option<real>>, ys: seq<Option<real>>)
    ensures Zeroed(xs + ys) == Zeroed(xs) + Zeroed(ys)
    decreases |ys|
  {
    if ys == [] {
      assert xs + ys == xs;
    } else {
      assert (xs + ys)[..|xs + ys| - 1] == xs + ys[..|ys| - 1];
      ZeroedAppend(xs, ys[..|ys| - 1]);
    }
  }

  lemma {:induction false} SumByAppend<T>(f: T -> real, xs: seq<T>, ys: seq<T>)
    ensures SumBy(f, xs + ys) == SumBy(f, xs) + SumBy(f, ys)
    decreases |ys|
  {
    if ys == [] {
      assert xs + ys == xs;
    } else {
      assert (xs + ys)[..|xs + ys| - 1] == xs + ys[..|ys| - 1];
      SumByAppend(f, xs, ys[..|ys| - 1]);
    }
  }

  /** Splitting a sequence around one occurrence of an element, for the multiset bookkeeping. */
  lemma RemoveOne<T>(xs: seq<T>, ys: seq<T>, k: nat)
    requires |xs| > 0 && k < |ys| && ys[k] == xs[|xs| - 1]
    requires multiset(xs) == multiset(ys)
    ensures multiset(xs[..|xs| - 1]) == multiset(ys[..k] + ys[k + 1..])
  {
    var x := xs[|xs| - 1];
    assert xs == xs[..|xs| - 1] + [x];
    assert ys == ys[..k] + [x] + ys[k + 1..];
    assert multiset(ys) == multiset(ys[..k]) + multiset{x} + multiset(ys[k + 1..]);
    assert multiset(xs[..|xs| - 1]) == multiset(xs) - multiset{x};
    assert multiset(ys[..k] + ys[k + 1..]) == multiset(ys[..k]) + multiset(ys[k + 1..]) == multiset(ys) - multiset{x};
  }

  /** A sum does not depend on the order of its summands. */
  lemma {:induction false} SumByPermutation<T>(f: T -> real, xs: seq<T>, ys: seq<T>)
    requires multiset(xs) == multiset(ys)
    ensures SumBy(f, xs) == SumBy(f, ys)
    decreases |xs|
  {
    if xs == [] {
      assert |ys| == |multiset(ys)| == 0;
    } else {
      var x := xs[|xs| - 1];
      assert x in multiset(ys);
      var k :| 0 <= k < |ys| && ys[k] == x;
      RemoveOne(xs, ys, k);
      SumByPermutation(f, xs[..|xs| - 1], ys[..k] + ys[k + 1..]);
      assert ys == (ys[..k] + [x]) + ys[k + 1..];
      SumByAppend(f, ys[..k] + [x], ys[k + 1..]);
      SumByAppend(f, ys[..k], [x]);
      SumByAppend(f, ys[..k], ys[k + 1..]);
      assert SumBy(f, [x]) == f(x) by {
        assert [x][..0] == [];
      }
    }
  }

  /** The column the page sums, zeros for absences, adds up to the per-record reference. */
  lemma {:induction false} ColumnSumIsListHours(hours: seq<Option<string>>)
    ensures Sum(Zeroed(HoursColumn(hours))) == ListHours(hours)
    decreases |hours|
  {
    if hours != [] {
      var init := hours[..|hours| - 1];
      ColumnSumIsListHours(init);
      assert Zeroed(HoursColumn(hours)) == Zeroed(HoursColumn(init)) + [HoursOrZero(hours[|hours| - 1])];
      assert Zeroed(HoursColumn(hours))[..|hours| - 1] == Zeroed(HoursColumn(init));
    }
  }

  lemma ListHoursAppend(xs: seq<Option<string>>, ys: seq<Option<string>>)
    ensures ListHours(xs + ys) == ListHours(xs) + ListHours(ys)
  {
    SumByAppend(HoursOrZero, xs, ys);
  }

  /** The hours of a list of records do not depend on the order of the records. */
  lemma ListHoursPermutation(xs: seq<Option<string>>, ys: seq<Option<string>>)
    requires multiset(xs) == multiset(ys)
    ensures ListHours(xs) == ListHours(ys)
  {
    SumByPermutation(HoursOrZero, xs, ys);
  }

  /**
   * The page's total is the instructor hours plus the TA hours, with a
   * record whose text has no hours contributing nothing.
   */
  lemma TotalIsSumOfLists(instructor: seq<Option<string>>, ta: seq<Option<string>>)
    ensures TotalTeachingHours(instructor, ta) == ListHours(instructor) + ListHours(ta)
  {
    var xs := HoursColumn(instructor);
    var ys := HoursColumn(ta);
    ReduceIsSum(0.0, Present(xs + ys));
    SumPresentIsSumZeroed(xs + ys);
    ZeroedAppend(xs, ys);
    SumAppend(Zeroed(xs), Zeroed(ys));
    ColumnSumIsListHours(instructor);
    ColumnSumIsListHours(ta);
  }

  /**
   * The total is order-independent: any rearrangement of the records,
   * including moving records between the two lists, gives the same total.
   */
  lemma TotalOrderIndependent(instructor: seq<Option<string>>, ta: seq<Option<string>>,
                              instructor': seq<Option<string>>, ta': seq<Option<string>>)
    requires multiset(instructor + ta) == multiset(instructor' + ta')
    ensures TotalTeachingHours(instructor, ta) == TotalTeachingHours(instructor', ta')
  {
    TotalIsSumOfLists(instructor, ta);
    TotalIsSumOfLists(instructor', ta');
    ListHoursAppend(instructor, ta);
    ListHoursAppend(instructor', ta');
    ListHoursPermutation(instructor + ta, instructor' + ta');
  }

  lemma {:induction false} SumByNonNegative<T>(f: T -> real, xs: seq<T>)
    requires forall x :: f(x) >= 0.0
    ensures SumBy(f, xs) >= 0.0
    decreases |xs|
  {
    if xs != [] {
      SumByNonNegative(f, xs[..|xs| - 1]);
    }
  }

  /** The total is never negative. */
  lemma TotalNonNegative(instructor: seq<Option<string>>, ta: seq<Option<string>>)
    ensures TotalTeachingHours(instructor, ta) >= 0.0
  {
    TotalIsSumOfLists(instructor, ta);
    SumByNonNegative(HoursOrZero, instructor);
    SumByNonNegative(HoursOrZero, ta);
  }

  /** A record without extractable hours (such as "No tutorials") leaves the total unchanged. */
  lemma MissingHoursAddNothing(instructor: seq<Option<string>>, ta: seq<Option<string>>, record: Option<string>)
    requires ExtractHours(record).None?
    ensures TotalTeachingHours(instructor, ta + [record]) == TotalTeachingHours(instructor, ta)
  {
    TotalIsSumOfLists(instructor, ta + [record]);
    TotalIsSumOfLists(instructor, ta);
    ListHoursAppend(ta, [record]);
    assert [record][..0] == [];
  }
}
