/**
 * The snapshot overview: the average of a metric series and the window of
 * lapse bars, which holds the last eight PVT runs in chronological order.
 */
module ExportOverview {
  import opened Wrappers
  import opened Stats
  import opened Records

  // ---- average_value ----

  /** `average_value`: None for no values, otherwise their mean. */
  function AverageValue(values: seq<real>): (r: Option<real>)
    ensures r.None? <==> values == []
    ensures r.Some? ==> r.value * (|values| as real) == Sum(values)
  {
    if values == [] then None
    else
      MeanTimesCount(values);
      Some(Mean(values))
  }

  lemma {:induction false} SumBounds(values: seq<real>, lo: real, hi: real)
    requires forall i :: 0 <= i < |values| ==> lo <= values[i] <= hi
    ensures (|values| as real) * lo <= Sum(values) <= (|values| as real) * hi
  {
    if values != [] {
      var init := values[..|values| - 1];
      SumBounds(init, lo, hi);
      assert (|values| as real) * lo == (|init| as real) * lo + lo;
      assert (|values| as real) * hi == (|init| as real) * hi + hi;
    }
  }

  lemma ScaleBounds(avg: real, n: real, lo: real, hi: real)
    requires n > 0.0 && n * lo <= avg * n <= n * hi
    ensures lo <= avg <= hi
  {
  }

  /** The average lies between the smallest and the largest bound of the values. */
  lemma AverageWithinBounds(values: seq<real>, lo: real, hi: real)
    requires values != []
    requires forall i :: 0 <= i < |values| ==> lo <= values[i] <= hi
    ensures lo <= AverageValue(values).value <= hi
  {
    SumBounds(values, lo, hi);
    ScaleBounds(AverageValue(values).value, |values| as real, lo, hi);
  }

  // ---- the bar window ----

  /** One bar of the lapse chart: its time badge and the run's lapse and false-start counts. */
  datatype BarSample = BarSample(badgeText: string, lapses: nat, falseStarts: nat)

  /** A sample with the run's Unix time, the sort key. */
  datatype Stamped = Stamped(at: int, sample: BarSample)

  /**
   * The records the overview reads: the clean ones, or all of them when
   * none is clean. `isClean` is `record_is_clean`, which is not part of
   * this model.
   */
  function Candidates(records: seq<SummaryRecord>, isClean: SummaryRecord -> bool): seq<SummaryRecord> {
    var clean := CleanOnes(records, isClean);
    if clean == [] then records else clean
  }

  function CleanOnes(records: seq<SummaryRecord>, isClean: SummaryRecord -> bool): seq<SummaryRecord> {
    if records == [] then []
    else (if isClean(records[0]) then [records[0]] else []) + CleanOnes(records[1..], isClean)
  }

  /** The clean records are exactly the records `isClean` accepts, in order. */
  lemma {:induction false} CleanOnesExact(records: seq<SummaryRecord>, isClean: SummaryRecord -> bool)
    ensures forall r :: r in CleanOnes(records, isClean) <==> r in records && isClean(r)
  {
    if records != [] {
      CleanOnesExact(records[1..], isClean);
      assert records == [records[0]] + records[1..];
    }
  }

  /**
   * The candidates are records; they are all clean unless no record is
   * clean, and then they are all the records.
   */
  lemma CandidatesFromRecords(records: seq<SummaryRecord>, isClean: SummaryRecord -> bool)
    ensures forall r :: r in Candidates(records, isClean) ==> r in records
    ensures (exists r :: r in records && isClean(r)) ==> forall r :: r in Candidates(records, isClean) ==> isClean(r)
    ensures (forall r :: r in records ==> !isClean(r)) ==> Candidates(records, isClean) == records
  {
    CleanOnesExact(records, isClean);
    if CleanOnes(records, isClean) != [] {
      assert CleanOnes(records, isClean)[0] in CleanOnes(records, isClean);
    }
    if exists r :: r in records && isClean(r) {
      var r :| r in records && isClean(r);
      assert r in CleanOnes(records, isClean);
    }
  }

  /** A record gives a bar when it is a PVT run whose time stamp and metrics both parse. */
  predicate GivesBar(r: SummaryRecord) {
    r.task == "pvt" && r.createdInstant.Some? && r.pvt.Some?
  }

  function BarOf(r: SummaryRecord, badge: int -> string): Stamped
    requires GivesBar(r)
  {
    Stamped(r.createdInstant.value, BarSample(badge(r.createdInstant.value), r.pvt.value.lapsesGe500Ms, r.pvt.value.falseStarts))
  }

  /** The bars in record order. `badge` is `format_time_badge`. */
  function Collected(records: seq<SummaryRecord>, badge: int -> string): (bars: seq<Stamped>)
    ensures |bars| <= |records|
  {
    if records == [] then []
    else (if GivesBar(records[0]) then [BarOf(records[0], badge)] else []) + Collected(records[1..], badge)
  }

  lemma {:induction false} CollectedAppend(records: seq<SummaryRecord>, r: SummaryRecord, badge: int -> string)
    ensures Collected(records + [r], badge) == Collected(records, badge) + (if GivesBar(r) then [BarOf(r, badge)] else [])
  {
    if records == [] {
      assert [] + [r] == [r];
    } else {
      AppendTail(records, r);
      CollectedAppend(records[1..], r, badge);
      ConcatAssoc(if GivesBar(records[0]) then [BarOf(records[0], badge)] else [], Collected(records[1..], badge),
                  if GivesBar(r) then [BarOf(r, badge)] else []);
    }
  }

  /** The collection loop of `SnapshotOverview::build`, for the bars. */
  method CollectBars(records: seq<SummaryRecord>, badge: int -> string) returns (bars: seq<Stamped>)
    ensures bars == Collected(records, badge)
  {
    bars := [];
    var i := 0;
    while i < |records|
      invariant 0 <= i <= |records|
      invariant bars == Collected(records[..i], badge)
    {
      var record := records[i];
      CollectedAppend(records[..i], record, badge);
      assert records[..i + 1] == records[..i] + [record];
      if GivesBar(record) {
        bars := bars + [BarOf(record, badge)];
      }
      i := i + 1;
    }
    assert records[..i] == records;
  }

  // ---- sorting by time (`sort_by` on the stamp, a stable sort) ----

  predicate SortedByTime(s: seq<Stamped>) {
    forall i, j :: 0 <= i < j < |s| ==> s[i].at <= s[j].at
  }

  /** `b` inserted after every element whose stamp is not later. */
  function Insert(s: seq<Stamped>, b: Stamped): (r: seq<Stamped>)
    ensures |r| == |s| + 1
  {
    if s == [] then [b]
    else if b.at < s[0].at then [b] + s
    else [s[0]] + Insert(s[1..], b)
  }

  lemma {:induction false} InsertPermutes(s: seq<Stamped>, b: Stamped)
    ensures multiset(Insert(s, b)) == multiset(s) + multiset{b}
  {
    if s != [] && b.at >= s[0].at {
      InsertPermutes(s[1..], b);
      assert s == [s[0]] + s[1..];
    }
  }

  /** Every stamp of the insertion is at least a bound of `b` and of every element of `s`. */
  lemma {:induction false} InsertAbove(s: seq<Stamped>, b: Stamped, lo: int)
    requires lo <= b.at && forall k :: 0 <= k < |s| ==> lo <= s[k].at
    ensures forall k :: 0 <= k < |s| + 1 ==> lo <= Insert(s, b)[k].at
  {
    if s != [] && b.at >= s[0].at {
      assert forall k :: 0 <= k < |s| - 1 ==> s[1..][k] == s[k + 1];
      InsertAbove(s[1..], b, lo);
    }
  }

  lemma SortedTail(s: seq<Stamped>)
    requires s != [] && SortedByTime(s)
    ensures SortedByTime(s[1..]) && forall k :: 0 <= k < |s| ==> s[0].at <= s[k].at
  {
    assert forall i :: 0 <= i < |s| - 1 ==> s[1..][i] == s[i + 1];
  }

  lemma SortedCons(x: Stamped, s: seq<Stamped>)
    requires SortedByTime(s) && forall k :: 0 <= k < |s| ==> x.at <= s[k].at
    ensures SortedByTime([x] + s)
  {
    assert forall i :: 0 <= i < |s| ==> ([x] + s)[i + 1] == s[i];
  }

  lemma {:induction false} InsertSorted(s: seq<Stamped>, b: Stamped)
    requires SortedByTime(s)
    ensures SortedByTime(Insert(s, b))
  {
    if s == [] {
    } else if b.at < s[0].at {
      SortedTail(s);
      SortedCons(b, s);
    } else {
      SortedTail(s);
      InsertSorted(s[1..], b);
      InsertAbove(s[1..], b, s[0].at);
      assert forall k :: 0 <= k < |s| - 1 ==> s[1..][k] == s[k + 1];
      SortedCons(s[0], Insert(s[1..], b));
    }
  }

  function SortByTime(s: seq<Stamped>): (r: seq<Stamped>)
    ensures |r| == |s|
  {
    if s == [] then [] else Insert(SortByTime(s[..|s| - 1]), s[|s| - 1])
  }

  lemma {:induction false} SortByTimePermutes(s: seq<Stamped>)
    ensures multiset(SortByTime(s)) == multiset(s)
  {
    if s != [] {
      SortByTimePermutes(s[..|s| - 1]);
      InsertPermutes(SortByTime(s[..|s| - 1]), s[|s| - 1]);
      assert s == s[..|s| - 1] + [s[|s| - 1]];
    }
  }

  lemma {:induction false} SortByTimeSorted(s: seq<Stamped>)
    ensures SortedByTime(SortByTime(s))
  {
    if s != [] {
      SortByTimeSorted(s[..|s| - 1]);
      InsertSorted(SortByTime(s[..|s| - 1]), s[|s| - 1]);
    }
  }

  /** The elements with stamp `t`, in order. */
  function At(s: seq<Stamped>, t: int): seq<Stamped> {
    if s == [] then [] else (if s[0].at == t then [s[0]] else []) + At(s[1..], t)
  }

  lemma AtCons(x: Stamped, s: seq<Stamped>, t: int)
    ensures At([x] + s, t) == (if x.at == t then [x] else []) + At(s, t)
  {
    assert ([x] + s)[1..] == s;
  }

  lemma {:induction false} AtAppend(s: seq<Stamped>, b: Stamped, t: int)
    ensures At(s + [b], t) == At(s, t) + (if b.at == t then [b] else [])
  {
    if s == [] {
      assert [] + [b] == [b];
    } else {
      AppendTail(s, b);
      AtAppend(s[1..], b, t);
      ConcatAssoc(if s[0].at == t then [s[0]] else [], At(s[1..], t), if b.at == t then [b] else []);
    }
  }

  lemma {:induction false} AtOfLater(s: seq<Stamped>, t: int)
    requires forall k :: 0 <= k < |s| ==> s[k].at > t
    ensures At(s, t) == []
  {
    if s != [] {
      assert forall k :: 0 <= k < |s| - 1 ==> s[1..][k] == s[k + 1];
      AtOfLater(s[1..], t);
    }
  }

  lemma {:induction false} AtInsert(s: seq<Stamped>, b: Stamped, t: int)
    requires SortedByTime(s)
    ensures At(Insert(s, b), t) == At(s, t) + (if b.at == t then [b] else [])
  {
    if s == [] {
      AtCons(b, [], t);
    } else if b.at < s[0].at {
      AtCons(b, s, t);
      if b.at == t {
        SortedTail(s);
        AtOfLater(s, t);
      }
    } else {
      SortedTail(s);
      AtInsert(s[1..], b, t);
      AtCons(s[0], Insert(s[1..], b), t);
    }
  }

  /** Sorting is stable: runs with equal stamps keep their order. */
  lemma {:induction false} SortByTimeStable(s: seq<Stamped>, t: int)
    ensures At(SortByTime(s), t) == At(s, t)
  {
    if s != [] {
      var init, last := s[..|s| - 1], s[|s| - 1];
      SortByTimeStable(init, t);
      SortByTimeSorted(init);
      AtInsert(SortByTime(init), last, t);
      assert s == init + [last];
      AtAppend(init, last, t);
    }
  }

  // ---- keeping the last eight ----

  function Reverse<T>(s: seq<T>): (r: seq<T>)
    ensures |r| == |s| && forall i :: 0 <= i < |s| ==> r[i] == s[|s| - 1 - i]
  {
    if s == [] then [] else Reverse(s[1..]) + [s[0]]
  }

  function Take<T>(s: seq<T>, n: nat): (r: seq<T>)
    ensures |r| == if |s| <= n then |s| else n
    ensures r == s[..|r|]
  {
    if |s| <= n then s else s[..n]
  }

  const BarWindow: nat := 8

  /** `rev().take(8)` then `reverse()` when there are more than eight samples. */
  function KeepLast(s: seq<BarSample>): (r: seq<BarSample>)
    ensures |r| == if |s| > BarWindow then BarWindow else |s|
  {
    if |s| > BarWindow then Reverse(Take(Reverse(s), BarWindow)) else s
  }

  /** The window is the last eight samples, in their original order. */
  lemma KeepLastIsSuffix(s: seq<BarSample>)
    ensures KeepLast(s) == s[|s| - |KeepLast(s)|..]
  {
    if |s| > BarWindow {
      var r := KeepLast(s);
      var tail := s[|s| - BarWindow..];
      assert |r| == |tail|;
      forall i | 0 <= i < BarWindow
        ensures r[i] == tail[i]
      {
        var rev := Reverse(s);
        var taken := Take(rev, BarWindow);
        assert r[i] == taken[BarWindow - 1 - i];
        assert taken[BarWindow - 1 - i] == rev[BarWindow - 1 - i];
      }
    }
  }

  function Samples(s: seq<Stamped>): (r: seq<BarSample>)
    ensures |r| == |s| && forall i :: 0 <= i < |s| ==> r[i] == s[i].sample
  {
    if s == [] then [] else [s[0].sample] + Samples(s[1..])
  }

  /**
   * The bar samples of `SnapshotOverview::build`: collected from the
   * candidate records, sorted by time, stripped of the stamp and cut to
   * the last eight.
   */
  method BarSamples(records: seq<SummaryRecord>, isClean: SummaryRecord -> bool, badge: int -> string)
    returns (window: seq<BarSample>, sorted: seq<Stamped>)
    ensures SortedByTime(sorted)
    ensures multiset(sorted) == multiset(Collected(Candidates(records, isClean), badge))
    ensures forall t :: At(sorted, t) == At(Collected(Candidates(records, isClean), badge), t)
    ensures |window| == if |sorted| > BarWindow then BarWindow else |sorted|
    ensures window == Samples(sorted)[|sorted| - |window|..]
  {
    var clean := CleanOnes(records, isClean);
    if clean == [] {
      clean := records;
    }
    assert clean == Candidates(records, isClean);
    var collected := CollectBars(clean, badge);
    sorted := SortBars(collected);
    window := LastEight(Samples(sorted));
  }

  /** `sort_by` on the stamp: sorted, a permutation, and stable. */
  method SortBars(collected: seq<Stamped>) returns (sorted: seq<Stamped>)
    ensures SortedByTime(sorted)
    ensures multiset(sorted) == multiset(collected)
    ensures forall t :: At(sorted, t) == At(collected, t)
  {
    sorted := SortByTime(collected);
    SortByTimeSorted(collected);
    SortByTimePermutes(collected);
    forall t
      ensures At(sorted, t) == At(collected, t)
    {
      SortByTimeStable(collected, t);
    }
  }

  /** `rev().take(8)` and `reverse()` when more than eight: the last eight samples. */
  method LastEight(samples: seq<BarSample>) returns (window: seq<BarSample>)
    ensures |window| == if |samples| > BarWindow then BarWindow else |samples|
    ensures window == samples[|samples| - |window|..]
  {
    window := samples;
    if |window| > BarWindow {
      window := Reverse(Take(Reverse(window), BarWindow));
    }
    KeepLastIsSuffix(samples);
  }
}
