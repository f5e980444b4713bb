/** The recency histogram of a share: the most recent timestamp of a list and,
    for each timestamp, the first of five trailing windows (24 hours, 7 days,
    1, 3 and 12 calendar months) whose cutoff date its own date reaches. */
module AccessBuckets {

  const SecondsPerDay: int := 86400

  /** The UTC calendar date of an epoch timestamp, as a day number
      (day 0 is 1970-01-01). Dafny's division floors for a positive divisor,
      as the date of a negative timestamp does. */
  function DayOf(t: int): int
  {
    t / SecondsPerDay
  }

  /** Today's date and the three calendar-month cutoffs (today minus 1, 3
      and 12 months), all as day numbers; the calendar arithmetic that
      produces the month cutoffs is not part of this model. */
  datatype Cutoffs = Cutoffs(today: int, monthAgo: int, threeMonthsAgo: int, yearAgo: int)
  {
    /** today minus 24 hours: the hours normalise to one whole day. */
    function DayAgo(): int { today - 1 }
    function WeekAgo(): int { today - 7 }

    /** The cutoffs a real calendar yields: a month is at least 28 days,
        and each longer window starts no later than the shorter one. */
    predicate FromCalendar()
    {
      yearAgo <= threeMonthsAgo <= monthAgo <= today - 28
    }
  }

  /** The result dictionary: either every key holds the empty string (no
      timestamps at all) or 'last' holds the most recent timestamp and the
      five window keys hold counts. */
  datatype AccessBreakdown =
    | NoTimestamps
    | Counts(last: int, last24Hours: nat, last7Days: nat, lastMonth: nat, last3Months: nat, last12Months: nat)

  /** The window (1 = 24 hours .. 5 = 12 months) a timestamp is counted in,
      or 0 when its date is before every cutoff. The checks run in order
      and the first one that holds wins. */
  function WindowOf(t: int, c: Cutoffs): (w: nat)
    ensures w <= 5
    ensures w == 1 <==> DayOf(t) >= c.DayAgo()
    ensures w == 2 <==> DayOf(t) < c.DayAgo() && DayOf(t) >= c.WeekAgo()
    ensures w == 3 <==> DayOf(t) < c.DayAgo() && DayOf(t) < c.WeekAgo() && DayOf(t) >= c.monthAgo
    ensures w == 4 <==> (DayOf(t) < c.DayAgo() && DayOf(t) < c.WeekAgo() && DayOf(t) < c.monthAgo
                         && DayOf(t) >= c.threeMonthsAgo)
    ensures w == 5 <==> (DayOf(t) < c.DayAgo() && DayOf(t) < c.WeekAgo() && DayOf(t) < c.monthAgo
                         && DayOf(t) < c.threeMonthsAgo && DayOf(t) >= c.yearAgo)
    ensures w == 0 <==> (DayOf(t) < c.DayAgo() && DayOf(t) < c.WeekAgo() && DayOf(t) < c.monthAgo
                         && DayOf(t) < c.threeMonthsAgo && DayOf(t) < c.yearAgo)
  {
    var d := DayOf(t);
    if d >= c.DayAgo() then 1
    else if d >= c.WeekAgo() then 2
    else if d >= c.monthAgo then 3
    else if d >= c.threeMonthsAgo then 4
    else if d >= c.yearAgo then 5
    else 0
  }

  /** How many of `ts` are counted in window `w`. */
  function CountWindow(ts: seq<int>, c: Cutoffs, w: nat): nat
  {
    if ts == [] then 0
    else (if WindowOf(ts[0], c) == w then 1 else 0) + CountWindow(ts[1..], c, w)
  }

  /** The largest element of a non-empty list. */
  function Max(ts: seq<int>): (m: int)
    requires |ts| > 0
    ensures m in ts
    ensures forall i :: 0 <= i < |ts| ==> ts[i] <= m
  {
    if |ts| == 1 then ts[0]
    else
      var rest := Max(ts[1..]);
      assert forall i :: 1 <= i < |ts| ==> ts[i] == ts[1..][i - 1];
      if ts[0] >= rest then ts[0] else rest
  }

  /** The dictionary that breakdown_access returns for a list of timestamps. */
  function AccessSummary(ts: seq<int>, c: Cutoffs): (r: AccessBreakdown)
    ensures r.NoTimestamps? <==> ts == []
    ensures r.Counts? ==> r.last in ts && forall i :: 0 <= i < |ts| ==> ts[i] <= r.last
    ensures WindowTotal(r) + CountWindow(ts, c, 0) == |ts|
  {
    WindowsPartition(ts, c);
    if ts == [] then NoTimestamps
    else Counts(Max(ts), CountWindow(ts, c, 1), CountWindow(ts, c, 2), CountWindow(ts, c, 3),
                CountWindow(ts, c, 4), CountWindow(ts, c, 5))
  }

  function WindowTotal(r: AccessBreakdown): nat
  {
    match r
    case NoTimestamps => 0
    case Counts(_, h, d, m, m3, m12) => h + d + m + m3 + m12
  }

  /** Largest first. */
  ghost predicate Descending(ts: seq<int>)
  {
    forall i, j :: 0 <= i < j < |ts| ==> ts[i] >= ts[j]
  }

  // ---------------------------------------------------------------------------
  // Windows

  /** Under calendar cutoffs, window w is exactly the half-open range of
      dates between its own cutoff and the next shorter window's cutoff. */
  lemma WindowRanges(t: int, c: Cutoffs)
    requires c.FromCalendar()
    ensures WindowOf(t, c) == 1 <==> c.DayAgo() <= DayOf(t)
    ensures WindowOf(t, c) == 2 <==> c.WeekAgo() <= DayOf(t) < c.DayAgo()
    ensures WindowOf(t, c) == 3 <==> c.monthAgo <= DayOf(t) < c.WeekAgo()
    ensures WindowOf(t, c) == 4 <==> c.threeMonthsAgo <= DayOf(t) < c.monthAgo
    ensures WindowOf(t, c) == 5 <==> c.yearAgo <= DayOf(t) < c.threeMonthsAgo
    ensures WindowOf(t, c) == 0 <==> DayOf(t) < c.yearAgo
  {
  }

  lemma {:induction false} CountWindowAppend(ts: seq<int>, x: int, c: Cutoffs, w: nat)
    ensures CountWindow(ts + [x], c, w) == CountWindow(ts, c, w) + (if WindowOf(x, c) == w then 1 else 0)
  {
    if ts != [] {
      assert (ts + [x])[1..] == ts[1..] + [x];
      CountWindowAppend(ts[1..], x, c, w);
    }
  }

  lemma {:induction false} CountWindowConcat(xs: seq<int>, ys: seq<int>, c: Cutoffs, w: nat)
    ensures CountWindow(xs + ys, c, w) == CountWindow(xs, c, w) + CountWindow(ys, c, w)
  {
    if xs != [] {
      var zs := xs + ys;
      assert zs[0] == xs[0];
      assert zs[1..] == xs[1..] + ys;
      CountWindowConcat(xs[1..], ys, c, w);
      assert CountWindow(zs, c, w) == (if WindowOf(zs[0], c) == w then 1 else 0) + CountWindow(zs[1..], c, w);
    } else {
      assert xs + ys == ys;
    }
  }

  /** The counts depend only on which timestamps there are, not on their
      order, so counting the sorted list counts the caller's list. */
  lemma {:induction false} CountWindowPermutation(xs: seq<int>, ys: seq<int>, c: Cutoffs, w: nat)
    requires multiset(xs) == multiset(ys)
    ensures CountWindow(xs, c, w) == CountWindow(ys, c, w)
    decreases |xs|
  {
    if xs == [] {
      assert |multiset(ys)| == 0;
    } else {
      var x := xs[0];
      assert x in multiset(ys);
      var i :| 0 <= i < |ys| && ys[i] == x;
      var rest := ys[..i] + ys[i + 1..];
      RemoveOneKeepsRest(xs, ys, i);
      CountWindowPermutation(xs[1..], rest, c, w);
      CountWindowRemove(ys, i, c, w);
    }
  }

  /** Taking the same element out of two permutations of each other leaves
      permutations of each other. */
  lemma RemoveOneKeepsRest(xs: seq<int>, ys: seq<int>, i: nat)
    requires xs != [] && i < |ys| && ys[i] == xs[0]
    requires multiset(xs) == multiset(ys)
    ensures multiset(xs[1..]) == multiset(ys[..i] + ys[i + 1..])
  {
    var x := xs[0];
    assert ys == ys[..i] + [x] + ys[i + 1..];
    assert xs == [x] + xs[1..];
    assert multiset(ys) == multiset(ys[..i]) + multiset{x} + multiset(ys[i + 1..]);
    assert multiset(xs[1..]) == multiset(xs) - multiset{x};
  }

  /** Counting without the i-th timestamp counts one fewer when it falls in
      the window. */
  lemma CountWindowRemove(ys: seq<int>, i: nat, c: Cutoffs, w: nat)
    requires i < |ys|
    ensures CountWindow(ys, c, w)
      == CountWindow(ys[..i] + ys[i + 1..], c, w) + (if WindowOf(ys[i], c) == w then 1 else 0)
  {
    assert ys == ys[..i] + [ys[i]] + ys[i + 1..];
    CountWindowConcat(ys[..i] + [ys[i]], ys[i + 1..], c, w);
    CountWindowAppend(ys[..i], ys[i], c, w);
    CountWindowConcat(ys[..i], ys[i + 1..], c, w);
  }

  /** Each timestamp lands in exactly one of window 0 (none) .. 5. */
  lemma {:induction false} WindowsPartition(ts: seq<int>, c: Cutoffs)
    ensures CountWindow(ts, c, 0) + CountWindow(ts, c, 1) + CountWindow(ts, c, 2) + CountWindow(ts, c, 3)
            + CountWindow(ts, c, 4) + CountWindow(ts, c, 5) == |ts|
  {
    if ts != [] {
      WindowsPartition(ts[1..], c);
    }
  }

  /** The five window counts never exceed the number of timestamps; they fall
      short by exactly the timestamps dated before the 12-month cutoff. */
  lemma SummaryCountsBound(ts: seq<int>, c: Cutoffs)
    ensures WindowTotal(AccessSummary(ts, c)) + CountWindow(ts, c, 0) == |ts|
    ensures WindowTotal(AccessSummary(ts, c)) <= |ts|
  {
    WindowsPartition(ts, c);
  }

  /** The empty list yields the all-empty dictionary, including 'last'; any
      other list yields its maximum as 'last'. */
  lemma SummaryShape(ts: seq<int>, c: Cutoffs)
    ensures AccessSummary(ts, c).NoTimestamps? <==> ts == []
    ensures ts != [] ==> AccessSummary(ts, c).last in ts
    ensures ts != [] ==> forall i :: 0 <= i < |ts| ==> ts[i] <= AccessSummary(ts, c).last
  {
  }

  /** A single timestamp older than the 12-month cutoff is still 'last',
      but it is counted in none of the five windows. */
  lemma StaleTimestampCountsNowhere(t: int, c: Cutoffs)
    requires c.FromCalendar()
    requires DayOf(t) < c.yearAgo
    ensures AccessSummary([t], c) == Counts(t, 0, 0, 0, 0, 0)
  {
    assert WindowOf(t, c) == 0;
    assert [t][1..] == [];
    assert Max([t]) == t;
    assert CountWindow([t], c, 1) == 0 && CountWindow([t], c, 2) == 0 && CountWindow([t], c, 3) == 0;
    assert CountWindow([t], c, 4) == 0 && CountWindow([t], c, 5) == 0;
  }

  // ---------------------------------------------------------------------------
  // Sorting

  /** A descending order of a multiset is unique: sorting a list of integers
      in reverse leaves no freedom. */
  lemma {:induction false} DescendingUnique(xs: seq<int>, ys: seq<int>)
    requires Descending(xs) && Descending(ys)
    requires multiset(xs) == multiset(ys)
    ensures xs == ys
    decreases |xs|
  {
    if xs == [] {
      assert |multiset(ys)| == 0;
    } else {
      assert ys != [] by { assert |multiset(ys)| == |multiset(xs)| > 0; }
      assert xs[0] in multiset(ys);
      assert ys[0] in multiset(xs);
      assert xs[0] == ys[0];
      assert xs == [xs[0]] + xs[1..];
      assert ys == [ys[0]] + ys[1..];
      assert multiset(xs) == multiset{xs[0]} + multiset(xs[1..]);
      assert multiset(ys) == multiset{ys[0]} + multiset(ys[1..]);
      assert multiset(xs[1..]) == multiset(xs) - multiset{xs[0]};
      assert multiset(ys[1..]) == multiset(ys) - multiset{ys[0]};
      DescendingUnique(xs[1..], ys[1..]);
    }
  }

  /** list.sort(reverse=True): an insertion sort, largest first. */
  method SortDescending(a: array<int>)
    modifies a
    ensures Descending(a[..])
    ensures multiset(a[..]) == old(multiset(a[..]))
  {
    if a.Length == 0 { return; }
    var i := 1;
    while i < a.Length
      invariant 1 <= i <= a.Length
      invariant forall p, q :: 0 <= p < q < i ==> a[p] >= a[q]
      invariant multiset(a[..]) == old(multiset(a[..]))
    {
      var j := i;
      while j > 0 && a[j - 1] < a[j]
        invariant 0 <= j <= i
        invariant forall p, q :: 0 <= p < q <= i && p != j && q != j ==> a[p] >= a[q]
        invariant forall q :: j < q <= i ==> a[j] > a[q]
        invariant multiset(a[..]) == old(multiset(a[..]))
      {
        SwapAdjacent(a, j - 1);
        j := j - 1;
      }
      i := i + 1;
    }
  }

  /** Exchanges a[k] and a[k + 1]; the array's contents are unchanged as a
      multiset. */
  method SwapAdjacent(a: array<int>, k: nat)
    requires k + 1 < a.Length
    modifies a
    ensures a[..] == old(a[..])[k := old(a[k + 1])][k + 1 := old(a[k])]
    ensures multiset(a[..]) == old(multiset(a[..]))
  {
    a[k], a[k + 1] := a[k + 1], a[k];
  }

  /** breakdown_access: sorts the caller's list in place, largest first,
      then counts each timestamp in the first window its date reaches. */
  method BreakdownAccess(a: array<int>, c: Cutoffs) returns (r: AccessBreakdown)
    modifies a
    ensures Descending(a[..]) && multiset(a[..]) == old(multiset(a[..]))
    ensures r == AccessSummary(old(a[..]), c)
    ensures r.Counts? ==> r.last == a[0]
  {
    ghost var input := a[..];
    SortDescending(a);
    if a.Length == 0 {
      assert input == [];
      return NoTimestamps;
    }
    ghost var sorted := a[..];
    var last := a[0];
    var h, d, m, m3, m12 := 0, 0, 0, 0, 0;
    var i := 0;
    while i < a.Length
      invariant 0 <= i <= a.Length
      invariant a[..] == sorted
      invariant h == CountWindow(a[..i], c, 1) && d == CountWindow(a[..i], c, 2)
      invariant m == CountWindow(a[..i], c, 3) && m3 == CountWindow(a[..i], c, 4)
      invariant m12 == CountWindow(a[..i], c, 5)
    {
      var time := a[i];
      var day := DayOf(time);
      assert a[..i + 1] == a[..i] + [time];
      CountWindowAppend(a[..i], time, c, 1);
      CountWindowAppend(a[..i], time, c, 2);
      CountWindowAppend(a[..i], time, c, 3);
      CountWindowAppend(a[..i], time, c, 4);
      CountWindowAppend(a[..i], time, c, 5);
      i := i + 1;
      if day >= c.DayAgo() {
        h := h + 1;
        continue;
      }
      if day >= c.WeekAgo() {
        d := d + 1;
        continue;
      }
      if day >= c.monthAgo {
        m := m + 1;
        continue;
      }
      if day >= c.threeMonthsAgo {
        m3 := m3 + 1;
        continue;
      }
      if day >= c.yearAgo {
        m12 := m12 + 1;
        continue;
      }
    }
    assert a[..i] == a[..];
    assert last == Max(a[..]) by {
      var top := Max(a[..]);
      var k :| 0 <= k < |sorted| && sorted[k] == top;
      assert sorted[0] >= sorted[k] || k == 0;
    }
    assert Max(a[..]) == Max(input) by {
      var mx := Max(input);
      assert mx in multiset(a[..]);
      assert Max(a[..]) in multiset(input);
    }
    CountWindowPermutation(a[..], input, c, 1);
    CountWindowPermutation(a[..], input, c, 2);
    CountWindowPermutation(a[..], input, c, 3);
    CountWindowPermutation(a[..], input, c, 4);
    CountWindowPermutation(a[..], input, c, 5);
    r := Counts(last, h, d, m, m3, m12);
  }
}
