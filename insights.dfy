/** The "Productivity Insights" card of the analytics page: the band the overall
    completion rate falls in, and the most and least productive weekday.

    The weekday picks are folds exactly as the page writes them: the seven
    weekday buckets are filtered to those with records, and the filtered list is
    reduced starting from the Sunday bucket, whatever Sunday holds. The
    comparison is strict, so on equal rates the later bucket replaces the one
    kept so far. */
module Insights {
  import opened TodoApp
  import opened Analytics

  datatype Option<T> = None | Some(value: T)

  /** The three messages of the card, from best to worst. */
  datatype Band = Excellent | Progressing | NeedsAttention

  /** The nested conditional choosing the message: `> 70`, then `> 40`, then the rest. */
  function Rating(rate: int): (b: Band)
    ensures b == Excellent <==> rate > 70
    ensures b == Progressing <==> 40 < rate <= 70
    ensures b == NeedsAttention <==> rate <= 40
  {
    if rate > 70 then Excellent else if rate > 40 then Progressing else NeedsAttention
  }

  function Rank(b: Band): nat
  {
    match b
    case NeedsAttention => 0
    case Progressing => 1
    case Excellent => 2
  }

  /** A higher completion rate never earns a worse message. */
  lemma RatingMonotone(lower: int, higher: int)
    requires lower <= higher
    ensures Rank(Rating(lower)) <= Rank(Rating(higher))
  {
  }

  /** `weekdayData.filter(day => day.total > 0)`. */
  function Active(ws: seq<WeekdayStat>): (r: seq<WeekdayStat>)
    ensures |r| <= |ws|
    ensures forall k :: 0 <= k < |r| ==> r[k].total > 0
    ensures forall x :: x in r <==> x in ws && x.total > 0
  {
    if ws == [] then []
    else
      var rest, last := Active(ws[..|ws| - 1]), ws[|ws| - 1];
      assert ws == ws[..|ws| - 1] + [last];
      if last.total > 0 then rest + [last] else rest
  }

  /** The filter keeps every bucket with records as often as it occurs, in the order of `ws`,
      and nothing else: on equal rates, "later" in the folds means later in the week. */
  lemma ActiveKeepsOrder(ws: seq<WeekdayStat>)
    ensures IsSubsequence(Active(ws), ws)
    ensures forall x: WeekdayStat :: x.total > 0 ==> multiset(Active(ws))[x] == multiset(ws)[x]
  {
    ActiveIsSubsequence(ws);
    forall x: WeekdayStat | x.total > 0
      ensures multiset(Active(ws))[x] == multiset(ws)[x]
    {
      ActiveKeepsBucket(ws, x);
    }
  }

  lemma {:induction false} ActiveIsSubsequence(ws: seq<WeekdayStat>)
    ensures IsSubsequence(Active(ws), ws)
  {
    if ws != [] {
      var init, last := ws[..|ws| - 1], ws[|ws| - 1];
      ActiveIsSubsequence(init);
      var rest := Active(init);
      if last.total > 0 {
        assert (rest + [last])[..|rest|] == rest;
      } else {
        assert rest == [] || rest[|rest| - 1] != last;
      }
    }
  }

  lemma {:induction false} ActiveKeepsBucket(ws: seq<WeekdayStat>, x: WeekdayStat)
    requires x.total > 0
    ensures multiset(Active(ws))[x] == multiset(ws)[x]
  {
    if ws != [] {
      var init, last := ws[..|ws| - 1], ws[|ws| - 1];
      ActiveKeepsBucket(init, x);
      assert ws == init + [last];
      assert multiset(ws) == multiset(init) + multiset{last};
      if last.total > 0 {
        var rest := Active(init);
        assert multiset(rest + [last]) == multiset(rest) + multiset{last};
      }
    }
  }

  /** A first bucket with records is the first bucket the filter keeps. */
  lemma {:induction false} ActiveFirst(ws: seq<WeekdayStat>)
    requires |ws| > 0 && ws[0].total > 0
    ensures |Active(ws)| > 0 && Active(ws)[0] == ws[0]
  {
    var n := |ws|;
    if n > 1 {
      var init := ws[..n - 1];
      ActiveFirst(init);
      assert Active(ws)[0] == Active(init)[0];
    }
  }

  /** `rest.reduce((prev, current) => prev.completionRate > current.completionRate ? prev : current, prev)`. */
  function MostReduce(prev: WeekdayStat, rest: seq<WeekdayStat>): WeekdayStat
    decreases |rest|
  {
    if rest == [] then prev
    else MostReduce(if prev.completionRate > rest[0].completionRate then prev else rest[0], rest[1..])
  }

  /** `rest.reduce((prev, current) => prev.completionRate < current.completionRate ? prev : current, prev)`. */
  function LeastReduce(prev: WeekdayStat, rest: seq<WeekdayStat>): WeekdayStat
    decreases |rest|
  {
    if rest == [] then prev
    else LeastReduce(if prev.completionRate < rest[0].completionRate then prev else rest[0], rest[1..])
  }

  /** The "Most productive day": the fold over the non-empty buckets seeded with `weekdayData[0]`. */
  function MostProductive(ws: seq<WeekdayStat>): WeekdayStat
    requires |ws| > 0
  {
    MostReduce(ws[0], Active(ws))
  }

  /** The "Least productive day": the same fold with the comparison reversed. */
  function LeastProductive(ws: seq<WeekdayStat>): WeekdayStat
    requires |ws| > 0
  {
    LeastReduce(ws[0], Active(ws))
  }

  /** `l[k]` has the highest rate in `l`, and every later element a strictly lower one:
      it is the last of the maxima. */
  ghost predicate IsLastMaximum(l: seq<WeekdayStat>, k: int)
  {
    && 0 <= k < |l|
    && (forall j :: 0 <= j < |l| ==> l[j].completionRate <= l[k].completionRate)
    && (forall j :: k < j < |l| ==> l[j].completionRate < l[k].completionRate)
  }

  /** `l[k]` has the lowest rate in `l`, and every later element a strictly higher one:
      it is the last of the minima. */
  ghost predicate IsLastMinimum(l: seq<WeekdayStat>, k: int)
  {
    && 0 <= k < |l|
    && (forall j :: 0 <= j < |l| ==> l[k].completionRate <= l[j].completionRate)
    && (forall j :: k < j < |l| ==> l[k].completionRate < l[j].completionRate)
  }

  /** The strict fold returns the last maximum of the seed followed by the list. */
  lemma MostReduceIsLastMaximum(prev: WeekdayStat, rest: seq<WeekdayStat>)
    ensures exists k :: IsLastMaximum([prev] + rest, k) && MostReduce(prev, rest) == ([prev] + rest)[k]
  {
    var k := MostReduceIndex(prev, rest);
  }

  /** The position of the fold's result: it is found by following the fold one step at a time. */
  lemma {:induction false} MostReduceIndex(prev: WeekdayStat, rest: seq<WeekdayStat>) returns (k: nat)
    ensures IsLastMaximum([prev] + rest, k) && MostReduce(prev, rest) == ([prev] + rest)[k]
    decreases |rest|
  {
    var l := [prev] + rest;
    if rest == [] {
      k := 0;
    } else {
      var keep := prev.completionRate > rest[0].completionRate;
      var next := if keep then prev else rest[0];
      var l' := [next] + rest[1..];
      var k' := MostReduceIndex(next, rest[1..]);
      forall j | 2 <= j < |l|
        ensures l[j] == l'[j - 1]
      {
      }
      if k' > 0 {
        assert l'[0] == next;
        k := k' + 1;
        assert l[k] == l'[k'];
      } else if keep {
        k := 0;
      } else {
        k := 1;
      }
    }
  }

  /** The strict fold with `<` returns the last minimum of the seed followed by the list. */
  lemma LeastReduceIsLastMinimum(prev: WeekdayStat, rest: seq<WeekdayStat>)
    ensures exists k :: IsLastMinimum([prev] + rest, k) && LeastReduce(prev, rest) == ([prev] + rest)[k]
  {
    var k := LeastReduceIndex(prev, rest);
  }

  /** The position of the fold's result: it is found by following the fold one step at a time. */
  lemma {:induction false} LeastReduceIndex(prev: WeekdayStat, rest: seq<WeekdayStat>) returns (k: nat)
    ensures IsLastMinimum([prev] + rest, k) && LeastReduce(prev, rest) == ([prev] + rest)[k]
    decreases |rest|
  {
    var l := [prev] + rest;
    if rest == [] {
      k := 0;
    } else {
      var keep := prev.completionRate < rest[0].completionRate;
      var next := if keep then prev else rest[0];
      var l' := [next] + rest[1..];
      var k' := LeastReduceIndex(next, rest[1..]);
      forall j | 2 <= j < |l|
        ensures l[j] == l'[j - 1]
      {
      }
      if k' > 0 {
        assert l'[0] == next;
        k := k' + 1;
        assert l[k] == l'[k'];
      } else if keep {
        k := 0;
      } else {
        k := 1;
      }
    }
  }

  /** The strict fold returns the seed or an element of the list, with a rate at least the
      seed's and at least every element's. */
  lemma {:induction false} MostReduceBounds(prev: WeekdayStat, rest: seq<WeekdayStat>)
    ensures MostReduce(prev, rest) == prev || MostReduce(prev, rest) in rest
    ensures MostReduce(prev, rest).completionRate >= prev.completionRate
    ensures forall x :: x in rest ==> x.completionRate <= MostReduce(prev, rest).completionRate
    decreases |rest|
  {
    if rest != [] {
      var next := if prev.completionRate > rest[0].completionRate then prev else rest[0];
      MostReduceBounds(next, rest[1..]);
      assert rest == [rest[0]] + rest[1..];
    }
  }

  /** The strict fold with `<` returns the seed or an element of the list, with a rate at most
      the seed's and at most every element's. */
  lemma {:induction false} LeastReduceBounds(prev: WeekdayStat, rest: seq<WeekdayStat>)
    ensures LeastReduce(prev, rest) == prev || LeastReduce(prev, rest) in rest
    ensures LeastReduce(prev, rest).completionRate <= prev.completionRate
    ensures forall x :: x in rest ==> LeastReduce(prev, rest).completionRate <= x.completionRate
    decreases |rest|
  {
    if rest != [] {
      var next := if prev.completionRate < rest[0].completionRate then prev else rest[0];
      LeastReduceBounds(next, rest[1..]);
      assert rest == [rest[0]] + rest[1..];
    }
  }

  /** The buckets the fold visits, in order: the seed `weekdayData[0]`, then the filtered ones. */
  function Candidates(ws: seq<WeekdayStat>): (c: seq<WeekdayStat>)
    requires |ws| > 0
    ensures |c| > 0 && c[0] == ws[0]
    ensures forall k :: 1 <= k < |c| ==> c[k] in ws && c[k].total > 0
    ensures forall x :: x in ws && x.total > 0 ==> x in c[1..]
  {
    [ws[0]] + Active(ws)
  }

  /** The most productive day is the last bucket of highest rate among the seed and the
      filtered buckets: on equal best rates the later one wins. */
  lemma MostProductiveIsLastBest(ws: seq<WeekdayStat>)
    requires |ws| > 0
    ensures exists k :: IsLastMaximum(Candidates(ws), k) && MostProductive(ws) == Candidates(ws)[k]
  {
    MostReduceIsLastMaximum(ws[0], Active(ws));
    assert Candidates(ws) == [ws[0]] + Active(ws);
  }

  /** The least productive day is the last bucket of lowest rate among the seed and the
      filtered buckets: on equal worst rates the later one wins. */
  lemma LeastProductiveIsLastWorst(ws: seq<WeekdayStat>)
    requires |ws| > 0
    ensures exists k :: IsLastMinimum(Candidates(ws), k) && LeastProductive(ws) == Candidates(ws)[k]
  {
    LeastReduceIsLastMinimum(ws[0], Active(ws));
    assert Candidates(ws) == [ws[0]] + Active(ws);
  }

  /** The most productive day is the seed (Sunday) or a bucket with records, and its rate is at
      least the seed's and at least that of every bucket with records. */
  lemma MostProductiveBounds(ws: seq<WeekdayStat>)
    requires |ws| > 0
    ensures MostProductive(ws) == ws[0] || (MostProductive(ws) in ws && MostProductive(ws).total > 0)
    ensures MostProductive(ws).completionRate >= ws[0].completionRate
    ensures forall x :: x in ws && x.total > 0 ==> MostProductive(ws).completionRate >= x.completionRate
  {
    MostReduceBounds(ws[0], Active(ws));
  }

  /** The least productive day is the seed (Sunday) or a bucket with records, and its rate is at
      most the seed's and at most that of every bucket with records. */
  lemma LeastProductiveBounds(ws: seq<WeekdayStat>)
    requires |ws| > 0
    ensures LeastProductive(ws) == ws[0] || (LeastProductive(ws) in ws && LeastProductive(ws).total > 0)
    ensures LeastProductive(ws).completionRate <= ws[0].completionRate
    ensures forall x :: x in ws && x.total > 0 ==> LeastProductive(ws).completionRate <= x.completionRate
  {
    LeastReduceBounds(ws[0], Active(ws));
  }

  /** With no bucket holding a record the filter is empty, and both picks are the seed: the
      page then names the first bucket, Sunday, for both, rather than reporting that there is
      nothing to rank. */
  lemma IdleWeekPicksSeed(ws: seq<WeekdayStat>)
    requires |ws| > 0
    requires forall x :: x in ws ==> x.total == 0
    ensures MostProductive(ws) == ws[0] && LeastProductive(ws) == ws[0]
  {
    if Active(ws) != [] {
      assert Active(ws)[0] in Active(ws);
      assert false;
    }
  }

  /** When Sunday has no records its bucket has rate 0 and seeds the least-productive fold, so
      the pick is Sunday unless a bucket with records also has rate 0. */
  lemma LeastProductiveWithEmptySunday(ws: seq<WeekdayStat>)
    requires |ws| > 0 && ws[0].total == 0 && ws[0].completionRate == 0
    ensures LeastProductive(ws).completionRate == 0
    ensures LeastProductive(ws) == ws[0] || LeastProductive(ws).total > 0
    ensures (forall w :: 0 <= w < |ws| && ws[w].total > 0 ==> ws[w].completionRate > 0) ==> LeastProductive(ws) == ws[0]
  {
    LeastProductiveBounds(ws);
  }

  /** A single completed record made on a Monday: the page rates Monday 100% and names the
      empty Sunday, with no records at all, the least productive day. */
  lemma EmptySundayNamedLeastProductive()
    ensures var ws := WeekdaySeries([Todo("1", "Write report", true, Instant(4, 1))]);
            && ws[1].total == 1 && ws[1].completionRate == 100
            && LeastProductive(ws).name == "Sunday" && LeastProductive(ws).total == 0
  {
    var todos := [Todo("1", "Write report", true, Instant(4, 1))];
    var ws := WeekdaySeries(todos);
    assert todos[..0] == [];
    assert ws[0] == WeekdayStatOf(todos, 0);
    assert ws[1] == WeekdayStatOf(todos, 1);
    AllCompletedWeekdays(todos);
    LeastProductiveWithEmptySunday(ws);
  }

  /** One step of the filter: the last bucket is kept exactly when it has records. */
  lemma ActiveStep(ws: seq<WeekdayStat>)
    requires |ws| > 0
    ensures Active(ws) == Active(ws[..|ws| - 1]) + (if ws[|ws| - 1].total > 0 then [ws[|ws| - 1]] else [])
  {
  }

  /** Ties go to the later weekday: with an empty Sunday and one completed record on each of
      Monday and Tuesday, both rated 100, the page names Tuesday the most productive day,
      where a first-wins rule would name Monday; the empty Sunday is the least productive. */
  lemma TiedWeekdaysNameLater()
    ensures var ws := [WeekdayStat("Sunday", 0, 0, 0), WeekdayStat("Monday", 1, 1, 100), WeekdayStat("Tuesday", 1, 1, 100)];
            && MostProductive(ws).name == "Tuesday"
            && LeastProductive(ws).name == "Sunday"
  {
    var ws := [WeekdayStat("Sunday", 0, 0, 0), WeekdayStat("Monday", 1, 1, 100), WeekdayStat("Tuesday", 1, 1, 100)];
    assert Active(ws[..1]) == [] by {
      ActiveStep(ws[..1]);
      assert ws[..1][..0] == [];
    }
    assert Active(ws[..2]) == [ws[1]] by {
      ActiveStep(ws[..2]);
      assert ws[..2][..1] == ws[..1];
    }
    assert Active(ws) == [ws[1], ws[2]] by {
      ActiveStep(ws);
      assert ws[..2] == ws[..|ws| - 1];
    }
  }

  /** The least productive day as the filter evidently intends it: ranked among the buckets
      with records only, and absent when there are none. */
  function LeastProductiveActive(ws: seq<WeekdayStat>): (r: Option<WeekdayStat>)
    ensures r.None? <==> forall x :: x in ws ==> x.total == 0
    ensures r.Some? ==> r.value in ws && r.value.total > 0
    ensures r.Some? ==> forall x :: x in ws && x.total > 0 ==> r.value.completionRate <= x.completionRate
  {
    var active := Active(ws);
    if active == [] then None
    else
      LeastReduceBounds(active[0], active[1..]);
      assert active == [active[0]] + active[1..];
      Some(LeastReduce(active[0], active[1..]))
  }

  /** The most productive day as the filter evidently intends it: absent when no bucket has records. */
  function MostProductiveActive(ws: seq<WeekdayStat>): (r: Option<WeekdayStat>)
    ensures r.None? <==> forall x :: x in ws ==> x.total == 0
    ensures r.Some? ==> r.value in ws && r.value.total > 0
    ensures r.Some? ==> forall x :: x in ws && x.total > 0 ==> x.completionRate <= r.value.completionRate
  {
    var active := Active(ws);
    if active == [] then None
    else
      MostReduceBounds(active[0], active[1..]);
      assert active == [active[0]] + active[1..];
      Some(MostReduce(active[0], active[1..]))
  }

  /** The corrected pick agrees with the page's whenever the seed does not distort it: once
      Sunday has records, both name the same day. */
  lemma LeastProductiveAgreesWhenSundayActive(ws: seq<WeekdayStat>)
    requires |ws| > 0 && ws[0].total > 0
    ensures LeastProductiveActive(ws) == Some(LeastProductive(ws))
  {
    ActiveFirst(ws);
    var active := Active(ws);
    assert active == [active[0]] + active[1..];
  }

  /** With no records every daily bucket of the window is empty. */
  lemma NoRecordsDaily(today: int, range: TimeRange)
    ensures forall k :: 0 <= k < range.Days() ==>
              DailySeries([], today, range.Days())[k].total == 0 && DailySeries([], today, range.Days())[k].completionRate == 0
  {
    var n := range.Days();
    forall k | 0 <= k < n
      ensures DailySeries([], today, n)[k].total == 0 && DailySeries([], today, n)[k].completionRate == 0
    {
      assert DailySeries([], today, n)[k] == DayStatOf([], today - n + 1 + k);
    }
  }

  /** With no records the split is zero and zero, and the overall rate is 0 and earns the
      lowest message. */
  lemma NoRecordsSummary()
    ensures StatusData([])[0].value == 0 && StatusData([])[1].value == 0
    ensures Summarize([]).completionRate == 0 && Rating(Summarize([]).completionRate) == NeedsAttention
  {
  }

  /** With no records every weekday bucket is empty and both weekday picks are Sunday. */
  lemma NoRecordsWeekday()
    ensures forall w :: 0 <= w < 7 ==> WeekdaySeries([])[w].total == 0
    ensures MostProductive(WeekdaySeries([])).name == "Sunday"
    ensures LeastProductive(WeekdaySeries([])).name == "Sunday"
  {
    var ws := WeekdaySeries([]);
    forall w | 0 <= w < 7
      ensures ws[w].total == 0
    {
      assert ws[w] == WeekdayStatOf([], w);
    }
    forall x | x in ws
      ensures x.total == 0
    {
      var w :| 0 <= w < 7 && ws[w] == x;
    }
    assert ws[0] == WeekdayStatOf([], 0);
    IdleWeekPicksSeed(ws);
  }
}
