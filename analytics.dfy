/** The aggregation behind the analytics page. From a list of task records it
    builds the per-day series over a trailing window of calendar days, the
    per-weekday series over all records, the summary figures and the
    completed/pending split.

    Each series is specified by a pure function that counts matching records
    (DailySeries, WeekdaySeries); the methods DailyCompletion and
    WeekdayCompletion build them the way the page does, with a zero-filled map
    updated record by record, and are proved to produce the same series. */
module Analytics {
  import opened TodoApp

  /** The periods the page's selector offers; the daily series covers that many days. */
  datatype TimeRange = Last7 | Last14 | Last30 | Last90 {
    function Days(): (n: nat)
      ensures n == 7 || n == 14 || n == 30 || n == 90
      ensures this.Last7? ==> n == 7
      ensures this.Last14? ==> n == 14
      ensures this.Last30? ==> n == 30
      ensures this.Last90? ==> n == 90
    {
      match this
      case Last7 => 7
      case Last14 => 14
      case Last30 => 30
      case Last90 => 90
    }
  }

  /** `Math.round(completed / total * 100)` for a bucket with records, `0` for an empty one.
      Rounding is half-up: the result is the integer nearest to 100 * completed / total,
      and the upper one at an exact half. */
  function CompletionRate(completed: nat, total: nat): (rate: nat)
    ensures total == 0 ==> rate == 0
    ensures total > 0 ==> 2 * total * rate <= 200 * completed + total < 2 * total * (rate + 1)
    ensures completed <= total ==> rate <= 100
  {
    if total > 0 then
      var rate := (200 * completed + total) / (2 * total);
      RoundedQuotient(200 * completed + total, 2 * total, rate);
      RateAtMostHundred(completed, total, rate);
      rate
    else 0
  }

  lemma RoundedQuotient(a: nat, b: nat, q: nat)
    requires b > 0 && q == a / b
    ensures b * q <= a < b * (q + 1)
  {
  }

  /** `2 * total * rate <= 201 * total < 2 * total * 101`, so the rate of a bucket with no
      more completions than records is at most 100. */
  lemma RateAtMostHundred(completed: nat, total: nat, rate: nat)
    requires total > 0 && 2 * total * rate <= 200 * completed + total
    ensures completed <= total ==> rate <= 100
  {
    if completed <= total {
      assert 200 * completed + total <= 201 * total;
      MultiplierOrder(2 * total, 101, rate);
    }
  }

  /** A bucket whose records are all completed is rated 100%. */
  lemma FullRate(t: nat)
    requires t > 0
    ensures CompletionRate(t, t) == 100
  {
    var r := CompletionRate(t, t);
    assert t * (2 * r + 2) > t * 201;
    MultiplierOrder(t, 2 * r + 2, 201);
  }

  lemma MultiplierOrder(t: nat, x: int, y: int)
    requires t > 0 && t * x > t * y
    ensures x > y
  {
  }

  /** Exact values at the usual fractions: a half rounds up, thirds to the nearest integer. */
  lemma CompletionRateExamples()
    ensures CompletionRate(1, 2) == 50 && CompletionRate(1, 3) == 33 && CompletionRate(2, 3) == 67
    ensures CompletionRate(0, 5) == 0 && CompletionRate(5, 5) == 100 && CompletionRate(0, 0) == 0
  {
  }

  // ---------------------------------------------------------------------------
  // Counting specifications. Each counts from the end of the list, so that the
  // count over todos[..j+1] is the count over todos[..j] plus the j-th record.

  /** The number of records created on UTC day `day`. */
  function CreatedOn(todos: seq<Todo>, day: int): (n: nat)
    ensures n <= |todos|
  {
    if todos == [] then 0
    else CreatedOn(todos[..|todos| - 1], day) + (if todos[|todos| - 1].createdAt.utcDay == day then 1 else 0)
  }

  /** The number of completed records created on UTC day `day`. */
  function CompletedOn(todos: seq<Todo>, day: int): (n: nat)
    ensures n <= CreatedOn(todos, day)
  {
    if todos == [] then 0
    else
      var t := todos[|todos| - 1];
      CompletedOn(todos[..|todos| - 1], day) + (if t.createdAt.utcDay == day && t.completed then 1 else 0)
  }

  /** The number of records created on a UTC day from `first` to `last`, both included. */
  function CreatedBetween(todos: seq<Todo>, first: int, last: int): (n: nat)
    ensures n <= |todos|
    ensures first > last ==> n == 0
  {
    if todos == [] then 0
    else
      var d := todos[|todos| - 1].createdAt.utcDay;
      CreatedBetween(todos[..|todos| - 1], first, last) + (if first <= d <= last then 1 else 0)
  }

  /** The number of records created on local weekday `w`. */
  function CreatedOnWeekday(todos: seq<Todo>, w: Weekday): (n: nat)
    ensures n <= |todos|
  {
    if todos == [] then 0
    else CreatedOnWeekday(todos[..|todos| - 1], w) + (if todos[|todos| - 1].createdAt.localWeekday == w then 1 else 0)
  }

  /** The number of completed records created on local weekday `w`. */
  function CompletedOnWeekday(todos: seq<Todo>, w: Weekday): (n: nat)
    ensures n <= CreatedOnWeekday(todos, w)
  {
    if todos == [] then 0
    else
      var t := todos[|todos| - 1];
      CompletedOnWeekday(todos[..|todos| - 1], w) + (if t.createdAt.localWeekday == w && t.completed then 1 else 0)
  }

  // ---------------------------------------------------------------------------
  // Daily series

  /** A bucket of the day map while records are classified: `{ date, completed, total }`. */
  datatype DayEntry = DayEntry(date: int, completed: nat, total: nat)

  /** A point of the daily series: the bucket with its completion rate. */
  datatype DayStat = DayStat(date: int, completed: nat, total: nat, completionRate: nat)

  function DayStatOf(todos: seq<Todo>, date: int): DayStat
  {
    var completed, total := CompletedOn(todos, date), CreatedOn(todos, date);
    DayStat(date, completed, total, CompletionRate(completed, total))
  }

  /** The specification of the daily series: one point per UTC day of the `n` days
      ending with `today`, oldest first, each counting the records of its day. */
  function DailySeries(todos: seq<Todo>, today: int, n: nat): seq<DayStat>
  {
    seq(n, k requires 0 <= k < n => DayStatOf(todos, today - n + 1 + k))
  }

  /** The series has one point per day of the window, from `today - (n - 1)` to `today`,
      strictly ascending with consecutive dates and hence no date twice. */
  lemma DailySeriesDates(todos: seq<Todo>, today: int, n: nat)
    ensures |DailySeries(todos, today, n)| == n
    ensures n > 0 ==> DailySeries(todos, today, n)[0].date == today - (n - 1)
    ensures n > 0 ==> DailySeries(todos, today, n)[n - 1].date == today
    ensures forall k :: 0 <= k < n - 1 ==> DailySeries(todos, today, n)[k + 1].date == DailySeries(todos, today, n)[k].date + 1
    ensures forall i, j :: 0 <= i < j < n ==> DailySeries(todos, today, n)[i].date < DailySeries(todos, today, n)[j].date
  {
    var series := DailySeries(todos, today, n);
    forall k | 0 <= k < n
      ensures series[k].date == today - n + 1 + k
    {
      assert series[k] == DayStatOf(todos, today - n + 1 + k);
    }
  }

  /** In every point of the daily series, `0 <= completed <= total` and the rate lies in
      [0, 100], being 0 for a day without records. */
  lemma DailyBucketBounds(todos: seq<Todo>, today: int, n: nat)
    ensures forall k :: 0 <= k < n ==>
              var p := DailySeries(todos, today, n)[k];
              p.completed <= p.total && p.completionRate <= 100 && (p.total == 0 ==> p.completionRate == 0)
  {
    var series := DailySeries(todos, today, n);
    forall k | 0 <= k < n
      ensures series[k].completed <= series[k].total && series[k].completionRate <= 100
      ensures series[k].total == 0 ==> series[k].completionRate == 0
    {
      assert series[k] == DayStatOf(todos, today - n + 1 + k);
    }
  }

  function SumDayTotals(series: seq<DayStat>): nat
  {
    if series == [] then 0 else SumDayTotals(series[..|series| - 1]) + series[|series| - 1].total
  }

  lemma {:induction false} CreatedBetweenExtend(todos: seq<Todo>, first: int, last: int)
    requires first <= last
    ensures CreatedBetween(todos, first, last) == CreatedBetween(todos, first, last - 1) + CreatedOn(todos, last)
  {
    if todos != [] {
      CreatedBetweenExtend(todos[..|todos| - 1], first, last);
    }
  }

  /** Each record of the window is counted in exactly one point and every other record is
      dropped: the totals of the daily series add up to the number of records created in
      the window, which is at most the number of records. */
  lemma {:induction false} DailyTotalsCountWindow(todos: seq<Todo>, today: int, n: nat)
    ensures SumDayTotals(DailySeries(todos, today, n)) == CreatedBetween(todos, today - n + 1, today)
    ensures SumDayTotals(DailySeries(todos, today, n)) <= |todos|
    decreases n
  {
    if n > 0 {
      var series := DailySeries(todos, today, n);
      assert series[..n - 1] == DailySeries(todos, today - 1, n - 1);
      assert series[n - 1] == DayStatOf(todos, today);
      DailyTotalsCountWindow(todos, today - 1, n - 1);
      CreatedBetweenExtend(todos, today - n + 1, today);
    }
  }

  lemma NonEmptySetHasElement(s: set<int>)
    requires s != {}
    ensures exists x :: x in s
  {
    if forall x :: x !in s {
      assert false;
    }
  }

  /** Every non-empty finite set of integers has a least element. */
  lemma {:induction false} HasMinimum(s: set<int>)
    requires s != {}
    ensures exists m :: m in s && forall y :: y in s ==> m <= y
    decreases |s|
  {
    NonEmptySetHasElement(s);
    var x :| x in s;
    if y :| y in s && y < x {
      HasMinimum(s - {x});
      var m :| m in s - {x} && forall z :: z in s - {x} ==> m <= z;
      assert y in s - {x};
      forall z | z in s
        ensures m <= z
      {
        if z != x {
          assert z in s - {x};
        }
      }
    } else {
      assert forall z :: z in s ==> x <= z;
    }
  }

  /** The keys of a date-keyed map in ascending order, the order in which sorting by
      `localeCompare` puts ISO date strings. A map holds each key once, so the sort is total. */
  function SortedKeys(keys: set<int>): (r: seq<int>)
    ensures forall i, j :: 0 <= i < j < |r| ==> r[i] < r[j]
    ensures forall x :: x in keys <==> x in r
    decreases |keys|
  {
    if keys == {} then []
    else
      HasMinimum(keys);
      var m :| m in keys && forall y :: y in keys ==> m <= y;
      var rest := SortedKeys(keys - {m});
      PrependMinimum(m, keys, rest);
      [m] + rest
  }

  /** The least key followed by the others in ascending order is all the keys in ascending order. */
  lemma PrependMinimum(m: int, keys: set<int>, rest: seq<int>)
    requires m in keys && forall y :: y in keys ==> m <= y
    requires forall i, j :: 0 <= i < j < |rest| ==> rest[i] < rest[j]
    requires forall x :: x in keys - {m} <==> x in rest
    ensures forall i, j :: 0 <= i < j < |[m] + rest| ==> ([m] + rest)[i] < ([m] + rest)[j]
    ensures forall x :: x in keys <==> x in [m] + rest
  {
    forall j | 0 <= j < |rest|
      ensures m < rest[j]
    {
      assert rest[j] in rest;
    }
  }

  /** A strictly ascending sequence holding exactly the integers `first .. first + n - 1`
      is that run of integers. */
  lemma AscendingRun(r: seq<int>, first: int, n: nat)
    requires forall i, j :: 0 <= i < j < |r| ==> r[i] < r[j]
    requires forall x :: x in r <==> first <= x < first + n
    ensures |r| == n
    ensures forall k :: 0 <= k < n ==> r[k] == first + k
  {
    var k := 0;
    while k < |r|
      invariant 0 <= k <= |r|
      invariant forall i :: 0 <= i < k ==> r[i] == first + i
    {
      assert r[k] in r;
      assert k > 0 ==> r[k - 1] < r[k];
      assert first + k in r;
      var idx :| 0 <= idx < |r| && r[idx] == first + k;
      assert idx >= k;
      k := k + 1;
    }
    if n > 0 {
      assert first + n - 1 in r;
    }
    if |r| > 0 {
      assert r[|r| - 1] in r;
    }
  }

  function DayStatWithRate(e: DayEntry): DayStat
  {
    DayStat(e.date, e.completed, e.total, CompletionRate(e.completed, e.total))
  }

  /** `Array.from(daysMap.values()).sort(by date).map(add completionRate)`: the buckets in
      ascending date order, each with its rate. */
  function ToDailySeries(daysMap: map<int, DayEntry>): (series: seq<DayStat>)
    ensures |series| == |SortedKeys(daysMap.Keys)|
  {
    var dates := SortedKeys(daysMap.Keys);
    seq(|dates|, k requires 0 <= k < |dates| => DayStatWithRate(daysMap[dates[k]]))
  }

  /** A map holding exactly the counted buckets of the window lists as the daily series. */
  lemma WindowMapToSeries(todos: seq<Todo>, today: int, n: nat, daysMap: map<int, DayEntry>)
    requires forall d :: d in daysMap <==> today - n < d <= today
    requires forall d :: d in daysMap ==> daysMap[d] == DayEntry(d, CompletedOn(todos, d), CreatedOn(todos, d))
    ensures ToDailySeries(daysMap) == DailySeries(todos, today, n)
  {
    var dates := SortedKeys(daysMap.Keys);
    AscendingRun(dates, today - n + 1, n);
    var series := ToDailySeries(daysMap);
    forall k | 0 <= k < n
      ensures series[k] == DailySeries(todos, today, n)[k]
    {
      var d := today - n + 1 + k;
      assert dates[k] == d;
      assert series[k] == DayStatWithRate(daysMap[d]);
      assert DailySeries(todos, today, n)[k] == DayStatOf(todos, d);
    }
  }

  /** `dailyCompletionData`: zero-fill a map with one bucket per day of the window, count each
      record into the bucket of its UTC day when there is one, then list the buckets by date. */
  method DailyCompletion(todos: seq<Todo>, today: int, range: TimeRange) returns (series: seq<DayStat>)
    ensures series == DailySeries(todos, today, range.Days())
  {
    var n := range.Days();
    var daysMap: map<int, DayEntry> := map[];
    for i := 0 to n
      invariant forall d :: d in daysMap <==> today - i < d <= today
      invariant forall d :: d in daysMap ==> daysMap[d] == DayEntry(d, 0, 0)
    {
      var date := today - i;
      daysMap := daysMap[date := DayEntry(date, 0, 0)];
    }

    for j := 0 to |todos|
      invariant forall d :: d in daysMap <==> today - n < d <= today
      invariant forall d :: d in daysMap ==>
                  daysMap[d] == DayEntry(d, CompletedOn(todos[..j], d), CreatedOn(todos[..j], d))
    {
      assert todos[..j + 1][..j] == todos[..j];
      var todo := todos[j];
      var date := todo.createdAt.utcDay;
      if date in daysMap {
        var dayData := daysMap[date];
        dayData := dayData.(total := dayData.total + 1);
        if todo.completed {
          dayData := dayData.(completed := dayData.completed + 1);
        }
        daysMap := daysMap[date := dayData];
      }
    }
    assert todos[..|todos|] == todos;
    WindowMapToSeries(todos, today, n, daysMap);
    series := ToDailySeries(daysMap);
  }

  // ---------------------------------------------------------------------------
  // Weekday series

  const DaysOfWeek: seq<string> := ["Sunday", "Monday", "Tuesday", "Wednesday", "Thursday", "Friday", "Saturday"]

  /** A bucket of the weekday map while records are classified: `{ name, completed, total }`. */
  datatype WeekdayEntry = WeekdayEntry(name: string, completed: nat, total: nat)

  /** A point of the weekday series: the bucket with its completion rate. */
  datatype WeekdayStat = WeekdayStat(name: string, completed: nat, total: nat, completionRate: nat)

  function WeekdayStatOf(todos: seq<Todo>, w: Weekday): WeekdayStat
  {
    var completed, total := CompletedOnWeekday(todos, w), CreatedOnWeekday(todos, w);
    WeekdayStat(DaysOfWeek[w], completed, total, CompletionRate(completed, total))
  }

  /** The specification of the weekday series: seven points, Sunday first, each counting
      all records created on its local weekday; no window applies. */
  function WeekdaySeries(todos: seq<Todo>): seq<WeekdayStat>
  {
    seq(7, w requires 0 <= w < 7 => WeekdayStatOf(todos, w))
  }

  /** Always seven points named Sunday to Saturday, each with `0 <= completed <= total` and a
      rate in [0, 100] that is 0 for a weekday without records. */
  lemma WeekdayBuckets(todos: seq<Todo>)
    ensures |WeekdaySeries(todos)| == 7
    ensures forall w :: 0 <= w < 7 ==> WeekdaySeries(todos)[w].name == DaysOfWeek[w]
    ensures forall w :: 0 <= w < 7 ==>
              var p := WeekdaySeries(todos)[w];
              p.completed <= p.total && p.completionRate <= 100 && (p.total == 0 ==> p.completionRate == 0)
  {
  }

  /** When every record is completed, each weekday counts as many completions as records. */
  lemma {:induction false} AllCompletedOnWeekday(todos: seq<Todo>, w: Weekday)
    requires forall k :: 0 <= k < |todos| ==> todos[k].completed
    ensures CompletedOnWeekday(todos, w) == CreatedOnWeekday(todos, w)
  {
    if todos != [] {
      AllCompletedOnWeekday(todos[..|todos| - 1], w);
    }
  }

  /** When every record is completed, every weekday with records is rated 100%. */
  lemma AllCompletedWeekdays(todos: seq<Todo>)
    requires forall k :: 0 <= k < |todos| ==> todos[k].completed
    ensures forall w :: 0 <= w < 7 && WeekdaySeries(todos)[w].total > 0 ==> WeekdaySeries(todos)[w].completionRate == 100
  {
    forall w | 0 <= w < 7 && WeekdaySeries(todos)[w].total > 0
      ensures WeekdaySeries(todos)[w].completionRate == 100
    {
      AllCompletedOnWeekday(todos, w);
      assert WeekdaySeries(todos)[w] == WeekdayStatOf(todos, w);
      FullRate(CreatedOnWeekday(todos, w));
    }
  }

  function SumWeekTotals(series: seq<WeekdayStat>): nat
  {
    if series == [] then 0 else SumWeekTotals(series[..|series| - 1]) + series[|series| - 1].total
  }

  function SumWeekCompleted(series: seq<WeekdayStat>): nat
  {
    if series == [] then 0 else SumWeekCompleted(series[..|series| - 1]) + series[|series| - 1].completed
  }

  lemma {:induction false} SumsAgree(a: seq<WeekdayStat>, b: seq<WeekdayStat>)
    requires |a| == |b|
    requires forall i :: 0 <= i < |a| ==> a[i].total == b[i].total && a[i].completed == b[i].completed
    ensures SumWeekTotals(a) == SumWeekTotals(b) && SumWeekCompleted(a) == SumWeekCompleted(b)
  {
    if a != [] {
      SumsAgree(a[..|a| - 1], b[..|b| - 1]);
    }
  }

  /** Two series that agree everywhere but at `k` differ in their sums by what differs at `k`. */
  lemma {:induction false} SumsDifferAt(a: seq<WeekdayStat>, b: seq<WeekdayStat>, k: nat)
    requires |a| == |b| && k < |a|
    requires forall i :: 0 <= i < |a| && i != k ==> a[i].total == b[i].total && a[i].completed == b[i].completed
    ensures SumWeekTotals(b) + a[k].total == SumWeekTotals(a) + b[k].total
    ensures SumWeekCompleted(b) + a[k].completed == SumWeekCompleted(a) + b[k].completed
  {
    var n := |a|;
    if k < n - 1 {
      SumsDifferAt(a[..n - 1], b[..n - 1], k);
    } else {
      SumsAgree(a[..n - 1], b[..n - 1]);
    }
  }

  lemma {:induction false} EmptyBucketSums(series: seq<WeekdayStat>)
    requires forall i :: 0 <= i < |series| ==> series[i].total == 0 && series[i].completed == 0
    ensures SumWeekTotals(series) == 0 && SumWeekCompleted(series) == 0
  {
    if series != [] {
      EmptyBucketSums(series[..|series| - 1]);
    }
  }

  /** The weekday series loses no record: its totals add up to the number of records and its
      completed counts to the number of completed records. */
  lemma {:induction false} WeekdaySums(todos: seq<Todo>)
    ensures SumWeekTotals(WeekdaySeries(todos)) == |todos|
    ensures SumWeekCompleted(WeekdaySeries(todos)) == CompletedCount(todos)
  {
    if todos == [] {
      EmptyBucketSums(WeekdaySeries(todos));
    } else {
      var init, last := todos[..|todos| - 1], todos[|todos| - 1];
      WeekdaySums(init);
      var w := last.createdAt.localWeekday;
      var a, b := WeekdaySeries(init), WeekdaySeries(todos);
      assert b[w].total == a[w].total + 1;
      assert b[w].completed == a[w].completed + (if last.completed then 1 else 0);
      SumsDifferAt(a, b, w);
    }
  }

  function WeekdayStatWithRate(e: WeekdayEntry): WeekdayStat
  {
    WeekdayStat(e.name, e.completed, e.total, CompletionRate(e.completed, e.total))
  }

  /** `Array.from(weekdayMap.values()).map(add completionRate)`. The map's insertion order
      is 0 to 6 and later `set`s on present keys keep it, so its values come in weekday order. */
  function ToWeekdaySeries(weekdayMap: map<int, WeekdayEntry>): (series: seq<WeekdayStat>)
    requires forall w :: 0 <= w < 7 ==> w in weekdayMap
    ensures |series| == 7
    ensures forall w :: 0 <= w < 7 ==> series[w].name == weekdayMap[w].name && series[w].total == weekdayMap[w].total
  {
    seq(7, w requires 0 <= w < 7 => WeekdayStatWithRate(weekdayMap[w]))
  }

  /** `weekdayData`: zero-fill a map with one bucket per weekday, then count every record into
      the bucket of its local weekday. */
  method WeekdayCompletion(todos: seq<Todo>) returns (series: seq<WeekdayStat>)
    ensures series == WeekdaySeries(todos)
  {
    var weekdayMap: map<int, WeekdayEntry> := map[];
    for i := 0 to 7
      invariant forall w :: w in weekdayMap <==> 0 <= w < i
      invariant forall w :: w in weekdayMap ==> weekdayMap[w] == WeekdayEntry(DaysOfWeek[w], 0, 0)
    {
      weekdayMap := weekdayMap[i := WeekdayEntry(DaysOfWeek[i], 0, 0)];
    }

    for j := 0 to |todos|
      invariant forall w :: w in weekdayMap <==> 0 <= w < 7
      invariant forall w :: w in weekdayMap ==>
                  weekdayMap[w] == WeekdayEntry(DaysOfWeek[w], CompletedOnWeekday(todos[..j], w), CreatedOnWeekday(todos[..j], w))
    {
      assert todos[..j + 1][..j] == todos[..j];
      var todo := todos[j];
      var dayOfWeek := todo.createdAt.localWeekday;
      var dayData := weekdayMap[dayOfWeek];
      dayData := dayData.(total := dayData.total + 1);
      if todo.completed {
        dayData := dayData.(completed := dayData.completed + 1);
      }
      weekdayMap := weekdayMap[dayOfWeek := dayData];
    }
    assert todos[..|todos|] == todos;
    series := ToWeekdaySeries(weekdayMap);
    WeekdayMapToSeries(todos, weekdayMap);
  }

  /** A weekday map holding every record's counts reads out as the weekday series. */
  lemma WeekdayMapToSeries(todos: seq<Todo>, weekdayMap: map<int, WeekdayEntry>)
    requires forall w :: w in weekdayMap <==> 0 <= w < 7
    requires forall w :: w in weekdayMap ==>
               weekdayMap[w] == WeekdayEntry(DaysOfWeek[w], CompletedOnWeekday(todos, w), CreatedOnWeekday(todos, w))
    ensures ToWeekdaySeries(weekdayMap) == WeekdaySeries(todos)
  {
    forall w | 0 <= w < 7
      ensures ToWeekdaySeries(weekdayMap)[w] == WeekdaySeries(todos)[w]
    {
      assert ToWeekdaySeries(weekdayMap)[w] == WeekdayStatWithRate(weekdayMap[w]);
      assert WeekdaySeries(todos)[w] == WeekdayStatOf(todos, w);
    }
  }

  // ---------------------------------------------------------------------------
  // Summary and status split

  datatype Summary = Summary(totalTasks: nat, completedTasks: nat, completionRate: nat)

  /** `completedTasks`, `totalTasks` and the overall `completionRate`, over all records. */
  function Summarize(todos: seq<Todo>): (s: Summary)
    ensures s.totalTasks == |todos| && s.completedTasks == CompletedCount(todos) && s.completedTasks <= s.totalTasks
    ensures s.completionRate <= 100
    ensures s.totalTasks == 0 ==> s.completionRate == 0
    ensures s.totalTasks > 0 ==>
              2 * s.totalTasks * s.completionRate <= 200 * s.completedTasks + s.totalTasks
                                                    < 2 * s.totalTasks * (s.completionRate + 1)
  {
    var completedTasks := CompletedCount(todos);
    var totalTasks := |todos|;
    Summary(totalTasks, completedTasks, CompletionRate(completedTasks, totalTasks))
  }

  datatype StatusSlice = StatusSlice(name: string, value: nat)

  /** `statusData`: the completed and pending shares, in that order, adding up to all records. */
  function StatusData(todos: seq<Todo>): (r: seq<StatusSlice>)
    ensures |r| == 2 && r[0].name == "Completed" && r[1].name == "Pending"
    ensures r[0].value == CompletedCount(todos)
    ensures r[0].value + r[1].value == |todos|
  {
    var s := Summarize(todos);
    [StatusSlice("Completed", s.completedTasks), StatusSlice("Pending", s.totalTasks - s.completedTasks)]
  }

  /** The weekday view and the summary count the same records: the weekday totals add up to
      `totalTasks` and the weekday completed counts to `completedTasks`. */
  lemma WeekdayAgreesWithSummary(todos: seq<Todo>)
    ensures SumWeekTotals(WeekdaySeries(todos)) == Summarize(todos).totalTasks
    ensures SumWeekCompleted(WeekdaySeries(todos)) == Summarize(todos).completedTasks
  {
    WeekdaySums(todos);
  }
}
