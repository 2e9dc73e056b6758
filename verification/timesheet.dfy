/** The timesheet aggregator: a grid from week number to day to the bodies of
    the tasks done that day. Weeks are counted from the Sunday on or before the
    report's start date; days are date ordinals (see module Dates). */
module Timesheet {
  import opened Wrappers
  import opened Dates

  const DAYS_IN_WEEK := 7

  /** Weeks 1 to MAX_WEEK get a number; later days get no week (`None`). */
  const MAX_WEEK := 5

  /** A week number, or `None` for a day past the last numbered week. */
  type Week = Option<int>

  /** Week → day → task bodies, in the order they were loaded. */
  type Grid = map<Week, map<Date, seq<string>>>

  /** A task: the day it was done on and its description. */
  datatype Task = Task(date: Date, body: string)

  /** Loading raises a `KeyError` for a day whose week is in the grid but
      which is not itself a day of the grid. */
  datatype LoadError = KeyError(date: Date)

  /** Tries weeks `week`, `week + 1`, … `MAX_WEEK` in turn and returns the
      first whose end lies after `day`. */
  function FindWeekFrom(anchor: Date, day: Date, week: int): (r: Week)
    requires 1 <= week <= MAX_WEEK
    ensures r.Some? ==> week <= r.value <= MAX_WEEK && day < anchor + DAYS_IN_WEEK * r.value
    ensures r.Some? && r.value > week ==> anchor + DAYS_IN_WEEK * (r.value - 1) <= day
    ensures r.None? <==> anchor + DAYS_IN_WEEK * MAX_WEEK <= day
    decreases MAX_WEEK - week
  {
    if day < anchor + DAYS_IN_WEEK * week then Some(week)
    else if week == MAX_WEEK then None
    else FindWeekFrom(anchor, day, week + 1)
  }

  /** The week of `day` counted from `anchor`: the smallest `w` in 1..5 with
      `day < anchor + 7 * w`, or `None` when there is none. */
  function FindWeek(anchor: Date, day: Date): (r: Week)
    ensures r.Some? ==> 1 <= r.value <= MAX_WEEK && day < anchor + DAYS_IN_WEEK * r.value
    ensures r.Some? && r.value > 1 ==> anchor + DAYS_IN_WEEK * (r.value - 1) <= day
    ensures r.None? <==> anchor + DAYS_IN_WEEK * MAX_WEEK <= day
  {
    FindWeekFrom(anchor, day, 1)
  }

  /** Closed form of `FindWeek`: days before the anchor fall in week 1, days of
      the first five weeks in their week, later days in no week. */
  lemma FindWeekClosedForm(anchor: Date, day: Date)
    ensures FindWeek(anchor, day) ==
      if day < anchor then Some(1)
      else if day < anchor + DAYS_IN_WEEK * MAX_WEEK then Some((day - anchor) / DAYS_IN_WEEK + 1)
      else None
  {
    var r := FindWeek(anchor, day);
    if anchor <= day < anchor + DAYS_IN_WEEK * MAX_WEEK {
      var q := (day - anchor) / DAYS_IN_WEEK;
      assert day - anchor == DAYS_IN_WEEK * q + (day - anchor) % DAYS_IN_WEEK;
      assert r.Some?;
      assert r.value == q + 1;
    }
  }

  /** The first day of week `k` (1 ≤ k ≤ 5) is in week `k`. */
  lemma FindWeekOfWeekStart(anchor: Date, k: int)
    requires 1 <= k <= MAX_WEEK
    ensures FindWeek(anchor, anchor + DAYS_IN_WEEK * (k - 1)) == Some(k)
  {
    var r := FindWeek(anchor, anchor + DAYS_IN_WEEK * (k - 1));
    assert r.Some?;
  }

  /** The bucket of `week`, or an empty one when the grid has none yet. */
  function Bucket(g: Grid, week: Week): map<Date, seq<string>>
  {
    if week in g then g[week] else map[]
  }

  /** One step of building the empty grid: creates the week's bucket on first
      use and gives `day` an empty list in it. */
  function AddEmptyDay(g: Grid, anchor: Date, day: Date): (r: Grid)
    ensures r.Keys == g.Keys + {FindWeek(anchor, day)}
  {
    var week := FindWeek(anchor, day);
    g[week := Bucket(g, week)[day := []]]
  }

  /** Every entry of `g` is a day of `days`, filed under its own week, with an empty list. */
  ghost predicate EmptyGridOf(g: Grid, anchor: Date, days: seq<Date>)
  {
    && (forall w, d :: w in g && d in g[w] ==> d in days && w == FindWeek(anchor, d) && g[w][d] == [])
    && (forall d :: d in days ==> FindWeek(anchor, d) in g && d in g[FindWeek(anchor, d)])
    && (forall w :: w in g ==> exists d :: d in g[w])
  }

  /** The empty grid for the given days, built one day at a time in order. */
  function InitDays(anchor: Date, days: seq<Date>): Grid
    decreases |days|
  {
    if |days| == 0 then map[]
    else AddEmptyDay(InitDays(anchor, days[..|days| - 1]), anchor, days[|days| - 1])
  }

  /** Adding one day to the empty grid of some days gives the empty grid of
      those days and that one. */
  lemma AddEmptyDayGrid(g: Grid, anchor: Date, days: seq<Date>, day: Date)
    requires EmptyGridOf(g, anchor, days)
    ensures EmptyGridOf(AddEmptyDay(g, anchor, day), anchor, days + [day])
  {
    var h := AddEmptyDay(g, anchor, day);
    var week := FindWeek(anchor, day);
    assert h == g[week := Bucket(g, week)[day := []]];
    forall w, d | w in h && d in h[w]
      ensures d in days + [day] && w == FindWeek(anchor, d) && h[w][d] == []
    {
      if w != week || d != day {
        assert w in g && d in g[w];
      }
    }
    forall w | w in h
      ensures exists d :: d in h[w]
    {
      if w == week {
        assert day in h[w];
      } else {
        var d :| d in g[w];
        assert d in h[w];
      }
    }
  }

  /** Building day by day gives exactly the empty grid of those days. */
  lemma {:induction false} InitDaysGrid(anchor: Date, days: seq<Date>)
    ensures EmptyGridOf(InitDays(anchor, days), anchor, days)
    decreases |days|
  {
    if |days| > 0 {
      var init, day := days[..|days| - 1], days[|days| - 1];
      InitDaysGrid(anchor, init);
      AddEmptyDayGrid(InitDays(anchor, init), anchor, init, day);
      assert days == init + [day];
    }
  }

  /** The empty grid: every day from the anchor through `end`, inclusive. */
  function InitTimesheet(anchor: Date, end: Date): Grid
  {
    InitDays(anchor, DateRange(anchor, end + 1))
  }

  /** The empty grid of a date range, restated in terms of the range bounds. */
  lemma EmptyGridOfRange(g: Grid, anchor: Date, end: Date)
    requires EmptyGridOf(g, anchor, DateRange(anchor, end + 1))
    ensures forall w, d {:trigger d in g[w]} :: w in g && d in g[w] ==>
      anchor <= d <= end && w == FindWeek(anchor, d) && g[w][d] == []
    ensures forall d :: anchor <= d <= end ==> FindWeek(anchor, d) in g && d in g[FindWeek(anchor, d)]
  {
    var days := DateRange(anchor, end + 1);
    forall w, d | w in g && d in g[w]
      ensures anchor <= d <= end
    {
      assert d in days;
    }
    forall d | anchor <= d <= end
      ensures FindWeek(anchor, d) in g && d in g[FindWeek(anchor, d)]
    {
      assert d in days;
    }
  }

  /** The empty grid holds each day from the anchor through `end` exactly once,
      under that day's week, with an empty list; every week bucket holds a day. */
  lemma InitTimesheetEntries(anchor: Date, end: Date)
    ensures forall w, d {:trigger d in InitTimesheet(anchor, end)[w]} ::
      w in InitTimesheet(anchor, end) && d in InitTimesheet(anchor, end)[w] ==>
      anchor <= d <= end && w == FindWeek(anchor, d) && InitTimesheet(anchor, end)[w][d] == []
    ensures forall d :: anchor <= d <= end ==>
      FindWeek(anchor, d) in InitTimesheet(anchor, end) && d in InitTimesheet(anchor, end)[FindWeek(anchor, d)]
    ensures forall w :: w in InitTimesheet(anchor, end) ==> exists d :: d in InitTimesheet(anchor, end)[w]
  {
    var days := DateRange(anchor, end + 1);
    var g := InitDays(anchor, days);
    assert InitTimesheet(anchor, end) == g;
    InitDaysGrid(anchor, days);
    EmptyGridOfRange(g, anchor, end);
  }

  /** Whether a grid built from `anchor` through `end` has a bucket for `week`. */
  predicate BucketExists(anchor: Date, end: Date, week: Week)
  {
    match week
    case Some(k) => 1 <= k <= MAX_WEEK && anchor + DAYS_IN_WEEK * (k - 1) <= end
    case None => anchor + DAYS_IN_WEEK * MAX_WEEK <= end
  }

  /** The weeks of the empty grid are exactly those its days reach. */
  lemma InitTimesheetWeeks(anchor: Date, end: Date, week: Week)
    ensures week in InitTimesheet(anchor, end) <==> BucketExists(anchor, end, week)
  {
    var g := InitTimesheet(anchor, end);
    InitTimesheetEntries(anchor, end);
    if week in g {
      var d :| d in g[week];
      assert FindWeek(anchor, d) == week;
    }
    if BucketExists(anchor, end, week) {
      match week
      case Some(k) =>
        FindWeekOfWeekStart(anchor, k);
        assert FindWeek(anchor, anchor + DAYS_IN_WEEK * (k - 1)) in g;
      case None =>
        assert FindWeek(anchor, anchor + DAYS_IN_WEEK * MAX_WEEK) in g;
    }
  }

  /** A report ending before the anchor has an empty grid. */
  lemma InitTimesheetEmpty(anchor: Date, end: Date)
    requires end < anchor
    ensures InitTimesheet(anchor, end) == map[]
  {
    InitTimesheetEntries(anchor, end);
    assert forall w :: w !in InitTimesheet(anchor, end);
  }

  /** The day `day` has a week bucket in `g` but no entry there: loading a task
      on it raises `KeyError`. */
  predicate Missing(g: Grid, anchor: Date, day: Date)
  {
    FindWeek(anchor, day) in g && day !in g[FindWeek(anchor, day)]
  }

  /** Both grids have the same weeks, and each week the same days. */
  predicate SameShape(g: Grid, h: Grid)
  {
    g.Keys == h.Keys && forall w :: w in g ==> g[w].Keys == h[w].Keys
  }

  /** Loads one task: skipped when its week has no bucket, appended to its
      day's list when the day is there, `KeyError` otherwise. */
  function LoadTask(g: Grid, anchor: Date, t: Task): (r: Result<Grid, LoadError>)
    ensures r.Failure? <==> Missing(g, anchor, t.date)
    ensures r.Failure? ==> r.error == KeyError(t.date)
    ensures r.Success? ==> SameShape(g, r.value)
  {
    var week := FindWeek(anchor, t.date);
    if week !in g then Success(g)
    else if t.date !in g[week] then Failure(KeyError(t.date))
    else Success(g[week := g[week][t.date := g[week][t.date] + [t.body]]])
  }

  /** Loading one task appends its body to the list of its own day in its own
      week, and leaves every other list as it was. */
  lemma LoadTaskEntry(g: Grid, anchor: Date, t: Task, w: Week, d: Date)
    requires LoadTask(g, anchor, t).Success?
    requires w in g && d in g[w]
    ensures LoadTask(g, anchor, t).value[w][d] ==
      g[w][d] + (if w == FindWeek(anchor, t.date) && d == t.date then [t.body] else [])
  {
  }

  /** Loads the tasks in order, stopping at the first `KeyError`. */
  function LoadTasks(g: Grid, anchor: Date, tasks: seq<Task>): Result<Grid, LoadError>
    decreases |tasks|
  {
    if |tasks| == 0 then Success(g)
    else match LoadTask(g, anchor, tasks[0])
      case Failure(e) => Failure(e)
      case Success(g1) => LoadTasks(g1, anchor, tasks[1..])
  }

  /** The bodies of the tasks done on `day`, in task order. */
  function BodiesOn(tasks: seq<Task>, day: Date): seq<string>
    decreases |tasks|
  {
    if |tasks| == 0 then []
    else (if tasks[0].date == day then [tasks[0].body] else []) + BodiesOn(tasks[1..], day)
  }

  /** Loading fails exactly when some task's day is `Missing`, and then with the
      `KeyError` of the first such task. */
  lemma {:induction false} LoadTasksFailure(g: Grid, anchor: Date, tasks: seq<Task>)
    ensures LoadTasks(g, anchor, tasks).Success? <==>
      forall i :: 0 <= i < |tasks| ==> !Missing(g, anchor, tasks[i].date)
    ensures LoadTasks(g, anchor, tasks).Failure? ==>
      exists i :: 0 <= i < |tasks| && Missing(g, anchor, tasks[i].date)
        && LoadTasks(g, anchor, tasks).error == KeyError(tasks[i].date)
        && forall j :: 0 <= j < i ==> !Missing(g, anchor, tasks[j].date)
    decreases |tasks|
  {
    if |tasks| > 0 {
      var r := LoadTask(g, anchor, tasks[0]);
      if r.Success? {
        var g1 := r.value;
        LoadTasksFailure(g1, anchor, tasks[1..]);
        assert forall d :: Missing(g1, anchor, d) == Missing(g, anchor, d);
        assert forall i :: 1 <= i < |tasks| ==> tasks[i] == tasks[1..][i - 1];
        if LoadTasks(g1, anchor, tasks[1..]).Failure? {
          var i :| 0 <= i < |tasks[1..]| && Missing(g1, anchor, tasks[1..][i].date)
            && LoadTasks(g1, anchor, tasks[1..]).error == KeyError(tasks[1..][i].date)
            && forall j :: 0 <= j < i ==> !Missing(g1, anchor, tasks[1..][j].date);
          assert Missing(g, anchor, tasks[i + 1].date);
        }
      }
    }
  }

  /** Successful loading keeps every week and every day of the grid. */
  lemma {:induction false} LoadTasksShape(g: Grid, anchor: Date, tasks: seq<Task>)
    requires LoadTasks(g, anchor, tasks).Success?
    ensures SameShape(g, LoadTasks(g, anchor, tasks).value)
    decreases |tasks|
  {
    if |tasks| > 0 {
      LoadTasksShape(LoadTask(g, anchor, tasks[0]).value, anchor, tasks[1..]);
    }
  }

  /** Successful loading only appends: the list of day `d` in week `w` grows by
      the bodies of the tasks on `d`, in task order, when `w` is `d`'s week. */
  lemma {:induction false} LoadTasksEntry(g: Grid, anchor: Date, tasks: seq<Task>, w: Week, d: Date)
    requires LoadTasks(g, anchor, tasks).Success?
    requires w in g && d in g[w]
    ensures w in LoadTasks(g, anchor, tasks).value && d in LoadTasks(g, anchor, tasks).value[w]
    ensures LoadTasks(g, anchor, tasks).value[w][d] ==
      g[w][d] + (if w == FindWeek(anchor, d) then BodiesOn(tasks, d) else [])
    decreases |tasks|
  {
    if |tasks| > 0 {
      var r := LoadTask(g, anchor, tasks[0]);
      var g1 := r.value;
      assert LoadTasks(g, anchor, tasks) == LoadTasks(g1, anchor, tasks[1..]);
      assert w in g1 && d in g1[w];
      LoadTasksEntry(g1, anchor, tasks[1..], w, d);
      var head := if tasks[0].date == d then [tasks[0].body] else [];
      assert BodiesOn(tasks, d) == head + BodiesOn(tasks[1..], d);
      LoadTaskEntry(g, anchor, tasks[0], w, d);
      if w == FindWeek(anchor, d) {
        assert g1[w][d] == g[w][d] + head;
      }
    }
  }

  /** Builds the timesheet for tasks reported from `start` to `end`: the grid
      runs from the Sunday starting `start`'s week through `end` inclusive. */
  function CreateTimesheet(tasks: seq<Task>, start: Date, end: Date): Result<Grid, LoadError>
  {
    var anchor := StartOfWeek(start);
    LoadTasks(InitTimesheet(anchor, end), anchor, tasks)
  }

  /** A task makes `CreateTimesheet` raise `KeyError` when its week has a
      bucket but its day lies outside the grid. */
  predicate Rejected(anchor: Date, end: Date, day: Date)
  {
    BucketExists(anchor, end, FindWeek(anchor, day)) && !(anchor <= day <= end)
  }

  /** `CreateTimesheet` fails exactly when some task is `Rejected`, with the
      `KeyError` of the first one. */
  lemma CreateTimesheetFailure(tasks: seq<Task>, start: Date, end: Date)
    ensures CreateTimesheet(tasks, start, end).Success? <==>
      forall i :: 0 <= i < |tasks| ==> !Rejected(StartOfWeek(start), end, tasks[i].date)
    ensures CreateTimesheet(tasks, start, end).Failure? ==>
      exists i :: 0 <= i < |tasks| && Rejected(StartOfWeek(start), end, tasks[i].date)
        && CreateTimesheet(tasks, start, end).error == KeyError(tasks[i].date)
        && forall j :: 0 <= j < i ==> !Rejected(StartOfWeek(start), end, tasks[j].date)
  {
    var anchor := StartOfWeek(start);
    var g := InitTimesheet(anchor, end);
    InitTimesheetEntries(anchor, end);
    forall d ensures Missing(g, anchor, d) == Rejected(anchor, end, d) {
      InitTimesheetWeeks(anchor, end, FindWeek(anchor, d));
    }
    LoadTasksFailure(g, anchor, tasks);
  }

  /** A successful timesheet holds each day from the anchor through `end`
      exactly once, under that day's week; its weeks are those the days reach.
      Tasks on other days appear nowhere. */
  lemma CreateTimesheetDays(tasks: seq<Task>, start: Date, end: Date)
    requires CreateTimesheet(tasks, start, end).Success?
    ensures var g := CreateTimesheet(tasks, start, end).value;
      forall w, d {:trigger d in g[w]} :: w in g && d in g[w] ==>
        StartOfWeek(start) <= d <= end && w == FindWeek(StartOfWeek(start), d)
    ensures var g := CreateTimesheet(tasks, start, end).value;
      forall d :: StartOfWeek(start) <= d <= end ==>
        FindWeek(StartOfWeek(start), d) in g && d in g[FindWeek(StartOfWeek(start), d)]
    ensures var g := CreateTimesheet(tasks, start, end).value;
      forall w :: w in g <==> BucketExists(StartOfWeek(start), end, w)
  {
    var anchor := StartOfWeek(start);
    var g0 := InitTimesheet(anchor, end);
    var g := CreateTimesheet(tasks, start, end).value;
    assert g == LoadTasks(g0, anchor, tasks).value;
    InitTimesheetEntries(anchor, end);
    LoadTasksShape(g0, anchor, tasks);
    assert g0.Keys == g.Keys;
    forall w ensures w in g <==> BucketExists(anchor, end, w) {
      InitTimesheetWeeks(anchor, end, w);
    }
    forall w, d | w in g && d in g[w]
      ensures anchor <= d <= end && w == FindWeek(anchor, d)
    {
      assert g0[w].Keys == g[w].Keys;
      assert d in g0[w];
    }
    forall d | anchor <= d <= end
      ensures FindWeek(anchor, d) in g && d in g[FindWeek(anchor, d)]
    {
      var w := FindWeek(anchor, d);
      assert g0[w].Keys == g[w].Keys;
    }
  }

  /** In a successful timesheet each day's list holds the bodies of the tasks
      on that day, in task order. */
  lemma CreateTimesheetBodies(tasks: seq<Task>, start: Date, end: Date)
    requires CreateTimesheet(tasks, start, end).Success?
    ensures var g := CreateTimesheet(tasks, start, end).value;
      forall d :: StartOfWeek(start) <= d <= end ==>
        && FindWeek(StartOfWeek(start), d) in g
        && d in g[FindWeek(StartOfWeek(start), d)]
        && g[FindWeek(StartOfWeek(start), d)][d] == BodiesOn(tasks, d)
  {
    var anchor := StartOfWeek(start);
    var g0 := InitTimesheet(anchor, end);
    assert CreateTimesheet(tasks, start, end) == LoadTasks(g0, anchor, tasks);
    InitTimesheetEntries(anchor, end);
    forall d | anchor <= d <= end
      ensures var g := LoadTasks(g0, anchor, tasks).value;
        FindWeek(anchor, d) in g && d in g[FindWeek(anchor, d)] && g[FindWeek(anchor, d)][d] == BodiesOn(tasks, d)
    {
      LoadTasksEntry(g0, anchor, tasks, FindWeek(anchor, d), d);
    }
  }

  /** The single task ('2019-09-08', 'foobar') reported from 2019-09-08 to
      2019-09-10 lands in week 1 on its day. */
  lemma CreateTimesheetExample()
    ensures var r := CreateTimesheet([Task(SEP_8_2019, "foobar")], SEP_8_2019, SEP_8_2019 + 2);
      && r.Success?
      && Some(1) in r.value && SEP_8_2019 in r.value[Some(1)]
      && r.value[Some(1)][SEP_8_2019] == ["foobar"]
  {
    var tasks := [Task(SEP_8_2019, "foobar")];
    var start, end := SEP_8_2019, SEP_8_2019 + 2;
    StartOfWeekExamples();
    FindWeekOfWeekStart(SEP_8_2019, 1);
    CreateTimesheetFailure(tasks, start, end);
    CreateTimesheetBodies(tasks, start, end);
    assert BodiesOn(tasks, SEP_8_2019) == ["foobar"];
  }

  /** The empty grid from 2019-09-08 through 2019-09-10 has the single week 1,
      holding the 8th, 9th and 10th (the end day included). */
  lemma InitTimesheetExample()
    ensures InitTimesheet(SEP_8_2019, SEP_8_2019 + 2).Keys == {Some(1)}
    ensures InitTimesheet(SEP_8_2019, SEP_8_2019 + 2)[Some(1)].Keys ==
      {SEP_8_2019, SEP_8_2019 + 1, SEP_8_2019 + 2}
  {
    var anchor, end := SEP_8_2019, SEP_8_2019 + 2;
    var g := InitTimesheet(anchor, end);
    InitTimesheetEntries(anchor, end);
    forall w ensures w in g <==> w == Some(1) {
      InitTimesheetWeeks(anchor, end, w);
    }
    forall d ensures d in g[Some(1)] <==> anchor <= d <= end {
      if anchor <= d <= end {
        FindWeekClosedForm(anchor, d);
      }
    }
  }
}
