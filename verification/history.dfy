/** The history page: a user's log rows grouped by date, newest date first;
    each group padded with the tasks due on today's weekday that have no row
    in it; and each date ranked with 0, 1 or 2 stars. */
module History {
  import opened Wrappers
  import opened Seqs
  import opened Text
  import opened Calendar
  import opened Records
  import opened Schedule
  import opened Streak

  /** One row of a history group. */
  datatype HistEntry = HistEntry(
    title: string,
    status: string,
    time: Option<string>,
    pageNumbers: Option<string>,
    frequency: string,
    duration: Option<int>)

  /** One date of the page with its padded rows and its star rank. */
  datatype Day = Day(date: string, entries: seq<HistEntry>, star: int)

  /** The frequency shown for a log row whose title matches no task. */
  const Unknown: string := "Unknown"

  /** `task_details.get(title, ...)`: frequency and duration of a task with
      that title. The dict comprehension keeps the last task per title, so
      the last one wins; with none, "Unknown" and no duration. */
  function Details(tasks: seq<Task>, title: string): (d: (string, Option<int>))
    ensures (forall k :: 0 <= k < |tasks| ==> tasks[k].title != title) ==> d == (Unknown, None)
    ensures forall k ::
      (0 <= k < |tasks| && tasks[k].title == title && forall j :: k < j < |tasks| ==> tasks[j].title != title)
      ==> d == (tasks[k].frequency, tasks[k].duration)
  {
    match FindLast(tasks, (t: Task) => t.title == title)
    case None => (Unknown, None)
    case Some(k) => (tasks[k].frequency, tasks[k].duration)
  }

  /** The history row of a log row. */
  function LogEntry(l: TaskLog, tasks: seq<Task>): HistEntry
  {
    var d := Details(tasks, l.title);
    HistEntry(l.title, l.status, l.time, l.pageNumbers, d.0, d.1)
  }

  /** The log rows dated `date`, in table order. */
  function DatedLogs(logs: seq<TaskLog>, date: string): seq<TaskLog>
  {
    Filter(logs, OnDate(date))
  }

  function OnDate(date: string): TaskLog -> bool
  {
    (l: TaskLog) => l.date == date
  }

  /** `grouped[date]` before padding: the rows of the logs of that date, in
      table order. */
  function Group(logs: seq<TaskLog>, tasks: seq<Task>, date: string): (g: seq<HistEntry>)
    ensures |g| == |DatedLogs(logs, date)|
    ensures forall i :: 0 <= i < |g| ==> g[i] == LogEntry(DatedLogs(logs, date)[i], tasks)
  {
    var dated := DatedLogs(logs, date);
    seq(|dated|, i requires 0 <= i < |dated| => LogEntry(dated[i], tasks))
  }

  /** A row is in the group of a date exactly when it comes from a log row of
      that date; a log whose title matches no task shows "Unknown" and no
      duration. */
  lemma GroupHoldsItsLogs(logs: seq<TaskLog>, tasks: seq<Task>, date: string, k: nat)
    requires k < |logs|
    ensures logs[k].date == date ==> LogEntry(logs[k], tasks) in Group(logs, tasks, date)
    ensures forall e :: e in Group(logs, tasks, date) ==>
      exists j :: 0 <= j < |logs| && logs[j].date == date && e == LogEntry(logs[j], tasks)
    ensures (forall t :: t in tasks ==> t.title != logs[k].title) ==>
      LogEntry(logs[k], tasks).frequency == Unknown && LogEntry(logs[k], tasks).duration.None?
  {
    var dated := DatedLogs(logs, date);
    var g := Group(logs, tasks, date);
    if logs[k].date == date {
      assert logs[k] in dated;
      var i :| 0 <= i < |dated| && dated[i] == logs[k];
      assert g[i] == LogEntry(logs[k], tasks);
    }
    forall e | e in g
      ensures exists j :: 0 <= j < |logs| && logs[j].date == date && e == LogEntry(logs[j], tasks)
    {
      var i :| 0 <= i < |g| && g[i] == e;
      assert dated[i] in dated;
      var j :| 0 <= j < |logs| && logs[j] == dated[i];
    }
  }

  /** The titles already present in a group. */
  function Titles(g: seq<HistEntry>): set<string>
  {
    set e | e in g :: e.title
  }

  /** The row appended for a due task with no log. */
  function TodoEntry(t: Task): (e: HistEntry)
    ensures e.title == t.title && e.status == Todo && e.time.None? && e.pageNumbers.None?
    ensures e.frequency == t.frequency && e.duration == t.duration
  {
    HistEntry(t.title, Todo, None, None, t.frequency, t.duration)
  }

  /** The tasks whose row padding adds: due on weekday `w` and with a title
      not among `logged`, in table order. */
  function Missing(tasks: seq<Task>, logged: set<string>, w: DayName): (r: seq<Task>)
    ensures forall t :: t in r <==> t in tasks && IsDue(t.frequency, w) && t.title !in logged
    ensures IsSubsequence(r, tasks)
  {
    var p := (t: Task) => IsDue(t.frequency, w) && t.title !in logged;
    FilterKeepsOrder(tasks, p);
    Filter(tasks, p)
  }

  /** The rows padding appends to a group: one TODO row per task due on `w`
      whose title is not logged in the group, and no other rows. The titles
      are those of the group before padding, so two due tasks sharing an
      unlogged title are both appended. */
  function Padding(tasks: seq<Task>, g: seq<HistEntry>, w: DayName): (p: seq<HistEntry>)
    ensures forall k :: 0 <= k < |tasks| && IsDue(tasks[k].frequency, w) && tasks[k].title !in Titles(g) ==>
      TodoEntry(tasks[k]) in p
    ensures forall e :: e in p ==> e.status == Todo && e.time.None? && e.pageNumbers.None? && e.title !in Titles(g)
    ensures forall e :: e in p ==>
      exists k :: 0 <= k < |tasks| && IsDue(tasks[k].frequency, w) && e == TodoEntry(tasks[k])
    ensures var missing := Missing(tasks, Titles(g), w);
      && |p| == |missing|
      && forall i :: 0 <= i < |p| ==> p[i] == TodoEntry(missing[i])
  {
    var missing := Missing(tasks, Titles(g), w);
    var p := seq(|missing|, i requires 0 <= i < |missing| => TodoEntry(missing[i]));
    TodoRows(missing, p);
    forall e | e in p
      ensures exists k :: 0 <= k < |tasks| && IsDue(tasks[k].frequency, w) && e == TodoEntry(tasks[k])
    {
      var t :| t in missing && e == TodoEntry(t);
      var k :| 0 <= k < |tasks| && tasks[k] == t;
    }
    p
  }

  /** Rows made one per task, in order: each task's row is among them, and
      each row is some task's. */
  lemma TodoRows(ts: seq<Task>, p: seq<HistEntry>)
    requires |p| == |ts| && forall i :: 0 <= i < |p| ==> p[i] == TodoEntry(ts[i])
    ensures forall t :: t in ts ==> TodoEntry(t) in p
    ensures forall e :: e in p ==> exists t :: t in ts && e == TodoEntry(t)
  {
    forall t | t in ts
      ensures TodoEntry(t) in p
    {
      var i :| 0 <= i < |ts| && ts[i] == t;
      assert p[i] == TodoEntry(t);
    }
    forall e | e in p
      ensures exists t :: t in ts && e == TodoEntry(t)
    {
      var i :| 0 <= i < |p| && p[i] == e;
      assert ts[i] in ts;
    }
  }

  /** One turn of the padding loop: one more task in the table appends its
      TODO row after all earlier ones when it is due and unlogged, and
      nothing otherwise. */
  lemma PaddingStep(tasks: seq<Task>, t: Task, g: seq<HistEntry>, w: DayName)
    ensures Padding(tasks + [t], g, w)
         == Padding(tasks, g, w) + (if IsDue(t.frequency, w) && t.title !in Titles(g) then [TodoEntry(t)] else [])
  {
    var before := Padding(tasks, g, w);
    var after := Padding(tasks + [t], g, w);
    var extra := if IsDue(t.frequency, w) && t.title !in Titles(g) then [TodoEntry(t)] else [];
    MissingStep(tasks, t, Titles(g), w);
    assert |after| == |before| + |extra|;
    forall i | 0 <= i < |after|
      ensures after[i] == (before + extra)[i]
    {
      if i < |before| {
        assert (before + extra)[i] == before[i];
      } else {
        assert (before + extra)[i] == extra[i - |before|];
      }
    }
  }

  lemma MissingStep(tasks: seq<Task>, t: Task, logged: set<string>, w: DayName)
    ensures Missing(tasks + [t], logged, w)
         == Missing(tasks, logged, w) + (if IsDue(t.frequency, w) && t.title !in logged then [t] else [])
  {
    var p := (x: Task) => IsDue(x.frequency, w) && x.title !in logged;
    FilterConcat(tasks, [t], p);
    assert Filter([t], p) == if p(t) then [t] else [] by {
      assert [t][1..] == [];
    }
  }

  /** A title already logged in the group is never appended again. */
  lemma PaddingKeepsLoggedTitles(tasks: seq<Task>, g: seq<HistEntry>, w: DayName, title: string)
    requires title in Titles(g)
    ensures forall e :: e in g + Padding(tasks, g, w) && e.title == title ==> e in g
  {
  }

  /** All rows of a day are "Done" (vacuously true of no rows, as Python's
      `all`). */
  predicate AllDone(entries: seq<HistEntry>)
  {
    forall i :: 0 <= i < |entries| ==> entries[i].status == Done
  }

  /** Some row has a completion time, and every row's completion time parses
      with an hour before 12. */
  predicate TimesBeforeNoon(entries: seq<HistEntry>)
  {
    && (exists i :: 0 <= i < |entries| && Truthy(entries[i].time))
    && (forall i :: 0 <= i < |entries| && Truthy(entries[i].time) ==> MorningTime(entries[i].time.value))
  }

  /** The star rank of a day: 2 when every row is "Done" and the times are
      before noon, 1 when every row is "Done" otherwise (a time that does not
      parse included), 0 when some row is not "Done". The time check is only
      made for days whose rows are all done. */
  function Star(entries: seq<HistEntry>): (s: int)
    ensures 0 <= s <= 2
    ensures s == 2 <==> AllDone(entries) && TimesBeforeNoon(entries)
    ensures s == 1 <==> AllDone(entries) && !TimesBeforeNoon(entries)
    ensures s == 0 <==> !AllDone(entries)
  {
    var allDone := forall i :: 0 <= i < |entries| ==> entries[i].status == Done;
    TimesOfBeforeNoon(entries);
    var beforeNoon := allDone && BeforeNoonOf(TimesOf(entries));
    if beforeNoon then 2 else if allDone then 1 else 0
  }

  /** The completion-time column of a day's rows. */
  function TimesOf(entries: seq<HistEntry>): (times: seq<Option<string>>)
    ensures |times| == |entries|
    ensures forall i :: 0 <= i < |entries| ==> times[i] == entries[i].time
  {
    seq(|entries|, i requires 0 <= i < |entries| => entries[i].time)
  }

  lemma TimesOfBeforeNoon(entries: seq<HistEntry>)
    ensures BeforeNoonOf(TimesOf(entries)) <==> TimesBeforeNoon(entries)
  {
    var times := TimesOf(entries);
    assert forall i :: 0 <= i < |entries| ==> times[i] == entries[i].time;
  }

  /** A day whose rows are all done but one of whose times does not parse
      gets one star, not two. */
  lemma UnparsableTimeGivesOneStar(entries: seq<HistEntry>, i: nat)
    requires AllDone(entries)
    requires i < |entries| && Truthy(entries[i].time) && ParseTime(entries[i].time.value).None?
    ensures Star(entries) == 1
  {
    assert !MorningTime(entries[i].time.value);
  }

  /** The page's entry for `date`: its group, padded with the tasks due on
      today's weekday `w` (not on the weekday of `date`), and its stars. */
  function DayOf(logs: seq<TaskLog>, tasks: seq<Task>, date: string, w: DayName): (d: Day)
    ensures d.date == date
    ensures var g := Group(logs, tasks, date);
      && |d.entries| == |g| + |Padding(tasks, g, w)|
      && d.entries[..|g|] == g
      && d.entries[|g|..] == Padding(tasks, g, w)
    ensures d.star == Star(d.entries)
  {
    var g := Group(logs, tasks, date);
    var entries := g + Padding(tasks, g, w);
    assert entries[..|g|] == g;
    assert entries[|g|..] == Padding(tasks, g, w);
    Day(date, entries, Star(entries))
  }

  /** Strictly decreasing in Python's string order: distinct dates, newest
      first for `YYYY-MM-DD` strings. */
  predicate Descending(r: seq<string>)
  {
    forall i, j :: 0 <= i < j < |r| ==> LexLt(r[j], r[i])
  }

  /** Adds `x` to a descending list of distinct strings, at its place. */
  function Insert(r: seq<string>, x: string): (q: seq<string>)
    ensures forall d :: d in q <==> d in r || d == x
    decreases |r|
  {
    if |r| == 0 then [x]
    else if r[0] == x then r
    else if LexLt(r[0], x) then [x] + r
    else [r[0]] + Insert(r[1..], x)
  }

  lemma {:induction false} InsertKeepsDescending(r: seq<string>, x: string)
    requires Descending(r)
    ensures Descending(Insert(r, x))
    decreases |r|
  {
    if |r| == 0 || r[0] == x {
    } else if LexLt(r[0], x) {
      var q := [x] + r;
      forall i, j | 0 <= i < j < |q|
        ensures LexLt(q[j], q[i])
      {
        if i == 0 && j > 1 {
          LexLtTransitive(r[j - 1], r[0], x);
        }
      }
    } else {
      LexLtTotal(r[0], x);
      InsertKeepsDescending(r[1..], x);
      var rest := Insert(r[1..], x);
      var q := [r[0]] + rest;
      forall i, j | 0 <= i < j < |q|
        ensures LexLt(q[j], q[i])
      {
        if i == 0 {
          assert q[j] in rest;
          assert q[j] in r[1..] || q[j] == x;
          if q[j] != x {
            var m :| 0 <= m < |r[1..]| && r[1..][m] == q[j];
            assert r[m + 1] == q[j];
          }
        }
      }
    }
  }

  /** The dates of the log rows, in table order (with repeats). */
  function Dates(logs: seq<TaskLog>): (r: seq<string>)
    ensures |r| == |logs|
    ensures forall k :: 0 <= k < |logs| ==> r[k] == logs[k].date
  {
    seq(|logs|, k requires 0 <= k < |logs| => logs[k].date)
  }

  /** `sorted(grouped.keys(), reverse=True)`: each date of the log rows once,
      in strictly decreasing order. */
  function SortedDates(logs: seq<TaskLog>): (r: seq<string>)
    ensures Descending(r)
    ensures forall d :: d in r <==> d in Dates(logs)
    decreases |logs|
  {
    if |logs| == 0 then []
    else
      var n := |logs| - 1;
      var q := SortedDates(logs[..n]);
      InsertKeepsDescending(q, logs[n].date);
      assert Dates(logs) == Dates(logs[..n]) + [logs[n].date];
      Insert(q, logs[n].date)
  }

  /** The history page of user `userId` when today is weekday `w`: one day
      per date of the user's log rows, newest first. */
  function History(logs: seq<TaskLog>, tasks: seq<Task>, userId: int, w: DayName): (r: seq<Day>)
    ensures var mine := UserLogs(logs, userId);
      var dates := SortedDates(mine);
      && |r| == |dates|
      && forall i :: 0 <= i < |r| ==> r[i] == DayOf(mine, UserTasks(tasks, userId), dates[i], w)
  {
    var mine := UserLogs(logs, userId);
    var dates := SortedDates(mine);
    seq(|dates|, i requires 0 <= i < |dates| => DayOf(mine, UserTasks(tasks, userId), dates[i], w))
  }

  function UserLogs(logs: seq<TaskLog>, userId: int): seq<TaskLog>
  {
    Filter(logs, (l: TaskLog) => l.userId == userId)
  }

  function UserTasks(tasks: seq<Task>, userId: int): seq<Task>
  {
    Filter(tasks, (t: Task) => t.userId == userId)
  }

  /** The days are newest first, with no date twice. */
  lemma HistoryIsNewestFirst(logs: seq<TaskLog>, tasks: seq<Task>, userId: int, w: DayName)
    ensures var r := History(logs, tasks, userId, w);
      forall i, j :: 0 <= i < j < |r| ==> LexLt(r[j].date, r[i].date)
  {
    var r := History(logs, tasks, userId, w);
    var dates := SortedDates(UserLogs(logs, userId));
    assert forall i :: 0 <= i < |r| ==> r[i].date == dates[i];
  }

  /** There is a day for a date exactly when the user has a log row of that
      date. */
  lemma HistoryDatesAreTheUsersDates(logs: seq<TaskLog>, tasks: seq<Task>, userId: int, w: DayName, date: string)
    ensures var r := History(logs, tasks, userId, w);
      (exists i :: 0 <= i < |r| && r[i].date == date) <==>
      (exists k :: 0 <= k < |logs| && logs[k].userId == userId && logs[k].date == date)
  {
    var r := History(logs, tasks, userId, w);
    if exists i :: 0 <= i < |r| && r[i].date == date {
      var i :| 0 <= i < |r| && r[i].date == date;
      DayHasALog(logs, tasks, userId, w, i);
    }
    if exists k :: 0 <= k < |logs| && logs[k].userId == userId && logs[k].date == date {
      var k :| 0 <= k < |logs| && logs[k].userId == userId && logs[k].date == date;
      LogHasADay(logs, tasks, userId, w, k);
    }
  }

  lemma DayHasALog(logs: seq<TaskLog>, tasks: seq<Task>, userId: int, w: DayName, i: nat)
    requires i < |History(logs, tasks, userId, w)|
    ensures var d := History(logs, tasks, userId, w)[i].date;
      exists k :: 0 <= k < |logs| && logs[k].userId == userId && logs[k].date == d
  {
    var mine := UserLogs(logs, userId);
    var dates := SortedDates(mine);
    var date := dates[i];
    assert dates[i] in dates;
    var m :| 0 <= m < |mine| && Dates(mine)[m] == date;
    assert mine[m] in mine;
    var k :| 0 <= k < |logs| && logs[k] == mine[m];
  }

  lemma LogHasADay(logs: seq<TaskLog>, tasks: seq<Task>, userId: int, w: DayName, k: nat)
    requires k < |logs| && logs[k].userId == userId
    ensures var r := History(logs, tasks, userId, w);
      exists i :: 0 <= i < |r| && r[i].date == logs[k].date
  {
    var r := History(logs, tasks, userId, w);
    var mine := UserLogs(logs, userId);
    var dates := SortedDates(mine);
    assert logs[k] in mine;
    var m :| 0 <= m < |mine| && mine[m] == logs[k];
    assert Dates(mine)[m] == logs[k].date;
    assert logs[k].date in dates;
    var i :| 0 <= i < |dates| && dates[i] == logs[k].date;
    assert r[i].date == logs[k].date;
  }

  /** Every log row of the user lands in exactly one day: the one of its
      own date. */
  lemma LogLandsInOneDay(logs: seq<TaskLog>, tasks: seq<Task>, userId: int, w: DayName, k: nat)
    requires k < |logs| && logs[k].userId == userId
    ensures var r := History(logs, tasks, userId, w);
      exists i :: 0 <= i < |r| && r[i].date == logs[k].date
        && LogEntry(logs[k], UserTasks(tasks, userId)) in r[i].entries
    ensures var r := History(logs, tasks, userId, w);
      forall i, j :: 0 <= i < |r| && 0 <= j < |r| && r[i].date == logs[k].date && r[j].date == logs[k].date ==> i == j
  {
    var r := History(logs, tasks, userId, w);
    LogHasADay(logs, tasks, userId, w, k);
    OneDayPerDate(logs, tasks, userId, w, logs[k].date);
    var i :| 0 <= i < |r| && r[i].date == logs[k].date;
    LogInItsDay(logs, tasks, userId, w, k, i);
  }

  lemma LogInItsDay(logs: seq<TaskLog>, tasks: seq<Task>, userId: int, w: DayName, k: nat, i: nat)
    requires k < |logs| && logs[k].userId == userId
    requires var r := History(logs, tasks, userId, w); i < |r| && r[i].date == logs[k].date
    ensures LogEntry(logs[k], UserTasks(tasks, userId)) in History(logs, tasks, userId, w)[i].entries
  {
    var r := History(logs, tasks, userId, w);
    var mine := UserLogs(logs, userId);
    var myTasks := UserTasks(tasks, userId);
    assert logs[k] in mine;
    var m :| 0 <= m < |mine| && mine[m] == logs[k];
    GroupHoldsItsLogs(mine, myTasks, logs[k].date, m);
    var g := Group(mine, myTasks, logs[k].date);
    assert r[i] == DayOf(mine, myTasks, logs[k].date, w);
    assert r[i].entries[..|g|] == g;
    assert LogEntry(logs[k], myTasks) in r[i].entries[..|g|];
  }

  /** No two days of the history share a date. */
  lemma OneDayPerDate(logs: seq<TaskLog>, tasks: seq<Task>, userId: int, w: DayName, date: string)
    ensures var r := History(logs, tasks, userId, w);
      forall i, j :: 0 <= i < |r| && 0 <= j < |r| && r[i].date == date && r[j].date == date ==> i == j
  {
    var r := History(logs, tasks, userId, w);
    HistoryIsNewestFirst(logs, tasks, userId, w);
  }

  /** A day depends on the log rows of its own date only: adding a row of
      another date, whatever its time, changes neither its rows nor its stars.
      So a time that does not parse costs only its own day its second star. */
  lemma OtherDatesDoNotMatter(logs: seq<TaskLog>, tasks: seq<Task>, date: string, w: DayName, l: TaskLog, at: nat)
    requires at <= |logs| && l.date != date
    ensures DayOf(logs[..at] + [l] + logs[at..], tasks, date, w) == DayOf(logs, tasks, date, w)
  {
    DatedLogsSkipOtherDates(logs, date, l, at);
  }

  lemma DatedLogsSkipOtherDates(logs: seq<TaskLog>, date: string, l: TaskLog, at: nat)
    requires at <= |logs| && l.date != date
    ensures DatedLogs(logs[..at] + [l] + logs[at..], date) == DatedLogs(logs, date)
  {
    FilterSkipsRejected(logs, l, at, OnDate(date));
  }

  /** Padding follows today's weekday, not the date's. On Saturday
      2026-10-10, a Monday-only task with no row is not added to Monday
      2026-10-05, which gets two stars from its one early "Done" row; were
      today a Monday, the task would be added and the day would get none. */
  lemma PastDaysUseTodaysWeekday()
    ensures DayNameOf(Date(2026, 10, 5)) == Mon
    ensures DayOf(ExampleLogs(), ExampleTasks(), "2026-10-05", Sat).star == 2
    ensures DayOf(ExampleLogs(), ExampleTasks(), "2026-10-05", Mon).star == 0
  {
    KnownWeekdays();
    SaturdayExample();
    MondayExample();
  }

  function ExampleLogs(): seq<TaskLog>
  {
    [TaskLog(1, 1, "Read", "2026-10-05", Done, Some("08:00:00"), None)]
  }

  function ExampleTasks(): seq<Task>
  {
    [Task(1, 1, "Piano", "Mon", None, false)]
  }

  lemma ExampleGroup()
    ensures Group(ExampleLogs(), ExampleTasks(), "2026-10-05")
      == [HistEntry("Read", Done, Some("08:00:00"), None, Unknown, None)]
  {
    var logs := ExampleLogs();
    assert DatedLogs(logs, "2026-10-05") == logs by {
      assert logs[1..] == [];
    }
    assert Details(ExampleTasks(), "Read") == (Unknown, None);
  }

  lemma SaturdayExample()
    ensures DayOf(ExampleLogs(), ExampleTasks(), "2026-10-05", Sat).star == 2
  {
    ExampleGroup();
    var g := Group(ExampleLogs(), ExampleTasks(), "2026-10-05");
    SingleDayDueOnlyThatDay(Mon, Sat);
    var t := ExampleTasks()[0];
    PaddingStep([], t, g, Sat);
    assert [] + [t] == ExampleTasks();
    assert Padding(ExampleTasks(), g, Sat) == [];
    var sat := DayOf(ExampleLogs(), ExampleTasks(), "2026-10-05", Sat);
    assert sat.entries == g;
    EarlyDoneDay(g);
  }

  /** A day whose one row is done at 08:00:00 gets two stars. */
  lemma EarlyDoneDay(g: seq<HistEntry>)
    requires |g| == 1 && g[0].status == Done && g[0].time == Some("08:00:00")
    ensures Star(g) == 2
  {
    MorningEight();
    assert Truthy(g[0].time);
    assert TimesBeforeNoon(g);
  }

  lemma MorningEight()
    ensures MorningTime("08:00:00")
  {
    assert "08:00:00"[0..2] == "08";
    assert "08:00:00"[3..5] == "00";
    assert "08:00:00"[6..8] == "00";
    assert DigitsValue("08") == 8;
  }

  lemma MondayExample()
    ensures DayOf(ExampleLogs(), ExampleTasks(), "2026-10-05", Mon).star == 0
  {
    ExampleGroup();
    var g := Group(ExampleLogs(), ExampleTasks(), "2026-10-05");
    SingleDayDueOnlyThatDay(Mon, Mon);
    assert "Piano" !in Titles(g);
    var t := ExampleTasks()[0];
    PaddingStep([], t, g, Mon);
    assert [] + [t] == ExampleTasks();
    assert Padding(ExampleTasks(), g, Mon) == [TodoEntry(t)];
    var mon := DayOf(ExampleLogs(), ExampleTasks(), "2026-10-05", Mon);
    assert mon.entries[|g|] == TodoEntry(t);
  }
}
