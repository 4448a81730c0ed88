/** The daily task page: which of a user's tasks are due today, their status
    from today's log rows, the status upsert behind "mark" / "unmark", and
    the page's before-noon check. */
module DailyTasks {
  import opened Wrappers
  import opened Seqs
  import opened Calendar
  import opened Records
  import opened Schedule
  import opened Streak

  /** What the page shows as a task's duration: the stored minutes, or the
      sentinel "as needed" when none is stored. */
  datatype Duration = Minutes(minutes: int) | AsNeeded

  /** One row of the daily page. */
  datatype Entry = Entry(title: string, status: string, frequency: string, duration: Duration, time: Option<string>)

  /** The user's task rows due on weekday `w`, in table order. */
  function DueTasks(tasks: seq<Task>, userId: int, w: DayName): (r: seq<Task>)
    ensures forall t :: t in r <==> t in tasks && t.userId == userId && IsDue(t.frequency, w)
    ensures IsSubsequence(r, tasks)
  {
    var p := (t: Task) => t.userId == userId && IsDue(t.frequency, w);
    FilterKeepsOrder(tasks, p);
    Filter(tasks, p)
  }

  /** The user's log rows dated `date`, in table order. */
  function LogsOn(logs: seq<TaskLog>, userId: int, date: string): seq<TaskLog>
  {
    Filter(logs, (l: TaskLog) => l.userId == userId && l.date == date)
  }

  /** The page row of task `t`, overlaid with the first of `dayLogs` that
      carries its title. */
  function EntryFor(t: Task, dayLogs: seq<TaskLog>): (e: Entry)
    ensures e.title == t.title && e.frequency == t.frequency
    ensures t.duration.None? ==> e.duration == AsNeeded
    ensures t.duration.Some? ==> e.duration == Minutes(t.duration.value)
    ensures (forall k :: 0 <= k < |dayLogs| ==> dayLogs[k].title != t.title) ==> e.status == Todo && e.time.None?
    ensures forall k ::
      && 0 <= k < |dayLogs| && dayLogs[k].title == t.title
      && (forall j :: 0 <= j < k ==> dayLogs[j].title != t.title)
      ==> e.status == dayLogs[k].status && e.time == (if dayLogs[k].status == Done then dayLogs[k].time else None)
    ensures e.time.Some? ==> e.status == Done
  {
    var duration := if t.duration.Some? then Minutes(t.duration.value) else AsNeeded;
    match FindFirst(dayLogs, (l: TaskLog) => l.title == t.title)
    case None => Entry(t.title, Todo, t.frequency, duration, None)
    case Some(k) =>
      var log := dayLogs[k];
      Entry(t.title, log.status, t.frequency, duration, if log.status == Done then log.time else None)
  }

  /** `load_tasks_for_user`: one row per due task of the user, in the order
      of the task table (not sorted), each overlaid with today's log. */
  function LoadTasks(tasks: seq<Task>, logs: seq<TaskLog>, userId: int, today: string, w: DayName): (r: seq<Entry>)
    ensures var due := DueTasks(tasks, userId, w);
      && |r| == |due|
      && forall i :: 0 <= i < |r| ==> r[i] == EntryFor(due[i], LogsOn(logs, userId, today))
  {
    var due := DueTasks(tasks, userId, w);
    var dayLogs := LogsOn(logs, userId, today);
    seq(|due|, i requires 0 <= i < |due| => EntryFor(due[i], dayLogs))
  }

  /** Every due task of the user gets its own row, built from today's logs;
      a task that is not due today has no row with its frequency. */
  lemma LoadTasksShowsExactlyDue(tasks: seq<Task>, logs: seq<TaskLog>, userId: int, today: string, w: DayName, k: nat)
    requires k < |tasks|
    ensures var r := LoadTasks(tasks, logs, userId, today, w);
      tasks[k].userId == userId && IsDue(tasks[k].frequency, w) ==>
      exists i :: 0 <= i < |r| && r[i] == EntryFor(tasks[k], LogsOn(logs, userId, today))
    ensures var r := LoadTasks(tasks, logs, userId, today, w);
      !IsDue(tasks[k].frequency, w) ==> forall i :: 0 <= i < |r| ==> r[i].frequency != tasks[k].frequency
  {
    var r := LoadTasks(tasks, logs, userId, today, w);
    var due := DueTasks(tasks, userId, w);
    if tasks[k].userId == userId && IsDue(tasks[k].frequency, w) {
      assert tasks[k] in due;
      var i :| 0 <= i < |due| && due[i] == tasks[k];
      assert r[i] == EntryFor(tasks[k], LogsOn(logs, userId, today));
    }
    forall i | 0 <= i < |r|
      ensures IsDue(r[i].frequency, w)
    {
      assert due[i] in due;
    }
  }

  /** Every row on the page belongs to a due task of the user. */
  lemma LoadTasksRowsAreDue(tasks: seq<Task>, logs: seq<TaskLog>, userId: int, today: string, w: DayName, i: nat)
    requires i < |LoadTasks(tasks, logs, userId, today, w)|
    ensures var e := LoadTasks(tasks, logs, userId, today, w)[i];
      IsDue(e.frequency, w) &&
      exists k :: 0 <= k < |tasks| && tasks[k].userId == userId && tasks[k].title == e.title
  {
    var due := DueTasks(tasks, userId, w);
    assert due[i] in due;
  }

  /** The completion time `log_task_status` records: the current time for
      "Done", nothing otherwise. */
  function StatusTime(status: string, now: string): (t: Option<string>)
    ensures t.Some? <==> status == Done
    ensures t.Some? ==> t.value == now
  {
    if status == Done then Some(now) else None
  }

  /** `log_task_status`: upsert of the (user, title, today) log row. The first
      such row gets the new status and time; with none, exactly one row is
      appended, with `freshId` (the id the database assigns) and no page numbers. */
  function LogTaskStatus(logs: seq<TaskLog>, userId: int, title: string, status: string, today: string, now: string, freshId: int): (r: seq<TaskLog>)
    ensures KeyCount(r, userId, title, today) == if KeyCount(logs, userId, title, today) == 0 then 1 else KeyCount(logs, userId, title, today)
    ensures |r| == |logs| + (if KeyCount(logs, userId, title, today) == 0 then 1 else 0)
    ensures KeyCount(logs, userId, title, today) == 0 ==>
      r[|logs|] == TaskLog(freshId, userId, title, today, status, StatusTime(status, now), None)
    ensures forall k :: 0 <= k < |logs| && !HasKey(logs[k], userId, title, today) ==> r[k] == logs[k]
    ensures exists k :: UpsertedAt(logs, r, k, userId, title, status, today, now)
    ensures forall k ::
      (0 <= k < |logs| && HasKey(logs[k], userId, title, today) &&
       exists j :: 0 <= j < k && HasKey(logs[j], userId, title, today)) ==> r[k] == logs[k]
  {
    var key := KeyOf(userId, title, today);
    var time := StatusTime(status, now);
    match FindFirst(logs, key)
    case Some(i) =>
      var r := logs[i := logs[i].(status := status, time := time)];
      CountUpdate(logs, i, r[i], key);
      CountPositive(logs, key, i);
      assert UpsertedAt(logs, r, i, userId, title, status, today, now);
      r
    case None =>
      var row := TaskLog(freshId, userId, title, today, status, time, None);
      var r := logs + [row];
      CountAppend(logs, row, key);
      KeyCountZero(logs, userId, title, today);
      assert UpsertedAt(logs, r, |logs|, userId, title, status, today, now);
      r
  }

  /** Row `k` of `r` is the first row of the key, carries the new status and
      time, and (when it already existed in `logs`) keeps its id and page
      numbers. */
  ghost predicate UpsertedAt(logs: seq<TaskLog>, r: seq<TaskLog>, k: int, userId: int, title: string, status: string, today: string, now: string)
  {
    && 0 <= k < |r|
    && HasKey(r[k], userId, title, today)
    && r[k].status == status
    && r[k].time == StatusTime(status, now)
    && (forall j :: 0 <= j < k ==> !HasKey(r[j], userId, title, today))
    && (k < |logs| ==> r[k].id == logs[k].id && r[k].pageNumbers == logs[k].pageNumbers)
  }

  lemma KeyCountZero(logs: seq<TaskLog>, userId: int, title: string, date: string)
    requires forall j :: 0 <= j < |logs| ==> !HasKey(logs[j], userId, title, date)
    ensures KeyCount(logs, userId, title, date) == 0
    decreases |logs|
  {
    if |logs| > 0 {
      KeyCountZero(logs[1..], userId, title, date);
    }
  }

  /** Marking the same task twice on one day leaves one row for that key
      (when there was at most one), carrying the second status. */
  lemma UpsertTwiceKeepsOneRow(logs: seq<TaskLog>, userId: int, title: string, today: string,
                               s1: string, t1: string, s2: string, t2: string, id1: int, id2: int)
    requires KeyCount(logs, userId, title, today) <= 1
    ensures var r := LogTaskStatus(LogTaskStatus(logs, userId, title, s1, today, t1, id1), userId, title, s2, today, t2, id2);
      && KeyCount(r, userId, title, today) == 1
      && forall k :: 0 <= k < |r| && HasKey(r[k], userId, title, today) ==> r[k].status == s2 && r[k].time == StatusTime(s2, t2)
  {
    var r1 := LogTaskStatus(logs, userId, title, s1, today, t1, id1);
    var r := LogTaskStatus(r1, userId, title, s2, today, t2, id2);
    var key := KeyOf(userId, title, today);
    var m :| UpsertedAt(r1, r, m, userId, title, s2, today, t2);
    forall k | 0 <= k < |r| && HasKey(r[k], userId, title, today)
      ensures r[k].status == s2 && r[k].time == StatusTime(s2, t2)
    {
      CountOneIsUnique(r, key, k, m);
    }
  }

  /** At most one log row per (user, title, date) key. The schema does not
      enforce this; only the upsert in `LogTaskStatus` keeps it. */
  ghost predicate KeysUnique(logs: seq<TaskLog>)
  {
    forall u, t, d :: KeyCount(logs, u, t, d) <= 1
  }

  /** The upsert keeps keys unique: it touches only rows of its own key, and
      leaves that key with exactly one row. */
  lemma UpsertKeepsKeysUnique(logs: seq<TaskLog>, userId: int, title: string, status: string, today: string, now: string, freshId: int)
    requires KeysUnique(logs)
    ensures KeysUnique(LogTaskStatus(logs, userId, title, status, today, now, freshId))
  {
    var r := LogTaskStatus(logs, userId, title, status, today, now, freshId);
    forall u, t, d
      ensures KeyCount(r, u, t, d) <= 1
    {
      if (u, t, d) != (userId, title, today) {
        OtherKeyCountUnchanged(logs, userId, title, status, today, now, freshId, u, t, d);
      }
    }
  }

  lemma OtherKeyCountUnchanged(logs: seq<TaskLog>, userId: int, title: string, status: string, today: string, now: string, freshId: int,
                               u: int, t: string, d: string)
    requires (u, t, d) != (userId, title, today)
    ensures KeyCount(LogTaskStatus(logs, userId, title, status, today, now, freshId), u, t, d) == KeyCount(logs, u, t, d)
  {
    var key := KeyOf(userId, title, today);
    var other := KeyOf(u, t, d);
    var time := StatusTime(status, now);
    match FindFirst(logs, key)
    case Some(i) =>
      var row := logs[i].(status := status, time := time);
      CountUpdate(logs, i, row, other);
    case None =>
      CountAppend(logs, TaskLog(freshId, userId, title, today, status, time, None), other);
  }

  /** `check_all_done_before_noon`: true exactly when some row has a time and
      every row's time parses with an hour before 12. It does not look at
      the rows' statuses. */
  function CheckAllDoneBeforeNoon(entries: seq<Entry>): (r: bool)
    ensures r <==>
      && (exists i :: 0 <= i < |entries| && Truthy(entries[i].time))
      && (forall i :: 0 <= i < |entries| && Truthy(entries[i].time) ==> MorningTime(entries[i].time.value))
  {
    var times := seq(|entries|, i requires 0 <= i < |entries| => entries[i].time);
    assert forall i :: 0 <= i < |entries| ==> times[i] == entries[i].time;
    BeforeNoonOf(times)
  }

  /** The page's before-noon check passes with a task still to do: it does
      not require every task to be done. */
  lemma BeforeNoonIgnoresStatus()
    ensures CheckAllDoneBeforeNoon([
      Entry("Read", Done, "daily", AsNeeded, Some("09:00:00")),
      Entry("Piano", Todo, "daily", AsNeeded, None)])
  {
    var entries := [
      Entry("Read", Done, "daily", AsNeeded, Some("09:00:00")),
      Entry("Piano", Todo, "daily", AsNeeded, None)];
    assert Truthy(entries[0].time);
    assert !Truthy(entries[1].time);
    assert ParseTime("09:00:00") == Some(Time(9, 0, 0)) by {
      assert "09:00:00"[0..2] == "09";
      assert "09:00:00"[3..5] == "00";
      assert "09:00:00"[6..8] == "00";
      assert Text.DigitsValue("09") == 9;
    }
  }

  /** The "mark" / "unmark" form action on row `index` of the page (Python
      list indexing; an index outside the page raises). Any other action
      leaves the log as it is. */
  function MarkTask(page: seq<Entry>, logs: seq<TaskLog>, userId: int, index: int, action: string, today: string, now: string, freshId: int): (r: Result<seq<TaskLog>, string>)
    ensures r.Err? <==> !(-|page| <= index < |page|)
    ensures r.Ok? && action != "mark" && action != "unmark" ==> r.value == logs
    ensures r.Ok? && action == "mark" ==>
      r.value == LogTaskStatus(logs, userId, PyIndex(page, index).value.title, Done, today, now, freshId)
    ensures r.Ok? && action == "unmark" ==>
      r.value == LogTaskStatus(logs, userId, PyIndex(page, index).value.title, Todo, today, now, freshId)
  {
    match PyIndex(page, index)
    case None => Err("IndexError")
    case Some(e) =>
      if action == "mark" then Ok(LogTaskStatus(logs, userId, e.title, Done, today, now, freshId))
      else if action == "unmark" then Ok(LogTaskStatus(logs, userId, e.title, Todo, today, now, freshId))
      else Ok(logs)
  }
}
