/** `Jobmanager.new_task` and `create_profile_initial_scan_tasks`
    (twitterscraper/jobmanager/jobmanager.py). */
module Jobmanager {
  import opened Wrappers
  import opened Dates
  import opened DateMonths
  import opened TaskModels
  import Encoders

  datatype TaskError =
    | InvalidTaskType(className: string)     // `raise Exception("Invalid task type …")`
    | MissingAttribute(name: string)         // AttributeError on the `models` module
    | DateFailure(error: DateError)          // a month whose end cannot be computed
    | MissingHandler(name: string)           // `app.tasks.get(name)` is None: AttributeError on `defer_async`

  /** The first class of `classes` that `t` is an instance of. */
  function FirstMatch(classes: seq<TaskClass>, t: Task): Option<TaskClass>
    decreases |classes|
  {
    if classes == [] then None
    else if IsInstance(t, classes[0]) then Some(classes[0])
    else FirstMatch(classes[1..], t)
  }

  /** No class is found exactly when none matches. */
  lemma {:induction false} FirstMatchNone(classes: seq<TaskClass>, t: Task)
    ensures FirstMatch(classes, t).None? <==> forall i | 0 <= i < |classes| :: !IsInstance(t, classes[i])
    decreases |classes|
  {
    if classes != [] && !IsInstance(t, classes[0]) {
      FirstMatchNone(classes[1..], t);
      if FirstMatch(classes[1..], t).None? {
        forall i | 0 <= i < |classes| ensures !IsInstance(t, classes[i]) {
          if i > 0 { assert classes[i] == classes[1..][i - 1]; }
        }
      } else {
        var i :| 0 <= i < |classes[1..]| && IsInstance(t, classes[1..][i]);
        assert classes[i + 1] == classes[1..][i];
      }
    }
  }

  /** The class found is the one at index `k`: `t` is an instance of it and
      of no earlier class. */
  lemma {:induction false} FirstMatchIsFirst(classes: seq<TaskClass>, t: Task) returns (k: nat)
    requires FirstMatch(classes, t).Some?
    ensures k < |classes| && classes[k] == FirstMatch(classes, t).value && IsInstance(t, classes[k])
    ensures forall i | 0 <= i < k :: !IsInstance(t, classes[i])
    decreases |classes|
  {
    if IsInstance(t, classes[0]) {
      k := 0;
    } else {
      var j := FirstMatchIsFirst(classes[1..], t);
      k := j + 1;
      assert classes[k] == classes[1..][j];
      forall i | 0 <= i < k ensures !IsInstance(t, classes[i]) {
        if i > 0 { assert classes[i] == classes[1..][i - 1]; }
      }
    }
  }

  /** The `for … break` loop of `new_task` over TASKS_CLASSES. */
  method ResolveTaskClass(t: Task) returns (found: Option<TaskClass>)
    ensures found == FirstMatch(TasksClasses, t)
  {
    found := None;
    var i := 0;
    while i < |TasksClasses|
      invariant 0 <= i <= |TasksClasses|
      invariant FirstMatch(TasksClasses, t) == FirstMatch(TasksClasses[i..], t)
    {
      if IsInstance(t, TasksClasses[i]) {
        found := Some(TasksClasses[i]);
        break;
      }
      assert TasksClasses[i..][1..] == TasksClasses[i + 1..];
      i := i + 1;
    }
  }

  /** The name a task is deferred under, if any. */
  function TaskName(t: Task): Option<string> {
    match FirstMatch(TasksClasses, t)
    case Some(c) => Some(ClassName(c))
    case None => None
  }

  /** A re-scan resolves to the initial-scan class, which comes first in
      TASKS_CLASSES, so it is deferred under the initial scan's name. */
  lemma ReScanDeferredAsInitialScan(profileId: int, dateFrom: Date, dateToInc: Date)
    ensures TaskName(ReScanTask(profileId, dateFrom, dateToInc)) == Some("InitialScanProfileTweetsV1")
    ensures TaskName(ReScanTask(profileId, dateFrom, dateToInc)) != Some(ClassName(ReScanClass))
  {
  }

  /** Every task of a listed kind gets a name; any other is refused. */
  lemma TaskNameCases(t: Task)
    ensures TaskName(t).None? <==> t.OtherTask?
    ensures t.ArchiveorgTask? ==> TaskName(t) == Some("ArchiveorgTweetV1")
    ensures t.IsScan() ==> TaskName(t) == Some("InitialScanProfileTweetsV1")
  {
    FirstMatchNone(TasksClasses, t);
    if t.OtherTask? {
      assert FirstMatch(TasksClasses, t).None? by {
        forall i | 0 <= i < |TasksClasses| ensures !IsInstance(t, TasksClasses[i]) { }
      }
    } else {
      assert IsInstance(t, TasksClasses[0]) || IsInstance(t, TasksClasses[2]);
    }
  }

  predicate PayloadReady(t: Task) {
    t.IsScan() ==> ValidDate(t.dateFrom) && ValidDate(t.dateToInc)
  }

  /** The job manager's procrastinate app: the names of the task handlers
      registered on it (`app.tasks`), and the (task name, JSON payload)
      pairs deferred so far. */
  class Jobmanager {
    var handlers: set<string>
    var deferred: seq<(string, Encoders.PyValue)>

    /** A fresh app has no handler and no deferred task. */
    constructor ()
      ensures handlers == {} && deferred == []
    {
      handlers := {};
      deferred := [];
    }

    /** `@app.task(name=…)`: registers a handler under `name`. */
    method Register(name: string)
      modifies this
      ensures handlers == old(handlers) + {name} && deferred == old(deferred)
    {
      handlers := handlers + {name};
    }

    /** `new_task`: finds the first listed class the task is an instance of,
      raising "Invalid task type" when there is none, then defers the task's
      JSON encoding through the handler registered under that class's name;
      with no such handler `app.tasks.get` gives None and `defer_async`
      raises. A task that raises defers nothing. */
    method NewTask(t: Task) returns (r: Result<(), TaskError>)
      requires PayloadReady(t)
      modifies this
      ensures r.Err? <==> TaskName(t).None? || TaskName(t).value !in handlers
      ensures TaskName(t).None? ==> t.OtherTask? && r == Err(InvalidTaskType(t.className))
      ensures TaskName(t).Some? && TaskName(t).value !in handlers ==> r == Err(MissingHandler(TaskName(t).value))
      ensures r.Err? ==> deferred == old(deferred)
      ensures r.Ok? ==> deferred == old(deferred) + [(TaskName(t).value, TaskDict(t))]
      ensures handlers == old(handlers)
    {
      var cls := ResolveTaskClass(t);
      TaskNameCases(t);
      if cls.None? {
        return Err(InvalidTaskType(t.className));
      }
      var name := ClassName(cls.value);
      if name !in handlers {
        return Err(MissingHandler(name));
      }
      var payload := Encoders.JsonableEncoder(TaskDict(t), Encoders.DefaultOptions());
      TaskDictEncodesToItself(t);
      deferred := deferred + [(name, payload.value)];
      r := Ok(());
    }

    /** `create_profile_initial_scan_tasks` as evidently intended: one
      initial-scan task per month of `daterange_by_month(joined, today)`,
      from the month's `date_start` to its `date_end_inclusive`, all built
      first and then each deferred once, in order. */
    method CreateProfileInitialScanTasks(profileId: int, joined: Date, today: Date) returns (r: Result<(), TaskError>)
      requires ValidDate(joined) && ValidDate(today)
      modifies this
      ensures r.Err? ==> deferred == old(deferred)
      ensures r.Ok? <==> (ScanTasksFor(profileId, joined, today).Ok?
        && (ScanTasksFor(profileId, joined, today).value == [] || ClassName(InitialScanClass) in handlers))
      ensures (ScanTasksFor(profileId, joined, today).Ok? && ScanTasksFor(profileId, joined, today).value != []
        && ClassName(InitialScanClass) !in handlers) ==> r == Err(MissingHandler(ClassName(InitialScanClass)))
      ensures r.Ok? ==> deferred == old(deferred) + Deferrals(ScanTasksFor(profileId, joined, today).value)
      ensures handlers == old(handlers)
    {
      var built := BuildScanTasks(profileId, joined, today);
      if built.Err? {
        return Err(built.error);
      }
      r := DeferAll(built.value);
    }

    /** The deferring loop: each task once, in order. All the tasks are
      scans, filed under one name, so either each one finds its handler or
      each one raises; the first failure is the one reported. */
    method DeferAll(tasks: seq<Task>) returns (r: Result<(), TaskError>)
      requires forall k | 0 <= k < |tasks| :: tasks[k].IsScan() && PayloadReady(tasks[k])
      modifies this
      ensures r.Ok? <==> tasks == [] || ClassName(InitialScanClass) in handlers
      ensures r.Err? ==> r.error == MissingHandler(ClassName(InitialScanClass)) && deferred == old(deferred)
      ensures r.Ok? ==> deferred == old(deferred) + Deferrals(tasks)
      ensures handlers == old(handlers)
    {
      var j := 0;
      assert tasks[..0] == [];
      while j < |tasks|
        invariant 0 <= j <= |tasks|
        invariant handlers == old(handlers)
        invariant j > 0 ==> ClassName(InitialScanClass) in handlers
        invariant deferred == old(deferred) + Deferrals(tasks[..j])
      {
        TaskNameCases(tasks[j]);
        var one := NewTask(tasks[j]);
        if one.Err? {
          return one;
        }
        assert tasks[..j + 1] == tasks[..j] + [tasks[j]];
        DeferralsAppend(tasks[..j], [tasks[j]]);
        j := j + 1;
      }
      assert tasks[..j] == tasks;
      r := Ok(());
    }
  }

  /** The comprehension building the tasks: the first month whose ends
      cannot be computed stops it with that failure. */
  method BuildScanTasks(profileId: int, joined: Date, today: Date) returns (r: Result<seq<Task>, TaskError>)
    requires ValidDate(joined) && ValidDate(today)
    ensures r.Ok? <==> ScanTasksFor(profileId, joined, today).Ok?
    ensures r.Ok? ==> r == ScanTasksFor(profileId, joined, today)
  {
    var months := DaterangeByMonth(joined, today);
    var tasks: seq<Task> := [];
    var i := 0;
    while i < |months|
      invariant 0 <= i <= |months|
      invariant ScanTasksUpTo(profileId, months, i) == Ok(tasks)
    {
      var start := DateStart(months[i]);
      var endInc := DateEndInclusive(months[i]);
      EndExclusiveIsNextMonthStart(months[i]);
      if Schedulable(months[i]) {
        EndInclusiveIsLastDay(months[i]);
      }
      if start.Err? || endInc.Err? {
        assert !Schedulable(months[i]);
        assert ScanTasksUpTo(profileId, months, |months|).Err?;
        return Err(DateFailure(if start.Err? then start.error else endInc.error));
      }
      tasks := tasks + [InitialScanTask(profileId, start.value, endInc.value)];
      i := i + 1;
    }
    r := Ok(tasks);
  }

  /** The encoder returns a task's dict unchanged: it holds only strings
      and integers under distinct keys none of which starts with "_sa". */
  lemma TaskDictEncodesToItself(t: Task)
    requires PayloadReady(t)
    ensures Encoders.Encode(TaskDict(t), Encoders.DefaultOptions()) == Ok(TaskDict(t))
  {
    var e := TaskDict(t).entries;
    if e != [] {
      assert |e| == 3 && e[0].0.s[0] != '_' && e[1].0.s[0] != '_' && e[2].0.s[0] != '_';
      forall i | 0 <= i < |e| ensures !Strings.StartsWith(e[i].0.s, "_sa") {
        assert e[i].0.s[0] != '_';
      }
    }
    Encoders.FlatDictUnchanged(e, Encoders.DefaultOptions());
  }

  /** The scan task for month `m`: its first to its last calendar day. */
  function MonthTask(profileId: int, m: DateMonth): (t: Task)
    requires ValidMonth(m)
    ensures t.IsScan() && PayloadReady(t)
  {
    InitialScanTask(profileId, Date(m.year, m.month, 1), Date(m.year, m.month, DaysInMonth(m.year, m.month)))
  }

  /** A month whose two ends can be computed. */
  predicate Schedulable(m: DateMonth) {
    ValidMonth(m) && m != DateMonth(MaxYear, 12)
  }

  /** The tasks for the first `n` months, or the first month's failure. */
  function ScanTasksUpTo(profileId: int, months: seq<DateMonth>, n: nat): (r: Result<seq<Task>, TaskError>)
    requires n <= |months|
    ensures r.Ok? <==> forall k | 0 <= k < n :: Schedulable(months[k])
    ensures r.Ok? ==> (|r.value| == n
      && forall k | 0 <= k < n :: Schedulable(months[k]) && r.value[k] == MonthTask(profileId, months[k]))
  {
    if n == 0 then Ok([])
    else
      match ScanTasksUpTo(profileId, months, n - 1)
      case Err(e) => Err(e)
      case Ok(tasks) =>
        if Schedulable(months[n - 1]) then Ok(tasks + [MonthTask(profileId, months[n - 1])])
        else Err(DateFailure(ValueError))
  }

  /** The tasks for the months between the joined date and today. */
  function ScanTasksFor(profileId: int, joined: Date, today: Date): (r: Result<seq<Task>, TaskError>)
    requires ValidDate(joined) && ValidDate(today)
    ensures r.Ok? ==> (|r.value| == |DaterangeByMonth(joined, today)|
      && forall k | 0 <= k < |r.value| :: r.value[k].IsScan() && PayloadReady(r.value[k]))
  {
    var months := DaterangeByMonth(joined, today);
    ScanTasksUpTo(profileId, months, |months|)
  }

  /** The intended version fails only when the range reaches December 9999,
      whose end cannot be computed; otherwise task k spans month k of
      `daterange_by_month` from its first day to its last. */
  lemma ScanTasksCoverMonths(profileId: int, joined: Date, today: Date)
    requires ValidDate(joined) && ValidDate(today)
    ensures ScanTasksFor(profileId, joined, today).Ok? <==> DateMonth(MaxYear, 12) !in DaterangeByMonth(joined, today)
    ensures ScanTasksFor(profileId, joined, today).Ok? ==>
      var months := DaterangeByMonth(joined, today);
      var tasks := ScanTasksFor(profileId, joined, today).value;
      forall k | 0 <= k < |months| ::
        ValidMonth(months[k])
        && tasks[k] == InitialScanTask(profileId, Date(months[k].year, months[k].month, 1),
                                       Date(months[k].year, months[k].month, DaysInMonth(months[k].year, months[k].month)))
  {
    var months := DaterangeByMonth(joined, today);
    if Before(today, joined) {
      EmptyWhenStartAfterEnd(joined, today);
    } else {
      DaterangeByMonthShape(joined, today);
    }
  }

  /** The deferrals a sequence of scan tasks makes. */
  function Deferrals(tasks: seq<Task>): seq<(string, Encoders.PyValue)>
    requires forall k | 0 <= k < |tasks| :: tasks[k].IsScan() && PayloadReady(tasks[k])
  {
    seq(|tasks|, k requires 0 <= k < |tasks| && PayloadReady(tasks[k]) => ("InitialScanProfileTweetsV1", TaskDict(tasks[k])))
  }

  lemma DeferralsAppend(a: seq<Task>, b: seq<Task>)
    requires forall k | 0 <= k < |a| :: a[k].IsScan() && PayloadReady(a[k])
    requires forall k | 0 <= k < |b| :: b[k].IsScan() && PayloadReady(b[k])
    ensures forall k | 0 <= k < |a + b| :: (a + b)[k].IsScan() && PayloadReady((a + b)[k])
    ensures Deferrals(a + b) == Deferrals(a) + Deferrals(b)
  {
  }

  // ---------------------------------------------------------------------
  // The function as written

  /** `create_profile_initial_scan_tasks` as written: the comprehension
      names `models.ScanProfileTweetsV1`, which the models module does not
      define, so building the first task raises AttributeError; only when
      no month is yielded does it complete, deferring nothing. */
  function CreateProfileInitialScanTasksAsWritten(joined: Date, today: Date): Result<seq<Task>, TaskError>
    requires ValidDate(joined) && ValidDate(today)
  {
    if DaterangeByMonth(joined, today) == [] then Ok([])
    else Err(MissingAttribute("ScanProfileTweetsV1"))
  }

  /** As written, the function fails for every profile that joined on or
      before today, i.e. for every real profile. */
  lemma AsWrittenFailsForEveryJoinedProfile(joined: Date, today: Date)
    requires ValidDate(joined) && ValidDate(today) && !Before(today, joined)
    ensures CreateProfileInitialScanTasksAsWritten(joined, today) == Err(MissingAttribute("ScanProfileTweetsV1"))
  {
    DaterangeByMonthShape(joined, today);
  }
}
