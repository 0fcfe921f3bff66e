/** The task records of the job manager (twitterscraper/jobmanager/models.py). */
module TaskModels {
  import opened Wrappers
  import opened Strings
  import opened Dates
  import Encoders

  /** A task object. `ReScanTask` is a subclass of the initial scan with the
      same fields; `OtherTask` is a BaseTask of a class not listed in
      TASKS_CLASSES. */
  datatype Task =
    | InitialScanTask(profileId: int, dateFrom: Date, dateToInc: Date)
    | ReScanTask(profileId: int, dateFrom: Date, dateToInc: Date)
    | ArchiveorgTask(userid: int, username: string, tweetId: int)
    | OtherTask(className: string)
  {
    predicate IsScan() { InitialScanTask? || ReScanTask? }
  }

  datatype TaskClass = InitialScanClass | ReScanClass | ArchiveorgClass

  /** TASKS_CLASSES, in its order. */
  const TasksClasses: seq<TaskClass> := [InitialScanClass, ReScanClass, ArchiveorgClass]

  /** The class `__name__`, which names the task. */
  function ClassName(c: TaskClass): string {
    match c
    case InitialScanClass => "InitialScanProfileTweetsV1"
    case ReScanClass => "ReScanProfileTweetsV1"
    case ArchiveorgClass => "ArchiveorgTweetV1"
  }

  /** `isinstance(t, c)`: a re-scan is also an initial scan. */
  predicate IsInstance(t: Task, c: TaskClass) {
    match c
    case InitialScanClass => t.InitialScanTask? || t.ReScanTask?
    case ReScanClass => t.ReScanTask?
    case ArchiveorgClass => t.ArchiveorgTask?
  }

  /** The re-scan class adds nothing: a re-scan is an instance of both scan
      classes, with the same fields as the initial scan it converts to. */
  lemma ReScanIsInitialScan(profileId: int, dateFrom: Date, dateToInc: Date)
    requires ValidDate(dateFrom) && ValidDate(dateToInc)
    ensures var t := ReScanTask(profileId, dateFrom, dateToInc);
      IsInstance(t, InitialScanClass) && IsInstance(t, ReScanClass) && !IsInstance(t, ArchiveorgClass)
      && TaskDict(t) == TaskDict(InitialScanTask(profileId, dateFrom, dateToInc))
  {
  }

  /** The listed classes have distinct names. */
  lemma ClassNamesDistinct(i: nat, j: nat)
    requires i < j < |TasksClasses|
    ensures ClassName(TasksClasses[i]) != ClassName(TasksClasses[j])
  {
    assert ClassName(TasksClasses[0])[0] == 'I' && ClassName(TasksClasses[1])[0] == 'R'
      && ClassName(TasksClasses[2])[0] == 'A';
  }

  /** `date_to_exclusive`: the day after `date_to_inc`; past 9999-12-31
      Python raises OverflowError. */
  function DateToExclusive(t: Task): (r: Result<Date, DateError>)
    requires t.IsScan() && ValidDate(t.dateToInc)
    ensures r.Ok? <==> t.dateToInc != Date(MaxYear, 12, 31)
    ensures r.Ok? ==> ValidDate(r.value) && PrevDay(r.value) == Some(t.dateToInc)
  {
    match NextDay(t.dateToInc)
    case Some(d) =>
      PrevOfNext(t.dateToInc);
      Ok(d)
    case None => Err(OverflowError)
  }

  /** The inclusive and the exclusive window hold the same days. */
  lemma WindowConversion(t: Task, d: Date)
    requires t.IsScan() && ValidDate(t.dateToInc) && ValidDate(d) && DateToExclusive(t).Ok?
    ensures !Before(d, t.dateFrom) && Before(d, DateToExclusive(t).value)
      <==> !Before(d, t.dateFrom) && !Before(t.dateToInc, d)
  {
    NextDayIsSuccessor(t.dateToInc, d);
  }

  /** The dict pydantic makes of a task, with dates already in the ISO form
      the JSON encoder gives them. */
  function TaskDict(t: Task): Encoders.PyValue
    requires t.IsScan() ==> ValidDate(t.dateFrom) && ValidDate(t.dateToInc)
  {
    match t
    case InitialScanTask(p, f, to) =>
      Encoders.PyDict([(Encoders.PyStr("profile_id"), Encoders.PyInt(p)),
                       (Encoders.PyStr("date_from"), Encoders.PyStr(IsoFormat(f))),
                       (Encoders.PyStr("date_to_inc"), Encoders.PyStr(IsoFormat(to)))])
    case ReScanTask(p, f, to) =>
      Encoders.PyDict([(Encoders.PyStr("profile_id"), Encoders.PyInt(p)),
                       (Encoders.PyStr("date_from"), Encoders.PyStr(IsoFormat(f))),
                       (Encoders.PyStr("date_to_inc"), Encoders.PyStr(IsoFormat(to)))])
    case ArchiveorgTask(u, name, id) =>
      Encoders.PyDict([(Encoders.PyStr("userid"), Encoders.PyInt(u)),
                       (Encoders.PyStr("username"), Encoders.PyStr(name)),
                       (Encoders.PyStr("tweet_id"), Encoders.PyInt(id))])
    case OtherTask(_) => Encoders.PyDict([])
  }

  /** An archival task's payload carries its userid, username and tweet id. */
  lemma ArchiveorgPayload(u: int, name: string, id: int)
    ensures var d := TaskDict(ArchiveorgTask(u, name, id));
      d.PyDict? && |d.entries| == 3
      && d.entries[0] == (Encoders.PyStr("userid"), Encoders.PyInt(u))
      && d.entries[1] == (Encoders.PyStr("username"), Encoders.PyStr(name))
      && d.entries[2] == (Encoders.PyStr("tweet_id"), Encoders.PyInt(id))
  {
  }
}
