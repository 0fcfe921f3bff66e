/** The queue jobs of the older pipeline (twitterscraper/models/jobs.py). */
module Jobs {
  import opened Domain

  datatype JobKind = FetchAndPersist | PersistedReview

  /** A user-tweets job: its id, the profile's userid and the scan window
      `[fromTimestamp, toTimestamp)` in Unix seconds. The type and version
      are constants of the kind. */
  datatype Job = Job(kind: JobKind, jobId: string, userid: string, fromTimestamp: int, toTimestamp: int)

  /** `job_type`. */
  function JobType(j: Job): (s: string)
    ensures j.kind == FetchAndPersist ==> s == "FetchAndPersist"
    ensures j.kind == PersistedReview ==> s == "PersistedReviewJob"
  {
    match j.kind
    case FetchAndPersist => "FetchAndPersist"
    case PersistedReview => "PersistedReviewJob"
  }

  /** `job_version`: 1 for both kinds. */
  function JobVersion(j: Job): (v: int)
    ensures v == 1
  {
    1
  }

  /** The job type names the kind: two jobs of different kinds never share
      a type. */
  lemma JobTypeIdentifiesKind(a: Job, b: Job)
    ensures JobType(a) == JobType(b) <==> a.kind == b.kind
  {
    if a.kind != b.kind {
      assert JobType(a)[0] != JobType(b)[0];
    }
  }

  /** The scan window: start inclusive, end exclusive. */
  predicate InWindow(j: Job, timestamp: int) {
    j.fromTimestamp <= timestamp < j.toTimestamp
  }

  /** Windows that meet end to start cover their union once: a timestamp
      falls in exactly one of two adjacent jobs when it lies in the span of
      both. */
  lemma AdjacentWindowsPartition(a: Job, b: Job, timestamp: int)
    requires a.toTimestamp == b.fromTimestamp && a.fromTimestamp <= a.toTimestamp <= b.toTimestamp
    ensures InWindow(a, timestamp) || InWindow(b, timestamp) <==>
      a.fromTimestamp <= timestamp < b.toTimestamp
    ensures !(InWindow(a, timestamp) && InWindow(b, timestamp))
  {
  }

  /** The fields of `job.dict(exclude={"job_id"})`, as saved with the
      historic row. */
  function HistoricData(j: Job): (d: map<string, JsonScalar>)
    ensures "job_id" !in d
    ensures d.Keys == {"job_type", "job_version", "userid", "from_timestamp", "to_timestamp"}
    ensures d["job_type"] == JStr(JobType(j)) && d["userid"] == JStr(j.userid)
    ensures d["from_timestamp"] == JInt(j.fromTimestamp) && d["to_timestamp"] == JInt(j.toTimestamp)
  {
    map["job_type" := JStr(JobType(j)), "job_version" := JInt(JobVersion(j)), "userid" := JStr(j.userid),
        "from_timestamp" := JInt(j.fromTimestamp), "to_timestamp" := JInt(j.toTimestamp)]
  }
}
