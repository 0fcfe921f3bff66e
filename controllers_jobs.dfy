/** The job bookkeeping of the older pipeline
    (twitterscraper/controllers/jobs.py): publishing jobs on a queue and
    auditing them in `jobs_historic`. */
module JobsController {
  import opened Wrappers
  import opened Domain
  import opened Jobs
  import opened Persistence
  import opened Databus
  import opened Settings

  /** The row `save_jobs` writes for one job. */
  function HistoricRow(j: Job, now: int): JobHistoric
    requires now > 0
  {
    NewJobHistoric(j.jobId, HistoricData(j), now)
  }

  /** The rows `save_jobs` adds to the session, keyed by job id. Two jobs
      with one id leave the later's row in this map, a state no commit lets
      through (`FreshJobIds`). */
  function HistoricRows(jobs: seq<Job>, now: int): map<string, JobHistoric>
    requires now > 0
    decreases |jobs|
  {
    if jobs == [] then map[]
    else
      var init := jobs[..|jobs| - 1];
      var last := jobs[|jobs| - 1];
      assert jobs == init + [last];
      HistoricRows(init, now)[last.jobId := HistoricRow(last, now)]
  }

  /** The ids of the jobs. */
  function JobIds(jobs: seq<Job>): set<string> {
    set j | j in jobs :: j.jobId
  }

  /** Pairwise distinct job ids. */
  predicate DistinctJobIds(jobs: seq<Job>) {
    forall i, k | 0 <= i < k < |jobs| :: jobs[i].jobId != jobs[k].jobId
  }

  /** The ids of two job lists together. */
  lemma {:induction false} JobIdsConcat(a: seq<Job>, b: seq<Job>)
    ensures JobIds(a + b) == JobIds(a) + JobIds(b)
  {
    forall id | id in JobIds(a + b)
      ensures id in JobIds(a) + JobIds(b)
    {
      var j :| j in a + b && j.jobId == id;
    }
    forall id | id in JobIds(a) + JobIds(b)
      ensures id in JobIds(a + b)
    {
      if id in JobIds(a) {
        var j :| j in a && j.jobId == id;
        assert j in a + b;
      } else {
        var j :| j in b && j.jobId == id;
        assert j in a + b;
      }
    }
  }

  /** Distinct ids over two job lists: distinct within each, and no id in
      both. */
  lemma {:induction false} DistinctJobIdsSplit(a: seq<Job>, b: seq<Job>)
    requires DistinctJobIds(a + b)
    ensures DistinctJobIds(a) && DistinctJobIds(b)
    ensures forall j | j in a :: j.jobId !in JobIds(b)
  {
    forall x, y | 0 <= x < y < |a|
      ensures a[x].jobId != a[y].jobId
    {
      assert (a + b)[x] == a[x] && (a + b)[y] == a[y];
    }
    forall x, y | 0 <= x < y < |b|
      ensures b[x].jobId != b[y].jobId
    {
      assert (a + b)[|a| + x] == b[x] && (a + b)[|a| + y] == b[y];
    }
    forall j | j in a
      ensures j.jobId !in JobIds(b)
    {
      var x :| 0 <= x < |a| && a[x] == j;
      forall k | k in b
        ensures k.jobId != j.jobId
      {
        var y :| 0 <= y < |b| && b[y] == k;
        assert (a + b)[x] == j && (a + b)[|a| + y] == k;
      }
    }
  }

  /** One row per job id, all created at the one `now`, none finalized,
      each carrying its job's fields without `job_id`. */
  lemma {:induction false} HistoricRowsShape(jobs: seq<Job>, now: int)
    requires now > 0
    ensures HistoricRows(jobs, now).Keys == JobIds(jobs)
    ensures var rows := HistoricRows(jobs, now);
      forall id | id in rows ::
        (rows[id].jobId == id && ValidJobHistoric(rows[id])
         && rows[id].timestampCreated == now && rows[id].timestampFinalized.None?
         && "job_id" !in rows[id].data)
    decreases |jobs|
  {
    if jobs != [] {
      var init := jobs[..|jobs| - 1];
      var last := jobs[|jobs| - 1];
      HistoricRowsShape(init, now);
      assert jobs == init + [last];
    }
  }

  /** The queue payloads of `enqueue_jobs`: each job's JSON text, as
      `serialize` (pydantic's `job.json()`) renders it. */
  function JobPayloads(jobs: seq<Job>, serialize: Job -> string): (ps: seq<Payload>)
    ensures |ps| == |jobs|
    ensures forall i | 0 <= i < |jobs| :: ps[i] == Text(serialize(jobs[i]))
  {
    seq(|jobs|, i requires 0 <= i < |jobs| => Text(serialize(jobs[i])))
  }

  /** With distinct job ids, every job has its own row. */
  lemma {:induction false} DistinctJobsEachSaved(jobs: seq<Job>, now: int)
    requires now > 0
    requires DistinctJobIds(jobs)
    ensures |HistoricRows(jobs, now)| == |jobs|
    ensures forall i | 0 <= i < |jobs| ::
      jobs[i].jobId in HistoricRows(jobs, now) && HistoricRows(jobs, now)[jobs[i].jobId] == HistoricRow(jobs[i], now)
    decreases |jobs|
  {
    HistoricRowsShape(jobs, now);
    if jobs != [] {
      var init := jobs[..|jobs| - 1];
      DistinctJobsEachSaved(init, now);
      var last := jobs[|jobs| - 1];
      NewIdAddsRow(init, last, now);
      forall i | 0 <= i < |jobs| - 1
        ensures jobs[i].jobId in HistoricRows(jobs, now)
        ensures HistoricRows(jobs, now)[jobs[i].jobId] == HistoricRow(jobs[i], now)
      {
        assert init[i] == jobs[i];
      }
    }
  }

  /** A job whose id no earlier job has adds one row. */
  lemma NewIdAddsRow(init: seq<Job>, last: Job, now: int)
    requires now > 0
    requires forall i | 0 <= i < |init| :: init[i].jobId != last.jobId
    ensures |HistoricRows(init + [last], now)| == |HistoricRows(init, now)| + 1
  {
    var jobs := init + [last];
    assert jobs[..|jobs| - 1] == init;
    HistoricRowsShape(init, now);
    assert forall j | j in init :: j.jobId != last.jobId;
    assert last.jobId !in HistoricRows(init, now);
  }

  /** Saving the `i`-th row extends the rows of the jobs before it. */
  lemma SaveStep(base: map<string, JobHistoric>, jobs: seq<Job>, i: nat, now: int)
    requires now > 0 && i < |jobs|
    ensures (base + HistoricRows(jobs[..i], now))[jobs[i].jobId := HistoricRow(jobs[i], now)]
      == base + HistoricRows(jobs[..i + 1], now)
  {
    assert jobs[..i + 1][..i] == jobs[..i];
  }

  /** The ids of `jobs` are pairwise distinct and none is stored yet: the
      condition under which the outermost session can commit the rows
      `save_jobs` added. A repeated or stored id violates the primary key
      of `jobs_historic`, the commit raises IntegrityError and the session
      rolls back every row it wrote. */
  predicate FreshJobIds(historic: map<string, JobHistoric>, jobs: seq<Job>) {
    DistinctJobIds(jobs) && forall i | 0 <= i < |jobs| :: jobs[i].jobId !in historic
  }

  /** When the ids are fresh, committing the rows of `save_jobs` adds one
      row per job, that job's own, and keeps every stored row. */
  lemma {:induction false} FreshJobsEachSaved(historic: map<string, JobHistoric>, jobs: seq<Job>, now: int)
    requires now > 0 && FreshJobIds(historic, jobs)
    ensures |historic + HistoricRows(jobs, now)| == |historic| + |jobs|
    ensures forall i | 0 <= i < |jobs| ::
      jobs[i].jobId in historic + HistoricRows(jobs, now)
      && (historic + HistoricRows(jobs, now))[jobs[i].jobId] == HistoricRow(jobs[i], now)
    ensures forall id | id in historic ::
      id in historic + HistoricRows(jobs, now) && (historic + HistoricRows(jobs, now))[id] == historic[id]
  {
    var rows := HistoricRows(jobs, now);
    DistinctJobsEachSaved(jobs, now);
    HistoricRowsShape(jobs, now);
    forall id | id in rows
      ensures id !in historic
    {
      var j :| j in jobs && j.jobId == id;
      var i :| 0 <= i < |jobs| && jobs[i] == j;
    }
    DisjointUnionSize(historic, rows);
  }

  /** With distinct ids a job's row is its own. */
  lemma HistoricRowOf(jobs: seq<Job>, now: int, j: Job)
    requires now > 0 && DistinctJobIds(jobs) && j in jobs
    ensures j.jobId in HistoricRows(jobs, now) && HistoricRows(jobs, now)[j.jobId] == HistoricRow(j, now)
  {
    DistinctJobsEachSaved(jobs, now);
    var x :| 0 <= x < |jobs| && jobs[x] == j;
  }

  /** Rows keyed by fresh job ids are all new. */
  lemma FreshRows(historic: map<string, JobHistoric>, rows: map<string, JobHistoric>, jobs: seq<Job>)
    requires FreshJobIds(historic, jobs) && rows.Keys == JobIds(jobs)
    ensures forall id | id in rows :: id !in historic
  {
    forall id | id in rows
      ensures id !in historic
    {
      var j :| j in jobs && j.jobId == id;
      var i :| 0 <= i < |jobs| && jobs[i] == j;
    }
  }

  /** Maps with disjoint keys: the union has as many entries as both. */
  lemma DisjointUnionSize<K, V>(x: map<K, V>, y: map<K, V>)
    requires forall k | k in y :: k !in x
    ensures |x + y| == |x| + |y|
  {
    assert (x + y).Keys == x.Keys + y.Keys;
    assert x.Keys * y.Keys == {};
  }

  /** `save_jobs`: one historic row per job added to the enclosing
      session (every caller runs it inside one), all with the same
      `timestamp_created` read once from the clock (`now`). Whether they
      survive is decided by the outermost session's commit
      (`FreshJobIds`). */
  method SaveJobs(db: Database, jobs: seq<Job>, now: int)
    requires db.Valid() && now > 0
    modifies db
    ensures db.Valid()
    ensures db.historic == old(db.historic) + HistoricRows(jobs, now)
    ensures db.profiles == old(db.profiles) && db.tweets == old(db.tweets)
  {
    var i := 0;
    while i < |jobs|
      invariant 0 <= i <= |jobs|
      invariant db.Valid()
      invariant db.historic == old(db.historic) + HistoricRows(jobs[..i], now)
      invariant db.profiles == old(db.profiles) && db.tweets == old(db.tweets)
    {
      SaveStep(old(db.historic), jobs, i, now);
      db.SaveHistoric(HistoricRow(jobs[i], now));
      i := i + 1;
    }
    assert jobs[..i] == jobs;
  }

  /** `set_job_finalized`: an unknown job id changes nothing; a known one
      gets `timestamp_finalized = now` and keeps everything else. */
  method SetJobFinalized(db: Database, jobId: string, now: int) returns (found: bool)
    requires db.Valid()
    modifies db
    ensures db.Valid()
    ensures found <==> jobId in old(db.historic)
    ensures !found ==> db.historic == old(db.historic)
    ensures found ==>
      db.historic == old(db.historic)[jobId := old(db.historic)[jobId].(timestampFinalized := Some(now))]
    ensures db.profiles == old(db.profiles) && db.tweets == old(db.tweets)
  {
    var persisted := db.GetJobHistoric(jobId);
    if persisted.None? {
      return false;
    }
    db.SaveHistoric(persisted.value.(timestampFinalized := Some(now)));
    return true;
  }

  /** `enqueue_jobs`: publish one JSON payload per job on the exchange and
      routing key, and save one historic row per job. The source runs the
      two concurrently; here the publishing comes first. */
  method EnqueueJobs(db: Database, bus: AMQPClient, jobs: seq<Job>, exchange: string, routingKey: string,
                     persistent: bool, now: int, serialize: Job -> string)
    requires db.Valid() && bus.Valid() && now > 0
    modifies db, bus
    ensures db.Valid() && bus.Valid()
    ensures bus.published == old(bus.published)
      + Published(ExchangeFor(exchange), routingKey, persistent, JobPayloads(jobs, serialize))
    ensures bus.exchanges == old(bus.exchanges)[exchange := ExchangeFor(exchange)]
    ensures bus.settled == old(bus.settled) && bus.prefetch == old(bus.prefetch)
    ensures db.historic == old(db.historic) + HistoricRows(jobs, now)
    ensures db.profiles == old(db.profiles) && db.tweets == old(db.tweets)
  {
    bus.Enqueue(exchange, routingKey, persistent, JobPayloads(jobs, serialize));
    SaveJobs(db, jobs, now);
  }

  /** What `enqueue_jobs` publishes: exactly one message per job, in job
      order, whose body decodes to that job's JSON text. */
  lemma EnqueuedOnePerJob(jobs: seq<Job>, exchange: string, routingKey: string, persistent: bool, serialize: Job -> string)
    ensures |Published(ExchangeFor(exchange), routingKey, persistent, JobPayloads(jobs, serialize))| == |jobs|
    ensures forall i | 0 <= i < |jobs| ::
      (Utf8Decode(Published(ExchangeFor(exchange), routingKey, persistent, JobPayloads(jobs, serialize))[i].body)
         == Some(serialize(jobs[i])))
  {
    var ms := Published(ExchangeFor(exchange), routingKey, persistent, JobPayloads(jobs, serialize));
    forall i | 0 <= i < |jobs|
      ensures Utf8Decode(ms[i].body) == Some(serialize(jobs[i]))
    {
      assert JobPayloads(jobs, serialize)[i] == Text(serialize(jobs[i]));
    }
  }

  /** Two rounds of `save_jobs` leave the rows one round over both job
      lists would. */
  lemma {:induction false} HistoricRowsConcat(a: seq<Job>, b: seq<Job>, now: int)
    requires now > 0
    ensures HistoricRows(a, now) + HistoricRows(b, now) == HistoricRows(a + b, now)
    decreases |b|
  {
    if b == [] {
      assert a + b == a;
    } else {
      var init := b[..|b| - 1];
      var last := b[|b| - 1];
      var row := HistoricRow(last, now);
      calc {
        HistoricRows(a, now) + HistoricRows(b, now);
        { assert b == init + [last]; HistoricRowsSnoc(init, last, now); }
        HistoricRows(a, now) + HistoricRows(init, now)[last.jobId := row];
        { UnionUpdate(HistoricRows(a, now), HistoricRows(init, now), last.jobId, row); }
        (HistoricRows(a, now) + HistoricRows(init, now))[last.jobId := row];
        { HistoricRowsConcat(a, init, now); }
        HistoricRows(a + init, now)[last.jobId := row];
        { assert a + b == (a + init) + [last]; HistoricRowsSnoc(a + init, last, now); }
        HistoricRows(a + b, now);
      }
    }
  }

  /** Map union followed by an update. */
  lemma UnionUpdate<K, V>(x: map<K, V>, y: map<K, V>, k: K, v: V)
    ensures x + y[k := v] == (x + y)[k := v]
  {
  }

  /** Storing the same value under a key twice is storing it once. */
  lemma UpdateTwice<K, V>(m: map<K, V>, k: K, v: V)
    ensures m[k := v][k := v] == m[k := v]
  {
  }

  /** A union whose right side only overrides existing keys keeps the
      left side's keys. */
  lemma UnionWithin<K, V>(x: map<K, V>, y: map<K, V>)
    requires forall k | k in y :: k in x
    ensures (x + y).Keys == x.Keys
  {
  }

  /** Map union is associative. */
  lemma UnionAssoc<K, V>(x: map<K, V>, y: map<K, V>, z: map<K, V>)
    ensures (x + y) + z == x + (y + z)
  {
  }

  /** Saving one more job's row. */
  lemma HistoricRowsSnoc(init: seq<Job>, last: Job, now: int)
    requires now > 0
    ensures HistoricRows(init + [last], now) == HistoricRows(init, now)[last.jobId := HistoricRow(last, now)]
  {
    var jobs := init + [last];
    assert jobs[..|jobs| - 1] == init;
  }

  /** Two rounds of `enqueue_jobs` on one exchange and routing key publish
      what one round over both job lists would. */
  lemma PublishedConcat(a: seq<Job>, b: seq<Job>, exchange: Exchange, routingKey: string, persistent: bool,
                        serialize: Job -> string)
    ensures Published(exchange, routingKey, persistent, JobPayloads(a, serialize))
      + Published(exchange, routingKey, persistent, JobPayloads(b, serialize))
      == Published(exchange, routingKey, persistent, JobPayloads(a + b, serialize))
  {
    var ms := Published(exchange, routingKey, persistent, JobPayloads(a + b, serialize));
    var ma := Published(exchange, routingKey, persistent, JobPayloads(a, serialize));
    var mb := Published(exchange, routingKey, persistent, JobPayloads(b, serialize));
    forall i | 0 <= i < |ms|
      ensures ms[i] == (ma + mb)[i]
    {
      if i < |a| {
        assert JobPayloads(a + b, serialize)[i] == JobPayloads(a, serialize)[i];
      } else {
        assert JobPayloads(a + b, serialize)[i] == JobPayloads(b, serialize)[i - |a|];
      }
    }
  }

  /* ---------------- Snapshots ---------------- */

  /** The parts of the bus and the database that enqueueing and the tasks
      change, as values. */
  datatype Store = Store(published: seq<Message>, exchanges: map<string, Exchange>,
                         historic: map<string, JobHistoric>, profiles: map<int, TwitterProfile>)

  function StoreOf(db: Database, bus: AMQPClient): (s: Store)
    reads db, bus
    ensures s.published == bus.published && s.exchanges == bus.exchanges
    ensures s.historic == db.historic && s.profiles == db.profiles
  {
    Store(bus.published, bus.exchanges, db.historic, db.profiles)
  }

  /** `jobs` were enqueued on `s0`, one `enqueue_jobs` call after another on
      one exchange and queue (`any`: at least one call was made, declaring
      the exchange), giving `s`; `rows` are the historic rows those calls
      added. */
  predicate Enqueued(s: Store, s0: Store, jobs: seq<Job>, rows: map<string, JobHistoric>, any: bool,
                     exchange: string, queue: QueueConfig, serialize: Job -> string)
  {
    s.published == s0.published + Published(ExchangeFor(exchange), queue.name, queue.persistent, JobPayloads(jobs, serialize))
    && s.exchanges == (if any then s0.exchanges[exchange := ExchangeFor(exchange)] else s0.exchanges)
    && s.historic == s0.historic + rows
  }

  /** `s` after one more `enqueue_jobs` call with `more`. */
  function EnqueuedNext(s: Store, more: seq<Job>, exchange: string, queue: QueueConfig, now: int,
                        serialize: Job -> string): (s': Store)
    requires now > 0
    ensures s'.profiles == s.profiles
  {
    s.(published := s.published + Published(ExchangeFor(exchange), queue.name, queue.persistent, JobPayloads(more, serialize)),
       exchanges := s.exchanges[exchange := ExchangeFor(exchange)],
       historic := s.historic + HistoricRows(more, now))
  }

  /** Enqueueing more jobs extends what was published and saved: calls one
      after another publish what one call with all their jobs would, and
      add each call's rows. */
  lemma {:induction false} EnqueueStep(s: Store, s0: Store, jobs: seq<Job>, rows: map<string, JobHistoric>, more: seq<Job>, any: bool,
                    exchange: string, queue: QueueConfig, now: int, serialize: Job -> string)
    requires now > 0 && Enqueued(s, s0, jobs, rows, any, exchange, queue, serialize)
    ensures Enqueued(EnqueuedNext(s, more, exchange, queue, now, serialize), s0, jobs + more,
                     rows + HistoricRows(more, now), true, exchange, queue, serialize)
  {
    var e := ExchangeFor(exchange);
    PublishedConcat(jobs, more, e, queue.name, queue.persistent, serialize);
    AppendAssoc(s0.published, Published(e, queue.name, queue.persistent, JobPayloads(jobs, serialize)),
                Published(e, queue.name, queue.persistent, JobPayloads(more, serialize)));
    UpdateTwice(s0.exchanges, exchange, e);
    UnionAssoc(s0.historic, rows, HistoricRows(more, now));
  }

  /** Sequence concatenation is associative. */
  lemma AppendAssoc<T>(x: seq<T>, y: seq<T>, z: seq<T>)
    ensures (x + y) + z == x + (y + z)
  {
  }
}
