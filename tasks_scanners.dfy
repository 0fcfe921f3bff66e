/** The periodic tasks of the older pipeline
    (twitterscraper/controllers/tasks_scanners.py): the new-tweets scan,
    which asks for each profile's tweets since its checkpoint, and the
    profiles-tweets sync, which refreshes which profiles are still active
    and asks for a review of each one's whole history, day by day. */
module TasksScanners {
  import opened Wrappers
  import opened Dates
  import opened Domain
  import opened Jobs
  import opened Settings
  import opened Persistence
  import opened Databus
  import opened JobsController
  import opened FetchAndPersist
  import opened PersistedReview
  import opened DayRanges
  import Creator

  /* ---------------- New tweets scan ---------------- */

  /** `if profile.last_scan_timestamp`: a checkpoint that is set and
      non-zero. */
  predicate HasCheckpoint(p: TwitterProfile) {
    p.lastScanTimestamp.Some? && p.lastScanTimestamp.value != 0
  }

  /** The profiles the new-tweets scan takes from an active listing. */
  function ScanTargets(ps: seq<TwitterProfile>): (ts: seq<TwitterProfile>)
    ensures |ts| <= |ps|
    ensures forall p | p in ts :: p in ps && HasCheckpoint(p)
    ensures forall i | 0 <= i < |ts| :: HasCheckpoint(ts[i])
    ensures forall p | p in ps && HasCheckpoint(p) :: p in ts
    decreases |ps|
  {
    if ps == [] then []
    else
      var init := ps[..|ps| - 1];
      var last := ps[|ps| - 1];
      assert ps == init + [last];
      ScanTargets(init) + if HasCheckpoint(last) then [last] else []
  }

  /** A filter keeps distinct ids distinct. */
  lemma {:induction false} ScanTargetsDistinct(ps: seq<TwitterProfile>)
    requires forall i, j | 0 <= i < j < |ps| :: ps[i].id != ps[j].id
    ensures forall i, j | 0 <= i < j < |ScanTargets(ps)| :: ScanTargets(ps)[i].id != ScanTargets(ps)[j].id
    decreases |ps|
  {
    if ps != [] {
      var init := ps[..|ps| - 1];
      var last := ps[|ps| - 1];
      ScanTargetsDistinct(init);
      var ts := ScanTargets(ps);
      var ti := ScanTargets(init);
      if !HasCheckpoint(last) {
        assert ts == ti;
      } else {
        forall k | 0 <= k < |init|
          ensures init[k].id != last.id
        {
          assert ps[k] == init[k];
        }
        forall i | 0 <= i < |ti|
          ensures ti[i].id != last.id
        {
          assert ti[i] in init;
        }
        assert ts == ti + [last];
      }
    }
  }

  /** The job one profile's scan enqueues: fetch-and-persist over
      `[last_scan_timestamp, now)`. */
  function ScanJob(p: TwitterProfile, jobId: string, now: int): Job
    requires p.lastScanTimestamp.Some?
  {
    Job(JobKind.FetchAndPersist, jobId, p.userid, p.lastScanTimestamp.value, now)
  }

  /** A scan job asks for the profile's tweets from its checkpoint up to
      `now`, and the next scan's job starts where this one ended: two scans
      in a row cover the time since the first checkpoint once. */
  lemma ScanJobsChain(p: TwitterProfile, first: string, second: string, now: int, later: int, t: int)
    requires p.lastScanTimestamp.Some?
    ensures var j1 := ScanJob(p, first, now);
      var j2 := ScanJob(p.(lastScanTimestamp := Some(now)), second, later);
      j1.kind == JobKind.FetchAndPersist && j1.userid == p.userid
      && (InWindow(j1, t) <==> p.lastScanTimestamp.value <= t < now)
      && (p.lastScanTimestamp.value <= now <= later ==>
            ((InWindow(j1, t) || InWindow(j2, t)) <==> p.lastScanTimestamp.value <= t < later)
            && !(InWindow(j1, t) && InWindow(j2, t)))
  {
  }

  /** A clock reading: a Unix timestamp after the epoch. */
  type Reading = t: int | t > 0 witness 1

  /** `_profile_new_tweets_scan`: read the clock (`now`), enqueue one job
      from the checkpoint up to `now` (a fresh `jobId`; `save_jobs` reads
      the clock again, `savedAt`), then move the checkpoint to `now` and
      save the profile. */
  method ProfileNewTweetsScan(db: Database, bus: AMQPClient, profile: TwitterProfile, jobId: string,
                              exchange: string, queue: QueueConfig, now: int, savedAt: int, serialize: Job -> string)
    returns (job: Job)
    requires db.Valid() && bus.Valid() && savedAt > 0
    requires profile.id.Some? && profile.lastScanTimestamp.Some?
    modifies db, bus
    ensures db.Valid() && bus.Valid()
    ensures job == ScanJob(profile, jobId, now)
    ensures bus.published == old(bus.published)
      + Published(ExchangeFor(exchange), queue.name, queue.persistent, JobPayloads([job], serialize))
    ensures bus.exchanges == old(bus.exchanges)[exchange := ExchangeFor(exchange)]
    ensures bus.settled == old(bus.settled) && bus.prefetch == old(bus.prefetch)
    ensures db.historic == old(db.historic) + HistoricRows([job], savedAt)
    ensures db.profiles == old(db.profiles)[profile.id.value := profile.(lastScanTimestamp := Some(now))]
    ensures db.tweets == old(db.tweets)
  {
    job := ScanJob(profile, jobId, now);
    EnqueueFetchAndPersistJobs(db, bus, [job], exchange, queue, savedAt, serialize);
    db.SaveProfile(profile.(lastScanTimestamp := Some(now)));
  }

  /** The scan job of `p` within a task: the uuid and the clock reading
      its scan draws, looked up by the profile's id. */
  function ScanJobOf(p: TwitterProfile, jobIds: int -> string, scanAt: int -> int): Job
    requires p.id.Some? && p.lastScanTimestamp.Some?
  {
    ScanJob(p, jobIds(p.id.value), scanAt(p.id.value))
  }

  /** The rows the scans of `ts` save, keyed by profile id: each with its
      checkpoint moved to its own clock reading. */
  function Checkpointed(ts: seq<TwitterProfile>, scanAt: int -> int): (rows: map<int, TwitterProfile>)
    requires forall i | 0 <= i < |ts| :: ts[i].id.Some?
    ensures forall k | k in rows :: rows[k].id == Some(k)
    decreases |ts|
  {
    if ts == [] then map[]
    else
      var init := ts[..|ts| - 1];
      var last := ts[|ts| - 1];
      Checkpointed(init, scanAt)[last.id.value := last.(lastScanTimestamp := Some(scanAt(last.id.value)))]
  }

  /** When every scanned profile is the stored row under its id, the saved
      rows are exactly the stored rows of the scanned profiles, each with
      its checkpoint at its clock reading. */
  lemma {:induction false} CheckpointedRows(base: map<int, TwitterProfile>, ts: seq<TwitterProfile>, scanAt: int -> int)
    requires forall i | 0 <= i < |ts| :: ts[i].id.Some? && ts[i].id.value in base && base[ts[i].id.value] == ts[i]
    ensures forall k | k in Checkpointed(ts, scanAt) ::
      k in base && base[k] in ts && Checkpointed(ts, scanAt)[k] == base[k].(lastScanTimestamp := Some(scanAt(k)))
    ensures forall i | 0 <= i < |ts| :: ts[i].id.value in Checkpointed(ts, scanAt)
    decreases |ts|
  {
    if ts != [] {
      var init := ts[..|ts| - 1];
      CheckpointedRows(base, init, scanAt);
      forall k | k in Checkpointed(init, scanAt)
        ensures base[k] in ts
      {
        assert base[k] in init;
      }
      forall i | 0 <= i < |ts| - 1
        ensures ts[i].id.value in Checkpointed(ts, scanAt)
      {
        assert init[i] == ts[i];
      }
    }
  }

  /** Scanning one more profile extends the saved rows. */
  lemma {:induction false} CheckpointedMore(profiles0: map<int, TwitterProfile>, profiles: map<int, TwitterProfile>,
                         ts: seq<TwitterProfile>, i: nat, scanAt: int -> int)
    requires i < |ts| && forall k | 0 <= k < |ts| :: ts[k].id.Some?
    requires profiles == profiles0 + Checkpointed(ts[..i], scanAt)
    ensures profiles[ts[i].id.value := ts[i].(lastScanTimestamp := Some(scanAt(ts[i].id.value)))]
      == profiles0 + Checkpointed(ts[..i + 1], scanAt)
  {
    assert ts[..i + 1][..i] == ts[..i];
    UnionUpdate(profiles0, Checkpointed(ts[..i], scanAt), ts[i].id.value,
                ts[i].(lastScanTimestamp := Some(scanAt(ts[i].id.value))));
  }

  /** The historic rows the scans of `ts` add, `jobs[i]` being the job of
      `ts[i]`: each scan's `save_jobs` call adds its job's row, created at
      that call's clock reading. */
  function ScanRows(ts: seq<TwitterProfile>, jobs: seq<Job>, savedAt: int -> Reading): map<string, JobHistoric>
    requires |jobs| == |ts| && forall i | 0 <= i < |ts| :: ts[i].id.Some?
    decreases |ts|
  {
    if ts == [] then map[]
    else
      var n := |ts| - 1;
      ScanRows(ts[..n], jobs[..n], savedAt)[jobs[n].jobId := HistoricRow(jobs[n], savedAt(ts[n].id.value))]
  }

  /** The scans' rows are keyed by the jobs' ids. */
  lemma {:induction false} ScanRowsKeys(ts: seq<TwitterProfile>, jobs: seq<Job>, savedAt: int -> Reading)
    requires |jobs| == |ts| && forall i | 0 <= i < |ts| :: ts[i].id.Some?
    ensures ScanRows(ts, jobs, savedAt).Keys == JobIds(jobs)
    decreases |ts|
  {
    if ts != [] {
      var n := |ts| - 1;
      ScanRowsKeys(ts[..n], jobs[..n], savedAt);
      assert jobs == jobs[..n] + [jobs[n]];
      JobIdsConcat(jobs[..n], [jobs[n]]);
      assert JobIds([jobs[n]]) == {jobs[n].jobId};
    }
  }

  /** With distinct job ids, job `i`'s row is its own, created at its
      profile's save reading. */
  lemma {:induction false} ScanRowsAt(ts: seq<TwitterProfile>, jobs: seq<Job>, savedAt: int -> Reading, i: nat)
    requires |jobs| == |ts| && forall k | 0 <= k < |ts| :: ts[k].id.Some?
    requires DistinctJobIds(jobs) && i < |jobs|
    ensures jobs[i].jobId in ScanRows(ts, jobs, savedAt)
    ensures ScanRows(ts, jobs, savedAt)[jobs[i].jobId] == HistoricRow(jobs[i], savedAt(ts[i].id.value))
    decreases |ts|
  {
    var n := |ts| - 1;
    if i < n {
      assert jobs[..n][i] == jobs[i] && ts[..n][i] == ts[i];
      assert jobs == jobs[..n] + [jobs[n]];
      DistinctJobIdsSplit(jobs[..n], [jobs[n]]);
      ScanRowsAt(ts[..n], jobs[..n], savedAt, i);
    }
  }

  /** With distinct job ids the scans' rows are one per job: its own row,
      created at its profile's save reading. */
  lemma ScanRowsOwn(ts: seq<TwitterProfile>, jobs: seq<Job>, savedAt: int -> Reading)
    requires |jobs| == |ts| && forall i | 0 <= i < |ts| :: ts[i].id.Some?
    requires DistinctJobIds(jobs)
    ensures ScanRows(ts, jobs, savedAt).Keys == JobIds(jobs)
    ensures forall i | 0 <= i < |jobs| ::
      ScanRows(ts, jobs, savedAt)[jobs[i].jobId] == HistoricRow(jobs[i], savedAt(ts[i].id.value))
  {
    ScanRowsKeys(ts, jobs, savedAt);
    forall i | 0 <= i < |jobs|
      ensures ScanRows(ts, jobs, savedAt)[jobs[i].jobId] == HistoricRow(jobs[i], savedAt(ts[i].id.value))
    {
      ScanRowsAt(ts, jobs, savedAt, i);
    }
  }

  /** Scanning one more profile extends the added rows. */
  lemma {:induction false} ScanRowsMore(ts: seq<TwitterProfile>, jobs: seq<Job>, job: Job, savedAt: int -> Reading)
    requires |jobs| < |ts| && forall i | 0 <= i < |ts| :: ts[i].id.Some?
    ensures var i := |jobs|;
      ScanRows(ts[..i], jobs, savedAt) + HistoricRows([job], savedAt(ts[i].id.value))
        == ScanRows(ts[..i + 1], jobs + [job], savedAt)
  {
    var i := |jobs|;
    var t := savedAt(ts[i].id.value);
    var rows := ScanRows(ts[..i], jobs, savedAt);
    assert ts[..i + 1][..i] == ts[..i] && (jobs + [job])[..i] == jobs;
    assert ScanRows(ts[..i + 1], jobs + [job], savedAt) == rows[job.jobId := HistoricRow(job, t)];
    HistoricRowsSnoc([], job, t);
    assert [] + [job] == [job];
    assert HistoricRows([job], t) == map[][job.jobId := HistoricRow(job, t)];
    UnionUpdate(rows, map[], job.jobId, HistoricRow(job, t));
    assert rows + map[] == rows;
  }

  /** The scan jobs of the first `i` targets, one more. */
  lemma {:induction false} ScanJobsNext(targets: seq<TwitterProfile>, i: nat, jobs: seq<Job>, jobIds: int -> string, scanAt: int -> int)
    requires i < |targets| && forall k | 0 <= k < |targets| :: targets[k].id.Some? && targets[k].lastScanTimestamp.Some?
    requires |jobs| == i && forall k | 0 <= k < i :: jobs[k] == ScanJobOf(targets[k], jobIds, scanAt)
    ensures var jobs' := jobs + [ScanJobOf(targets[i], jobIds, scanAt)];
      |jobs'| == i + 1 && forall k | 0 <= k < i + 1 :: jobs'[k] == ScanJobOf(targets[k], jobIds, scanAt)
  {
    var jobs' := jobs + [ScanJobOf(targets[i], jobIds, scanAt)];
    assert forall k | 0 <= k < i :: jobs'[k] == jobs[k];
  }

  /** What the scan of the first `i` targets has made of `s0`. */
  predicate ScannedUpTo(s: Store, s0: Store, targets: seq<TwitterProfile>, i: nat, jobs: seq<Job>,
                        jobIds: int -> string, exchange: string, queue: QueueConfig, scanAt: int -> int,
                        savedAt: int -> Reading, serialize: Job -> string)
    requires i <= |targets|
    requires forall k | 0 <= k < |targets| :: targets[k].id.Some? && targets[k].lastScanTimestamp.Some?
  {
    |jobs| == i
    && (forall k | 0 <= k < i :: jobs[k] == ScanJobOf(targets[k], jobIds, scanAt))
    && Enqueued(s, s0, jobs, ScanRows(targets[..i], jobs, savedAt), i > 0, exchange, queue, serialize)
    && s.profiles == s0.profiles + Checkpointed(targets[..i], scanAt)
  }

  /** One more scan, as `ProfileNewTweetsScan` states it, extends the scans
      before it. */
  lemma {:induction false} ScanStep(s: Store, s0: Store, targets: seq<TwitterProfile>, i: nat, jobs: seq<Job>,
                 jobIds: int -> string, exchange: string, queue: QueueConfig, scanAt: int -> int,
                 savedAt: int -> Reading, serialize: Job -> string)
    requires i < |targets|
    requires forall k | 0 <= k < |targets| :: targets[k].id.Some? && targets[k].lastScanTimestamp.Some?
    requires ScannedUpTo(s, s0, targets, i, jobs, jobIds, exchange, queue, scanAt, savedAt, serialize)
    ensures var p := targets[i];
      var job := ScanJobOf(p, jobIds, scanAt);
      ScannedUpTo(EnqueuedNext(s, [job], exchange, queue, savedAt(p.id.value), serialize)
                    .(profiles := s.profiles[p.id.value := p.(lastScanTimestamp := Some(scanAt(p.id.value)))]),
                  s0, targets, i + 1, jobs + [job], jobIds, exchange, queue, scanAt, savedAt, serialize)
  {
    var p := targets[i];
    var job := ScanJobOf(p, jobIds, scanAt);
    EnqueueStep(s, s0, jobs, ScanRows(targets[..i], jobs, savedAt), [job], i > 0, exchange, queue,
                savedAt(p.id.value), serialize);
    ScanRowsMore(targets, jobs, job, savedAt);
    CheckpointedMore(s0.profiles, s.profiles, targets, i, scanAt);
    ScanJobsNext(targets, i, jobs, jobIds, scanAt);
  }

  /** Scan target `i` after the ones before it. */
  method ScanNext(db: Database, bus: AMQPClient, targets: seq<TwitterProfile>, i: nat, jobs: seq<Job>,
                  jobIds: int -> string, exchange: string, queue: QueueConfig, scanAt: int -> int,
                  savedAt: int -> Reading, serialize: Job -> string, ghost s0: Store)
    returns (jobs': seq<Job>)
    requires db.Valid() && bus.Valid() && i < |targets|
    requires forall k | 0 <= k < |targets| :: targets[k].id.Some? && targets[k].lastScanTimestamp.Some?
    requires ScannedUpTo(StoreOf(db, bus), s0, targets, i, jobs, jobIds, exchange, queue, scanAt, savedAt, serialize)
    modifies db, bus
    ensures db.Valid() && bus.Valid()
    ensures ScannedUpTo(StoreOf(db, bus), s0, targets, i + 1, jobs', jobIds, exchange, queue, scanAt, savedAt, serialize)
    ensures bus.settled == old(bus.settled) && bus.prefetch == old(bus.prefetch) && db.tweets == old(db.tweets)
  {
    ScanStep(StoreOf(db, bus), s0, targets, i, jobs, jobIds, exchange, queue, scanAt, savedAt, serialize);
    var k := targets[i].id.value;
    var job := ProfileNewTweetsScan(db, bus, targets[i], jobIds(k), exchange, queue, scanAt(k), savedAt(k), serialize);
    jobs' := jobs + [job];
  }

  /** Scan each profile in turn; the scan of the profile with id `k` draws
      the job id `jobIds(k)`, reads the clock as `scanAt(k)`, and its
      `save_jobs` reads it as `savedAt(k)`. */
  method ScanProfiles(db: Database, bus: AMQPClient, targets: seq<TwitterProfile>, jobIds: int -> string, exchange: string,
                      queue: QueueConfig, scanAt: int -> int, savedAt: int -> Reading, serialize: Job -> string)
    returns (jobs: seq<Job>)
    requires db.Valid() && bus.Valid()
    requires forall i | 0 <= i < |targets| :: targets[i].id.Some? && targets[i].lastScanTimestamp.Some?
    modifies db, bus
    ensures db.Valid() && bus.Valid()
    ensures |jobs| == |targets|
    ensures forall i | 0 <= i < |targets| ::
      jobs[i] == ScanJob(targets[i], jobIds(targets[i].id.value), scanAt(targets[i].id.value))
    ensures bus.published == old(bus.published)
      + Published(ExchangeFor(exchange), queue.name, queue.persistent, JobPayloads(jobs, serialize))
    ensures bus.exchanges == (if targets == [] then old(bus.exchanges) else old(bus.exchanges)[exchange := ExchangeFor(exchange)])
    ensures bus.settled == old(bus.settled) && bus.prefetch == old(bus.prefetch)
    ensures db.historic == old(db.historic) + ScanRows(targets, jobs, savedAt)
    ensures db.profiles == old(db.profiles) + Checkpointed(targets, scanAt)
    ensures db.tweets == old(db.tweets)
  {
    ghost var s0 := StoreOf(db, bus);
    jobs := [];
    var i := 0;
    while i < |targets|
      invariant 0 <= i <= |targets|
      invariant db.Valid() && bus.Valid()
      invariant ScannedUpTo(StoreOf(db, bus), s0, targets, i, jobs, jobIds, exchange, queue, scanAt, savedAt, serialize)
      invariant bus.settled == old(bus.settled) && bus.prefetch == old(bus.prefetch) && db.tweets == old(db.tweets)
    {
      jobs := ScanNext(db, bus, targets, i, jobs, jobIds, exchange, queue, scanAt, savedAt, serialize, s0);
      i := i + 1;
    }
    ScannedAll(StoreOf(db, bus), s0, targets, jobs, jobIds, exchange, queue, scanAt, savedAt, serialize);
  }

  /** Scans of all the targets are the scans `ScanProfiles` promises. */
  lemma {:induction false} ScannedAll(s: Store, s0: Store, targets: seq<TwitterProfile>, jobs: seq<Job>,
                                      jobIds: int -> string, exchange: string, queue: QueueConfig, scanAt: int -> int,
                                      savedAt: int -> Reading, serialize: Job -> string)
    requires forall k | 0 <= k < |targets| :: targets[k].id.Some? && targets[k].lastScanTimestamp.Some?
    requires ScannedUpTo(s, s0, targets, |targets|, jobs, jobIds, exchange, queue, scanAt, savedAt, serialize)
    ensures |jobs| == |targets|
    ensures forall i | 0 <= i < |targets| ::
      jobs[i] == ScanJob(targets[i], jobIds(targets[i].id.value), scanAt(targets[i].id.value))
    ensures Enqueued(s, s0, jobs, ScanRows(targets, jobs, savedAt), targets != [], exchange, queue, serialize)
    ensures s.profiles == s0.profiles + Checkpointed(targets, scanAt)
  {
    assert targets[..|targets|] == targets;
  }

  /** A scan of an active listing takes exactly the active profiles with a
      checkpoint, each being its stored row. */
  lemma {:induction false} ScanTargetsStored(before: map<int, TwitterProfile>, listed: seq<TwitterProfile>)
    requires forall k | k in before :: before[k] in listed <==> before[k].active
    requires forall i | 0 <= i < |listed| ::
      listed[i].id.Some? && listed[i].id.value in before && before[listed[i].id.value] == listed[i]
    ensures forall k | k in before ::
      (before[k] in ScanTargets(listed) <==> before[k].active && HasCheckpoint(before[k]))
    ensures forall i | 0 <= i < |ScanTargets(listed)| ::
      ScanTargets(listed)[i].id.Some? && ScanTargets(listed)[i].id.value in before
      && before[ScanTargets(listed)[i].id.value] == ScanTargets(listed)[i]
  {
    var targets := ScanTargets(listed);
    forall i | 0 <= i < |targets|
      ensures targets[i].id.Some? && targets[i].id.value in before && before[targets[i].id.value] == targets[i]
    {
      assert targets[i] in targets;
      var j :| 0 <= j < |listed| && listed[j] == targets[i];
    }
  }

  /** The scan moves the checkpoint of each active profile that has one to
      its scan's clock reading and leaves the other rows. */
  lemma {:induction false} ScanOutcome(before: map<int, TwitterProfile>, listed: seq<TwitterProfile>, scanAt: int -> int)
    requires forall k | k in before :: before[k].id == Some(k)
    requires forall k | k in before :: before[k] in listed <==> before[k].active
    requires forall i | 0 <= i < |listed| ::
      listed[i].id.Some? && listed[i].id.value in before && before[listed[i].id.value] == listed[i]
    ensures (before + Checkpointed(ScanTargets(listed), scanAt)).Keys == before.Keys
    ensures forall k | k in before ::
      (before + Checkpointed(ScanTargets(listed), scanAt))[k]
        == if before[k].active && HasCheckpoint(before[k]) then before[k].(lastScanTimestamp := Some(scanAt(k)))
           else before[k]
  {
    var targets := ScanTargets(listed);
    ScanTargetsStored(before, listed);
    CheckpointedRows(before, targets, scanAt);
    var rows := Checkpointed(targets, scanAt);
    assert forall k | k in rows :: k in before;
    assert (before + rows).Keys == before.Keys;
    forall k | k in before
      ensures (before + Checkpointed(targets, scanAt))[k]
        == if before[k].active && HasCheckpoint(before[k]) then before[k].(lastScanTimestamp := Some(scanAt(k))) else before[k]
    {
      CheckpointedAt(before, targets, scanAt, k);
    }
  }

  /** A stored row has a saved row iff it was scanned. */
  lemma {:induction false} CheckpointedAt(before: map<int, TwitterProfile>, targets: seq<TwitterProfile>, scanAt: int -> int, k: int)
    requires k in before && before[k].id == Some(k)
    requires forall i | 0 <= i < |targets| ::
      targets[i].id.Some? && targets[i].id.value in before && before[targets[i].id.value] == targets[i]
    requires forall k | k in Checkpointed(targets, scanAt) ::
      k in before && before[k] in targets && Checkpointed(targets, scanAt)[k] == before[k].(lastScanTimestamp := Some(scanAt(k)))
    requires forall i | 0 <= i < |targets| :: targets[i].id.value in Checkpointed(targets, scanAt)
    ensures k in Checkpointed(targets, scanAt) <==> before[k] in targets
    ensures (before + Checkpointed(targets, scanAt))[k]
      == if before[k] in targets then before[k].(lastScanTimestamp := Some(scanAt(k))) else before[k]
  {
    if before[k] in targets {
      var i :| 0 <= i < |targets| && targets[i] == before[k];
      assert targets[i].id.value == k;
    }
  }

  /** The historic rows after a commit of the scan: the stored rows, and one
      new row per job, its own, created at its profile's save reading. */
  predicate ScanCommitted(historic: map<string, JobHistoric>, historic0: map<string, JobHistoric>,
                          targets: seq<TwitterProfile>, jobs: seq<Job>, savedAt: int -> Reading)
    requires |jobs| == |targets|
    requires forall i | 0 <= i < |targets| :: targets[i].id.Some?
  {
    historic.Keys == historic0.Keys + JobIds(jobs)
    && (forall id | id in historic0 :: historic[id] == historic0[id])
    && forall i | 0 <= i < |jobs| :: historic[jobs[i].jobId] == HistoricRow(jobs[i], savedAt(targets[i].id.value))
  }

  /** Fresh job ids make the scans' rows exactly one new row per job. */
  lemma {:induction false} ScanCommit(historic0: map<string, JobHistoric>, targets: seq<TwitterProfile>, jobs: seq<Job>,
                   savedAt: int -> Reading)
    requires |jobs| == |targets| && forall i | 0 <= i < |targets| :: targets[i].id.Some?
    requires FreshJobIds(historic0, jobs)
    ensures ScanCommitted(historic0 + ScanRows(targets, jobs, savedAt), historic0, targets, jobs, savedAt)
  {
    var rows := ScanRows(targets, jobs, savedAt);
    ScanRowsOwn(targets, jobs, savedAt);
    FreshRows(historic0, rows, jobs);
    forall i | 0 <= i < |jobs|
      ensures (historic0 + rows)[jobs[i].jobId] == HistoricRow(jobs[i], savedAt(targets[i].id.value))
    {
      assert jobs[i].jobId in rows;
    }
  }

  /** `run_task_newtweetsscan`: in one session, list the active profiles,
      keep those with a checkpoint, and scan each (the one with id `k`
      drawing job id `jobIds(k)` and clock readings `scanAt(k)` and
      `savedAt(k)`), then commit. `targets` are the profiles scanned. The
      commit fails when a job id repeats or is already stored: then every
      row the task wrote is rolled back, while its messages stay published. */
  method RunTaskNewTweetsScan(db: Database, bus: AMQPClient, jobIds: int -> string, exchange: string,
                              queue: QueueConfig, scanAt: int -> int, savedAt: int -> Reading, serialize: Job -> string)
    returns (targets: seq<TwitterProfile>, jobs: seq<Job>, committed: bool)
    requires db.Valid() && bus.Valid()
    modifies db, bus
    ensures db.Valid() && bus.Valid()
    ensures forall k | k in old(db.profiles) ::
      (old(db.profiles)[k] in targets <==> old(db.profiles)[k].active && HasCheckpoint(old(db.profiles)[k]))
    ensures forall i | 0 <= i < |targets| ::
      targets[i].id.Some? && targets[i].id.value in old(db.profiles) && old(db.profiles)[targets[i].id.value] == targets[i]
    ensures |jobs| == |targets|
    ensures forall i | 0 <= i < |targets| ::
      targets[i].lastScanTimestamp.Some?
      && jobs[i] == ScanJob(targets[i], jobIds(targets[i].id.value), scanAt(targets[i].id.value))
    ensures bus.published == old(bus.published)
      + Published(ExchangeFor(exchange), queue.name, queue.persistent, JobPayloads(jobs, serialize))
    ensures bus.exchanges == (if targets == [] then old(bus.exchanges) else old(bus.exchanges)[exchange := ExchangeFor(exchange)])
    ensures bus.settled == old(bus.settled) && bus.prefetch == old(bus.prefetch)
    ensures committed <==> FreshJobIds(old(db.historic), jobs)
    ensures !committed ==> db.historic == old(db.historic) && db.profiles == old(db.profiles)
    ensures committed ==> ScanCommitted(db.historic, old(db.historic), targets, jobs, savedAt)
    ensures committed ==> db.profiles.Keys == old(db.profiles).Keys
    ensures committed ==> forall k | k in old(db.profiles) ::
      db.profiles[k] == if old(db.profiles)[k].active && HasCheckpoint(old(db.profiles)[k])
                        then old(db.profiles)[k].(lastScanTimestamp := Some(scanAt(k)))
                        else old(db.profiles)[k]
    ensures db.tweets == old(db.tweets)
  {
    var profiles0, historic0 := db.profiles, db.historic;
    var listed := db.ListProfiles(Some(true));
    ScanTargetsStored(db.profiles, listed);
    targets := ScanTargets(listed);
    jobs := ScanProfiles(db, bus, targets, jobIds, exchange, queue, scanAt, savedAt, serialize);
    committed := FreshJobIds(historic0, jobs);
    if committed {
      ScanOutcome(profiles0, listed, scanAt);
      ScanCommit(historic0, targets, jobs, savedAt);
    } else {
      db.Rollback(profiles0, historic0);
    }
  }

  /* ---------------- Profiles sync ---------------- */

  /** How `get_username` fails: the profile no longer exists
      (`TwitterProfileNotFoundError`), or anything else. */
  datatype UsernameError = ProfileNotFound | ApiFailure

  /** `TwitterAPIClient.get_username`, an oracle from userid to current
      username. */
  type UsernameLookup = string -> Result<string, UsernameError>

  /** A lookup that raises something other than not-found. */
  predicate Fails(answer: Result<string, UsernameError>) {
    answer.Err? && answer.error == ApiFailure
  }

  /** The profile after its sync: a found profile takes the current
      username and is active; a missing one is inactive. */
  function Synced(p: TwitterProfile, answer: Result<string, UsernameError>): (q: TwitterProfile)
    requires !Fails(answer)
    ensures q.active <==> answer.Ok?
    ensures answer.Ok? ==> q.username == answer.value
    ensures answer.Err? ==> q.username == p.username
    ensures q.id == p.id && q.userid == p.userid && q.joinedDate == p.joinedDate
    ensures q.lastScanTimestamp == p.lastScanTimestamp
  {
    match answer
    case Ok(username) => p.(username := username, active := true)
    case Err(_) => p.(active := false)
  }

  /** `_sync_profile_active`: look the userid up; found: refresh the
      username and mark active; not found: mark inactive; save either way.
      Any other failure raises before the save. The result is the source's
      `active` (its `userid` is the profile's own). */
  method SyncProfileActive(db: Database, profile: TwitterProfile, lookup: UsernameLookup)
    returns (r: Result<bool, UsernameError>)
    requires db.Valid() && profile.id.Some?
    modifies db
    ensures db.Valid()
    ensures r.Err? <==> Fails(lookup(profile.userid))
    ensures r.Err? ==> r.error == ApiFailure && db.profiles == old(db.profiles)
    ensures r.Ok? ==> (r.value <==> lookup(profile.userid).Ok?)
    ensures r.Ok? ==>
      db.profiles == old(db.profiles)[profile.id.value := Synced(profile, lookup(profile.userid))]
    ensures db.tweets == old(db.tweets) && db.historic == old(db.historic)
  {
    var answer := lookup(profile.userid);
    if Fails(answer) {
      return Err(ApiFailure);
    }
    var synced := Synced(profile, answer);
    db.SaveProfile(synced);
    r := Ok(synced.active);
  }

  /** The index of the first profile whose lookup fails, or the length
      when none does. */
  function FirstFailure(ps: seq<TwitterProfile>, lookup: UsernameLookup): (n: nat)
    ensures n <= |ps|
    ensures forall i | 0 <= i < n :: !Fails(lookup(ps[i].userid))
    ensures n < |ps| ==> Fails(lookup(ps[n].userid))
    decreases |ps|
  {
    if ps == [] then 0
    else if Fails(lookup(ps[0].userid)) then 0
    else 1 + FirstFailure(ps[1..], lookup)
  }

  /** The rows the syncs of `ps` save, keyed by profile id (a repeated id
      keeps the last). */
  function SyncedRows(ps: seq<TwitterProfile>, lookup: UsernameLookup): (rows: map<int, TwitterProfile>)
    requires forall i | 0 <= i < |ps| :: ps[i].id.Some? && !Fails(lookup(ps[i].userid))
    ensures forall k | k in rows :: rows[k].id == Some(k)
    decreases |ps|
  {
    if ps == [] then map[]
    else
      var init := ps[..|ps| - 1];
      var last := ps[|ps| - 1];
      assert ps == init + [last];
      SyncedRows(init, lookup)[last.id.value := Synced(last, lookup(last.userid))]
  }

  /** Only the synced profiles' ids have rows. */
  lemma {:induction false} SyncedRowsKeys(ps: seq<TwitterProfile>, lookup: UsernameLookup, k: int)
    requires forall i | 0 <= i < |ps| :: ps[i].id.Some? && !Fails(lookup(ps[i].userid))
    requires k in SyncedRows(ps, lookup)
    ensures exists i | 0 <= i < |ps| :: ps[i].id == Some(k)
    decreases |ps|
  {
    var init := ps[..|ps| - 1];
    var last := ps[|ps| - 1];
    if k != last.id.value {
      SyncedRowsKeys(init, lookup, k);
      var i :| 0 <= i < |init| && init[i].id == Some(k);
      assert ps[i] == init[i];
    }
  }

  /** With distinct ids, each profile's row is its own sync. */
  lemma {:induction false} SyncedRowsOwn(ps: seq<TwitterProfile>, lookup: UsernameLookup)
    requires forall i | 0 <= i < |ps| :: ps[i].id.Some? && !Fails(lookup(ps[i].userid))
    requires forall i, j | 0 <= i < j < |ps| :: ps[i].id != ps[j].id
    ensures forall i | 0 <= i < |ps| ::
      ps[i].id.value in SyncedRows(ps, lookup) && SyncedRows(ps, lookup)[ps[i].id.value] == Synced(ps[i], lookup(ps[i].userid))
    decreases |ps|
  {
    if ps != [] {
      var init := ps[..|ps| - 1];
      var last := ps[|ps| - 1];
      SyncedRowsOwn(init, lookup);
      forall i | 0 <= i < |ps| - 1
        ensures ps[i].id.value in SyncedRows(ps, lookup)
        ensures SyncedRows(ps, lookup)[ps[i].id.value] == Synced(ps[i], lookup(ps[i].userid))
      {
        assert init[i] == ps[i];
        assert ps[i].id.value != last.id.value;
      }
    }
  }

  /** `_sync_profiles_active`'s answer: the profiles found, in input order,
      each as its sync left it. */
  function ActiveAfterSync(ps: seq<TwitterProfile>, lookup: UsernameLookup): (r: seq<TwitterProfile>)
    requires forall i | 0 <= i < |ps| :: !Fails(lookup(ps[i].userid))
    ensures |r| <= |ps|
    decreases |ps|
  {
    if ps == [] then []
    else
      var init := ps[..|ps| - 1];
      var last := ps[|ps| - 1];
      assert ps == init + [last];
      ActiveAfterSync(init, lookup)
        + if lookup(last.userid).Ok? then [Synced(last, lookup(last.userid))] else []
  }

  /** Every profile the lookup finds comes back, as its sync. */
  lemma {:induction false} ActiveAfterSyncFinds(ps: seq<TwitterProfile>, lookup: UsernameLookup, i: nat)
    requires forall k | 0 <= k < |ps| :: !Fails(lookup(ps[k].userid))
    requires i < |ps| && lookup(ps[i].userid).Ok?
    ensures Synced(ps[i], lookup(ps[i].userid)) in ActiveAfterSync(ps, lookup)
    decreases |ps|
  {
    var init := ps[..|ps| - 1];
    if i < |ps| - 1 {
      ActiveAfterSyncFinds(init, lookup, i);
    }
  }

  /** Only found profiles come back: each is active with its current
      username and is the sync of an input profile. */
  lemma {:induction false} ActiveAfterSyncOrigin(ps: seq<TwitterProfile>, lookup: UsernameLookup, q: TwitterProfile)
    requires forall k | 0 <= k < |ps| :: !Fails(lookup(ps[k].userid))
    requires q in ActiveAfterSync(ps, lookup)
    ensures q.active && lookup(q.userid) == Ok(q.username)
    ensures exists i | 0 <= i < |ps| :: q == Synced(ps[i], lookup(ps[i].userid))
    decreases |ps|
  {
    var init := ps[..|ps| - 1];
    var last := ps[|ps| - 1];
    if q in ActiveAfterSync(init, lookup) {
      ActiveAfterSyncOrigin(init, lookup, q);
      var i :| 0 <= i < |init| && q == Synced(init[i], lookup(init[i].userid));
      assert ps[i] == init[i];
    } else {
      assert q == Synced(last, lookup(last.userid));
    }
  }

  /** Syncing one more profile extends the saved rows and the answer. */
  lemma {:induction false} SyncedMore(profiles0: map<int, TwitterProfile>, profiles: map<int, TwitterProfile>,
                   ps: seq<TwitterProfile>, i: nat, lookup: UsernameLookup)
    requires i < |ps| && forall k | 0 <= k <= i :: ps[k].id.Some? && !Fails(lookup(ps[k].userid))
    requires profiles == profiles0 + SyncedRows(ps[..i], lookup)
    ensures profiles[ps[i].id.value := Synced(ps[i], lookup(ps[i].userid))] == profiles0 + SyncedRows(ps[..i + 1], lookup)
    ensures ActiveAfterSync(ps[..i + 1], lookup)
      == ActiveAfterSync(ps[..i], lookup) + if lookup(ps[i].userid).Ok? then [Synced(ps[i], lookup(ps[i].userid))] else []
  {
    assert ps[..i + 1][..i] == ps[..i];
    UnionUpdate(profiles0, SyncedRows(ps[..i], lookup), ps[i].id.value, Synced(ps[i], lookup(ps[i].userid)));
  }

  /** `_sync_profiles_active`: sync every profile, saving each, and return
      those found, in input order. The source runs the syncs concurrently;
      here they run in order and the first failing lookup stops the rest,
      after the syncs before it were saved. */
  method SyncProfilesActive(db: Database, profiles: seq<TwitterProfile>, lookup: UsernameLookup)
    returns (r: Result<seq<TwitterProfile>, UsernameError>)
    requires db.Valid() && forall i | 0 <= i < |profiles| :: profiles[i].id.Some?
    modifies db
    ensures db.Valid()
    ensures r.Ok? <==> FirstFailure(profiles, lookup) == |profiles|
    ensures r.Ok? ==> r.value == ActiveAfterSync(profiles, lookup)
    ensures r.Err? ==> r.error == ApiFailure
    ensures db.profiles == old(db.profiles) + SyncedRows(profiles[..FirstFailure(profiles, lookup)], lookup)
    ensures db.tweets == old(db.tweets) && db.historic == old(db.historic)
  {
    var found: seq<TwitterProfile> := [];
    var n := FirstFailure(profiles, lookup);
    var i := 0;
    while i < |profiles|
      invariant 0 <= i <= n
      invariant db.Valid()
      invariant found == ActiveAfterSync(profiles[..i], lookup)
      invariant db.profiles == old(db.profiles) + SyncedRows(profiles[..i], lookup)
      invariant db.tweets == old(db.tweets) && db.historic == old(db.historic)
    {
      var p := profiles[i];
      if i < n {
        SyncedMore(old(db.profiles), db.profiles, profiles, i, lookup);
      }
      var active := SyncProfileActive(db, p, lookup);
      if active.Err? {
        return Err(active.error);
      }
      if active.value {
        found := found + [Synced(p, lookup(p.userid))];
      }
      i := i + 1;
    }
    assert profiles[..i] == profiles;
    r := Ok(found);
  }

  /* ---------------- Profiles-tweets sync ---------------- */

  /** The review jobs for one profile: one persisted-review job per day
      window, the `i`-th with job id `jobId(userid, i)`. */
  function ReviewJobs(userid: string, windows: seq<DayWindow>, jobId: (string, nat) -> string): (jobs: seq<Job>)
    ensures |jobs| == |windows|
    ensures forall i | 0 <= i < |windows| ::
      jobs[i] == Job(JobKind.PersistedReview, jobId(userid, i), userid, windows[i].fromTs, windows[i].toTs)
  {
    seq(|windows|, i requires 0 <= i < |windows| =>
      Job(JobKind.PersistedReview, jobId(userid, i), userid, windows[i].fromTs, windows[i].toTs))
  }

  /** The review jobs of a profile cover its history exactly once: every
      instant from the midnight of the joined date up to `toTs` falls in
      exactly one job's window, and no other instant in any. */
  lemma ReviewJobsCoverHistory(userid: string, joined: Date, toTs: int, jobId: (string, nat) -> string, t: int)
    requires ValidDate(joined)
    ensures var jobs := ReviewJobs(userid, DateToDatetimeRange(joined, toTs), jobId);
      ((exists i | 0 <= i < |jobs| :: InWindow(jobs[i], t)) <==> DayStart(joined) <= t < toTs)
      && (forall i, j | 0 <= i < j < |jobs| :: !(InWindow(jobs[i], t) && InWindow(jobs[j], t)))
  {
    var ws := DateToDatetimeRange(joined, toTs);
    var jobs := ReviewJobs(userid, ws, jobId);
    DayIntervalsChain(DayStart(joined), toTs);
    if jobs != [] {
      assert Creator.Chained(jobs);
      Creator.ChainedWindowsCoverOnce(jobs, t);
    }
  }

  /** `_create_syncprofilestweets_profile_jobs`: one persisted-review job
      per window of `date_to_datetime_range(from_date, to)`, enqueued in one
      call, even when there are none; `save_jobs` reads the clock as
      `savedAt`. */
  method CreateSyncProfilesTweetsProfileJobs(db: Database, bus: AMQPClient, userid: string, fromDate: Date, toTs: int,
                                             jobId: (string, nat) -> string, exchange: string, queue: QueueConfig,
                                             savedAt: int, serialize: Job -> string)
    returns (jobs: seq<Job>)
    requires db.Valid() && bus.Valid() && savedAt > 0 && ValidDate(fromDate)
    modifies db, bus
    ensures db.Valid() && bus.Valid()
    ensures jobs == ReviewJobs(userid, DateToDatetimeRange(fromDate, toTs), jobId)
    ensures bus.published == old(bus.published)
      + Published(ExchangeFor(exchange), queue.name, queue.persistent, JobPayloads(jobs, serialize))
    ensures bus.exchanges == old(bus.exchanges)[exchange := ExchangeFor(exchange)]
    ensures bus.settled == old(bus.settled) && bus.prefetch == old(bus.prefetch)
    ensures db.historic == old(db.historic) + HistoricRows(jobs, savedAt)
    ensures db.profiles == old(db.profiles) && db.tweets == old(db.tweets)
  {
    var windows := DateToDatetimeRange(fromDate, toTs);
    jobs := [];
    var i := 0;
    while i < |windows|
      invariant 0 <= i <= |windows|
      invariant |jobs| == i
      invariant forall k | 0 <= k < i ::
        jobs[k] == Job(JobKind.PersistedReview, jobId(userid, k), userid, windows[k].fromTs, windows[k].toTs)
    {
      jobs := jobs + [Job(JobKind.PersistedReview, jobId(userid, i), userid, windows[i].fromTs, windows[i].toTs)];
      i := i + 1;
    }
    EnqueuePersistedReviewJobs(db, bus, jobs, exchange, queue, savedAt, serialize);
  }

  /** The review jobs of one profile, up to `toTs`. */
  function ReviewJobsOf(p: TwitterProfile, toTs: int, jobId: (string, nat) -> string): seq<Job>
    requires ValidDate(p.joinedDate)
  {
    ReviewJobs(p.userid, DateToDatetimeRange(p.joinedDate, toTs), jobId)
  }

  /** The review jobs of all the given profiles, profile after profile. */
  function AllReviewJobs(ps: seq<TwitterProfile>, toTs: int, jobId: (string, nat) -> string): (jobs: seq<Job>)
    requires forall i | 0 <= i < |ps| :: ValidDate(ps[i].joinedDate)
    ensures forall j | j in jobs :: j.kind == JobKind.PersistedReview && j.toTimestamp <= toTs
    decreases |ps|
  {
    if ps == [] then []
    else
      var init := ps[..|ps| - 1];
      var last := ps[|ps| - 1];
      AllReviewJobs(init, toTs, jobId) + ReviewJobsOf(last, toTs, jobId)
  }

  /** Each profile's review jobs are among all of them, and every job is
      one profile's. */
  lemma {:induction false} AllReviewJobsMembers(ps: seq<TwitterProfile>, toTs: int, jobId: (string, nat) -> string)
    requires forall i | 0 <= i < |ps| :: ValidDate(ps[i].joinedDate)
    ensures forall i, j | 0 <= i < |ps| && j in ReviewJobsOf(ps[i], toTs, jobId) :: j in AllReviewJobs(ps, toTs, jobId)
    ensures forall j | j in AllReviewJobs(ps, toTs, jobId) ::
      exists i | 0 <= i < |ps| :: j in ReviewJobsOf(ps[i], toTs, jobId)
    decreases |ps|
  {
    if ps != [] {
      var init := ps[..|ps| - 1];
      var last := ps[|ps| - 1];
      AllReviewJobsMembers(init, toTs, jobId);
      forall j | j in AllReviewJobs(ps, toTs, jobId)
        ensures exists i | 0 <= i < |ps| :: j in ReviewJobsOf(ps[i], toTs, jobId)
      {
        if j in AllReviewJobs(init, toTs, jobId) {
          var i :| 0 <= i < |init| && j in ReviewJobsOf(init[i], toTs, jobId);
          assert ps[i] == init[i];
        }
      }
      forall i, j | 0 <= i < |ps| - 1 && j in ReviewJobsOf(ps[i], toTs, jobId)
        ensures j in AllReviewJobs(ps, toTs, jobId)
      {
        assert ps[i] == init[i];
      }
    }
  }

  /** The review jobs of one more profile follow those before it. */
  lemma {:induction false} AllReviewJobsNext(ps: seq<TwitterProfile>, i: nat, toTs: int, jobId: (string, nat) -> string)
    requires i < |ps| && forall k | 0 <= k < |ps| :: ValidDate(ps[k].joinedDate)
    ensures AllReviewJobs(ps[..i + 1], toTs, jobId) == AllReviewJobs(ps[..i], toTs, jobId) + ReviewJobsOf(ps[i], toTs, jobId)
  {
    assert ps[..i + 1][..i] == ps[..i];
  }

  /** The historic rows the review enqueueing of `ps` adds: each profile's
      `save_jobs` call adds its jobs' rows, created at that call's clock
      reading. */
  function ReviewRows(ps: seq<TwitterProfile>, toTs: int, jobId: (string, nat) -> string, savedAt: int -> Reading)
    : map<string, JobHistoric>
    requires forall i | 0 <= i < |ps| :: ps[i].id.Some? && ValidDate(ps[i].joinedDate)
    decreases |ps|
  {
    if ps == [] then map[]
    else
      var init := ps[..|ps| - 1];
      var last := ps[|ps| - 1];
      ReviewRows(init, toTs, jobId, savedAt) + HistoricRows(ReviewJobsOf(last, toTs, jobId), savedAt(last.id.value))
  }

  /** The review rows are keyed by the review jobs' ids. */
  lemma {:induction false} ReviewRowsKeys(ps: seq<TwitterProfile>, toTs: int, jobId: (string, nat) -> string,
                                          savedAt: int -> Reading)
    requires forall i | 0 <= i < |ps| :: ps[i].id.Some? && ValidDate(ps[i].joinedDate)
    ensures ReviewRows(ps, toTs, jobId, savedAt).Keys == JobIds(AllReviewJobs(ps, toTs, jobId))
    decreases |ps|
  {
    if ps != [] {
      var init := ps[..|ps| - 1];
      var last := ps[|ps| - 1];
      ReviewRowsKeys(init, toTs, jobId, savedAt);
      HistoricRowsShape(ReviewJobsOf(last, toTs, jobId), savedAt(last.id.value));
      JobIdsConcat(AllReviewJobs(init, toTs, jobId), ReviewJobsOf(last, toTs, jobId));
    }
  }

  /** With distinct job ids, the row of review job `j` of profile `i` is
      its own, created at that profile's save reading. */
  lemma {:induction false} ReviewRowsAt(ps: seq<TwitterProfile>, toTs: int, jobId: (string, nat) -> string,
                                        savedAt: int -> Reading, i: nat, j: Job)
    requires forall k | 0 <= k < |ps| :: ps[k].id.Some? && ValidDate(ps[k].joinedDate)
    requires DistinctJobIds(AllReviewJobs(ps, toTs, jobId))
    requires i < |ps| && j in ReviewJobsOf(ps[i], toTs, jobId)
    ensures j.jobId in ReviewRows(ps, toTs, jobId, savedAt)
    ensures ReviewRows(ps, toTs, jobId, savedAt)[j.jobId] == HistoricRow(j, savedAt(ps[i].id.value))
    decreases |ps|
  {
    var init := ps[..|ps| - 1];
    var last := ps[|ps| - 1];
    var a := AllReviewJobs(init, toTs, jobId);
    var b := ReviewJobsOf(last, toTs, jobId);
    var t := savedAt(last.id.value);
    DistinctJobIdsSplit(a, b);
    HistoricRowsShape(b, t);
    if i < |ps| - 1 {
      assert init[i] == ps[i];
      ReviewRowsAt(init, toTs, jobId, savedAt, i, j);
      AllReviewJobsMembers(init, toTs, jobId);
      assert j.jobId !in HistoricRows(b, t);
    } else {
      HistoricRowOf(b, t, j);
    }
  }

  /** With distinct job ids the review rows are one per job: its own row,
      created at its profile's save reading; no other row. */
  lemma ReviewRowsOwn(ps: seq<TwitterProfile>, toTs: int, jobId: (string, nat) -> string, savedAt: int -> Reading)
    requires forall i | 0 <= i < |ps| :: ps[i].id.Some? && ValidDate(ps[i].joinedDate)
    requires DistinctJobIds(AllReviewJobs(ps, toTs, jobId))
    ensures ReviewRows(ps, toTs, jobId, savedAt).Keys == JobIds(AllReviewJobs(ps, toTs, jobId))
    ensures forall i, j | 0 <= i < |ps| && j in ReviewJobsOf(ps[i], toTs, jobId) ::
      j.jobId in ReviewRows(ps, toTs, jobId, savedAt)
      && ReviewRows(ps, toTs, jobId, savedAt)[j.jobId] == HistoricRow(j, savedAt(ps[i].id.value))
  {
    ReviewRowsKeys(ps, toTs, jobId, savedAt);
    forall i, j | 0 <= i < |ps| && j in ReviewJobsOf(ps[i], toTs, jobId)
      ensures j.jobId in ReviewRows(ps, toTs, jobId, savedAt)
      ensures ReviewRows(ps, toTs, jobId, savedAt)[j.jobId] == HistoricRow(j, savedAt(ps[i].id.value))
    {
      ReviewRowsAt(ps, toTs, jobId, savedAt, i, j);
    }
  }

  /** What enqueueing the review jobs of the first `i` profiles has made
      of `s0`. */
  predicate ReviewedUpTo(s: Store, s0: Store, ps: seq<TwitterProfile>, i: nat, jobs: seq<Job>,
                         jobId: (string, nat) -> string, exchange: string, queue: QueueConfig, now: int,
                         savedAt: int -> Reading, serialize: Job -> string)
    requires i <= |ps|
    requires forall k | 0 <= k < |ps| :: ps[k].id.Some? && ValidDate(ps[k].joinedDate)
  {
    jobs == AllReviewJobs(ps[..i], now, jobId)
    && Enqueued(s, s0, jobs, ReviewRows(ps[..i], now, jobId, savedAt), i > 0, exchange, queue, serialize)
    && s.profiles == s0.profiles
  }

  /** One more profile's review jobs extend the ones before. */
  lemma {:induction false} ReviewStep(s: Store, s0: Store, ps: seq<TwitterProfile>, i: nat, jobs: seq<Job>,
                   jobId: (string, nat) -> string, exchange: string, queue: QueueConfig, now: int,
                   savedAt: int -> Reading, serialize: Job -> string)
    requires i < |ps|
    requires forall k | 0 <= k < |ps| :: ps[k].id.Some? && ValidDate(ps[k].joinedDate)
    requires ReviewedUpTo(s, s0, ps, i, jobs, jobId, exchange, queue, now, savedAt, serialize)
    ensures var own := ReviewJobsOf(ps[i], now, jobId);
      ReviewedUpTo(EnqueuedNext(s, own, exchange, queue, savedAt(ps[i].id.value), serialize), s0, ps, i + 1, jobs + own,
                   jobId, exchange, queue, now, savedAt, serialize)
  {
    var own := ReviewJobsOf(ps[i], now, jobId);
    EnqueueStep(s, s0, jobs, ReviewRows(ps[..i], now, jobId, savedAt), own, i > 0, exchange, queue,
                savedAt(ps[i].id.value), serialize);
    AllReviewJobsNext(ps, i, now, jobId);
    ReviewRowsNext(ps, i, now, jobId, savedAt);
  }

  /** The review rows of one more profile follow those before it. */
  lemma {:induction false} ReviewRowsNext(ps: seq<TwitterProfile>, i: nat, toTs: int, jobId: (string, nat) -> string,
                                          savedAt: int -> Reading)
    requires i < |ps| && forall k | 0 <= k < |ps| :: ps[k].id.Some? && ValidDate(ps[k].joinedDate)
    ensures ReviewRows(ps[..i + 1], toTs, jobId, savedAt)
      == ReviewRows(ps[..i], toTs, jobId, savedAt) + HistoricRows(ReviewJobsOf(ps[i], toTs, jobId), savedAt(ps[i].id.value))
  {
    assert ps[..i + 1][..i] == ps[..i];
  }

  /** Enqueue the review jobs of each profile in turn, from its joined date
      up to `now`; the `save_jobs` of the profile with id `k` reads the
      clock as `savedAt(k)`. */
  method EnqueueReviews(db: Database, bus: AMQPClient, ps: seq<TwitterProfile>, jobId: (string, nat) -> string,
                        exchange: string, queue: QueueConfig, now: int, savedAt: int -> Reading, serialize: Job -> string)
    returns (jobs: seq<Job>)
    requires db.Valid() && bus.Valid()
    requires forall k | 0 <= k < |ps| :: ps[k].id.Some? && ValidDate(ps[k].joinedDate)
    modifies db, bus
    ensures db.Valid() && bus.Valid()
    ensures ReviewedUpTo(StoreOf(db, bus), old(StoreOf(db, bus)), ps, |ps|, jobs, jobId, exchange, queue, now,
                         savedAt, serialize)
    ensures bus.settled == old(bus.settled) && bus.prefetch == old(bus.prefetch) && db.tweets == old(db.tweets)
  {
    ghost var s0 := StoreOf(db, bus);
    jobs := [];
    var i := 0;
    while i < |ps|
      invariant 0 <= i <= |ps|
      invariant db.Valid() && bus.Valid()
      invariant ReviewedUpTo(StoreOf(db, bus), s0, ps, i, jobs, jobId, exchange, queue, now, savedAt, serialize)
      invariant bus.settled == old(bus.settled) && bus.prefetch == old(bus.prefetch) && db.tweets == old(db.tweets)
    {
      ReviewStep(StoreOf(db, bus), s0, ps, i, jobs, jobId, exchange, queue, now, savedAt, serialize);
      var own := CreateSyncProfilesTweetsProfileJobs(db, bus, ps[i].userid, ps[i].joinedDate, now, jobId,
                                                     exchange, queue, savedAt(ps[i].id.value), serialize);
      jobs := jobs + own;
      i := i + 1;
    }
  }

  /** No lookup of an active stored profile fails. */
  predicate NoLookupFails(before: map<int, TwitterProfile>, lookup: UsernameLookup) {
    forall k | k in before && before[k].active :: !Fails(lookup(before[k].userid))
  }

  /** `after` holds the same profiles as `before`, the active ones synced
      and the others as they were. */
  predicate SyncApplied(before: map<int, TwitterProfile>, after: map<int, TwitterProfile>, lookup: UsernameLookup)
    requires NoLookupFails(before, lookup)
  {
    after.Keys == before.Keys
    && forall k | k in before ::
      after[k] == if before[k].active then Synced(before[k], lookup(before[k].userid)) else before[k]
  }

  /** `found` holds exactly the syncs of the active stored profiles the
      lookup finds: each found profile is active, carries its current
      username and is the sync of its stored row; no such row is missing. */
  predicate FoundAfterSync(before: map<int, TwitterProfile>, found: seq<TwitterProfile>, lookup: UsernameLookup) {
    (forall q | q in found ::
       q.active && lookup(q.userid) == Ok(q.username)
       && q.id.Some? && q.id.value in before && before[q.id.value].active
       && q == Synced(before[q.id.value], lookup(q.userid)) && ValidDate(q.joinedDate))
    && (forall k | k in before && before[k].active && lookup(before[k].userid).Ok? ::
          Synced(before[k], lookup(before[k].userid)) in found)
  }

  /** The sync of an active listing that no lookup fails on: the active
      profiles are synced and the others kept. */
  lemma {:induction false} SyncOutcome(before: map<int, TwitterProfile>, listed: seq<TwitterProfile>, lookup: UsernameLookup)
    requires forall k | k in before :: before[k].id == Some(k)
    requires forall k | k in before && before[k].active :: before[k] in listed
    requires forall i | 0 <= i < |listed| ::
      listed[i].id.Some? && listed[i].id.value in before && before[listed[i].id.value] == listed[i]
      && listed[i].active && !Fails(lookup(listed[i].userid))
    requires forall i, j | 0 <= i < j < |listed| :: listed[i].id != listed[j].id
    ensures NoLookupFails(before, lookup)
    ensures SyncApplied(before, before + SyncedRows(listed, lookup), lookup)
  {
    var rows := SyncedRows(listed, lookup);
    SyncedRowsOwn(listed, lookup);
    forall k | k in rows
      ensures k in before
    {
      SyncedRowsKeys(listed, lookup, k);
    }
    UnionWithin(before, rows);
    forall k | k in before && before[k].active
      ensures !Fails(lookup(before[k].userid))
      ensures k in rows && rows[k] == Synced(before[k], lookup(before[k].userid))
    {
      var i :| 0 <= i < |listed| && listed[i] == before[k];
      assert listed[i].id.value == k;
    }
    forall k | k in before && !before[k].active
      ensures k !in rows
    {
      if k in rows {
        SyncedRowsKeys(listed, lookup, k);
      }
    }
  }

  /** A profile found by that sync is the sync of an active stored row,
      found by the lookup. */
  lemma {:induction false} SyncFoundOne(before: map<int, TwitterProfile>, listed: seq<TwitterProfile>, lookup: UsernameLookup,
                     q: TwitterProfile)
    requires forall i | 0 <= i < |listed| ::
      listed[i].id.Some? && listed[i].id.value in before && before[listed[i].id.value] == listed[i]
      && listed[i].active && ValidDate(listed[i].joinedDate) && !Fails(lookup(listed[i].userid))
    requires q in ActiveAfterSync(listed, lookup)
    ensures q.active && lookup(q.userid) == Ok(q.username)
    ensures q.id.Some? && q.id.value in before && before[q.id.value].active
    ensures q == Synced(before[q.id.value], lookup(q.userid)) && ValidDate(q.joinedDate)
  {
    ActiveAfterSyncOrigin(listed, lookup, q);
    var i :| 0 <= i < |listed| && q == Synced(listed[i], lookup(listed[i].userid));
  }

  /** The profiles found by that sync: each is the sync of an active stored
      row, found by the lookup. */
  lemma {:induction false} SyncFoundOrigin(before: map<int, TwitterProfile>, listed: seq<TwitterProfile>, lookup: UsernameLookup)
    requires forall i | 0 <= i < |listed| ::
      listed[i].id.Some? && listed[i].id.value in before && before[listed[i].id.value] == listed[i]
      && listed[i].active && ValidDate(listed[i].joinedDate) && !Fails(lookup(listed[i].userid))
    ensures forall q | q in ActiveAfterSync(listed, lookup) ::
      q.active && lookup(q.userid) == Ok(q.username)
      && q.id.Some? && q.id.value in before && before[q.id.value].active
      && q == Synced(before[q.id.value], lookup(q.userid)) && ValidDate(q.joinedDate)
  {
    forall q | q in ActiveAfterSync(listed, lookup)
      ensures q.active && lookup(q.userid) == Ok(q.username)
      ensures q.id.Some? && q.id.value in before && before[q.id.value].active
      ensures q == Synced(before[q.id.value], lookup(q.userid)) && ValidDate(q.joinedDate)
    {
      SyncFoundOne(before, listed, lookup, q);
    }
  }

  /** Every active stored row the lookup finds is among the profiles the
      sync found, as its sync. */
  lemma {:induction false} SyncFoundAll(before: map<int, TwitterProfile>, listed: seq<TwitterProfile>, lookup: UsernameLookup)
    requires forall k | k in before && before[k].active :: before[k] in listed
    requires forall i | 0 <= i < |listed| :: !Fails(lookup(listed[i].userid))
    ensures forall k | k in before && before[k].active && lookup(before[k].userid).Ok? ::
      Synced(before[k], lookup(before[k].userid)) in ActiveAfterSync(listed, lookup)
  {
    forall k | k in before && before[k].active && lookup(before[k].userid).Ok?
      ensures Synced(before[k], lookup(before[k].userid)) in ActiveAfterSync(listed, lookup)
    {
      assert before[k] in listed;
      var i :| 0 <= i < |listed| && listed[i] == before[k];
      ActiveAfterSyncFinds(listed, lookup, i);
    }
  }

  /** A failing lookup on the listing is a failing lookup on an active
      stored profile. */
  lemma {:induction false} SyncFailure(before: map<int, TwitterProfile>, listed: seq<TwitterProfile>, lookup: UsernameLookup)
    requires forall k | k in before :: before[k] in listed <==> before[k].active
    requires forall i | 0 <= i < |listed| ::
      listed[i].id.Some? && listed[i].id.value in before && before[listed[i].id.value] == listed[i]
    requires FirstFailure(listed, lookup) < |listed|
    ensures !NoLookupFails(before, lookup)
  {
    var n := FirstFailure(listed, lookup);
    var k := listed[n].id.value;
    assert before[k] in listed;
  }

  /** What a listing of the active profiles that no lookup fails on says
      about each listed profile. */
  lemma {:induction false} ListedActive(before: map<int, TwitterProfile>, listed: seq<TwitterProfile>, lookup: UsernameLookup)
    requires forall k | k in before :: ValidDate(before[k].joinedDate)
    requires forall p | p in listed :: p.id.Some? && p.id.value in before && before[p.id.value] == p && Listed(p, Some(true))
    requires FirstFailure(listed, lookup) == |listed|
    ensures forall i | 0 <= i < |listed| ::
      listed[i].id.Some? && listed[i].id.value in before && before[listed[i].id.value] == listed[i]
      && listed[i].active && ValidDate(listed[i].joinedDate) && !Fails(lookup(listed[i].userid))
  {
    forall i | 0 <= i < |listed|
      ensures listed[i].id.Some? && listed[i].id.value in before && before[listed[i].id.value] == listed[i]
      ensures listed[i].active && ValidDate(listed[i].joinedDate)
    {
      assert listed[i] in listed;
      var k := listed[i].id.value;
      assert k in before;
      assert ValidDate(before[k].joinedDate);
    }
  }

  /** List the active profiles and sync them, saving each. */
  method SyncListedProfiles(db: Database, lookup: UsernameLookup) returns (r: Result<seq<TwitterProfile>, UsernameError>)
    requires db.Valid()
    requires forall k | k in db.profiles :: ValidDate(db.profiles[k].joinedDate)
    modifies db
    ensures db.Valid()
    ensures r.Ok? <==> NoLookupFails(old(db.profiles), lookup)
    ensures r.Err? ==> r.error == ApiFailure
    ensures r.Ok? ==> FoundAfterSync(old(db.profiles), r.value, lookup)
    ensures r.Ok? ==> SyncApplied(old(db.profiles), db.profiles, lookup)
    ensures db.tweets == old(db.tweets) && db.historic == old(db.historic)
  {
    var listed := db.ListProfiles(Some(true));
    ghost var before := db.profiles;
    r := SyncProfilesActive(db, listed, lookup);
    if r.Err? {
      SyncFailure(before, listed, lookup);
      return;
    }
    assert listed[..|listed|] == listed;
    ListedActive(before, listed, lookup);
    SyncOutcome(before, listed, lookup);
    SyncFoundOrigin(before, listed, lookup);
    SyncFoundAll(before, listed, lookup);
  }

  /** The historic rows after a commit of the sync: the stored rows, and
      one new row per review job, its own, created at its profile's save
      reading. */
  predicate ReviewCommitted(historic: map<string, JobHistoric>, historic0: map<string, JobHistoric>,
                            ps: seq<TwitterProfile>, toTs: int, jobId: (string, nat) -> string, savedAt: int -> Reading)
    requires forall i | 0 <= i < |ps| :: ps[i].id.Some? && ValidDate(ps[i].joinedDate)
  {
    historic.Keys == historic0.Keys + JobIds(AllReviewJobs(ps, toTs, jobId))
    && (forall id | id in historic0 :: historic[id] == historic0[id])
    && forall i, j | 0 <= i < |ps| && j in ReviewJobsOf(ps[i], toTs, jobId) ::
         j.jobId in historic && historic[j.jobId] == HistoricRow(j, savedAt(ps[i].id.value))
  }

  /** Fresh job ids make the review rows exactly one new row per job. */
  lemma {:induction false} ReviewCommit(historic0: map<string, JobHistoric>, ps: seq<TwitterProfile>, toTs: int,
                     jobId: (string, nat) -> string, savedAt: int -> Reading)
    requires forall i | 0 <= i < |ps| :: ps[i].id.Some? && ValidDate(ps[i].joinedDate)
    requires FreshJobIds(historic0, AllReviewJobs(ps, toTs, jobId))
    ensures ReviewCommitted(historic0 + ReviewRows(ps, toTs, jobId, savedAt), historic0, ps, toTs, jobId, savedAt)
  {
    var all := AllReviewJobs(ps, toTs, jobId);
    var rows := ReviewRows(ps, toTs, jobId, savedAt);
    ReviewRowsOwn(ps, toTs, jobId, savedAt);
    FreshRows(historic0, rows, all);
  }

  /** `run_task_syncprofilestweets`: in one session, list the active
      profiles and sync them (saving each); then, with one clock reading
      `now`, enqueue the review jobs of each profile still active, from its
      joined date up to `now` (the `save_jobs` of the profile with id `k`
      reading the clock as `savedAt(k)`); then commit. `r` holds the
      profiles whose jobs were enqueued. A failing lookup raises before any
      job is enqueued, and the session rolls back the syncs saved so far.
      The commit fails when a job id repeats or is already stored: then
      every row the task wrote is rolled back, while its messages stay
      published. */
  method RunTaskSyncProfilesTweets(db: Database, bus: AMQPClient, lookup: UsernameLookup, jobId: (string, nat) -> string,
                                   exchange: string, queue: QueueConfig, now: int, savedAt: int -> Reading,
                                   serialize: Job -> string)
    returns (r: Result<seq<TwitterProfile>, UsernameError>, jobs: seq<Job>, committed: bool)
    requires db.Valid() && bus.Valid()
    requires forall k | k in db.profiles :: ValidDate(db.profiles[k].joinedDate)
    modifies db, bus
    ensures db.Valid() && bus.Valid()
    ensures r.Ok? <==> NoLookupFails(old(db.profiles), lookup)
    ensures r.Err? ==> r.error == ApiFailure && jobs == [] && StoreOf(db, bus) == old(StoreOf(db, bus))
    ensures r.Ok? ==> FoundAfterSync(old(db.profiles), r.value, lookup)
    ensures r.Ok? ==> jobs == AllReviewJobs(r.value, now, jobId)
    ensures r.Ok? ==>
      (bus.published == old(bus.published)
         + Published(ExchangeFor(exchange), queue.name, queue.persistent, JobPayloads(jobs, serialize))
       && bus.exchanges == (if r.value == [] then old(bus.exchanges) else old(bus.exchanges)[exchange := ExchangeFor(exchange)]))
    ensures committed <==> r.Ok? && FreshJobIds(old(db.historic), jobs)
    ensures !committed ==> db.historic == old(db.historic) && db.profiles == old(db.profiles)
    ensures committed ==> SyncApplied(old(db.profiles), db.profiles, lookup)
    ensures committed ==> ReviewCommitted(db.historic, old(db.historic), r.value, now, jobId, savedAt)
    ensures bus.settled == old(bus.settled) && bus.prefetch == old(bus.prefetch)
    ensures db.tweets == old(db.tweets)
  {
    var profiles0, historic0 := db.profiles, db.historic;
    r := SyncListedProfiles(db, lookup);
    if r.Err? {
      db.Rollback(profiles0, historic0);
      return r, [], false;
    }
    jobs := EnqueueReviews(db, bus, r.value, jobId, exchange, queue, now, savedAt, serialize);
    assert r.value[..|r.value|] == r.value;
    committed := FreshJobIds(historic0, jobs);
    if committed {
      ReviewCommit(historic0, r.value, now, jobId, savedAt);
    } else {
      db.Rollback(profiles0, historic0);
    }
  }
}
