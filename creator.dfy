/** The initial job creation of the older pipeline
    (twitterscraper/controllers/creator.py): a newly tracked profile gets
    one fetch-and-persist job per day since it joined, and its scan
    checkpoint is set to the end of the last day. */
module Creator {
  import opened Wrappers
  import opened Domain
  import opened Jobs
  import opened Settings
  import opened Persistence
  import opened Databus
  import opened JobsController
  import opened FetchAndPersist
  import opened DayRanges

  /** Windows that follow each other without gap or overlap. */
  predicate Chained(jobs: seq<Job>) {
    (forall i | 0 <= i < |jobs| :: jobs[i].fromTimestamp <= jobs[i].toTimestamp)
    && (forall i | 0 <= i < |jobs| - 1 :: jobs[i].toTimestamp == jobs[i + 1].fromTimestamp)
  }

  /** Chained job windows cover their span exactly once: an instant lies in
      some job's window iff it lies between the first start and the last
      end, and then in only one. */
  lemma {:induction false} ChainedWindowsCoverOnce(jobs: seq<Job>, t: int)
    requires |jobs| > 0 && Chained(jobs)
    ensures (exists i | 0 <= i < |jobs| :: InWindow(jobs[i], t))
      <==> jobs[0].fromTimestamp <= t < jobs[|jobs| - 1].toTimestamp
    ensures forall i, j | 0 <= i < j < |jobs| :: !(InWindow(jobs[i], t) && InWindow(jobs[j], t))
    decreases |jobs|
  {
    if |jobs| > 1 {
      var rest := jobs[1..];
      assert forall i | 0 <= i < |rest| :: rest[i] == jobs[i + 1];
      assert Chained(rest);
      ChainedWindowsCoverOnce(rest, t);
      ChainedStartsAfter(jobs);
      if exists i | 0 <= i < |jobs| :: InWindow(jobs[i], t) {
        var i :| 0 <= i < |jobs| && InWindow(jobs[i], t);
        if i > 0 {
          assert InWindow(rest[i - 1], t);
        }
      }
      if jobs[1].fromTimestamp <= t < jobs[|jobs| - 1].toTimestamp {
        var i :| 0 <= i < |rest| && InWindow(rest[i], t);
        assert InWindow(jobs[i + 1], t);
      }
    }
  }

  /** In chained windows every later window starts no earlier than an
      earlier one ends. */
  lemma {:induction false} ChainedStartsAfter(jobs: seq<Job>)
    requires Chained(jobs)
    ensures forall i, j | 0 <= i < j < |jobs| :: jobs[i].toTimestamp <= jobs[j].fromTimestamp
    decreases |jobs|
  {
    if |jobs| > 1 {
      var init := jobs[..|jobs| - 1];
      assert forall i | 0 <= i < |init| :: init[i] == jobs[i];
      assert Chained(init);
      ChainedStartsAfter(init);
      forall i, j | 0 <= i < j < |jobs|
        ensures jobs[i].toTimestamp <= jobs[j].fromTimestamp
      {
        if j == |jobs| - 1 && i < j - 1 {
          assert init[i].toTimestamp <= init[j - 1].fromTimestamp;
        }
      }
    }
  }

  /** The checkpoint the creator saves: the last day's end, when some day
      was processed and that end is truthy (non-zero). */
  function Checkpoint(days: seq<DayWindow>): (c: Option<int>)
    ensures c.Some? <==> |days| > 0 && days[|days| - 1].toTs != 0
    ensures c.Some? ==> c.value == days[|days| - 1].toTs
  {
    if |days| > 0 && days[|days| - 1].toTs != 0 then Some(days[|days| - 1].toTs) else None
  }

  /** The loop of `_create_profile_initial_fetchandpersist_jobs`: one
      fetch-and-persist job per day, in the order of the days, and the
      `to_ts` of the last day as the checkpoint candidate. */
  method DayJobs(profile: TwitterProfile, days: seq<DayWindow>, uuids: seq<string>)
    returns (jobs: seq<Job>, toTs: Option<int>)
    requires |uuids| == |days|
    ensures |jobs| == |days|
    ensures forall i | 0 <= i < |days| ::
      jobs[i] == Job(FetchAndPersist, uuids[i], profile.userid, days[i].fromTs, days[i].toTs)
    ensures toTs == if days == [] then None else Some(days[|days| - 1].toTs)
  {
    toTs := None;
    jobs := [];
    var i := 0;
    while i < |days|
      invariant 0 <= i <= |days|
      invariant |jobs| == i
      invariant forall k | 0 <= k < i ::
        jobs[k] == Job(FetchAndPersist, uuids[k], profile.userid, days[k].fromTs, days[k].toTs)
      invariant toTs == if i == 0 then None else Some(days[i - 1].toTs)
    {
      jobs := jobs + [Job(FetchAndPersist, uuids[i], profile.userid, days[i].fromTs, days[i].toTs)];
      toTs := Some(days[i].toTs);
      i := i + 1;
    }
  }

  /** `_create_profile_initial_fetchandpersist_jobs`, run as `run_creator`
      runs it, inside one session: build one fetch-and-persist job per day
      with the profile's userid, that day's window and a fresh uuid
      (`uuids`, in order); enqueue them only when there is at least one;
      save the checkpoint when the last `to_ts` is truthy. `days` are the
      windows the helpers `daterange` and `day_to_timestamps` produce,
      which are not part of this model. The source runs the two steps
      concurrently; here enqueueing comes first. The session commits
      (`committed`) unless the checkpoint's lookup raised or a job id
      repeats or is already stored; otherwise every row written is rolled
      back, while the published messages stay published. */
  method CreateProfileInitialJobs(db: Database, bus: AMQPClient, profile: TwitterProfile, days: seq<DayWindow>,
                                  uuids: seq<string>, exchange: string, queue: QueueConfig, now: int,
                                  serialize: Job -> string)
    returns (jobs: seq<Job>, saved: Option<Result<TwitterProfile, QueryError>>, committed: bool)
    requires db.Valid() && bus.Valid() && now > 0 && |uuids| == |days|
    modifies db, bus
    ensures db.Valid() && bus.Valid()
    ensures |jobs| == |days|
    ensures forall i | 0 <= i < |days| ::
      jobs[i] == Job(FetchAndPersist, uuids[i], profile.userid, days[i].fromTs, days[i].toTs)
    ensures days == [] ==> (bus.published == old(bus.published) && bus.exchanges == old(bus.exchanges))
    ensures days != [] ==>
      bus.published == old(bus.published)
        + Published(ExchangeFor(exchange), queue.name, queue.persistent, JobPayloads(jobs, serialize))
    ensures saved.Some? <==> Checkpoint(days).Some?
    ensures saved.Some? && saved.value.Err? ==> |old(db.ProfileKeys(profile.userid))| != 1
    ensures committed <==> FreshJobIds(old(db.historic), jobs) && !(saved.Some? && saved.value.Err?)
    ensures !committed ==> db.profiles == old(db.profiles) && db.historic == old(db.historic)
    ensures committed ==> db.historic == old(db.historic) + HistoricRows(jobs, now)
    ensures committed && saved.None? ==> db.profiles == old(db.profiles)
    ensures committed && saved.Some? ==>
      (saved.value.value.id.Some?
       && var k := saved.value.value.id.value;
       old(db.ProfileKeys(profile.userid)) == {k}
       && db.profiles == old(db.profiles)[k := old(db.profiles)[k].(lastScanTimestamp := Checkpoint(days))])
    ensures db.tweets == old(db.tweets)
  {
    var profiles0, historic0 := db.profiles, db.historic;
    var toTs;
    jobs, toTs := DayJobs(profile, days, uuids);
    if jobs != [] {
      EnqueueFetchAndPersistJobs(db, bus, jobs, exchange, queue, now, serialize);
    }
    saved := None;
    if toTs.Some? && toTs.value != 0 {
      var r := SaveProfileLastScanTimestamp(db, profile.userid, toTs.value);
      saved := Some(r);
    }
    committed := FreshJobIds(historic0, jobs) && !(saved.Some? && saved.value.Err?);
    if !committed {
      db.Rollback(profiles0, historic0);
    }
  }
}
