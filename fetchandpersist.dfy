/** The fetch-and-persist worker of the older pipeline
    (twitterscraper/controllers/fetchandpersist.py): a job names a profile
    and a time window; the worker fetches the tweets of that window and
    stores them one by one, each committed or rolled back on its own. */
module FetchAndPersist {
  import opened Wrappers
  import opened Domain
  import opened Jobs
  import opened Settings
  import opened Persistence
  import opened Databus
  import opened TwitterService
  import opened JobsController

  /** The tweet ids of a list of rows. */
  function IdsOf(ts: seq<TwitterTweet>): set<string> {
    set i | 0 <= i < |ts| :: ts[i].tweetId
  }

  lemma IdsOfConcat(a: seq<TwitterTweet>, b: seq<TwitterTweet>)
    ensures IdsOf(a + b) == IdsOf(a) + IdsOf(b)
  {
    var ab := a + b;
    forall id | id in IdsOf(a + b)
      ensures id in IdsOf(a) + IdsOf(b)
    {
      var i :| 0 <= i < |ab| && ab[i].tweetId == id;
      if i >= |a| {
        assert b[i - |a|].tweetId == id;
      }
    }
    forall id | id in IdsOf(b)
      ensures id in IdsOf(a + b)
    {
      var i :| 0 <= i < |b| && b[i].tweetId == id;
      assert ab[|a| + i].tweetId == id;
    }
    forall id | id in IdsOf(a)
      ensures id in IdsOf(a + b)
    {
      var i :| 0 <= i < |a| && a[i].tweetId == id;
      assert ab[i].tweetId == id;
    }
  }

  /** `tweet.profile = profile`: the tweet now belongs to that profile. */
  function Attach(t: TwitterTweet, p: TwitterProfile): (r: TwitterTweet)
    requires p.id.Some?
  {
    t.(profileId := p.id.value, profile := Some(p))
  }

  function AttachAll(ts: seq<TwitterTweet>, p: TwitterProfile): (r: seq<TwitterTweet>)
    requires p.id.Some?
    ensures |r| == |ts|
    ensures forall i | 0 <= i < |ts| :: r[i] == Attach(ts[i], p)
  {
    seq(|ts|, i requires 0 <= i < |ts| => Attach(ts[i], p))
  }

  /** The tweets of `ts`, tried in order, that the tweets table accepts when
      it already holds the ids `known`: a tweet is stored unless its id is
      already stored or was accepted earlier in the list. */
  function Accepted(known: set<string>, ts: seq<TwitterTweet>): (r: seq<TwitterTweet>)
    ensures |r| <= |ts|
    decreases |ts|
  {
    if ts == [] then []
    else
      var r := Accepted(known, ts[..|ts| - 1]);
      var t := ts[|ts| - 1];
      if t.tweetId in known || t.tweetId in IdsOf(r) then r else r + [t]
  }

  /** Trying one more tweet: it is accepted iff its id is new. */
  lemma AcceptedSnoc(known: set<string>, ts: seq<TwitterTweet>, t: TwitterTweet)
    ensures Accepted(known, ts + [t]) ==
      if t.tweetId in known || t.tweetId in IdsOf(Accepted(known, ts)) then Accepted(known, ts)
      else Accepted(known, ts) + [t]
  {
    assert (ts + [t])[..|ts|] == ts;
  }

  /** The accepted tweets come from the input, in input order, carry ids
      that were not stored, and never share an id. */
  lemma {:induction false} AcceptedFresh(known: set<string>, ts: seq<TwitterTweet>)
    ensures forall i | 0 <= i < |Accepted(known, ts)| ::
      Accepted(known, ts)[i] in ts && Accepted(known, ts)[i].tweetId !in known
    ensures forall i, j | 0 <= i < j < |Accepted(known, ts)| :: Accepted(known, ts)[i].tweetId != Accepted(known, ts)[j].tweetId
    decreases |ts|
  {
    if ts != [] {
      var init := ts[..|ts| - 1];
      var t := ts[|ts| - 1];
      AcceptedFresh(known, init);
      assert ts == init + [t];
      AcceptedSnoc(known, init, t);
      var r := Accepted(known, init);
      assert forall i | 0 <= i < |r| :: r[i].tweetId in IdsOf(r);
    }
  }

  /** After the run every input id is stored: it was there already or its
      first tweet was accepted. */
  lemma {:induction false} AcceptedCovers(known: set<string>, ts: seq<TwitterTweet>)
    ensures forall i | 0 <= i < |ts| :: ts[i].tweetId in known || ts[i].tweetId in IdsOf(Accepted(known, ts))
    decreases |ts|
  {
    if ts != [] {
      var init := ts[..|ts| - 1];
      var t := ts[|ts| - 1];
      AcceptedCovers(known, init);
      assert ts == init + [t];
      AcceptedSnoc(known, init, t);
      var r := Accepted(known, init);
      IdsOfSnoc(r, t);
      assert forall i | 0 <= i < |init| :: init[i] == ts[i];
    }
  }

  /** Trying one more tweet after the accepted ones were appended to the
      stored rows: it is accepted iff its id is not among those rows. */
  lemma AcceptedStep(stored: seq<TwitterTweet>, tried: seq<TwitterTweet>, t: TwitterTweet)
    ensures var current := stored + Accepted(IdsOf(stored), tried);
      Accepted(IdsOf(stored), tried + [t]) ==
        if t.tweetId in IdsOf(current) then Accepted(IdsOf(stored), tried)
        else Accepted(IdsOf(stored), tried) + [t]
  {
    IdsOfConcat(stored, Accepted(IdsOf(stored), tried));
    AcceptedSnoc(IdsOf(stored), tried, t);
  }

  lemma IdsOfSnoc(r: seq<TwitterTweet>, t: TwitterTweet)
    ensures IdsOf(r + [t]) == IdsOf(r) + {t.tweetId}
  {
    IdsOfConcat(r, [t]);
    assert [t][0] == t;
  }

  /** What one run of the callback reports: tweets persisted and tweets
      whose save failed. */
  datatype PersistReport = PersistReport(persisted: nat, failed: nat)

  datatype CallbackError = ProfileLookupFailed(query: QueryError) | FetchFailed(fetch: NitterError)

  /** The tweet search of the worker's Nitter client for a username and a
      window `[from, to)`: the tweets found, or the error it raises. The
      pagination behind it is `TwitterService.NitterGetTweetsInRange`. */
  type TweetSearch = (string, int, int) -> Result<seq<TwitterTweet>, NitterError>

  /** `enqueue_fetchandpersist_jobs`: `enqueue_jobs` on the configured
      exchange, routed by the fetch-and-persist queue's name, with its
      persistence flag. */
  method EnqueueFetchAndPersistJobs(db: Database, bus: AMQPClient, jobs: seq<Job>, exchange: string,
                                    queue: QueueConfig, now: int, serialize: Job -> string)
    requires db.Valid() && bus.Valid() && now > 0
    modifies db, bus
    ensures db.Valid() && bus.Valid()
    ensures bus.published == old(bus.published)
      + Published(ExchangeFor(exchange), queue.name, queue.persistent, JobPayloads(jobs, serialize))
    ensures bus.exchanges == old(bus.exchanges)[exchange := ExchangeFor(exchange)]
    ensures bus.settled == old(bus.settled) && bus.prefetch == old(bus.prefetch)
    ensures db.historic == old(db.historic) + HistoricRows(jobs, now)
    ensures db.profiles == old(db.profiles) && db.tweets == old(db.tweets)
  {
    EnqueueJobs(db, bus, jobs, exchange, queue.name, queue.persistent, now, serialize);
  }

  /** `save_profile_last_scan_timestamp`: the one profile with that userid
      gets the given checkpoint, whether it is later or earlier than the
      stored one; a lookup that does not find exactly one profile raises
      and changes nothing. */
  method SaveProfileLastScanTimestamp(db: Database, userid: string, timestamp: int)
    returns (r: Result<TwitterProfile, QueryError>)
    requires db.Valid()
    modifies db
    ensures db.Valid()
    ensures r.Err? <==> |old(db.ProfileKeys(userid))| != 1
    ensures r.Err? ==> db.profiles == old(db.profiles)
    ensures r.Ok? ==>
      (r.value.id.Some? && old(db.ProfileKeys(userid)) == {r.value.id.value}
       && r.value == old(db.profiles)[r.value.id.value].(lastScanTimestamp := Some(timestamp))
       && db.profiles == old(db.profiles)[r.value.id.value := r.value])
    ensures db.tweets == old(db.tweets) && db.historic == old(db.historic)
  {
    var profile := db.GetProfileByUserid(userid);
    if profile.Err? {
      return Err(profile.error);
    }
    var updated := profile.value.(lastScanTimestamp := Some(timestamp));
    db.SaveProfile(updated);
    return Ok(updated);
  }

  /** `_fetchandpersist_job_callback`: look the job's profile up (`get_profile_by`,
      which selects every profile when the job's userid is empty), fetch its
      tweets in the job's window, then try each tweet in order, attached to
      the profile: a save that violates the tweets table's constraints is
      rolled back and counted as failed, and the next tweet is still tried.
      The job is finalized afterwards, failures or not. A failed lookup or
      fetch raises before anything is stored or finalized. */
  method FetchAndPersistCallback(db: Database, job: Job, search: TweetSearch, now: int)
    returns (r: Result<PersistReport, CallbackError>)
    requires db.Valid()
    modifies db
    ensures db.Valid()
    ensures db.profiles == old(db.profiles)
    ensures (r.Err? && r.error.ProfileLookupFailed?) <==> |old(db.SelectedKeys(job.userid))| != 1
    ensures r.Err? && r.error.ProfileLookupFailed? ==>
      (r.error.query == NoResultFound <==> old(db.SelectedKeys(job.userid)) == {})
    ensures r.Err? ==> db.tweets == old(db.tweets) && db.historic == old(db.historic)
    ensures r.Err? && r.error.FetchFailed? ==>
      (|old(db.SelectedKeys(job.userid))| == 1
       && forall k | k in old(db.SelectedKeys(job.userid)) ::
            search(old(db.profiles)[k].username, job.fromTimestamp, job.toTimestamp) == Err(r.error.fetch))
    ensures r.Ok? ==>
      (|old(db.SelectedKeys(job.userid))| == 1
       && forall k | k in old(db.SelectedKeys(job.userid)) ::
        PersistedRun(old(db.tweets), db.tweets, old(db.profiles)[k], search(old(db.profiles)[k].username, job.fromTimestamp, job.toTimestamp), r.value))
    ensures r.Ok? ==>
      (job.jobId in old(db.historic) ==>
         db.historic == old(db.historic)[job.jobId := old(db.historic)[job.jobId].(timestampFinalized := Some(now))])
    ensures r.Ok? ==> (job.jobId !in old(db.historic) ==> db.historic == old(db.historic))
  {
    var found := db.GetProfileBy(job.userid);
    if found.Err? {
      return Err(ProfileLookupFailed(found.error));
    }
    var profile := found.value;
    var fetched := search(profile.username, job.fromTimestamp, job.toTimestamp);
    if fetched.Err? {
      assert old(db.SelectedKeys(job.userid)) == {profile.id.value} && old(db.profiles)[profile.id.value] == profile;
      assert |{profile.id.value}| == 1;
      r := Err(FetchFailed(fetched.error));
      assert search(old(db.profiles)[profile.id.value].username, job.fromTimestamp, job.toTimestamp) == Err(r.error.fetch);
      return;
    }
    var tweets := fetched.value;
    var failed := PersistTweets(db, tweets, profile);
    ghost var persisted := db.tweets;
    var _ := SetJobFinalized(db, job.jobId, now);
    r := Ok(PersistReport(|tweets| - failed, failed));
    assert old(db.profiles)[profile.id.value] == profile && old(db.SelectedKeys(job.userid)) == {profile.id.value};
    assert |{profile.id.value}| == 1;
    assert PersistedRun(old(db.tweets), persisted, profile, fetched, r.value);
  }

  /** The tweets the table has accepted after the first `n` of `tweets`
      were tried, attached to `profile`, on top of the rows `stored`. */
  function Tried(stored: seq<TwitterTweet>, tweets: seq<TwitterTweet>, profile: TwitterProfile, n: nat): seq<TwitterTweet>
    requires profile.id.Some? && n <= |tweets|
  {
    Accepted(IdsOf(stored), AttachAll(tweets, profile)[..n])
  }

  /** Trying tweet `n`: it is accepted iff its id is not among the rows. */
  lemma TriedStep(stored: seq<TwitterTweet>, tweets: seq<TwitterTweet>, profile: TwitterProfile, n: nat)
    requires profile.id.Some? && n < |tweets|
    ensures var t := Attach(tweets[n], profile);
      Tried(stored, tweets, profile, n + 1) ==
        if t.tweetId in IdsOf(stored + Tried(stored, tweets, profile, n)) then Tried(stored, tweets, profile, n)
        else Tried(stored, tweets, profile, n) + [t]
  {
    var attached := AttachAll(tweets, profile);
    assert attached[..n + 1] == attached[..n] + [attached[n]];
    AcceptedStep(stored, attached[..n], attached[n]);
  }

  /** One pass of the callback's loop: tweet `n`, attached to the profile,
      is saved and committed, or refused and rolled back. */
  method PersistNext(db: Database, tweets: seq<TwitterTweet>, profile: TwitterProfile, n: nat,
                     ghost stored: seq<TwitterTweet>)
    returns (ok: bool)
    requires db.Valid() && profile.id.Some? && profile.id.value in db.profiles && n < |tweets|
    requires db.tweets == stored + Tried(stored, tweets, profile, n)
    modifies db
    ensures db.Valid()
    ensures db.profiles == old(db.profiles) && db.historic == old(db.historic)
    ensures db.tweets == stored + Tried(stored, tweets, profile, n + 1)
    ensures |Tried(stored, tweets, profile, n + 1)| == |Tried(stored, tweets, profile, n)| + if ok then 1 else 0
  {
    var tweet := Attach(tweets[n], profile);
    TriedStep(stored, tweets, profile, n);
    assert db.TweetIds() == IdsOf(db.tweets);
    ok := db.InsertTweet(tweet);
  }

  /** The loop of the callback: each tweet, attached to the profile, is
      saved on its own; a save the table refuses is rolled back and counted,
      and the next tweet is still tried. */
  method PersistTweets(db: Database, tweets: seq<TwitterTweet>, profile: TwitterProfile) returns (failed: nat)
    requires db.Valid() && profile.id.Some? && profile.id.value in db.profiles
    modifies db
    ensures db.Valid()
    ensures db.profiles == old(db.profiles) && db.historic == old(db.historic)
    ensures db.tweets == old(db.tweets) + Accepted(IdsOf(old(db.tweets)), AttachAll(tweets, profile))
    ensures failed == |tweets| - |Accepted(IdsOf(old(db.tweets)), AttachAll(tweets, profile))|
  {
    failed := 0;
    ghost var stored := db.tweets;
    var i := 0;
    while i < |tweets|
      invariant 0 <= i <= |tweets|
      invariant db.Valid()
      invariant db.profiles == old(db.profiles) && db.historic == old(db.historic)
      invariant db.tweets == stored + Tried(stored, tweets, profile, i)
      invariant failed == i - |Tried(stored, tweets, profile, i)|
    {
      var ok := PersistNext(db, tweets, profile, i, stored);
      if !ok {
        failed := failed + 1;
      }
      i := i + 1;
    }
    assert AttachAll(tweets, profile)[..i] == AttachAll(tweets, profile);
  }

  /** One completed callback run for `profile`: the fetched tweets were
      tried in order against the stored ones, the accepted ones appended,
      and the report counts them and the rest. */
  ghost predicate PersistedRun(before: seq<TwitterTweet>, after: seq<TwitterTweet>, profile: TwitterProfile,
                               fetched: Result<seq<TwitterTweet>, NitterError>, report: PersistReport)
  {
    profile.id.Some? && fetched.Ok?
    && var accepted := Accepted(IdsOf(before), AttachAll(fetched.value, profile));
    after == before + accepted
    && report.persisted == |accepted|
    && report.failed == |fetched.value| - |accepted|
  }

  /** The counts of a run add up to the tweets fetched, and after the run
      every fetched id is stored: a failure only ever means the id was
      already there. */
  lemma {:induction false} PersistedRunCovers(before: seq<TwitterTweet>, after: seq<TwitterTweet>, profile: TwitterProfile,
                                              fetched: Result<seq<TwitterTweet>, NitterError>, report: PersistReport)
    requires PersistedRun(before, after, profile, fetched, report)
    ensures report.persisted + report.failed == |fetched.value|
    ensures forall i | 0 <= i < |fetched.value| :: fetched.value[i].tweetId in IdsOf(after)
    ensures forall i | |before| <= i < |after| :: after[i].tweetId !in IdsOf(before)
    ensures forall i, j | |before| <= i < j < |after| :: after[i].tweetId != after[j].tweetId
  {
    var attached := AttachAll(fetched.value, profile);
    var accepted := Accepted(IdsOf(before), attached);
    IdsOfConcat(before, accepted);
    AcceptedCovers(IdsOf(before), attached);
    AcceptedFresh(IdsOf(before), attached);
    assert forall i | |before| <= i < |after| :: after[i] == accepted[i - |before|];
    forall i | 0 <= i < |fetched.value|
      ensures fetched.value[i].tweetId in IdsOf(after)
    {
      assert attached[i].tweetId == fetched.value[i].tweetId;
    }
  }

  /** The first three tweets of the scenario: the repeated id is refused. */
  lemma RepeatedIdPrefix(a: TwitterTweet, b: TwitterTweet, c: TwitterTweet)
    requires c.tweetId == a.tweetId && a.tweetId != b.tweetId
    ensures Accepted({}, [a, b, c]) == [a, b]
    ensures IdsOf([a, b]) == {a.tweetId, b.tweetId}
  {
    var t0: seq<TwitterTweet> := [];
    AcceptedSnoc({}, t0, a);
    IdsOfSnoc(t0, a);
    assert t0 + [a] == [a];
    AcceptedSnoc({}, [a], b);
    IdsOfSnoc([a], b);
    assert [a] + [b] == [a, b];
    AcceptedSnoc({}, [a, b], c);
    assert [a, b] + [c] == [a, b, c];
  }

  /** Five tweets for one profile, the third repeating the first one's id,
      on an empty table: exactly one save fails and each of the four
      distinct ids is stored once. */
  lemma RepeatedIdScenario(a: TwitterTweet, b: TwitterTweet, c: TwitterTweet, d: TwitterTweet, e: TwitterTweet)
    requires c.tweetId == a.tweetId
    requires a.tweetId != b.tweetId && a.tweetId != d.tweetId && a.tweetId != e.tweetId
    requires b.tweetId != d.tweetId && b.tweetId != e.tweetId && d.tweetId != e.tweetId
    ensures Accepted({}, [a, b, c, d, e]) == [a, b, d, e]
    ensures |[a, b, c, d, e]| - |Accepted({}, [a, b, c, d, e])| == 1
  {
    RepeatedIdPrefix(a, b, c);
    AcceptedSnoc({}, [a, b, c], d);
    assert [a, b, c] + [d] == [a, b, c, d];
    IdsOfSnoc([a, b], d);
    assert [a, b] + [d] == [a, b, d];
    AcceptedSnoc({}, [a, b, c, d], e);
    assert [a, b, c, d] + [e] == [a, b, c, d, e];
    assert [a, b, d] + [e] == [a, b, d, e];
  }
}
