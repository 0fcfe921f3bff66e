/** The persisted-review worker of the older pipeline
    (twitterscraper/controllers/persistedreview.py): a job names a profile
    and a time window; the worker compares the stored, not yet deleted
    tweets of that window with those found online now, confirms each
    suspected deletion tweet by tweet against every mirror, and stamps the
    reviewed tweets. */
module PersistedReview {
  import opened Wrappers
  import opened Domain
  import opened Jobs
  import opened Settings
  import opened Persistence
  import opened Databus
  import opened TwitterService
  import opened JobsController
  import opened FetchAndPersist

  /** `enqueue_persistedreview_jobs`: `enqueue_jobs` on the configured
      exchange, routed by the persisted-review queue's name, with its
      persistence flag. */
  method EnqueuePersistedReviewJobs(db: Database, bus: AMQPClient, jobs: seq<Job>, exchange: string,
                                    queue: QueueConfig, now: int, serialize: Job -> string)
    requires db.Valid() && bus.Valid() && now > 0
    modifies db, bus
    ensures db.Valid() && bus.Valid()
    ensures bus.published == old(bus.published)
      + Published(ExchangeFor(exchange), queue.name, queue.persistent, JobPayloads(jobs, serialize))
    ensures bus.exchanges == old(bus.exchanges)[exchange := ExchangeFor(exchange)]
    ensures bus.settled == old(bus.settled) && bus.prefetch == old(bus.prefetch)
    ensures db.historic == old(db.historic) + HistoricRows(jobs, now)
    ensures db.profiles == old(db.profiles) && db.tweets == old(db.tweets)
  {
    EnqueueJobs(db, bus, jobs, exchange, queue.name, queue.persistent, now, serialize);
  }

  /* ---------------- Differences ---------------- */

  /** `_tweets_list_to_dict`: the tweets keyed by id, each id mapped to a
      tweet of the list that has it. */
  function TweetsById(ts: seq<TwitterTweet>): (m: map<string, TwitterTweet>)
    ensures m.Keys == IdsOf(ts)
    ensures forall id | id in m :: m[id].tweetId == id && m[id] in ts
    decreases |ts|
  {
    if ts == [] then map[]
    else
      var init := ts[..|ts| - 1];
      var t := ts[|ts| - 1];
      assert ts == init + [t];
      IdsOfSnoc(init, t);
      TweetsById(init)[t.tweetId := t]
  }

  /** A later tweet with the same id replaces an earlier one: the tweet kept
      for an id is the last one that has it. */
  lemma {:induction false} TweetsByIdLastWins(ts: seq<TwitterTweet>, i: nat)
    requires i < |ts|
    requires forall k | i < k < |ts| :: ts[k].tweetId != ts[i].tweetId
    ensures TweetsById(ts)[ts[i].tweetId] == ts[i]
    decreases |ts|
  {
    var init := ts[..|ts| - 1];
    if i < |ts| - 1 {
      assert init[i] == ts[i];
      TweetsByIdLastWins(init, i);
    }
  }

  /** The stored tweets a review compares: those of the username in
      `[fromTs, toTs)` with no deletion mark. */
  function ReviewFilter(username: string, fromTs: int, toTs: int): TweetsFilter {
    NoFilter.(activeTweets := Some(true), username := Some(username), fromTs := Some(fromTs), toTs := Some(toTs))
  }

  /** Every mirror, asked in turn, says the tweet is not found. */
  predicate ReportedMissing(order: seq<string>, id: string, respond: Responder) {
    forall k | 0 <= k < |order| :: ProbeAnswer(order[k], id, respond) == Ok(false)
  }

  /** The ids that a review marks deleted, given the stored and the online
      tweets: stored, not found online, and reported missing by every
      mirror. */
  ghost function RemovedIds(persisted: seq<TwitterTweet>, online: seq<TwitterTweet>, order: seq<string>, respond: Responder): (ids: set<string>)
    ensures ids <= IdsOf(persisted) - IdsOf(online)
  {
    set id | id in IdsOf(persisted) - IdsOf(online) && ReportedMissing(order, id, respond)
  }

  datatype ReviewError = SearchFailed(search: NitterError) | CheckFailed(check: HttpError)

  lemma InhabitedIds(s: set<string>)
    requires s != {}
    ensures exists x :: x in s
  {
    if forall x :: x !in s {
      assert false;
    }
  }

  /** Iterating over a set: each element once, in an order left open. */
  method Enumerate(s: set<string>) returns (xs: seq<string>)
    ensures IsEnumeration(xs, s)
  {
    xs := [];
    var todo := s;
    while todo != {}
      invariant todo <= s
      invariant forall i, j | 0 <= i < j < |xs| :: xs[i] != xs[j]
      invariant forall x :: x in xs <==> x in s && x !in todo
      decreases |todo|
    {
      InhabitedIds(todo);
      var x: string :| x in todo;
      xs := xs + [x];
      todo := todo - {x};
    }
  }

  /** `[persisted_tweets[tweet_id] for tweet_id in ids]`. */
  method Lookup(byId: map<string, TwitterTweet>, ids: set<string>) returns (ts: seq<TwitterTweet>)
    requires ids <= byId.Keys
    requires forall id | id in byId :: byId[id].tweetId == id
    ensures IdsOf(ts) == ids
    ensures forall i | 0 <= i < |ts| :: ts[i] == byId[ts[i].tweetId]
    ensures forall i, j | 0 <= i < j < |ts| :: ts[i].tweetId != ts[j].tweetId
  {
    var order := Enumerate(ids);
    ts := [];
    var i := 0;
    while i < |order|
      invariant 0 <= i <= |order|
      invariant |ts| == i
      invariant forall k | 0 <= k < i :: ts[k] == byId[order[k]] && ts[k].tweetId == order[k]
      invariant IdsOf(ts) == set k | 0 <= k < i :: order[k]
    {
      IdsOfSnoc(ts, byId[order[i]]);
      ts := ts + [byId[order[i]]];
      i := i + 1;
    }
    assert forall x :: x in ids <==> x in order;
  }

  /** `_get_tweets_differences`: with no stored active tweets in the window
      the answer is two empty lists and nothing is searched; otherwise the
      window is searched online (replies included), the stored ids not
      found online become candidates, the candidates (if any) are
      re-checked one by one on every mirror, and the stored tweets split
      into those still there and those removed. `searched` says whether the
      online search ran. */
  method GetTweetsDifferences(db: Database, client: NitterClient, order: seq<string>, username: string,
                              fromTs: int, toTs: int, search: TweetSearch, respond: Responder)
    returns (r: Result<(seq<TwitterTweet>, seq<TwitterTweet>), ReviewError>, searched: bool)
    requires db.Valid() && ValidClient(client) && IsEnumeration(order, client.unique)
    ensures var persisted := Select(db.profiles, db.tweets, ReviewFilter(username, fromTs, toTs));
      searched <==> persisted != []
    ensures !searched ==> r == Ok(([], []))
    ensures r.Err? && r.error.SearchFailed? ==> search(username, fromTs, toTs) == Err(r.error.search)
    ensures r.Ok? && searched ==>
      (var persisted := Select(db.profiles, db.tweets, ReviewFilter(username, fromTs, toTs));
       var online := search(username, fromTs, toTs);
       var byId := TweetsById(persisted);
       var (remaining, removed) := r.value;
       online.Ok?
       && IdsOf(removed) == RemovedIds(persisted, online.value, order, respond)
       && IdsOf(remaining) == IdsOf(persisted) - IdsOf(removed)
       && (forall i | 0 <= i < |removed| :: removed[i].tweetId in byId && removed[i] == byId[removed[i].tweetId])
       && (forall i | 0 <= i < |remaining| :: remaining[i].tweetId in byId && remaining[i] == byId[remaining[i].tweetId])
       && (forall i, j | 0 <= i < j < |removed| :: removed[i].tweetId != removed[j].tweetId)
       && (forall i, j | 0 <= i < j < |remaining| :: remaining[i].tweetId != remaining[j].tweetId))
  {
    var persisted := db.GetTweets(ReviewFilter(username, fromTs, toTs));
    if persisted == [] {
      return Ok(([], [])), false;
    }
    searched := true;
    var online := search(username, fromTs, toTs);
    if online.Err? {
      return Err(SearchFailed(online.error)), true;
    }
    var byId := TweetsById(persisted);
    var onlineIds := TweetsById(online.value).Keys;
    var removedIds := byId.Keys - onlineIds;
    ghost var expected := RemovedIds(persisted, online.value, order, respond);
    if removedIds != {} {
      var candidates := Enumerate(removedIds);
      var checked := GetTweetsRemoved(client, order, candidates, respond);
      if checked.Err? {
        return Err(CheckFailed(checked.error)), true;
      }
      assert forall id :: id in candidates <==> id in removedIds;
      removedIds := checked.value;
    }
    assert removedIds == expected;
    var remaining := Lookup(byId, byId.Keys - removedIds);
    var removed := Lookup(byId, removedIds);
    r := Ok((remaining, removed));
  }

  /** The review partitions the stored tweets: every stored id is either
      still there or removed, never both, and a removed id was neither found
      online nor by any mirror. */
  lemma ReviewPartitions(persisted: seq<TwitterTweet>, online: seq<TwitterTweet>, order: seq<string>,
                         respond: Responder, remaining: seq<TwitterTweet>, removed: seq<TwitterTweet>)
    requires IdsOf(removed) == RemovedIds(persisted, online, order, respond)
    requires IdsOf(remaining) == IdsOf(persisted) - IdsOf(removed)
    ensures IdsOf(remaining) + IdsOf(removed) == IdsOf(persisted)
    ensures IdsOf(remaining) * IdsOf(removed) == {}
    ensures forall id | id in IdsOf(removed) :: id !in IdsOf(online) && ReportedMissing(order, id, respond)
    ensures forall id | id in IdsOf(persisted) - IdsOf(online) ::
      (id in IdsOf(remaining) <==> !ReportedMissing(order, id, respond))
    ensures IdsOf(persisted) <= IdsOf(online) ==> IdsOf(removed) == {}
  {
  }

  /* ---------------- Timestamps ---------------- */

  /** A row after the review: a removed tweet gets both marks, a remaining
      one the review mark, every other row stays. */
  function Reviewed(row: TwitterTweet, remaining: set<string>, removed: set<string>, now: int): (r: TwitterTweet)
    ensures r.tweetId == row.tweetId
    ensures row.tweetId in remaining + removed ==> r.lastReviewTimestamp == Some(now)
    ensures row.tweetId !in remaining + removed ==> r == row
    ensures r.deletionDetectedTimestamp == if row.tweetId in removed then Some(now) else row.deletionDetectedTimestamp
    ensures r.(lastReviewTimestamp := row.lastReviewTimestamp, deletionDetectedTimestamp := row.deletionDetectedTimestamp) == row
  {
    if row.tweetId in removed then row.(lastReviewTimestamp := Some(now), deletionDetectedTimestamp := Some(now))
    else if row.tweetId in remaining then row.(lastReviewTimestamp := Some(now))
    else row
  }

  /** Marking one more remaining tweet. */
  lemma MarkRemaining(row: TwitterTweet, remaining: set<string>, id: string, now: int)
    ensures MarkRow(Reviewed(row, remaining, {}, now), id, now, false) == Reviewed(row, remaining + {id}, {}, now)
  {
  }

  /** Marking one more removed tweet. */
  lemma MarkRemoved(row: TwitterTweet, remaining: set<string>, removed: set<string>, id: string, now: int)
    ensures MarkRow(Reviewed(row, remaining, removed, now), id, now, true) == Reviewed(row, remaining, removed + {id}, now)
  {
  }

  /** `_update_tweets_timestamps`: one clock reading `now`; each remaining
      tweet gets `last_review_timestamp = now`, each removed one also
      `deletion_detected_timestamp = now`, and all are saved. */
  method UpdateTweetsTimestamps(db: Database, remaining: seq<TwitterTweet>, removed: seq<TwitterTweet>, now: int)
    requires db.Valid()
    modifies db
    ensures db.Valid()
    ensures |db.tweets| == |old(db.tweets)|
    ensures forall i | 0 <= i < |db.tweets| ::
      db.tweets[i] == Reviewed(old(db.tweets)[i], IdsOf(remaining), IdsOf(removed), now)
    ensures db.profiles == old(db.profiles) && db.historic == old(db.historic)
  {
    var i := 0;
    while i < |remaining|
      invariant 0 <= i <= |remaining|
      invariant db.Valid() && |db.tweets| == |old(db.tweets)|
      invariant forall k | 0 <= k < |db.tweets| ::
        db.tweets[k] == Reviewed(old(db.tweets)[k], IdsOf(remaining[..i]), {}, now)
      invariant db.profiles == old(db.profiles) && db.historic == old(db.historic)
    {
      ghost var before := db.tweets;
      db.MarkTweet(remaining[i].tweetId, now, false);
      assert remaining[..i + 1] == remaining[..i] + [remaining[i]];
      IdsOfSnoc(remaining[..i], remaining[i]);
      forall k | 0 <= k < |db.tweets|
        ensures db.tweets[k] == Reviewed(old(db.tweets)[k], IdsOf(remaining[..i + 1]), {}, now)
      {
        MarkRemaining(old(db.tweets)[k], IdsOf(remaining[..i]), remaining[i].tweetId, now);
      }
      i := i + 1;
    }
    assert remaining[..i] == remaining;
    i := 0;
    while i < |removed|
      invariant 0 <= i <= |removed|
      invariant db.Valid() && |db.tweets| == |old(db.tweets)|
      invariant forall k | 0 <= k < |db.tweets| ::
        db.tweets[k] == Reviewed(old(db.tweets)[k], IdsOf(remaining), IdsOf(removed[..i]), now)
      invariant db.profiles == old(db.profiles) && db.historic == old(db.historic)
    {
      db.MarkTweet(removed[i].tweetId, now, true);
      assert removed[..i + 1] == removed[..i] + [removed[i]];
      IdsOfSnoc(removed[..i], removed[i]);
      forall k | 0 <= k < |db.tweets|
        ensures db.tweets[k] == Reviewed(old(db.tweets)[k], IdsOf(remaining), IdsOf(removed[..i + 1]), now)
      {
        MarkRemoved(old(db.tweets)[k], IdsOf(remaining), IdsOf(removed[..i]), removed[i].tweetId, now);
      }
      i := i + 1;
    }
    assert removed[..i] == removed;
  }

  /* ---------------- The callback ---------------- */

  datatype CallbackError = ProfileLookupFailed(query: QueryError) | ReviewFailed(review: ReviewError)

  /** `_persistedreview_job_callback`: look the job's profile up
      (`get_profile_by`, unfiltered for an empty userid), compute
      the differences for its username and the job's window, stamp the
      reviewed tweets (clock reading `reviewNow`), and after the session
      finalize the job (clock reading `finalNow`). A failed lookup, search
      or re-check raises before anything is written. */
  method PersistedReviewCallback(db: Database, job: Job, client: NitterClient, order: seq<string>,
                                 search: TweetSearch, respond: Responder, reviewNow: int, finalNow: int)
    returns (r: Result<(seq<TwitterTweet>, seq<TwitterTweet>), CallbackError>)
    requires db.Valid() && ValidClient(client) && IsEnumeration(order, client.unique)
    modifies db
    ensures db.Valid()
    ensures db.profiles == old(db.profiles)
    ensures (r.Err? && r.error.ProfileLookupFailed?) <==> |old(db.SelectedKeys(job.userid))| != 1
    ensures r.Err? ==> db.tweets == old(db.tweets) && db.historic == old(db.historic)
    ensures r.Ok? ==>
      (|old(db.SelectedKeys(job.userid))| == 1
       && forall k | k in old(db.SelectedKeys(job.userid)) ::
         (var persisted := Select(old(db.profiles), old(db.tweets),
                                  ReviewFilter(old(db.profiles)[k].username, job.fromTimestamp, job.toTimestamp));
          var (remaining, removed) := r.value;
          IdsOf(remaining) + IdsOf(removed) == IdsOf(persisted)
          && (persisted != [] ==>
                var online := search(old(db.profiles)[k].username, job.fromTimestamp, job.toTimestamp);
                online.Ok? && IdsOf(removed) == RemovedIds(persisted, online.value, order, respond))))
    ensures r.Ok? ==>
      (var (remaining, removed) := r.value;
       |db.tweets| == |old(db.tweets)|
       && forall i | 0 <= i < |db.tweets| ::
         db.tweets[i] == Reviewed(old(db.tweets)[i], IdsOf(remaining), IdsOf(removed), reviewNow))
    ensures r.Ok? ==>
      (job.jobId in old(db.historic) ==>
         db.historic == old(db.historic)[job.jobId := old(db.historic)[job.jobId].(timestampFinalized := Some(finalNow))])
    ensures r.Ok? ==> (job.jobId !in old(db.historic) ==> db.historic == old(db.historic))
  {
    var found := db.GetProfileBy(job.userid);
    if found.Err? {
      return Err(CallbackError.ProfileLookupFailed(found.error));
    }
    var profile := found.value;
    assert old(db.SelectedKeys(job.userid)) == {profile.id.value} && |{profile.id.value}| == 1;
    var diffs, searched := GetTweetsDifferences(db, client, order, profile.username, job.fromTimestamp,
                                                job.toTimestamp, search, respond);
    if diffs.Err? {
      return Err(ReviewFailed(diffs.error));
    }
    var (remaining, removed) := diffs.value;
    ghost var persisted := Select(db.profiles, db.tweets, ReviewFilter(profile.username, job.fromTimestamp, job.toTimestamp));
    assert IdsOf(remaining) + IdsOf(removed) == IdsOf(persisted);
    UpdateTweetsTimestamps(db, remaining, removed, reviewNow);
    var _ := SetJobFinalized(db, job.jobId, finalNow);
    r := Ok((remaining, removed));
  }

  /** After a review, the reviewed rows all carry the one review time; only
      the removed ones gain a deletion mark, and no row outside the review
      changes. */
  lemma ReviewStamps(row: TwitterTweet, remaining: set<string>, removed: set<string>, now: int)
    requires remaining * removed == {}
    ensures row.tweetId in remaining ==>
      Reviewed(row, remaining, removed, now) == row.(lastReviewTimestamp := Some(now))
    ensures row.tweetId in removed ==>
      Reviewed(row, remaining, removed, now) == row.(lastReviewTimestamp := Some(now), deletionDetectedTimestamp := Some(now))
    ensures row.tweetId !in remaining + removed ==> Reviewed(row, remaining, removed, now) == row
  {
    assert row.tweetId !in remaining * removed;
  }
}
