/** The task handlers of the job manager (twitterscraper/jobmanager/tasks.py):
    the initial scan, which stores every tweet of a window, and the re-scan,
    which reconciles the tweets online against the stored ones. */
module TaskHandlers {
  import opened Wrappers
  import opened Dates
  import opened Tables
  import opened TaskModels
  import opened TweetRepository
  import Jobmanager

  /** A handler registration: the task name and the `retry` flag. */
  datatype Registration = Registration(name: string, retry: bool)

  /** The two handlers `setup_tasks` registers, both with `retry=True`. */
  const Registrations: seq<Registration> :=
    [Registration(ClassName(InitialScanClass), true), Registration(ClassName(ReScanClass), true)]

  /** Since `new_task` files a re-scan under the initial scan's name, no
      deferred task ever reaches the re-scan handler; every scan task
      reaches the initial-scan one. */
  lemma ReScanHandlerUnreachable(t: Task)
    ensures Jobmanager.TaskName(t) != Some(Registrations[1].name)
    ensures t.IsScan() ==> Jobmanager.TaskName(t) == Some(Registrations[0].name) && Registrations[0].retry
  {
    Jobmanager.TaskNameCases(t);
  }

  /** The names `setup_tasks` registers. */
  const RegisteredNames: set<string> := {Registrations[0].name, Registrations[1].name}

  /** `setup_tasks`: registers the two handlers on the job manager's app. */
  method SetupTasks(jm: Jobmanager.Jobmanager)
    modifies jm
    ensures jm.handlers == old(jm.handlers) + RegisteredNames && jm.deferred == old(jm.deferred)
  {
    jm.Register(Registrations[0].name);
    jm.Register(Registrations[1].name);
  }

  /** Once the handlers are set up, a task finds its handler exactly when it
      is a scan: an archival task is named `ArchiveorgTweetV1`, which has no
      handler, so `new_task` raises on it. */
  lemma {:induction false} HandledIffScan(t: Task)
    ensures (Jobmanager.TaskName(t).Some? && Jobmanager.TaskName(t).value in RegisteredNames) <==> t.IsScan()
    ensures t.ArchiveorgTask? ==>
      Jobmanager.TaskName(t) == Some("ArchiveorgTweetV1") && "ArchiveorgTweetV1" !in RegisteredNames
  {
    Jobmanager.TaskNameCases(t);
  }

  /** What makes a handler raise. */
  datatype TaskError =
    | DateOverflow(error: DateError)   // `date_to_exclusive` past 9999-12-31
    | ProfileMissing(profileId: int)   // `user.username` on None

  /** `pnytter.get_user_tweets_list(username, filter_from, filter_to)`, an
      oracle: the tweets the scraper finds. */
  type Fetcher = (string, Date, Date) -> seq<FetchedTweet>

  // ---------------------------------------------------------------------
  // Reconciliation

  function IdsOf(fetched: seq<FetchedTweet>): (ids: set<int>)
    ensures forall id :: id in ids <==> exists i | 0 <= i < |fetched| :: fetched[i].tweetId == id
  {
    set i | 0 <= i < |fetched| :: fetched[i].tweetId
  }

  function PersistedIds(rows: set<Tweet>): (ids: set<int>)
    ensures forall id :: id in ids <==> exists t | t in rows :: t.tweetid == id
  {
    set t | t in rows :: t.tweetid
  }

  /** The ids detected as deleted and as new: stored but no longer online,
      and online but not stored. */
  function Reconcile(online: set<int>, persisted: set<int>): (r: (set<int>, set<int>))
    ensures r.0 <= persisted && r.0 !! online
    ensures r.1 <= online && r.1 !! persisted
    ensures r.0 !! r.1
    ensures r.0 + (persisted * online) == persisted && r.1 + (persisted * online) == online
  {
    (persisted - online, online - persisted)
  }

  /** The fetched tweets whose id is in `ids`, in fetch order. */
  function NewTweets(fetched: seq<FetchedTweet>, ids: set<int>): (r: seq<FetchedTweet>)
    ensures |r| <= |fetched|
    ensures forall i | 0 <= i < |r| :: r[i].tweetId in ids && r[i] in fetched
    ensures forall i | 0 <= i < |fetched| && fetched[i].tweetId in ids :: fetched[i] in r
    decreases |fetched|
  {
    if fetched == [] then []
    else
      var rest := NewTweets(fetched[..|fetched| - 1], ids);
      var last := fetched[|fetched| - 1];
      assert forall i | 0 <= i < |fetched| - 1 :: fetched[i] == fetched[..|fetched| - 1][i];
      if last.tweetId in ids then rest + [last] else rest
  }

  /** The filter keeps the order: filtering a concatenation concatenates
      the filtered parts. */
  lemma {:induction false} NewTweetsAppend(a: seq<FetchedTweet>, b: seq<FetchedTweet>, ids: set<int>)
    ensures NewTweets(a + b, ids) == NewTweets(a, ids) + NewTweets(b, ids)
    decreases |b|
  {
    if b == [] {
      assert a + b == a;
    } else {
      assert (a + b)[..|a + b| - 1] == a + b[..|b| - 1];
      NewTweetsAppend(a, b[..|b| - 1], ids);
    }
  }

  /** The ids the re-scan writes are exactly the new ids. */
  lemma NewTweetsIds(fetched: seq<FetchedTweet>, persisted: set<int>)
    ensures IdsOf(NewTweets(fetched, Reconcile(IdsOf(fetched), persisted).1)) == Reconcile(IdsOf(fetched), persisted).1
  {
    var newIds := Reconcile(IdsOf(fetched), persisted).1;
    var r := NewTweets(fetched, newIds);
    forall id | id in newIds ensures id in IdsOf(r) {
      var i :| 0 <= i < |fetched| && fetched[i].tweetId == id;
      var j :| 0 <= j < |r| && r[j] == fetched[i];
    }
  }

  // ---------------------------------------------------------------------
  // The effect of a re-scan on the tweets table

  /** A deletion mark and an insert of other ids can go in either order:
      the two writes `asyncio.gather` runs side by side do not interfere. */
  lemma MarkDeletedInsertCommute(tweets: map<TweetKey, Tweet>, row: Tweet, userid: int, ids: set<int>, now: DateTime)
    requires !(row.userid == userid && row.tweetid in ids)
    ensures MarkDeleted(InsertIfAbsent(tweets, row), userid, ids, now) == InsertIfAbsent(MarkDeleted(tweets, userid, ids, now), row)
  {
    var lhs := MarkDeleted(InsertIfAbsent(tweets, row), userid, ids, now);
    var rhs := InsertIfAbsent(MarkDeleted(tweets, userid, ids, now), row);
    assert lhs.Keys == rhs.Keys;
    forall k | k in lhs ensures lhs[k] == rhs[k] { }
  }

  lemma {:induction false} WriteAndMarkCommute(tweets: map<TweetKey, Tweet>, userid: int, written: seq<FetchedTweet>, ids: set<int>, now: DateTime)
    requires IdsOf(written) !! ids
    ensures MarkDeleted(InsertAll(tweets, userid, written), userid, ids, now)
      == InsertAll(MarkDeleted(tweets, userid, ids, now), userid, written)
    decreases |written|
  {
    if written != [] {
      var init := written[..|written| - 1];
      assert IdsOf(init) <= IdsOf(written) by {
        forall id | id in IdsOf(init) ensures id in IdsOf(written) {
          var i :| 0 <= i < |init| && init[i].tweetId == id;
          assert written[i] == init[i];
        }
      }
      WriteAndMarkCommute(tweets, userid, init, ids, now);
      MarkDeletedInsertCommute(InsertAll(tweets, userid, init), RowOf(userid, written[|written| - 1]), userid, ids, now);
    }
  }

  /** The tweets table after a re-scan of `userid` that found `fetched`
      online where `persisted` ids were stored. */
  function ReScanEffect(tweets: map<TweetKey, Tweet>, userid: int, fetched: seq<FetchedTweet>, persisted: set<int>, now: DateTime): map<TweetKey, Tweet> {
    var (deleted, added) := Reconcile(IdsOf(fetched), persisted);
    var written := InsertAll(tweets, userid, NewTweets(fetched, added));
    if deleted == {} then written else MarkDeleted(written, userid, deleted, now)
  }

  /** The insert of a re-scan adds exactly the rows of the new ids. */
  lemma ReScanInsertedKeys(tweets: map<TweetKey, Tweet>, userid: int, fetched: seq<FetchedTweet>, persisted: set<int>)
    ensures var added := Reconcile(IdsOf(fetched), persisted).1;
      InsertAll(tweets, userid, NewTweets(fetched, added)).Keys == tweets.Keys + (set id | id in added :: (id, userid))
  {
    var added := Reconcile(IdsOf(fetched), persisted).1;
    var newTweets := NewTweets(fetched, added);
    var written := InsertAll(tweets, userid, newTweets);
    InsertAllEffect(tweets, userid, newTweets);
    NewTweetsIds(fetched, persisted);
    forall k | k in written
      ensures k in tweets.Keys + (set id | id in added :: (id, userid))
    {
      if k !in tweets {
        var i :| 0 <= i < |newTweets| && k == (newTweets[i].tweetId, userid);
        assert newTweets[i].tweetId in IdsOf(newTweets);
      }
    }
    forall id | id in added
      ensures (id, userid) in written
    {
      var i :| 0 <= i < |newTweets| && newTweets[i].tweetId == id;
    }
  }

  /** Row by row: a new id gets stored, a vanished stored id gets the mark
      `now`, an id both stored and online is neither written nor marked,
      and rows of other users are untouched. */
  lemma ReScanRows(tweets: map<TweetKey, Tweet>, userid: int, fetched: seq<FetchedTweet>, persisted: set<int>, now: DateTime)
    requires forall id | id in persisted :: (id, userid) in tweets
    ensures var after := ReScanEffect(tweets, userid, fetched, persisted, now);
      after.Keys == tweets.Keys + (set id | id in IdsOf(fetched) - persisted :: (id, userid))
      && (forall id | id in persisted - IdsOf(fetched) ::
            after[(id, userid)] == tweets[(id, userid)].(deletionDetectedOn := Some(now)))
      && (forall id | id in persisted * IdsOf(fetched) :: after[(id, userid)] == tweets[(id, userid)])
      && (forall k | k in tweets && k.1 != userid :: after[k] == tweets[k])
  {
    var (deleted, added) := Reconcile(IdsOf(fetched), persisted);
    var newTweets := NewTweets(fetched, added);
    var written := InsertAll(tweets, userid, newTweets);
    InsertAllEffect(tweets, userid, newTweets);
    MarkDeletedEffect(written, userid, deleted, now);
    ReScanInsertedKeys(tweets, userid, fetched, persisted);
    var after := ReScanEffect(tweets, userid, fetched, persisted, now);
    assert after.Keys == written.Keys;
    forall id | id in persisted * IdsOf(fetched) ensures after[(id, userid)] == tweets[(id, userid)] {
      assert id !in deleted;
    }
  }

  // ---------------------------------------------------------------------
  // The handlers

  /** `task_InitialScanProfileTweetsV1`: looks the profile up, fetches its
      tweets in `[date_from, date_to_inc + 1 day)` and writes them all under
      the profile's userid. The window end is computed before the
      profile's username is read, so an overflowing window raises first. */
  method InitialScan(repo: Repository, fetch: Fetcher, t: Task, chunkSize: nat) returns (r: Result<(), TaskError>)
    requires t.IsScan() && ValidDate(t.dateFrom) && ValidDate(t.dateToInc)
    requires repo.Valid() && chunkSize > 0
    modifies repo
    ensures repo.Valid() && repo.profiles == old(repo.profiles)
    ensures r.Err? ==> repo.tweets == old(repo.tweets)
    ensures r == Err(DateOverflow(OverflowError)) <==> t.dateToInc == Date(MaxYear, 12, 31)
    ensures r == Err(ProfileMissing(t.profileId)) <==>
      t.dateToInc != Date(MaxYear, 12, 31) && t.profileId !in repo.profiles
    ensures r.Ok? ==> (t.profileId in repo.profiles && DateToExclusive(t).Ok?
      && repo.tweets == InsertAll(old(repo.tweets), t.profileId,
           fetch(repo.profiles[t.profileId].username, t.dateFrom, DateToExclusive(t).value)))
  {
    var user := repo.GetProfileById(t.profileId);
    var dateToExc := DateToExclusive(t);
    if dateToExc.Err? {
      return Err(DateOverflow(dateToExc.error));
    }
    if user.None? {
      return Err(ProfileMissing(t.profileId));
    }
    var tweets := fetch(user.value.username, t.dateFrom, dateToExc.value);
    var written := repo.WriteTweets(user.value.userid, tweets, chunkSize);
    r := Ok(());
  }

  /** `task_ReScanProfileTweetsV1`: fetches the window online and reads the
      stored tweets of the same window; writes the tweets whose id is new
      and marks the stored ids no longer online as deleted at `now`. */
  method ReScan(repo: Repository, fetch: Fetcher, t: Task, chunkSize: nat, now: DateTime) returns (r: Result<(), TaskError>)
    requires t.IsScan() && ValidDate(t.dateFrom) && ValidDate(t.dateToInc)
    requires repo.Valid() && chunkSize > 0
    modifies repo
    ensures repo.Valid() && repo.profiles == old(repo.profiles)
    ensures r.Err? ==> repo.tweets == old(repo.tweets)
    ensures r == Err(DateOverflow(OverflowError)) <==> t.dateToInc == Date(MaxYear, 12, 31)
    ensures r == Err(ProfileMissing(t.profileId)) <==>
      t.dateToInc != Date(MaxYear, 12, 31) && t.profileId !in repo.profiles
    ensures r.Ok? ==> (t.profileId in repo.profiles && DateToExclusive(t).Ok?
      && repo.tweets == ReScanEffect(old(repo.tweets), t.profileId,
           fetch(repo.profiles[t.profileId].username, t.dateFrom, DateToExclusive(t).value),
           PersistedIds(old(repo.GetTweetsByProfileAndDaterange(t.profileId, t.dateFrom, DateToExclusive(t).value))),
           now))
  {
    var user := repo.GetProfileById(t.profileId);
    var dateToExc := DateToExclusive(t);
    if dateToExc.Err? {
      return Err(DateOverflow(dateToExc.error));
    }
    if user.None? {
      return Err(ProfileMissing(t.profileId));
    }
    var userid := user.value.userid;
    var tweetsNow := fetch(user.value.username, t.dateFrom, dateToExc.value);
    var tweetsPersisted := repo.GetTweetsByProfileAndDaterange(userid, t.dateFrom, dateToExc.value);

    var idsNow := IdsOf(tweetsNow);
    var idsPersisted := PersistedIds(tweetsPersisted);
    var (deleted, added) := Reconcile(idsNow, idsPersisted);
    var newTweets := NewTweets(tweetsNow, added);

    var written := repo.WriteTweets(userid, newTweets, chunkSize);
    repo.UpdateDeletedTweets(userid, deleted, now);
    r := Ok(());
  }

  /** The persisted ids of a re-scan are exactly the tweet ids of this
      user's rows published in the window. */
  lemma PersistedIdsAreRows(repo: Repository, userid: int, dateFrom: Date, dateToExc: Date)
    requires repo.Valid()
    ensures forall id | id in PersistedIds(repo.GetTweetsByProfileAndDaterange(userid, dateFrom, dateToExc)) ::
      (id, userid) in repo.tweets
    ensures forall k | k in repo.tweets && k.1 == userid
        && AtOrAfter(repo.tweets[k].publishedOn, dateFrom) && BeforeDate(repo.tweets[k].publishedOn, dateToExc) ::
      k.0 in PersistedIds(repo.GetTweetsByProfileAndDaterange(userid, dateFrom, dateToExc))
  {
    forall k | k in repo.tweets && k.1 == userid
        && AtOrAfter(repo.tweets[k].publishedOn, dateFrom) && BeforeDate(repo.tweets[k].publishedOn, dateToExc)
      ensures k.0 in PersistedIds(repo.GetTweetsByProfileAndDaterange(userid, dateFrom, dateToExc))
    {
      assert KeyOf(repo.tweets[k]) == k;
      assert repo.tweets[k] in repo.GetTweetsByProfileAndDaterange(userid, dateFrom, dateToExc);
    }
    forall id | id in PersistedIds(repo.GetTweetsByProfileAndDaterange(userid, dateFrom, dateToExc))
      ensures (id, userid) in repo.tweets
    {
      var row :| row in repo.GetTweetsByProfileAndDaterange(userid, dateFrom, dateToExc) && row.tweetid == id;
      var k :| k in repo.tweets && repo.tweets[k] == row;
      assert KeyOf(row) == k;
    }
  }
}
