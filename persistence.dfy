/** The storage layer of the older pipeline
    (twitterscraper/services/persistence.py): the nested-session state
    machine, the filtered and batched tweet query, and the tables as
    in-memory collections. */
module Persistence {
  import opened Wrappers
  import opened Domain

  /* ---------------- Sessions ---------------- */

  /** What the outermost `session()` does to a database session. */
  datatype SessionEvent = Opened(id: nat) | Committed(id: nat) | RolledBack(id: nat) | Closed(id: nat)

  /** A log made of whole session lifetimes: each session is opened, then
      committed or rolled back, then closed, before the next one opens. */
  predicate Complete(ev: seq<SessionEvent>)
    decreases |ev|
  {
    ev == []
    || (|ev| >= 3 && Complete(ev[..|ev| - 3])
        && ev[|ev| - 3].Opened?
        && (ev[|ev| - 2] == Committed(ev[|ev| - 3].id) || ev[|ev| - 2] == RolledBack(ev[|ev| - 3].id))
        && ev[|ev| - 1] == Closed(ev[|ev| - 3].id))
  }

  /** The `_session_contextvar` and the sessions the outermost context
      managers open: `current` is the session in the context, `events` what
      happened to sessions so far. */
  class SessionContext {
    var current: Option<nat>
    var nextId: nat
    var events: seq<SessionEvent>

    /** Every finished session went through its whole lifetime; the one in
        the context, if any, has been opened and nothing else yet. */
    ghost predicate Valid()
      reads this
    {
      (current.None? && Complete(events))
      || (current.Some? && current.value < nextId && |events| > 0
          && Complete(events[..|events| - 1]) && events[|events| - 1] == Opened(current.value))
    }

    constructor ()
      ensures Valid() && current.None? && events == [] && nextId == 0
    {
      current := None;
      nextId := 0;
      events := [];
    }

    /** Entering `session()`: a session already in the context is handed
        out as it is; otherwise a new one is opened and put in the
        context. */
    method Enter() returns (session: nat, outermost: bool)
      requires Valid()
      modifies this
      ensures Valid()
      ensures outermost <==> old(current).None?
      ensures !outermost ==>
        (session == old(current).value && current == old(current)
         && events == old(events) && nextId == old(nextId))
      ensures outermost ==>
        (session == old(nextId) && current == Some(session)
         && nextId == old(nextId) + 1 && events == old(events) + [Opened(session)])
    {
      if current.Some? {
        return current.value, false;
      }
      session := nextId;
      nextId := nextId + 1;
      current := Some(session);
      events := events + [Opened(session)];
      assert events[..|events| - 1] == old(events);
      outermost := true;
    }

    /** Leaving `session()`, `raised` telling whether its body raised. An
        inner context manager does nothing (the exception, if any, goes on
        to the outer one); the outermost commits or rolls back, then closes
        the session and clears the context. */
    method Exit(session: nat, outermost: bool, raised: bool)
      requires Valid() && (outermost ==> current == Some(session))
      modifies this
      ensures Valid()
      ensures !outermost ==> current == old(current) && events == old(events) && nextId == old(nextId)
      ensures outermost ==>
        (current.None? && nextId == old(nextId)
         && events == old(events) + [if raised then RolledBack(session) else Committed(session), Closed(session)])
    {
      if !outermost {
        return;
      }
      var before := events;
      events := events + [if raised then RolledBack(session) else Committed(session), Closed(session)];
      assert events[..|events| - 3] == before[..|before| - 1];
      current := None;
    }
  }

  /** Two nested `session()` blocks: only the outer one commits or rolls
      back, once, and closes; the inner one's outcome changes nothing. */
  method NestedSessions(ctx: SessionContext, innerRaised: bool, outerRaised: bool)
    requires ctx.Valid() && ctx.current.None?
    modifies ctx
    ensures ctx.Valid() && ctx.current.None?
    ensures ctx.events == old(ctx.events)
      + [Opened(old(ctx.nextId)), if outerRaised then RolledBack(old(ctx.nextId)) else Committed(old(ctx.nextId)), Closed(old(ctx.nextId))]
  {
    var outer, outerFirst := ctx.Enter();
    var inner, innerFirst := ctx.Enter();
    assert inner == outer && !innerFirst;
    ctx.Exit(inner, innerFirst, innerRaised);
    ctx.Exit(outer, outerFirst, outerRaised);
  }

  /* ---------------- The tweet query ---------------- */

  /** The optional filters of `tweets_iterator`; None means "not
      filtered". */
  datatype TweetsFilter = TweetsFilter(
    activeProfiles: Option<bool>,
    activeTweets: Option<bool>,
    userid: Option<string>,
    username: Option<string>,
    fromTs: Option<int>,
    toTs: Option<int>,
    tweetIds: Option<seq<string>>)

  const NoFilter: TweetsFilter := TweetsFilter(None, None, None, None, None, None, None)

  /** A joined (tweet, profile) row passes the filter: `activeTweets` True
      keeps tweets not marked deleted and False keeps marked ones; the time
      window is `fromTs <= timestamp < toTs`. */
  predicate Matches(f: TweetsFilter, t: TwitterTweet, p: TwitterProfile) {
    (f.activeProfiles.None? || p.active == f.activeProfiles.value)
    && (f.activeTweets != Some(true) || t.deletionDetectedTimestamp.None?)
    && (f.activeTweets != Some(false) || t.deletionDetectedTimestamp.Some?)
    && (f.userid.None? || p.userid == f.userid.value)
    && (f.username.None? || p.username == f.username.value)
    && (f.fromTs.None? || t.timestamp >= f.fromTs.value)
    && (f.toTs.None? || t.timestamp < f.toTs.value)
    && (f.tweetIds.None? || t.tweetId in f.tweetIds.value)
  }

  /** The inner join keeps a tweet only with its profile. */
  predicate Selected(profiles: map<int, TwitterProfile>, f: TweetsFilter, t: TwitterTweet) {
    t.profileId in profiles && Matches(f, t, profiles[t.profileId])
  }

  /** `select(TwitterTweet).join(TwitterProfile)` with the filters, in
      storage order. */
  function Select(profiles: map<int, TwitterProfile>, tweets: seq<TwitterTweet>, f: TweetsFilter): (r: seq<TwitterTweet>)
    ensures |r| <= |tweets|
    ensures forall t :: t in r <==> t in tweets && Selected(profiles, f, t)
    decreases |tweets|
  {
    if tweets == [] then []
    else
      var rest := Select(profiles, tweets[..|tweets| - 1], f);
      var t := tweets[|tweets| - 1];
      assert tweets == tweets[..|tweets| - 1] + [t];
      if Selected(profiles, f, t) then rest + [t] else rest
  }

  /** The positions of `tweets` that the query selects, in increasing order. */
  ghost function SelectedPositions(profiles: map<int, TwitterProfile>, tweets: seq<TwitterTweet>, f: TweetsFilter): seq<nat>
    decreases |tweets|
  {
    if tweets == [] then []
    else
      var n := |tweets| - 1;
      SelectedPositions(profiles, tweets[..n], f) + (if Selected(profiles, f, tweets[n]) then [n] else [])
  }

  lemma {:induction false} PositionsIncrease(profiles: map<int, TwitterProfile>, tweets: seq<TwitterTweet>, f: TweetsFilter)
    ensures forall k | 0 <= k < |SelectedPositions(profiles, tweets, f)| :: SelectedPositions(profiles, tweets, f)[k] < |tweets|
    ensures forall k, l | 0 <= k < l < |SelectedPositions(profiles, tweets, f)| ::
      SelectedPositions(profiles, tweets, f)[k] < SelectedPositions(profiles, tweets, f)[l]
    decreases |tweets|
  {
    if tweets != [] {
      PositionsIncrease(profiles, tweets[..|tweets| - 1], f);
    }
  }

  lemma {:induction false} PositionsSelected(profiles: map<int, TwitterProfile>, tweets: seq<TwitterTweet>, f: TweetsFilter)
    ensures forall i | 0 <= i < |tweets| :: Selected(profiles, f, tweets[i]) <==> i in SelectedPositions(profiles, tweets, f)
    decreases |tweets|
  {
    if tweets != [] {
      var n := |tweets| - 1;
      PositionsSelected(profiles, tweets[..n], f);
      PositionsIncrease(profiles, tweets[..n], f);
      forall i | 0 <= i < n ensures tweets[i] == tweets[..n][i] { }
    }
  }

  lemma {:induction false} SelectAtPositions(profiles: map<int, TwitterProfile>, tweets: seq<TwitterTweet>, f: TweetsFilter)
    ensures |SelectedPositions(profiles, tweets, f)| == |Select(profiles, tweets, f)|
    ensures forall k | 0 <= k < |Select(profiles, tweets, f)| ::
      SelectedPositions(profiles, tweets, f)[k] < |tweets|
      && Select(profiles, tweets, f)[k] == tweets[SelectedPositions(profiles, tweets, f)[k]]
    decreases |tweets|
  {
    if tweets != [] {
      var n := |tweets| - 1;
      SelectAtPositions(profiles, tweets[..n], f);
      PositionsIncrease(profiles, tweets[..n], f);
      assert tweets == tweets[..n] + [tweets[n]];
      forall i | 0 <= i < n ensures tweets[i] == tweets[..n][i] { }
    }
  }

  /** The query keeps storage order: its result is the selected tweets at
      strictly increasing positions of `tweets`, every selected position
      included, so a tweet stored twice is returned twice. */
  lemma {:induction false} SelectInOrder(profiles: map<int, TwitterProfile>, tweets: seq<TwitterTweet>, f: TweetsFilter)
    returns (pos: seq<nat>)
    ensures |pos| == |Select(profiles, tweets, f)|
    ensures forall k | 0 <= k < |pos| :: pos[k] < |tweets| && Select(profiles, tweets, f)[k] == tweets[pos[k]]
    ensures forall k, l | 0 <= k < l < |pos| :: pos[k] < pos[l]
    ensures forall i | 0 <= i < |tweets| :: Selected(profiles, f, tweets[i]) <==> i in pos
  {
    pos := SelectedPositions(profiles, tweets, f);
    PositionsIncrease(profiles, tweets, f);
    PositionsSelected(profiles, tweets, f);
    SelectAtPositions(profiles, tweets, f);
  }

  /** When every stored tweet passes the filters, the query returns them
      all, as stored. */
  lemma {:induction false} SelectAllSelected(profiles: map<int, TwitterProfile>, tweets: seq<TwitterTweet>, f: TweetsFilter)
    requires forall i | 0 <= i < |tweets| :: Selected(profiles, f, tweets[i])
    ensures Select(profiles, tweets, f) == tweets
    decreases |tweets|
  {
    if tweets != [] {
      var n := |tweets| - 1;
      SelectAllSelected(profiles, tweets[..n], f);
      assert tweets == tweets[..n] + [tweets[n]];
    }
  }

  function WithActiveTweets(f: TweetsFilter, v: Option<bool>): TweetsFilter {
    f.(activeTweets := v)
  }

  /** The deletion-mark filter splits the unfiltered result: the active and
      the deleted tweets are disjoint and together are all of them. */
  lemma {:induction false} ActiveTweetsSplit(profiles: map<int, TwitterProfile>, tweets: seq<TwitterTweet>, f: TweetsFilter)
    requires f.activeTweets.None?
    ensures multiset(Select(profiles, tweets, WithActiveTweets(f, Some(true))))
      + multiset(Select(profiles, tweets, WithActiveTweets(f, Some(false))))
      == multiset(Select(profiles, tweets, f))
    decreases |tweets|
  {
    if tweets != [] {
      var rest, t := tweets[..|tweets| - 1], tweets[|tweets| - 1];
      var fa, fd := WithActiveTweets(f, Some(true)), WithActiveTweets(f, Some(false));
      ActiveTweetsSplit(profiles, rest, f);
      if !Selected(profiles, f, t) {
        assert !Selected(profiles, fa, t) && !Selected(profiles, fd, t);
      } else if t.deletionDetectedTimestamp.None? {
        assert Selected(profiles, fa, t) && !Selected(profiles, fd, t);
      } else {
        assert !Selected(profiles, fa, t) && Selected(profiles, fd, t);
      }
    }
  }

  /** Hence the counts add up, as the 3 + 2 = 5 of the storage layer's
      tests. */
  lemma ActiveTweetsCounts(profiles: map<int, TwitterProfile>, tweets: seq<TwitterTweet>, f: TweetsFilter)
    requires f.activeTweets.None?
    ensures |Select(profiles, tweets, WithActiveTweets(f, Some(true)))|
      + |Select(profiles, tweets, WithActiveTweets(f, Some(false)))|
      == |Select(profiles, tweets, f)|
  {
    ActiveTweetsSplit(profiles, tweets, f);
    assert |multiset(Select(profiles, tweets, f))| == |Select(profiles, tweets, f)|;
  }

  /** `result.partitions(size)`: consecutive batches of `size`, the last
      one possibly shorter, none empty. */
  function Partitions<T>(xs: seq<T>, size: nat): (bs: seq<seq<T>>)
    requires size > 0
    ensures forall k | 0 <= k < |bs| :: 0 < |bs[k]| <= size
    decreases |xs|
  {
    if xs == [] then []
    else if |xs| <= size then [xs]
    else [xs[..size]] + Partitions(xs[size..], size)
  }

  function Concat<T>(bs: seq<seq<T>>): seq<T>
    decreases |bs|
  {
    if bs == [] then [] else bs[0] + Concat(bs[1..])
  }

  lemma {:induction false} ConcatSnoc<T>(bs: seq<seq<T>>, b: seq<T>)
    ensures Concat(bs + [b]) == Concat(bs) + b
    decreases |bs|
  {
    if bs == [] {
      assert Concat([b]) == b + Concat([]);
    } else {
      assert (bs + [b])[1..] == bs[1..] + [b];
      ConcatSnoc(bs[1..], b);
    }
  }

  /** Batching loses, adds and reorders nothing. */
  lemma {:induction false} PartitionsConcat<T>(xs: seq<T>, size: nat)
    requires size > 0
    ensures Concat(Partitions(xs, size)) == xs
    decreases |xs|
  {
    if |xs| > size {
      PartitionsConcat(xs[size..], size);
      assert Partitions(xs, size)[1..] == Partitions(xs[size..], size);
      assert xs[..size] + xs[size..] == xs;
    } else if xs != [] {
      assert Concat([xs]) == xs + Concat([]);
    }
  }

  /** Every batch but the last is full. */
  lemma {:induction false} PartitionsFull<T>(xs: seq<T>, size: nat)
    requires size > 0
    ensures forall k | 0 <= k < |Partitions(xs, size)| - 1 :: |Partitions(xs, size)[k]| == size
    decreases |xs|
  {
    if |xs| > size {
      PartitionsFull(xs[size..], size);
      var bs := Partitions(xs, size);
      assert forall k | 1 <= k < |bs| :: bs[k] == Partitions(xs[size..], size)[k - 1];
    }
  }

  /** A count of `m` full batches' worth gives exactly `m` batches (50 rows
      in batches of 10 are read in 5 batches in the storage tests). */
  lemma {:induction false} PartitionsCount<T>(xs: seq<T>, size: nat, m: nat)
    requires size > 0 && |xs| == size * m
    ensures |Partitions(xs, size)| == m
    decreases m
  {
    if m > 1 {
      assert |xs[size..]| == size * (m - 1);
      PartitionsCount(xs[size..], size, m - 1);
    } else if m == 1 {
      assert |xs| == size;
    }
  }

  /** `tweets_iterator`: the filtered rows in batches of `batchSize`. */
  function TweetsIterator(profiles: map<int, TwitterProfile>, tweets: seq<TwitterTweet>, f: TweetsFilter, batchSize: nat): (bs: seq<seq<TwitterTweet>>)
    requires batchSize > 0
    ensures Concat(bs) == Select(profiles, tweets, f)
    ensures forall k | 0 <= k < |bs| :: 0 < |bs[k]| <= batchSize
  {
    PartitionsConcat(Select(profiles, tweets, f), batchSize);
    Partitions(Select(profiles, tweets, f), batchSize)
  }

  const GetTweetsBatchSize: nat := 50

  /* ---------------- Tables ---------------- */

  /** A non-empty set has an element. */
  lemma Inhabited(s: set<int>)
    requires s != {}
    ensures exists x :: x in s
  {
    if forall x :: x !in s {
      assert false;
    }
  }

  /** The `active` filter of `list_profiles_async`. */
  predicate Listed(p: TwitterProfile, active: Option<bool>) {
    active.None? || p.active == active.value
  }

  /** How the query's `one()` fails. */
  datatype QueryError = NoResultFound | MultipleResultsFound

  /** The row after the review marks for `tweetId`: review time set, and
      deletion time too when `deleted`; other rows as they were. */
  function MarkRow(row: TwitterTweet, tweetId: string, now: int, deleted: bool): (r: TwitterTweet)
    ensures r.tweetId == row.tweetId
    ensures row.tweetId != tweetId ==> r == row
    ensures row.tweetId == tweetId ==>
      (r.lastReviewTimestamp == Some(now)
       && r.deletionDetectedTimestamp == (if deleted then Some(now) else row.deletionDetectedTimestamp)
       && r.(lastReviewTimestamp := row.lastReviewTimestamp, deletionDetectedTimestamp := row.deletionDetectedTimestamp) == row)
  {
    if row.tweetId != tweetId then row
    else if deleted then row.(lastReviewTimestamp := Some(now), deletionDetectedTimestamp := Some(now))
    else row.(lastReviewTimestamp := Some(now))
  }

  /** Each profile sits under its own id. */
  predicate ProfilesKeyed(profiles: map<int, TwitterProfile>) {
    forall id | id in profiles :: profiles[id].id == Some(id)
  }

  /** Each historic row sits under its own job id. */
  predicate HistoricKeyed(historic: map<string, JobHistoric>) {
    forall id | id in historic :: historic[id].jobId == id
  }

  /** The `profiles`, `tweets` and `jobs_historic` tables. Tweets keep
      their storage order; `tweet_id` is their primary key. */
  class Database {
    var profiles: map<int, TwitterProfile>
    var tweets: seq<TwitterTweet>
    var historic: map<string, JobHistoric>

    /** The keys agree with the rows: a profile's id is its key, a tweet id
        occurs once, a historic row sits under its job id. */
    ghost predicate Valid()
      reads this
    {
      ProfilesKeyed(profiles)
      && (forall i, j | 0 <= i < j < |tweets| :: tweets[i].tweetId != tweets[j].tweetId)
      && HistoricKeyed(historic)
    }

    constructor ()
      ensures Valid() && profiles == map[] && tweets == [] && historic == map[]
    {
      profiles := map[];
      tweets := [];
      historic := map[];
    }

    function TweetIds(): (ids: set<string>)
      reads this
      ensures forall id :: id in ids <==> exists i | 0 <= i < |tweets| :: tweets[i].tweetId == id
    {
      set i | 0 <= i < |tweets| :: tweets[i].tweetId
    }

    /** `save_object(tweet, flush=True)` followed by a commit: a tweet id
        already stored, or a profile id with no profile, violates a
        constraint, the flush raises, the caller rolls back and nothing
        changes; otherwise the row is appended. */
    method InsertTweet(t: TwitterTweet) returns (ok: bool)
      requires Valid()
      modifies this
      ensures Valid()
      ensures ok <==> old(t.tweetId !in TweetIds() && t.profileId in profiles)
      ensures ok ==> tweets == old(tweets) + [t]
      ensures !ok ==> tweets == old(tweets)
      ensures profiles == old(profiles) && historic == old(historic)
    {
      if t.tweetId in TweetIds() || t.profileId !in profiles {
        return false;
      }
      tweets := tweets + [t];
      return true;
    }

    /** `save_object(profile)` on a profile with an id: the row under that
        id becomes this profile. */
    method SaveProfile(p: TwitterProfile)
      requires Valid() && p.id.Some?
      modifies this
      ensures Valid()
      ensures profiles == old(profiles)[p.id.value := p]
      ensures tweets == old(tweets) && historic == old(historic)
    {
      profiles := profiles[p.id.value := p];
    }

    /** `get_tweets`: read the iterator's batches of 50 and extend one list
        with them; the result is every row the filter selects, in storage
        order. */
    method GetTweets(f: TweetsFilter) returns (r: seq<TwitterTweet>)
      ensures r == Select(profiles, tweets, f)
    {
      var batches := TweetsIterator(profiles, tweets, f, GetTweetsBatchSize);
      r := [];
      var i := 0;
      while i < |batches|
        invariant 0 <= i <= |batches|
        invariant r == Concat(batches[..i])
      {
        assert batches[..i + 1] == batches[..i] + [batches[i]];
        ConcatSnoc(batches[..i], batches[i]);
        r := r + batches[i];
        i := i + 1;
      }
      assert batches[..i] == batches;
    }

    /** The keys of the profiles with this userid (at most one, by the
        unique constraint, but the query does not rely on it). */
    function ProfileKeys(userid: string): (ks: set<int>)
      reads this
      ensures forall k :: k in ks <==> k in profiles && profiles[k].userid == userid
    {
      set k | k in profiles && profiles[k].userid == userid
    }

    /** The keys `get_profile_by(userid=...)` selects: its userid filter
        applies only to a truthy userid, so an empty one selects every
        profile. */
    function SelectedKeys(userid: string): (ks: set<int>)
      reads this
      ensures userid != "" ==> ks == ProfileKeys(userid)
      ensures userid == "" ==> ks == profiles.Keys
    {
      if userid != "" then ProfileKeys(userid) else profiles.Keys
    }

    /** The query's `one()` over the rows under `keys`: NoResultFound
        without a row, MultipleResultsFound with several. */
    method One(keys: set<int>) returns (r: Result<TwitterProfile, QueryError>)
      requires Valid() && keys <= profiles.Keys
      ensures r.Err? <==> |keys| != 1
      ensures r.Err? ==> (r.error == NoResultFound <==> keys == {})
      ensures r.Ok? ==>
        (r.value.id.Some? && keys == {r.value.id.value} && profiles[r.value.id.value] == r.value)
    {
      if keys == {} {
        return Err(NoResultFound);
      }
      if |keys| > 1 {
        return Err(MultipleResultsFound);
      }
      Inhabited(keys);
      var k: int :| k in keys;
      assert |keys - {k}| == 0;
      assert keys == {k};
      return Ok(profiles[k]);
    }

    /** `get_profile_by(userid=...)`: `one()` over the profiles with that
        userid, or over every profile when the userid is empty. */
    method GetProfileBy(userid: string) returns (r: Result<TwitterProfile, QueryError>)
      requires Valid()
      ensures r.Err? <==> |SelectedKeys(userid)| != 1
      ensures r.Err? ==> (r.error == NoResultFound <==> SelectedKeys(userid) == {})
      ensures r.Ok? ==>
        (r.value.id.Some? && SelectedKeys(userid) == {r.value.id.value}
         && profiles[r.value.id.value] == r.value && (userid != "" ==> r.value.userid == userid))
    {
      r := One(SelectedKeys(userid));
    }

    /** `get_profile_by_userid_async`: `one()` over the profiles with that
        userid, whatever the userid. */
    method GetProfileByUserid(userid: string) returns (r: Result<TwitterProfile, QueryError>)
      requires Valid()
      ensures r.Err? <==> |ProfileKeys(userid)| != 1
      ensures r.Err? ==> (r.error == NoResultFound <==> ProfileKeys(userid) == {})
      ensures r.Ok? ==>
        (r.value.id.Some? && ProfileKeys(userid) == {r.value.id.value}
         && profiles[r.value.id.value] == r.value && r.value.userid == userid)
    {
      r := One(ProfileKeys(userid));
    }

    /** `list_profiles_async(filter_active_profiles)`: every profile, or
        those whose `active` equals the filter, each once; the order is the
        database's and is left open. */
    method ListProfiles(active: Option<bool>) returns (ps: seq<TwitterProfile>)
      requires Valid()
      ensures forall k | k in profiles :: profiles[k] in ps <==> Listed(profiles[k], active)
      ensures forall p | p in ps :: p.id.Some? && p.id.value in profiles && profiles[p.id.value] == p && Listed(p, active)
      ensures forall i, j | 0 <= i < j < |ps| :: ps[i].id != ps[j].id
    {
      ps := [];
      var todo := profiles.Keys;
      while todo != {}
        invariant todo <= profiles.Keys
        invariant forall k | k in profiles :: profiles[k] in ps <==> k !in todo && Listed(profiles[k], active)
        invariant forall p | p in ps ::
          p.id.Some? && p.id.value in profiles && p.id.value !in todo && profiles[p.id.value] == p && Listed(p, active)
        invariant forall i, j | 0 <= i < j < |ps| :: ps[i].id != ps[j].id
        decreases |todo|
      {
        Inhabited(todo);
        var k: int :| k in todo;
        var p := profiles[k];
        if Listed(p, active) {
          ps := ps + [p];
        }
        todo := todo - {k};
      }
    }

    /** `save_object(job_historic)` without a flush: the session now sees
        this row under its job id. For a loaded row (`set_job_finalized`)
        that is an update; for a new row it is an insert the outermost
        session's commit checks against the primary key (see
        `JobsController.FreshJobIds`). */
    method SaveHistoric(row: JobHistoric)
      requires Valid()
      modifies this
      ensures Valid()
      ensures historic == old(historic)[row.jobId := row]
      ensures profiles == old(profiles) && tweets == old(tweets)
    {
      historic := historic[row.jobId := row];
    }

    /** The rollback of the outermost session when its commit raises: the
        profiles and the historic rows go back to those of its start. */
    method Rollback(profiles0: map<int, TwitterProfile>, historic0: map<string, JobHistoric>)
      requires Valid() && ProfilesKeyed(profiles0) && HistoricKeyed(historic0)
      modifies this
      ensures Valid()
      ensures profiles == profiles0 && historic == historic0 && tweets == old(tweets)
    {
      profiles := profiles0;
      historic := historic0;
    }

    /** Setting `last_review_timestamp` (and, for a deletion,
        `deletion_detected_timestamp`) on the loaded row with this id and
        saving it. */
    method MarkTweet(tweetId: string, now: int, deleted: bool)
      requires Valid()
      modifies this
      ensures Valid()
      ensures |tweets| == |old(tweets)|
      ensures forall i | 0 <= i < |tweets| :: tweets[i] == MarkRow(old(tweets)[i], tweetId, now, deleted)
      ensures profiles == old(profiles) && historic == old(historic)
    {
      tweets := seq(|tweets|, i requires 0 <= i < |tweets| reads this => MarkRow(tweets[i], tweetId, now, deleted));
    }

    /** `get_job_historic`: the row with that job id, or None. */
    function GetJobHistoric(jobId: string): (r: Option<JobHistoric>)
      reads this
      requires Valid()
      ensures r.Some? <==> jobId in historic
      ensures r.Some? ==> r.value.jobId == jobId && r.value == historic[jobId]
      ensures r.Some? ==> forall k | k in historic && historic[k].jobId == jobId :: historic[k] == r.value
    {
      if jobId in historic then Some(historic[jobId]) else None
    }
  }
}
