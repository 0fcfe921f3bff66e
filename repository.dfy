/** The newer storage layer (twitterscraper/repository/repository.py): the
    profiles and tweets tables as maps, with insert-if-absent writes, the
    bulk deletion mark and the half-open date-range query. */
module TweetRepository {
  import opened Wrappers
  import opened Strings
  import opened Dates
  import opened Tables
  import Encoders

  /** What a failed statement raises. */
  datatype DbError = ForeignKeyViolation(userid: int)

  /** A tweet as the scraper returns it. */
  datatype FetchedTweet = FetchedTweet(tweetId: int, createdOn: DateTime, data: Encoders.PyValue)

  /** The row a fetched tweet becomes under `userid`. */
  function RowOf(userid: int, t: FetchedTweet): (row: Tweet)
    ensures KeyOf(row) == (t.tweetId, userid) && row.deletionDetectedOn.None?
  {
    NewTweet(t.tweetId, userid, t.createdOn, t.data)
  }

  // ---------------------------------------------------------------------
  // The table updates, as functions of the old table

  /** INSERT … ON CONFLICT (tweetid, userid) DO NOTHING of one row. */
  function InsertIfAbsent(tweets: map<TweetKey, Tweet>, row: Tweet): map<TweetKey, Tweet> {
    if KeyOf(row) in tweets then tweets else tweets[KeyOf(row) := row]
  }

  /** The rows of `fetched` inserted one after the other. */
  function InsertAll(tweets: map<TweetKey, Tweet>, userid: int, fetched: seq<FetchedTweet>): map<TweetKey, Tweet>
    decreases |fetched|
  {
    if fetched == [] then tweets
    else InsertIfAbsent(InsertAll(tweets, userid, fetched[..|fetched| - 1]), RowOf(userid, fetched[|fetched| - 1]))
  }

  /** After the insert every listed tweet is present, existing rows are
      never overwritten, and the only new rows are listed tweets. */
  lemma {:induction false} InsertAllEffect(tweets: map<TweetKey, Tweet>, userid: int, fetched: seq<FetchedTweet>)
    ensures forall i | 0 <= i < |fetched| :: (fetched[i].tweetId, userid) in InsertAll(tweets, userid, fetched)
    ensures forall k | k in tweets :: k in InsertAll(tweets, userid, fetched) && InsertAll(tweets, userid, fetched)[k] == tweets[k]
    ensures forall k | k in InsertAll(tweets, userid, fetched) ::
      k in tweets || exists i | 0 <= i < |fetched| :: k == (fetched[i].tweetId, userid)
    decreases |fetched|
  {
    if fetched != [] {
      var init := fetched[..|fetched| - 1];
      InsertAllEffect(tweets, userid, init);
      forall k | k in InsertAll(tweets, userid, fetched)
        ensures k in tweets || exists i | 0 <= i < |fetched| :: k == (fetched[i].tweetId, userid)
      {
        if k !in InsertAll(tweets, userid, init) {
          assert k == (fetched[|fetched| - 1].tweetId, userid);
        } else if k !in tweets {
          var i :| 0 <= i < |init| && k == (init[i].tweetId, userid);
          assert fetched[i] == init[i];
        }
      }
      forall i | 0 <= i < |fetched| ensures (fetched[i].tweetId, userid) in InsertAll(tweets, userid, fetched) {
        if i < |init| { assert fetched[i] == init[i]; }
      }
    }
  }

  /** Every row stays stored under its own key. */
  lemma {:induction false} InsertAllKeepsKeys(tweets: map<TweetKey, Tweet>, userid: int, fetched: seq<FetchedTweet>)
    requires forall k | k in tweets :: KeyOf(tweets[k]) == k
    ensures forall k | k in InsertAll(tweets, userid, fetched) :: KeyOf(InsertAll(tweets, userid, fetched)[k]) == k
    decreases |fetched|
  {
    if fetched != [] {
      InsertAllKeepsKeys(tweets, userid, fetched[..|fetched| - 1]);
    }
  }

  /** Of several listed tweets with one id, the first one is stored. */
  lemma {:induction false} InsertAllFirstWins(tweets: map<TweetKey, Tweet>, userid: int, fetched: seq<FetchedTweet>, i: nat)
    requires i < |fetched| && (fetched[i].tweetId, userid) !in tweets
    requires forall j | 0 <= j < i :: fetched[j].tweetId != fetched[i].tweetId
    ensures (fetched[i].tweetId, userid) in InsertAll(tweets, userid, fetched)
      && InsertAll(tweets, userid, fetched)[(fetched[i].tweetId, userid)] == RowOf(userid, fetched[i])
    decreases |fetched|
  {
    var init := fetched[..|fetched| - 1];
    InsertAllEffect(tweets, userid, init);
    if i < |init| {
      assert init[i] == fetched[i];
      InsertAllFirstWins(tweets, userid, init, i);
    } else {
      var k := (fetched[i].tweetId, userid);
      assert k !in InsertAll(tweets, userid, init) by {
        forall j | 0 <= j < |init| ensures k != (init[j].tweetId, userid) {
          assert init[j] == fetched[j];
        }
      }
    }
  }

  lemma {:induction false} InsertAllPresentIsNoop(tweets: map<TweetKey, Tweet>, userid: int, fetched: seq<FetchedTweet>)
    requires forall i | 0 <= i < |fetched| :: (fetched[i].tweetId, userid) in tweets
    ensures InsertAll(tweets, userid, fetched) == tweets
    decreases |fetched|
  {
    if fetched != [] {
      InsertAllPresentIsNoop(tweets, userid, fetched[..|fetched| - 1]);
    }
  }

  /** Writing the same tweets twice changes nothing the second time. */
  lemma InsertAllIdempotent(tweets: map<TweetKey, Tweet>, userid: int, fetched: seq<FetchedTweet>)
    ensures InsertAll(InsertAll(tweets, userid, fetched), userid, fetched) == InsertAll(tweets, userid, fetched)
  {
    InsertAllEffect(tweets, userid, fetched);
    InsertAllPresentIsNoop(InsertAll(tweets, userid, fetched), userid, fetched);
  }

  /** Inserting in chunks is inserting the concatenation. */
  lemma {:induction false} InsertAllAppend(tweets: map<TweetKey, Tweet>, userid: int, a: seq<FetchedTweet>, b: seq<FetchedTweet>)
    ensures InsertAll(InsertAll(tweets, userid, a), userid, b) == InsertAll(tweets, userid, a + b)
    decreases |b|
  {
    if b == [] {
      assert a + b == a;
    } else {
      assert (a + b)[..|a + b| - 1] == a + b[..|b| - 1];
      InsertAllAppend(tweets, userid, a, b[..|b| - 1]);
    }
  }

  /** The bulk UPDATE of `update_deleted_tweets`. */
  function MarkDeleted(tweets: map<TweetKey, Tweet>, userid: int, ids: set<int>, now: DateTime): map<TweetKey, Tweet> {
    map k | k in tweets ::
      if k.1 == userid && k.0 in ids then tweets[k].(deletionDetectedOn := Some(now)) else tweets[k]
  }

  /** Exactly the rows of this user whose id is listed get the mark, even
      ones already marked; all other rows, and all other columns, stay. */
  lemma MarkDeletedEffect(tweets: map<TweetKey, Tweet>, userid: int, ids: set<int>, now: DateTime)
    ensures MarkDeleted(tweets, userid, ids, now).Keys == tweets.Keys
    ensures forall k | k in tweets :: KeyOf(MarkDeleted(tweets, userid, ids, now)[k]) == KeyOf(tweets[k])
    ensures forall k | k in tweets ::
      var after := MarkDeleted(tweets, userid, ids, now)[k];
      after.(deletionDetectedOn := tweets[k].deletionDetectedOn) == tweets[k]
      && (after.deletionDetectedOn == Some(now) <== k.1 == userid && k.0 in ids)
      && (after == tweets[k] <== !(k.1 == userid && k.0 in ids))
  {
  }

  /** A later mark overwrites an earlier one. */
  lemma MarkDeletedOverwrites(tweets: map<TweetKey, Tweet>, userid: int, ids: set<int>, first: DateTime, second: DateTime)
    ensures MarkDeleted(MarkDeleted(tweets, userid, ids, first), userid, ids, second) == MarkDeleted(tweets, userid, ids, second)
  {
  }

  /** The UPDATE of `update_profile_last_scan`: no row, no change. */
  function SetLastScan(profiles: map<int, Profile>, userid: int, date: Date): map<int, Profile> {
    if userid in profiles then profiles[userid := profiles[userid].(lastscanDate := Some(date))] else profiles
  }

  /** The checkpoint is not monotone: a later call with an earlier date
      moves it back. */
  lemma LastScanNotMonotone(profiles: map<int, Profile>, userid: int, later: Date, earlier: Date)
    requires userid in profiles
    ensures SetLastScan(SetLastScan(profiles, userid, later), userid, earlier)[userid].lastscanDate == Some(earlier)
    ensures SetLastScan(SetLastScan(profiles, userid, later), userid, earlier).Keys == profiles.Keys
  {
  }

  predicate UsernameTaken(profiles: map<int, Profile>, username: string) {
    exists u | u in profiles :: profiles[u].username == username
  }

  /** INSERT … ON CONFLICT DO NOTHING of a profile: with no conflict target,
      a clash on the user id or on the unique username skips the insert. */
  function InsertProfile(profiles: map<int, Profile>, userid: int, username: string, joinedDate: Date): map<int, Profile> {
    if userid in profiles || UsernameTaken(profiles, username) then profiles
    else profiles[userid := NewProfile(userid, username, joinedDate)]
  }

  /** An existing row is never touched; the profile is added exactly when
      neither its id nor its username is present. */
  lemma InsertProfileEffect(profiles: map<int, Profile>, userid: int, username: string, joinedDate: Date)
    ensures var after := InsertProfile(profiles, userid, username, joinedDate);
      (forall u | u in profiles :: u in after && after[u] == profiles[u])
      && (after != profiles <==> userid !in profiles && !UsernameTaken(profiles, username))
      && (after != profiles ==> after == profiles[userid := NewProfile(userid, username, joinedDate)])
  {
    var after := InsertProfile(profiles, userid, username, joinedDate);
    if userid !in profiles && !UsernameTaken(profiles, username) {
      assert userid in after && userid !in profiles;
    }
  }

  function LowerAll(names: seq<string>): (r: seq<string>)
    ensures |r| == |names| && forall i | 0 <= i < |names| :: r[i] == Lower(names[i])
  {
    seq(|names|, i requires 0 <= i < |names| => Lower(names[i]))
  }

  /** The `get_profiles` filter: a None or empty filter keeps everything,
      otherwise a profile stays when its lower-cased username is one of the
      lower-cased names. */
  predicate MatchesFilter(p: Profile, filter: Option<seq<string>>) {
    filter.None? || filter.value == [] || Lower(p.username) in LowerAll(filter.value)
  }

  /** The filter ignores letter case on both sides, and a non-empty
      filter drops a profile whose name matches none of its names. */
  lemma FilterIgnoresCase(p: Profile, names: seq<string>)
    ensures (exists i | 0 <= i < |names| :: Lower(names[i]) == Lower(p.username)) ==> MatchesFilter(p, Some(names))
    ensures names != [] && (forall i | 0 <= i < |names| :: Lower(names[i]) != Lower(p.username)) ==>
      !MatchesFilter(p, Some(names))
  {
    var low := LowerAll(names);
    if exists i | 0 <= i < |names| :: Lower(names[i]) == Lower(p.username) {
      var i :| 0 <= i < |names| && Lower(names[i]) == Lower(p.username);
      assert low[i] == Lower(p.username);
    }
  }

  /** The tables of the newer storage layer. Tweets are keyed by
      (tweetid, userid) and refer to their profile. */
  class Repository {
    var profiles: map<int, Profile>
    var tweets: map<TweetKey, Tweet>

    ghost predicate Valid()
      reads this
    {
      (forall u | u in profiles :: profiles[u].userid == u)
      && (forall u, v | u in profiles && v in profiles && u != v :: profiles[u].username != profiles[v].username)
      && (forall k | k in tweets :: KeyOf(tweets[k]) == k && k.1 in profiles)
    }

    constructor ()
      ensures Valid() && profiles == map[] && tweets == map[]
    {
      profiles := map[];
      tweets := map[];
    }

    /** `get_profiles` (in no particular order, as SQL gives them). */
    function GetProfiles(filter: Option<seq<string>>): (r: set<Profile>)
      reads this
      ensures forall p :: p in r <==> p in profiles.Values && MatchesFilter(p, filter)
      ensures (filter.None? || filter == Some([])) ==> r == profiles.Values
    {
      set p | p in profiles.Values && MatchesFilter(p, filter)
    }

    /** `get_profile_by_id`: the profile with that id, or None. */
    function GetProfileById(userid: int): (r: Option<Profile>)
      reads this
      requires Valid()
      ensures r.Some? <==> userid in profiles
      ensures r.Some? ==> r.value == profiles[userid] && r.value.userid == userid
    {
      if userid in profiles then Some(profiles[userid]) else None
    }

    /** `get_tweets_by_profile_and_daterange`: the user's tweets published
      on or after `dateFrom` and before `dateToExc`. */
    function GetTweetsByProfileAndDaterange(userid: int, dateFrom: Date, dateToExc: Date): (r: set<Tweet>)
      reads this
      ensures forall t :: t in r <==>
        t in tweets.Values && t.userid == userid && AtOrAfter(t.publishedOn, dateFrom) && BeforeDate(t.publishedOn, dateToExc)
    {
      set t | t in tweets.Values && t.userid == userid && AtOrAfter(t.publishedOn, dateFrom) && BeforeDate(t.publishedOn, dateToExc)
    }

    /** `update_profile_last_scan`: overwrites the checkpoint whatever it
      was. */
    method UpdateProfileLastScan(userid: int, date: Date)
      requires Valid()
      modifies this
      ensures Valid()
      ensures profiles == SetLastScan(old(profiles), userid, date)
      ensures tweets == old(tweets)
    {
      if userid in profiles {
        profiles := profiles[userid := profiles[userid].(lastscanDate := Some(date))];
      }
    }

    /** `write_profile`: inserts the profile unless its id or its username
      is already stored. (The partition DDL is not modelled.) */
    method WriteProfile(userid: int, username: string, joinedDate: Date)
      requires Valid()
      modifies this
      ensures Valid()
      ensures profiles == InsertProfile(old(profiles), userid, username, joinedDate)
      ensures tweets == old(tweets)
    {
      var taken := exists u | u in profiles :: profiles[u].username == username;
      if userid !in profiles && !taken {
        profiles := profiles[userid := NewProfile(userid, username, joinedDate)];
      }
    }

    /** `write_tweets`: an empty list returns at once; otherwise the rows go
      in chunks of `chunkSize`, each an INSERT … ON CONFLICT (tweetid,
      userid) DO NOTHING in one session, committed at the end. A user id
      with no profile fails the foreign key on the first chunk, and nothing
      is committed. */
    method WriteTweets(userid: int, fetched: seq<FetchedTweet>, chunkSize: nat) returns (r: Result<(), DbError>)
      requires Valid() && chunkSize > 0
      modifies this
      ensures Valid() && profiles == old(profiles)
      ensures r.Err? <==> fetched != [] && userid !in old(profiles)
      ensures r.Err? ==> r.error == ForeignKeyViolation(userid) && tweets == old(tweets)
      ensures r.Ok? ==> tweets == InsertAll(old(tweets), userid, fetched)
    {
      if fetched == [] {
        return Ok(());
      }
      var pending := tweets;
      var i := 0;
      while i < |fetched|
        invariant 0 <= i <= |fetched|
        invariant pending == InsertAll(tweets, userid, fetched[..i])
        invariant i > 0 ==> userid in profiles
        decreases |fetched| - i
      {
        if userid !in profiles {
          return Err(ForeignKeyViolation(userid));
        }
        var end := if i + chunkSize <= |fetched| then i + chunkSize else |fetched|;
        var j := i;
        while j < end
          invariant i <= j <= end
          invariant pending == InsertAll(tweets, userid, fetched[..j])
        {
          assert fetched[..j + 1][..j] == fetched[..j];
          pending := InsertIfAbsent(pending, RowOf(userid, fetched[j]));
          j := j + 1;
        }
        i := end;
      }
      assert fetched[..i] == fetched;
      InsertAllEffect(tweets, userid, fetched);
      InsertAllKeepsKeys(tweets, userid, fetched);
      tweets := pending;
      r := Ok(());
    }

    /** `update_deleted_tweets`: nothing for an empty id set; otherwise the
      user's rows with a listed id get `deletion_detected_on = now`. */
    method UpdateDeletedTweets(userid: int, ids: set<int>, now: DateTime)
      requires Valid()
      modifies this
      ensures Valid() && profiles == old(profiles)
      ensures tweets == if ids == {} then old(tweets) else MarkDeleted(old(tweets), userid, ids, now)
    {
      if ids == {} {
        return;
      }
      var marked := MarkDeleted(tweets, userid, ids, now);
      MarkDeletedEffect(tweets, userid, ids, now);
      forall k | k in marked ensures KeyOf(marked[k]) == k && k.1 in profiles {
        assert k in tweets;
      }
      tweets := marked;
    }
  }
}
