/** The records of the older storage layer (twitterscraper/models/domain.py). */
module Domain {
  import opened Wrappers
  import opened Dates
  import opened Strings

  /** A row of `profiles`; `id` is None until the database assigns it. */
  datatype TwitterProfile = TwitterProfile(
    id: Option<int>,
    username: string,
    userid: string,
    joinedDate: Date,
    active: bool,
    lastScanTimestamp: Option<int>)

  /** The pydantic constraints: `last_scan_timestamp` is None or > 0. */
  predicate ValidProfile(p: TwitterProfile) {
    p.lastScanTimestamp.None? || p.lastScanTimestamp.value > 0
  }

  /** A profile built from the required fields: active, never scanned, no
      id yet. */
  function NewTwitterProfile(username: string, userid: string, joinedDate: Date): (p: TwitterProfile)
    ensures ValidProfile(p) && p.active && p.lastScanTimestamp.None? && p.id.None?
    ensures p.username == username && p.userid == userid && p.joinedDate == joinedDate
  {
    TwitterProfile(None, username, userid, joinedDate, true, None)
  }

  /** A row of `tweets`, with the profile it belongs to when loaded. */
  datatype TwitterTweet = TwitterTweet(
    tweetId: string,
    text: string,
    timestamp: int,
    isReply: bool,
    lastReviewTimestamp: Option<int>,
    deletionDetectedTimestamp: Option<int>,
    profileId: int,
    profile: Option<TwitterProfile>)

  predicate PositiveOrNone(v: Option<int>) {
    v.None? || v.value > 0
  }

  /** `timestamp` > 0; the review and deletion marks are None or > 0. */
  predicate ValidTweet(t: TwitterTweet) {
    t.timestamp > 0 && PositiveOrNone(t.lastReviewTimestamp) && PositiveOrNone(t.deletionDetectedTimestamp)
  }

  /** A tweet as scraped: not reviewed and not marked deleted. */
  function NewTwitterTweet(tweetId: string, text: string, timestamp: int, isReply: bool, profileId: int): (t: TwitterTweet)
    requires timestamp > 0
    ensures ValidTweet(t) && t.lastReviewTimestamp.None? && t.deletionDetectedTimestamp.None?
    ensures t.tweetId == tweetId && t.timestamp == timestamp && t.profileId == profileId
  {
    TwitterTweet(tweetId, text, timestamp, isReply, None, None, profileId, None)
  }

  datatype UrlError = AttributeError   // "Cannot access profile username"

  const UrlPrefix: string := "https://www.twitter.com/"
  const StatusInfix: string := "/status/"

  /** `TwitterTweet.url`: needs a loaded profile with a non-empty username. */
  function Url(t: TwitterTweet): (r: Result<string, UrlError>)
    ensures r.Err? <==> t.profile.None? || t.profile.value.username == []
    ensures r.Ok? ==> r.value == UrlPrefix + t.profile.value.username + StatusInfix + t.tweetId
    ensures r.Ok? ==> StartsWith(r.value, UrlPrefix) && |r.value| > |UrlPrefix| + |StatusInfix| + |t.tweetId|
  {
    if t.profile.None? || t.profile.value.username == [] then Err(AttributeError)
    else Ok(UrlPrefix + t.profile.value.username + StatusInfix + t.tweetId)
  }

  /** Two strings followed by a separator they do not contain agree when
      the joined texts do. */
  lemma SplitAtSeparator(a: string, x: string, b: string, y: string, c: char)
    requires c !in a && c !in b
    requires a + [c] + x == b + [c] + y
    ensures a == b && x == y
  {
    var s := a + [c] + x;
    var t := b + [c] + y;
    assert s[|a|] == c && t[|b|] == c;
    assert forall i | 0 <= i < |a| :: s[i] == a[i];
    assert forall i | 0 <= i < |b| :: t[i] == b[i];
    assert |a| == |b|;
    assert a == s[..|a|] == b;
    assert x == s[|a| + 1..] == y;
  }

  /** A username never holds '/', so the URL names its tweet: different
      (username, tweet id) pairs give different URLs. */
  lemma UrlInjective(t: TwitterTweet, u: TwitterTweet)
    requires Url(t).Ok? && Url(u).Ok? && Url(t) == Url(u)
    requires '/' !in t.profile.value.username && '/' !in u.profile.value.username
    ensures t.profile.value.username == u.profile.value.username && t.tweetId == u.tweetId
  {
    var a, b := t.profile.value.username, u.profile.value.username;
    var x, y := "status/" + t.tweetId, "status/" + u.tweetId;
    assert UrlPrefix + a + StatusInfix + t.tweetId == UrlPrefix + (a + ['/'] + x);
    assert UrlPrefix + b + StatusInfix + u.tweetId == UrlPrefix + (b + ['/'] + y);
    assert a + ['/'] + x == b + ['/'] + y;
    SplitAtSeparator(a, x, b, y, '/');
    assert t.tweetId == x[7..] && u.tweetId == y[7..];
  }

  /** A JSON scalar of a job's saved fields. */
  datatype JsonScalar = JStr(s: string) | JInt(i: int)

  /** A row of `jobs_historic`. */
  datatype JobHistoric = JobHistoric(
    jobId: string,
    data: map<string, JsonScalar>,
    timestampCreated: int,
    timestampFinalized: Option<int>)

  predicate ValidJobHistoric(j: JobHistoric) {
    j.timestampCreated > 0 && PositiveOrNone(j.timestampFinalized)
  }

  /** A new historic row: created at a positive time, not finalized. */
  function NewJobHistoric(jobId: string, data: map<string, JsonScalar>, created: int): (j: JobHistoric)
    requires created > 0
    ensures ValidJobHistoric(j) && j.timestampFinalized.None? && j.jobId == jobId && j.data == data
  {
    JobHistoric(jobId, data, created, None)
  }

  /** What a scan reports about one tweet. */
  datatype TweetScanStatus = TweetScanStatus(tweetId: string, tweetExists: bool, timestamp: Option<int>)
}
