/** The Twitter clients of the older pipeline
    (twitterscraper/services/twitter.py): the profile-not-found message, the
    official API client's status lookup and range fetch, and the Nitter
    mirror client's status probes and range fetch. Every HTTP exchange is an
    oracle parameter; HTML parsing is part of the oracle. */
module TwitterService {
  import opened Wrappers
  import opened Strings
  import opened Dates
  import opened Domain

  /* ---------------- TwitterProfileNotFoundError ---------------- */

  datatype ProfileNotFound = ProfileNotFound(userid: Option<string>, username: Option<string>)

  /** Python truthiness of an optional string. */
  predicate Truthy(v: Option<string>) {
    v.Some? && v.value != []
  }

  /** The username wins over the userid; with neither the identifier is
      empty. */
  function Identifier(e: ProfileNotFound): string {
    if Truthy(e.username) then "username=" + e.username.value
    else if Truthy(e.userid) then "userid=" + e.userid.value
    else ""
  }

  /** `__str__`: the sentence with every double space collapsed once. */
  function Message(e: ProfileNotFound): string {
    ReplaceAll("The profile " + Identifier(e) + " does not exists", "  ", " ")
  }

  /** `NoPair` for a literal, checked index by index. */
  lemma NoDoubleSpaceIn(s: string)
    requires forall i | 0 <= i < |s| :: s[i] != ' ' || (i + 1 < |s| && s[i + 1] != ' ') || i + 1 == |s|
    ensures NoPair(s, ' ', ' ')
  {
  }

  /** One double space between two texts free of double spaces, neither
      touching it with a space of its own, collapses to a single space. */
  lemma CollapsedSlot(head: string, tail: string)
    requires NoPair(head, ' ', ' ') && head != [] && head[|head| - 1] != ' '
    requires NoPair(tail, ' ', ' ')
    ensures ReplaceAll(head + "  " + tail, "  ", " ") == head + " " + tail
  {
    assert head + "  " + tail == head + ("  " + tail);
    ReplacePairSkipsPrefix(head, "  " + tail, ' ', ' ', " ");
    assert ("  " + tail)[..2] == "  " && ("  " + tail)[2..] == tail;
    NotContainsPair(tail, ' ', ' ');
    ReplaceAbsent(tail, "  ", " ");
  }

  /** With neither identifier the empty slot's double space collapses:
      "The profile does not exists". */
  lemma MessageWithoutIdentifier(e: ProfileNotFound)
    requires !Truthy(e.username) && !Truthy(e.userid)
    ensures Message(e) == "The profile does not exists"
  {
    var head: string := "The profile";
    var tail: string := "does not exists";
    assert "The profile " + Identifier(e) + " does not exists" == head + "  " + tail;
    NoDoubleSpaceIn(head);
    NoDoubleSpaceIn(tail);
    CollapsedSlot(head, tail);
  }

  /** Shared step of the two identifier cases: a space-free value after a
      lead ending in '=' comes through the replacement untouched. */
  lemma LabelledMessage(lead: string, v: string)
    requires lead == "The profile username=" || lead == "The profile userid="
    requires v != [] && ' ' !in v
    ensures ReplaceAll(lead + v + " does not exists", "  ", " ") == lead + v + " does not exists"
  {
    var tail: string := " does not exists";
    NoDoubleSpaceIn(lead);
    NoDoubleSpaceIn(v);
    NoPairConcat(lead, v, ' ', ' ');
    assert (lead + v)[|lead + v| - 1] == v[|v| - 1];
    ReplacePairSkipsPrefix(lead + v, tail, ' ', ' ', " ");
    NoDoubleSpaceIn(tail);
    NotContainsPair(tail, ' ', ' ');
    ReplaceAbsent(tail, "  ", " ");
  }

  /** A username without spaces is named as `username=`, whatever the
      userid. */
  lemma MessageNamesUsername(e: ProfileNotFound)
    requires Truthy(e.username) && ' ' !in e.username.value
    ensures Message(e) == "The profile username=" + e.username.value + " does not exists"
  {
    var v := e.username.value;
    assert "The profile " + Identifier(e) + " does not exists" == "The profile username=" + v + " does not exists";
    LabelledMessage("The profile username=", v);
  }

  /** Without a username, a userid without spaces is named as `userid=`. */
  lemma MessageNamesUserid(e: ProfileNotFound)
    requires !Truthy(e.username) && Truthy(e.userid) && ' ' !in e.userid.value
    ensures Message(e) == "The profile userid=" + e.userid.value + " does not exists"
  {
    var v := e.userid.value;
    assert "The profile " + Identifier(e) + " does not exists" == "The profile userid=" + v + " does not exists";
    LabelledMessage("The profile userid=", v);
  }

  /** The collapse only ever removes characters: the message is never
      longer than the sentence it is built from, and strictly shorter when
      a double space occurs in it. */
  lemma MessageNeverLonger(e: ProfileNotFound)
    ensures |Message(e)| <= |"The profile " + Identifier(e) + " does not exists"|
    ensures Contains("The profile " + Identifier(e) + " does not exists", "  ") ==>
      |Message(e)| < |"The profile " + Identifier(e) + " does not exists"|
  {
    ReplaceShrinks("The profile " + Identifier(e) + " does not exists", "  ", " ");
  }

  /* ---------------- HTTP ---------------- */

  /** A response as the clients read it. */
  datatype HttpResponse = HttpResponse(code: int, body: string)

  /** What `raise_for_status` raises on: a 4xx or 5xx status. */
  predicate IsHttpError(code: int) {
    400 <= code < 600
  }

  datatype HttpError = HttpError(code: int)

  /** `get_tweet_status`'s reading of a response: a 404 whose body says
      "Tweet not found" is a missing tweet, any other error status raises,
      everything else is an existing tweet. */
  function Classify(r: HttpResponse): (v: Result<bool, HttpError>)
    ensures v == Ok(false) <==> r.code == 404 && Contains(r.body, "Tweet not found")
    ensures v.Err? <==> IsHttpError(r.code) && !(r.code == 404 && Contains(r.body, "Tweet not found"))
    ensures v.Err? ==> v.error == HttpError(r.code)
    ensures v == Ok(true) <==> !IsHttpError(r.code)
  {
    if r.code == 404 && Contains(r.body, "Tweet not found") then Ok(false)
    else if IsHttpError(r.code) then Err(HttpError(r.code))
    else Ok(true)
  }

  /* ---------------- Official API client ---------------- */

  /** 2010-11-06T00:00:01Z: the API serves nothing earlier. */
  const ApiMinimumTimestamp: int := 1289001601

  const ApiBatchLimit: nat := 100

  datatype ApiError = TooManyIds | TypeError

  /** A tweet of a status response; `createdAt` None makes the conversion
      to a status fail, which the source logs and skips. */
  datatype StatusTweet = StatusTweet(id: string, createdAt: Option<int>)

  /** The statuses of the found tweets, filled in response order: a later
      entry for the same id replaces an earlier one. */
  function FoundStatuses(data: seq<StatusTweet>): (m: map<string, TweetScanStatus>)
    ensures forall id :: id in m <==> exists k | 0 <= k < |data| :: data[k].id == id && data[k].createdAt.Some?
    ensures forall id | id in m :: m[id].tweetId == id && m[id].tweetExists && m[id].timestamp.Some?
    decreases |data|
  {
    if data == [] then map[]
    else
      var m := FoundStatuses(data[..|data| - 1]);
      var t := data[|data| - 1];
      assert forall k | 0 <= k < |data| - 1 :: data[..|data| - 1][k] == data[k];
      if t.createdAt.None? then m
      else m[t.id := TweetScanStatus(t.id, true, t.createdAt)]
  }

  /** The merged dictionary: found statuses, then every requested id not
      found marked as not existing. */
  function Statuses(ids: seq<string>, data: seq<StatusTweet>): map<string, TweetScanStatus> {
    var found := FoundStatuses(data);
    found + map id | id in ids && id !in found :: TweetScanStatus(id, false, None)
  }

  /** Every requested id has an entry naming it; it says the tweet exists,
      with its timestamp, iff the response carried the id with a creation
      time, and otherwise it says not found, with no timestamp. */
  lemma StatusesCoverRequest(ids: seq<string>, data: seq<StatusTweet>)
    ensures forall id | id in ids :: id in Statuses(ids, data) && Statuses(ids, data)[id].tweetId == id
    ensures forall id | id in ids :: Statuses(ids, data)[id].tweetExists <==>
      exists k | 0 <= k < |data| :: data[k].id == id && data[k].createdAt.Some?
    ensures forall id | id in ids && !Statuses(ids, data)[id].tweetExists :: Statuses(ids, data)[id].timestamp.None?
    ensures Statuses(ids, data).Keys == FoundStatuses(data).Keys + (set id | id in ids)
  {
  }

  /** `get_tweets_status` as written: iterating `response.data` raises
      TypeError when the API returns no data, which it does when none of the
      ids exists. */
  function GetTweetsStatusAsWritten(ids: seq<string>, data: Option<seq<StatusTweet>>): (r: Result<map<string, TweetScanStatus>, ApiError>)
    ensures |ids| > ApiBatchLimit ==> r == Err(TooManyIds)
  {
    if |ids| > ApiBatchLimit then Err(TooManyIds)
    else if data.None? then Err(TypeError)
    else Ok(Statuses(ids, data.value))
  }

  /** The request the method exists for, a batch of tweets all deleted,
      fails as written instead of marking each id not found. */
  lemma AsWrittenFailsWhenNoneExists(ids: seq<string>)
    requires 0 < |ids| <= ApiBatchLimit
    ensures GetTweetsStatusAsWritten(ids, None) == Err(TypeError)
    ensures forall id | id in ids :: id in Statuses(ids, []) && !Statuses(ids, [])[id].tweetExists
  {
    StatusesCoverRequest(ids, []);
  }

  /** `get_tweets_status`, reading a missing `response.data` as no tweets
      (as the range fetch below does): more than 100 ids raise; otherwise
      the found statuses are filled in a loop and merged with the ids not
      found. */
  method GetTweetsStatus(ids: seq<string>, data: Option<seq<StatusTweet>>) returns (r: Result<map<string, TweetScanStatus>, ApiError>)
    ensures r.Err? <==> |ids| > ApiBatchLimit
    ensures r.Err? ==> r.error == TooManyIds
    ensures r.Ok? ==> r.value == Statuses(ids, if data.Some? then data.value else [])
  {
    if |ids| > ApiBatchLimit {
      return Err(TooManyIds);
    }
    var tweets := if data.Some? then data.value else [];
    var found: map<string, TweetScanStatus> := map[];
    var i := 0;
    while i < |tweets|
      invariant 0 <= i <= |tweets|
      invariant found == FoundStatuses(tweets[..i])
    {
      var t := tweets[i];
      assert tweets[..i + 1][..i] == tweets[..i];
      if t.createdAt.Some? {
        found := found[t.id := TweetScanStatus(t.id, true, t.createdAt)];
      }
      i := i + 1;
    }
    assert tweets[..i] == tweets;
    var notFound := map id | id in ids && id !in found :: TweetScanStatus(id, false, None);
    return Ok(found + notFound);
  }

  /** The `exclude` list sent by `get_tweets_in_range` as written: replies
      are excluded exactly when the caller asks to include them. */
  function ApiExcludeAsWritten(includeReplies: bool): (x: seq<string>)
    ensures |x| > 0 && x[0] == "retweets"
  {
    ["retweets"] + (if includeReplies then ["replies"] else [])
  }

  lemma ApiExcludeAsWrittenInverted(includeReplies: bool)
    ensures "replies" in ApiExcludeAsWritten(includeReplies) <==> includeReplies
    ensures "retweets" in ApiExcludeAsWritten(includeReplies)
  {
    assert "replies" != "retweets";
  }

  /** The `exclude` list as the parameter means it, and as the Nitter
      client applies it: replies are dropped only when not included. */
  function ApiExclude(includeReplies: bool): (x: seq<string>)
    ensures |x| > 0 && x[0] == "retweets"
  {
    ["retweets"] + (if includeReplies then [] else ["replies"])
  }

  lemma ApiExcludeFollowsParameter(includeReplies: bool)
    ensures "replies" in ApiExclude(includeReplies) <==> !includeReplies
    ensures "retweets" in ApiExclude(includeReplies)
  {
    assert "replies" != "retweets";
  }

  /** A tweet of a timeline page. */
  datatype RangeTweet = RangeTweet(id: string, text: string, createdAt: int, conversationId: string)

  /** One page of `get_users_tweets`: `data` may be missing, and
      `nextToken` is None on the last page. */
  datatype ApiPage = ApiPage(data: Option<seq<RangeTweet>>, nextToken: Option<string>)

  /** The parameters of one `get_users_tweets` call. */
  datatype ApiRequest = ApiRequest(userid: int, startTime: int, endTime: int, exclude: seq<string>, maxResults: int, token: Option<string>)

  /** The `k`-th request of a range fetch: the start raised to the API's
      first instant when earlier, and the token of the page before (none on
      the first request). */
  function ApiRequestFor(userid: int, fromTimestamp: int, toTimestamp: int, includeReplies: bool, pageSize: int, pages: seq<ApiPage>, k: nat): (q: ApiRequest)
    requires k <= |pages|
    ensures q.startTime >= ApiMinimumTimestamp && q.startTime >= fromTimestamp
    ensures fromTimestamp >= ApiMinimumTimestamp ==> q.startTime == fromTimestamp
    ensures q.endTime == toTimestamp && q.userid == userid && q.maxResults == pageSize
    ensures "replies" in q.exclude <==> !includeReplies
    ensures k == 0 ==> q.token.None?
    ensures k > 0 ==> q.token == pages[k - 1].nextToken
  {
    ApiExcludeFollowsParameter(includeReplies);
    ApiRequest(userid, if fromTimestamp < ApiMinimumTimestamp then ApiMinimumTimestamp else fromTimestamp,
      toTimestamp, ApiExclude(includeReplies), pageSize, if k == 0 then None else pages[k - 1].nextToken)
  }

  predicate ApiLastPage(p: ApiPage) {
    p.nextToken.None?
  }

  /** The number of pages read: up to and including the first without a
      next-page marker. */
  function PagesEnd<P>(pages: seq<P>, isLast: P -> bool): (n: nat)
    requires |pages| > 0 && isLast(pages[|pages| - 1])
    ensures 1 <= n <= |pages| && isLast(pages[n - 1])
    ensures forall k | 0 <= k < n - 1 :: !isLast(pages[k])
    decreases |pages|
  {
    if isLast(pages[0]) then 1
    else
      var n := 1 + PagesEnd(pages[1..], isLast);
      assert forall k | 1 <= k < n - 1 :: pages[k] == pages[1..][k - 1];
      n
  }

  /** A page's tweets as domain records; a reply is a tweet that does not
      open its own conversation. */
  function PageTweets(userid: int, p: ApiPage): seq<TwitterTweet> {
    var data := if p.data.Some? then p.data.value else [];
    seq(|data|, k requires 0 <= k < |data| =>
      TwitterTweet(data[k].id, data[k].text, data[k].createdAt, data[k].id != data[k].conversationId, None, None, userid, None))
  }

  /** A page without data gives no tweets; otherwise one tweet per entry,
      in order, under the requested userid, flagged as a reply iff it does
      not open its own conversation. */
  lemma PageTweetsFields(userid: int, p: ApiPage)
    ensures |PageTweets(userid, p)| == if p.data.Some? then |p.data.value| else 0
    ensures forall k | 0 <= k < |PageTweets(userid, p)| ::
      (PageTweets(userid, p)[k].tweetId == p.data.value[k].id && PageTweets(userid, p)[k].profileId == userid
       && PageTweets(userid, p)[k].timestamp == p.data.value[k].createdAt
       && (PageTweets(userid, p)[k].isReply <==> p.data.value[k].id != p.data.value[k].conversationId))
  {
  }

  /** The tweets of several pages, page after page. */
  function Collected(userid: int, pages: seq<ApiPage>): seq<TwitterTweet>
    decreases |pages|
  {
    if pages == [] then [] else Collected(userid, pages[..|pages| - 1]) + PageTweets(userid, pages[|pages| - 1])
  }

  /** Collecting is compositional: pages read later add their tweets after
      the earlier ones. */
  lemma {:induction false} CollectedAppend(userid: int, a: seq<ApiPage>, b: seq<ApiPage>)
    ensures Collected(userid, a + b) == Collected(userid, a) + Collected(userid, b)
    decreases |b|
  {
    if b != [] {
      var b' := b[..|b| - 1];
      assert (a + b)[..|a + b| - 1] == a + b';
      assert (a + b)[|a + b| - 1] == b[|b| - 1];
      CollectedAppend(userid, a, b');
    } else {
      assert a + b == a;
    }
  }

  /** `get_tweets_in_range` on the API, with the exclude list as the
      parameter means it: nothing is requested when the end lies before the
      API's first instant; otherwise pages are requested one after another,
      each with the start raised to that instant if earlier and the token of
      the page before, until a page comes without a next token. `pages` are
      the server's answers in order. */
  method ApiGetTweetsInRange(userid: int, fromTimestamp: int, toTimestamp: int, includeReplies: bool, pageSize: int, pages: seq<ApiPage>)
    returns (tweets: seq<TwitterTweet>, requests: seq<ApiRequest>)
    requires |pages| > 0 && ApiLastPage(pages[|pages| - 1])
    ensures toTimestamp < ApiMinimumTimestamp ==> tweets == [] && requests == []
    ensures toTimestamp >= ApiMinimumTimestamp ==>
      (|requests| == PagesEnd(pages, ApiLastPage) && tweets == Collected(userid, pages[..|requests|]))
    ensures |requests| <= |pages|
    ensures forall k | 0 <= k < |requests| ::
      requests[k] == ApiRequestFor(userid, fromTimestamp, toTimestamp, includeReplies, pageSize, pages, k)
  {
    var n := PagesEnd(pages, ApiLastPage);
    tweets, requests := [], [];
    var exclude := ["retweets"];
    if !includeReplies {
      exclude := exclude + ["replies"];
    }
    assert exclude == ApiExclude(includeReplies);
    var token: Option<string> := None;
    var more := true;
    var i := 0;
    while more
      invariant 0 <= i <= n
      invariant more <==> i < n
      invariant i > 0 ==> toTimestamp >= ApiMinimumTimestamp
      invariant token == if i == 0 then None else pages[i - 1].nextToken
      invariant |requests| == i && tweets == Collected(userid, pages[..i])
      invariant forall k | 0 <= k < i ::
        requests[k] == ApiRequestFor(userid, fromTimestamp, toTimestamp, includeReplies, pageSize, pages, k)
      decreases n - i
    {
      var startTime := fromTimestamp;
      if toTimestamp < ApiMinimumTimestamp {
        return;
      }
      if startTime < ApiMinimumTimestamp {
        startTime := ApiMinimumTimestamp;
      }
      var request := ApiRequest(userid, startTime, toTimestamp, exclude, pageSize, token);
      assert request == ApiRequestFor(userid, fromTimestamp, toTimestamp, includeReplies, pageSize, pages, i);
      requests := requests + [request];
      var page := pages[i];
      token := page.nextToken;
      more := token.Some?;
      assert more <==> !ApiLastPage(pages[i]);
      assert pages[..i + 1][..i] == pages[..i];
      tweets := tweets + PageTweets(userid, page);
      i := i + 1;
    }
  }

  /* ---------------- Nitter client ---------------- */

  /** The client's configuration: the base URLs as given, and the set of
      distinct ones the ensured lookup walks. */
  datatype NitterClient = NitterClient(baseurls: seq<string>, unique: set<string>)

  datatype NitterError = NoBaseurls | RequestFailed(http: HttpError) | DateFailure(date: DateError)

  predicate ValidClient(c: NitterClient) {
    c.baseurls != [] && c.unique == set u | u in c.baseurls
  }

  /** `TwitterNitterClient.__init__`: an empty list raises. */
  function MakeNitterClient(baseurls: seq<string>): (r: Result<NitterClient, NitterError>)
    ensures r.Err? <==> baseurls == []
    ensures r.Err? ==> r.error == NoBaseurls
    ensures r.Ok? ==> ValidClient(r.value) && r.value.baseurls == baseurls
  {
    if baseurls == [] then Err(NoBaseurls)
    else Ok(NitterClient(baseurls, set u | u in baseurls))
  }

  /** The order in which a `set` yields its elements: each once. */
  predicate IsEnumeration(order: seq<string>, s: set<string>) {
    (forall i, j | 0 <= i < j < |order| :: order[i] != order[j]) && (set u | u in order) == s
  }

  /** `pick_nitter_baseurl`: `random.choice`, with the choice an oracle. */
  function Pick(c: NitterClient, choice: nat): (u: string)
    requires ValidClient(c)
    ensures u in c.unique
  {
    c.baseurls[choice % |c.baseurls|]
  }

  /** `server`, path -> the response to `GET server + path`. */
  type Responder = (string, string) -> HttpResponse

  function StatusPath(tweetId: string): string {
    "/status/status/" + tweetId
  }

  /** What one server says about one tweet. */
  function ProbeAnswer(server: string, tweetId: string, respond: Responder): Result<bool, HttpError> {
    Classify(respond(server, StatusPath(tweetId)))
  }

  /** `get_tweet_status` on a given server. */
  function Probe(server: string, tweetId: string, respond: Responder): (r: Result<TweetScanStatus, HttpError>)
    ensures r.Ok? <==> ProbeAnswer(server, tweetId, respond).Ok?
    ensures r.Ok? ==> r.value == TweetScanStatus(tweetId, ProbeAnswer(server, tweetId, respond).value, None)
    ensures r.Err? ==> r.error == ProbeAnswer(server, tweetId, respond).error
  {
    match ProbeAnswer(server, tweetId, respond)
    case Ok(e) => Ok(TweetScanStatus(tweetId, e, None))
    case Err(x) => Err(x)
  }

  /** `get_tweet_status_ensure`: ask the servers in turn, stopping at the
      first that says the tweet exists; an error raises; the last answer
      stands. */
  function EnsureFrom(order: seq<string>, tweetId: string, respond: Responder): (r: Result<TweetScanStatus, HttpError>)
    requires |order| > 0
    ensures r.Ok? ==> r.value.tweetId == tweetId && r.value.timestamp.None?
    decreases |order|
  {
    var p := Probe(order[0], tweetId, respond);
    if p.Err? || p.value.tweetExists || |order| == 1 then p
    else EnsureFrom(order[1..], tweetId, respond)
  }

  /** A tweet is reported missing iff every server says it is missing. */
  lemma {:induction false} EnsureFromMissing(order: seq<string>, tweetId: string, respond: Responder)
    requires |order| > 0
    ensures (EnsureFrom(order, tweetId, respond).Ok? && !EnsureFrom(order, tweetId, respond).value.tweetExists) <==>
      forall k | 0 <= k < |order| :: ProbeAnswer(order[k], tweetId, respond) == Ok(false)
    decreases |order|
  {
    var a := ProbeAnswer(order[0], tweetId, respond);
    if a == Ok(false) && |order| > 1 {
      var rest := order[1..];
      EnsureFromMissing(rest, tweetId, respond);
      assert forall k | 1 <= k < |order| :: order[k] == rest[k - 1];
    }
  }

  /** Server `k` is the first of `order` to say the tweet exists: every
      server before it said missing. */
  predicate FirstToConfirm(order: seq<string>, tweetId: string, respond: Responder, k: int) {
    0 <= k < |order| && ProbeAnswer(order[k], tweetId, respond) == Ok(true)
    && forall j | 0 <= j < k :: ProbeAnswer(order[j], tweetId, respond) == Ok(false)
  }

  lemma FirstToConfirmShift(order: seq<string>, tweetId: string, respond: Responder, k: int)
    requires 1 <= k < |order|
    ensures FirstToConfirm(order, tweetId, respond, k) <==>
      ProbeAnswer(order[0], tweetId, respond) == Ok(false) && FirstToConfirm(order[1..], tweetId, respond, k - 1)
  {
    var rest := order[1..];
    assert forall j | 1 <= j <= k :: order[j] == rest[j - 1];
    if ProbeAnswer(order[0], tweetId, respond) == Ok(false) && FirstToConfirm(rest, tweetId, respond, k - 1) {
      forall j | 0 <= j < k ensures ProbeAnswer(order[j], tweetId, respond) == Ok(false) {
        if j > 0 { assert ProbeAnswer(rest[j - 1], tweetId, respond) == Ok(false); }
      }
    }
  }

  /** A tweet is reported existing iff some server says so after all
      servers before it said missing. */
  lemma {:induction false} EnsureFromExists(order: seq<string>, tweetId: string, respond: Responder)
    requires |order| > 0
    ensures (EnsureFrom(order, tweetId, respond).Ok? && EnsureFrom(order, tweetId, respond).value.tweetExists) <==>
      exists k :: FirstToConfirm(order, tweetId, respond, k)
    decreases |order|
  {
    var a := ProbeAnswer(order[0], tweetId, respond);
    if a == Ok(true) {
      assert FirstToConfirm(order, tweetId, respond, 0);
    } else if a == Ok(false) && |order| > 1 {
      var rest := order[1..];
      EnsureFromExists(rest, tweetId, respond);
      if exists k :: FirstToConfirm(rest, tweetId, respond, k) {
        var k :| FirstToConfirm(rest, tweetId, respond, k);
        FirstToConfirmShift(order, tweetId, respond, k + 1);
      }
      if exists k :: FirstToConfirm(order, tweetId, respond, k) {
        var k :| FirstToConfirm(order, tweetId, respond, k);
        FirstToConfirmShift(order, tweetId, respond, k);
      }
    }
  }

  /** An error raised is the answer of a server asked after all servers
      before it said missing. */
  lemma {:induction false} EnsureFromError(order: seq<string>, tweetId: string, respond: Responder)
    requires |order| > 0
    ensures EnsureFrom(order, tweetId, respond).Err? ==>
      exists k | 0 <= k < |order| ::
        (ProbeAnswer(order[k], tweetId, respond).Err?
         && EnsureFrom(order, tweetId, respond).error == ProbeAnswer(order[k], tweetId, respond).error
         && forall j | 0 <= j < k :: ProbeAnswer(order[j], tweetId, respond) == Ok(false))
    decreases |order|
  {
    var a := ProbeAnswer(order[0], tweetId, respond);
    if a.Err? {
      assert ProbeAnswer(order[0], tweetId, respond).Err?;
    } else if a == Ok(false) && |order| > 1 {
      var rest := order[1..];
      EnsureFromError(rest, tweetId, respond);
      if EnsureFrom(rest, tweetId, respond).Err? {
        var k :| 0 <= k < |rest| && ProbeAnswer(rest[k], tweetId, respond).Err?
          && EnsureFrom(rest, tweetId, respond).error == ProbeAnswer(rest[k], tweetId, respond).error
          && forall j | 0 <= j < k :: ProbeAnswer(rest[j], tweetId, respond) == Ok(false);
        assert forall j | 1 <= j < k + 1 :: order[j] == rest[j - 1];
        assert ProbeAnswer(order[k + 1], tweetId, respond).Err?;
      }
    }
  }

  /** The three outcomes of `get_tweet_status_ensure` together: missing iff
      every server says missing, existing iff some server says so after all
      before it said missing, and otherwise the first error raised before
      any server said the tweet exists. */
  lemma EnsureFromAnswers(order: seq<string>, tweetId: string, respond: Responder)
    requires |order| > 0
    ensures (EnsureFrom(order, tweetId, respond).Ok? && !EnsureFrom(order, tweetId, respond).value.tweetExists) <==>
      forall k | 0 <= k < |order| :: ProbeAnswer(order[k], tweetId, respond) == Ok(false)
    ensures (EnsureFrom(order, tweetId, respond).Ok? && EnsureFrom(order, tweetId, respond).value.tweetExists) <==>
      exists k | 0 <= k < |order| :: ProbeAnswer(order[k], tweetId, respond) == Ok(true)
        && forall j | 0 <= j < k :: ProbeAnswer(order[j], tweetId, respond) == Ok(false)
    ensures EnsureFrom(order, tweetId, respond).Err? ==>
      exists k | 0 <= k < |order| ::
        (ProbeAnswer(order[k], tweetId, respond).Err?
         && EnsureFrom(order, tweetId, respond).error == ProbeAnswer(order[k], tweetId, respond).error
         && forall j | 0 <= j < k :: ProbeAnswer(order[j], tweetId, respond) == Ok(false))
  {
    EnsureFromMissing(order, tweetId, respond);
    EnsureFromExists(order, tweetId, respond);
    EnsureFromError(order, tweetId, respond);
  }

  /** `get_tweet_status_ensure` over the distinct servers in `order`, the
      iteration order of the client's set. `queried` lists the servers asked,
      a prefix of `order`. */
  method EnsureStatus(c: NitterClient, order: seq<string>, tweetId: string, respond: Responder)
    returns (status: Result<TweetScanStatus, HttpError>, queried: seq<string>)
    requires ValidClient(c) && IsEnumeration(order, c.unique)
    ensures |order| > 0 && status == EnsureFrom(order, tweetId, respond)
    ensures 0 < |queried| <= |order| && queried == order[..|queried|]
    ensures |queried| < |order| ==> ProbeAnswer(order[|queried| - 1], tweetId, respond) != Ok(false)
  {
    assert c.baseurls[0] in c.unique;
    status := Probe(order[0], tweetId, respond);
    queried := [order[0]];
    var i := 1;
    while i < |order| && status.Ok? && !status.value.tweetExists
      invariant 1 <= i <= |order|
      invariant queried == order[..i]
      invariant status == Probe(order[i - 1], tweetId, respond)
      invariant EnsureFrom(order, tweetId, respond) == EnsureFrom(order[i - 1..], tweetId, respond)
      decreases |order| - i
    {
      assert order[i - 1..][1..] == order[i..];
      status := Probe(order[i], tweetId, respond);
      queried := queried + [order[i]];
      assert order[..i + 1] == order[..i] + [order[i]];
      i := i + 1;
    }
  }

  /** The status one id gets from `get_tweets_status`: the ensured walk
      over all servers, or one probe of a randomly picked server. */
  function StatusOf(c: NitterClient, order: seq<string>, ensure: bool, choice: string -> nat, respond: Responder, tweetId: string): (r: Result<TweetScanStatus, HttpError>)
    requires ValidClient(c) && |order| > 0
    ensures r.Ok? ==> r.value.tweetId == tweetId
  {
    if ensure then EnsureFrom(order, tweetId, respond)
    else Probe(Pick(c, choice(tweetId)), tweetId, respond)
  }

  /** `get_tweets_status`: one status per id, keyed by id. The source runs
      the lookups concurrently; here they run in input order, and the first
      error in that order is the one raised. */
  method NitterGetTweetsStatus(c: NitterClient, order: seq<string>, ids: seq<string>, ensure: bool, choice: string -> nat, respond: Responder)
    returns (r: Result<map<string, TweetScanStatus>, HttpError>)
    requires ValidClient(c) && IsEnumeration(order, c.unique)
    ensures |order| > 0
    ensures r.Ok? <==> forall k | 0 <= k < |ids| :: StatusOf(c, order, ensure, choice, respond, ids[k]).Ok?
    ensures r.Ok? ==> r.value.Keys == set id | id in ids
    ensures r.Ok? ==> forall k | 0 <= k < |ids| ::
      StatusOf(c, order, ensure, choice, respond, ids[k]).Ok? && r.value[ids[k]] == StatusOf(c, order, ensure, choice, respond, ids[k]).value
    ensures r.Err? ==> exists k | 0 <= k < |ids| ::
      (StatusOf(c, order, ensure, choice, respond, ids[k]).Err?
       && r.error == StatusOf(c, order, ensure, choice, respond, ids[k]).error)
  {
    assert c.baseurls[0] in c.unique;
    var m: map<string, TweetScanStatus> := map[];
    var i := 0;
    while i < |ids|
      invariant 0 <= i <= |ids|
      invariant forall k | 0 <= k < i :: StatusOf(c, order, ensure, choice, respond, ids[k]).Ok?
      invariant m.Keys == set id | id in ids[..i]
      invariant forall k | 0 <= k < i :: m[ids[k]] == StatusOf(c, order, ensure, choice, respond, ids[k]).value
    {
      var s: Result<TweetScanStatus, HttpError>;
      if ensure {
        var queried;
        s, queried := EnsureStatus(c, order, ids[i], respond);
      } else {
        s := Probe(Pick(c, choice(ids[i])), ids[i], respond);
      }
      if s.Err? {
        return Err(s.error);
      }
      m := m[s.value.tweetId := s.value];
      assert ids[..i + 1] == ids[..i] + [ids[i]];
      i := i + 1;
    }
    assert ids[..i] == ids;
    return Ok(m);
  }

  /** `get_tweets_removed`: the ids whose ensured status says missing, that
      is, the ids every distinct server reports as not found. */
  method GetTweetsRemoved(c: NitterClient, order: seq<string>, ids: seq<string>, respond: Responder)
    returns (r: Result<set<string>, HttpError>)
    requires ValidClient(c) && IsEnumeration(order, c.unique)
    ensures |order| > 0
    ensures r.Ok? <==> forall k | 0 <= k < |ids| :: EnsureFrom(order, ids[k], respond).Ok?
    ensures r.Ok? ==> forall id :: id in r.value <==>
      id in ids && forall k | 0 <= k < |order| :: ProbeAnswer(order[k], id, respond) == Ok(false)
  {
    var anyChoice := (id: string) => 0;
    var statuses := NitterGetTweetsStatus(c, order, ids, true, anyChoice, respond);
    if statuses.Err? {
      return Err(statuses.error);
    }
    var m := statuses.value;
    var removed := set id | id in m && !m[id].tweetExists;
    forall id | id in ids
      ensures id in removed <==> forall k | 0 <= k < |order| :: ProbeAnswer(order[k], id, respond) == Ok(false)
    {
      var k :| 0 <= k < |ids| && ids[k] == id;
      EnsureFromAnswers(order, id, respond);
      assert m[ids[k]] == EnsureFrom(order, id, respond).value;
    }
    return Ok(removed);
  }

  /** The Nitter to-date: the date of the end instant, moved to the next day
      unless the instant is exactly midnight, since Nitter's `until` filter
      excludes its day. */
  function NitterToDate(t: DateTime): (r: Result<Date, DateError>)
    requires ValidDateTime(t)
    ensures r.Err? <==> t.second != 0 && t.date == Date(MaxYear, 12, 31)
    ensures r.Err? ==> r.error == OverflowError
    ensures r.Ok? ==> ValidDate(r.value)
  {
    if t.second == 0 then Ok(t.date)
    else match NextDay(t.date)
      case Some(d) => Ok(d)
      case None => Err(OverflowError)
  }

  /** The to-date is the ceiling of the end instant: a date's midnight is
      at or after the instant iff the date is not before the to-date. */
  lemma NitterToDateIsCeiling(t: DateTime, e: Date)
    requires ValidDateTime(t) && ValidDate(e) && NitterToDate(t).Ok?
    ensures (Before(t.date, e) || (t.date == e && t.second == 0)) <==> !Before(e, NitterToDate(t).value)
  {
    if t.second != 0 {
      NextDayIsSuccessor(t.date, e);
    }
  }

  /** The query string of the first search page. */
  function NitterFirstParams(since: string, until: string, includeReplies: bool): string {
    "?f=tweets&q=&e-nativeretweets=on&since=" + since + "&until=" + until
    + (if includeReplies then "" else "&e-replies=on")
  }

  function EndsWith(s: string, suffix: string): bool {
    |suffix| <= |s| && s[|s| - |suffix|..] == suffix
  }

  /** Replies are excluded, by the trailing `e-replies` flag, iff they are
      not to be included. */
  lemma NitterRepliesFlag(from: Date, to: Date, includeReplies: bool)
    requires ValidDate(from) && ValidDate(to)
    ensures EndsWith(NitterFirstParams(IsoFormat(from), IsoFormat(to), includeReplies), "&e-replies=on") <==> !includeReplies
  {
    var p := NitterFirstParams(IsoFormat(from), IsoFormat(to), includeReplies);
    if includeReplies {
      var day := PadZeros(NatToString(to.day), 2);
      assert IsoFormat(to)[|IsoFormat(to)| - 1] == day[|day| - 1];
      assert p[|p| - 1] == IsoFormat(to)[|IsoFormat(to)| - 1];
      assert IsDigit(day[|day| - 1]);
      assert p[|p| - 13..][12] == p[|p| - 1];
    }
  }

  function SearchPath(username: string, params: string): string {
    "/" + username + "/search" + params
  }

  /** One search page: its status code, and the tweets and next-page query
      string that parsing the body yields (parsing is part of the
      oracle). */
  datatype NitterPage = NitterPage(code: int, tweets: seq<TwitterTweet>, next: Option<string>)

  predicate NitterLastPage(p: NitterPage) {
    p.next.None?
  }

  function NitterCollected(pages: seq<NitterPage>): seq<TwitterTweet>
    decreases |pages|
  {
    if pages == [] then [] else NitterCollected(pages[..|pages| - 1]) + pages[|pages| - 1].tweets
  }

  /** The pagination loop of Nitter's `get_tweets_in_range`: request the
      search path with the current query string, raise on an error status,
      keep the page's tweets and follow its next-page query string until a
      page has none. `pages` are the answers in order; `requested` the paths
      asked for. */
  method FollowSearchPages(username: string, first: string, pages: seq<NitterPage>)
    returns (r: Result<seq<TwitterTweet>, HttpError>, requested: seq<string>)
    requires |pages| > 0 && NitterLastPage(pages[|pages| - 1])
    ensures 0 < |requested| <= PagesEnd(pages, NitterLastPage)
    ensures r.Ok? <==> forall k | 0 <= k < PagesEnd(pages, NitterLastPage) :: !IsHttpError(pages[k].code)
    ensures r.Ok? ==> |requested| == PagesEnd(pages, NitterLastPage) && r.value == NitterCollected(pages[..|requested|])
    ensures r.Err? ==>
      (r.error.code == pages[|requested| - 1].code && IsHttpError(r.error.code)
       && forall k | 0 <= k < |requested| - 1 :: !IsHttpError(pages[k].code))
    ensures requested[0] == SearchPath(username, first)
    ensures forall k | 0 < k < |requested| ::
      (pages[k - 1].next.Some? && requested[k] == SearchPath(username, pages[k - 1].next.value))
  {
    var n := PagesEnd(pages, NitterLastPage);
    requested := [];
    var params: Option<string> := Some(first);
    var tweets: seq<TwitterTweet> := [];
    var i := 0;
    while params.Some?
      invariant 0 <= i <= n
      invariant params.Some? <==> i < n
      invariant params.Some? ==> params.value == if i == 0 then first else pages[i - 1].next.value
      invariant |requested| == i && tweets == NitterCollected(pages[..i])
      invariant forall k | 0 <= k < i :: !IsHttpError(pages[k].code)
      invariant i > 0 ==> requested[0] == SearchPath(username, first)
      invariant forall k | 0 < k < i :: pages[k - 1].next.Some? && requested[k] == SearchPath(username, pages[k - 1].next.value)
      decreases n - i
    {
      requested := requested + [SearchPath(username, params.value)];
      var page := pages[i];
      if IsHttpError(page.code) {
        return Err(HttpError(page.code)), requested;
      }
      assert pages[..i + 1][..i] == pages[..i];
      tweets := tweets + page.tweets;
      params := page.next;
      assert params.Some? <==> !NitterLastPage(pages[i]);
      i := i + 1;
    }
    return Ok(tweets), requested;
  }

  /** Nitter's `get_tweets_in_range`: the since date is the start instant's
      date and the until date its ceiling (an overflow raises before any
      request); the search then runs on the server `pick_nitter_baseurl`
      chose (`Pick`), and `requested` holds the paths joined to it. */
  method NitterGetTweetsInRange(username: string, from: DateTime, to: DateTime, includeReplies: bool, pages: seq<NitterPage>)
    returns (r: Result<seq<TwitterTweet>, NitterError>, requested: seq<string>)
    requires ValidDateTime(from) && ValidDateTime(to)
    requires |pages| > 0 && NitterLastPage(pages[|pages| - 1])
    ensures NitterToDate(to).Err? ==> r == Err(DateFailure(OverflowError)) && requested == []
    ensures NitterToDate(to).Ok? ==>
      (|requested| > 0
       && requested[0] == SearchPath(username, NitterFirstParams(IsoFormat(from.date), IsoFormat(NitterToDate(to).value), includeReplies)))
    ensures r.Ok? ==>
      (NitterToDate(to).Ok? && |requested| == PagesEnd(pages, NitterLastPage)
       && (forall k | 0 <= k < |requested| :: !IsHttpError(pages[k].code))
       && r.value == NitterCollected(pages[..|requested|]))
    ensures r.Err? && r.error.RequestFailed? ==>
      (0 < |requested| <= |pages|
       && r.error.http.code == pages[|requested| - 1].code && IsHttpError(r.error.http.code)
       && forall k | 0 <= k < |requested| - 1 :: !IsHttpError(pages[k].code))
    ensures forall k | 0 < k < |requested| ::
      (k <= |pages| && pages[k - 1].next.Some? && requested[k] == SearchPath(username, pages[k - 1].next.value))
  {
    var toDate := NitterToDate(to);
    if toDate.Err? {
      return Err(DateFailure(toDate.error)), [];
    }
    var first := NitterFirstParams(IsoFormat(from.date), IsoFormat(toDate.value), includeReplies);
    var fetched;
    fetched, requested := FollowSearchPages(username, first, pages);
    if fetched.Err? {
      return Err(RequestFailed(fetched.error)), requested;
    }
    return Ok(fetched.value), requested;
  }
}
