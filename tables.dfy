/** The ORM records of the newer storage layer and `_Base.to_dict`
    (twitterscraper/repository/tables.py). */
module Tables {
  import opened Wrappers
  import opened Dates
  import Encoders

  /** A row of `twitterscraper_profiles`. */
  datatype Profile = Profile(
    userid: int,
    username: string,
    enabled: bool,
    archiveorgEnabled: bool,
    joinedDate: Date,
    lastscanDate: Option<Date>)

  /** A row of `twitterscraper_tweets`; `data` is the tweet's JSON body. */
  datatype Tweet = Tweet(
    tweetid: int,
    userid: int,
    publishedOn: DateTime,
    data: Encoders.PyValue,
    deletionDetectedOn: Option<DateTime>,
    archiveorgUrl: Option<string>,
    archiveorgScheduled: bool)

  /** The primary key of a tweet row. */
  type TweetKey = (int, int)

  function KeyOf(t: Tweet): (k: TweetKey)
    ensures k.0 == t.tweetid && k.1 == t.userid
  {
    (t.tweetid, t.userid)
  }

  /** A profile row as inserted from the given columns: the column
      defaults give `enabled = True` (also passed explicitly),
      `archiveorg_enabled = True` and `lastscan_date = None`. */
  function NewProfile(userid: int, username: string, joinedDate: Date): (p: Profile)
    ensures p.userid == userid && p.username == username && p.joinedDate == joinedDate
    ensures p.enabled && p.archiveorgEnabled && p.lastscanDate.None?
  {
    Profile(userid, username, true, true, joinedDate, None)
  }

  /** A tweet row as inserted: no deletion mark, no archive URL, not
      scheduled for archiving. */
  function NewTweet(tweetid: int, userid: int, publishedOn: DateTime, data: Encoders.PyValue): (t: Tweet)
    ensures KeyOf(t) == (tweetid, userid) && t.publishedOn == publishedOn && t.data == data
    ensures t.deletionDetectedOn.None? && t.archiveorgUrl.None? && !t.archiveorgScheduled
  {
    Tweet(tweetid, userid, publishedOn, data, None, None, false)
  }

  /** A column value as the ORM holds it. */
  datatype ColumnValue =
    | IntValue(i: int)
    | StrValue(s: string)
    | BoolValue(b: bool)
    | DateValue(d: Date)
    | DateTimeValue(t: DateTime)
    | JsonValue(j: Encoders.PyValue)

  /** The mapper's columns of an ORM instance, in order, each with its
      attribute value (None when unset). */
  type Columns = seq<(string, Option<ColumnValue>)>

  predicate DistinctColumns(columns: Columns) {
    forall i, j | 0 <= i < j < |columns| :: columns[i].0 != columns[j].0
  }

  /** `to_dict`: every column whose value is not None, by column key. */
  method ToDict(columns: Columns) returns (d: map<string, ColumnValue>)
    requires DistinctColumns(columns)
    ensures forall c :: c in d <==> exists i | 0 <= i < |columns| :: columns[i].0 == c && columns[i].1.Some?
    ensures forall i | 0 <= i < |columns| && columns[i].1.Some? :: d[columns[i].0] == columns[i].1.value
  {
    d := map[];
    var i := 0;
    while i < |columns|
      invariant 0 <= i <= |columns|
      invariant forall c :: c in d <==> exists j | 0 <= j < i :: columns[j].0 == c && columns[j].1.Some?
      invariant forall j | 0 <= j < i && columns[j].1.Some? :: d[columns[j].0] == columns[j].1.value
    {
      var (column, value) := columns[i];
      if value.Some? {
        d := d[column := value.value];
      }
      i := i + 1;
    }
  }

  /** The attribute values of the Profile instance `write_profile` builds:
      userid, username, enabled and joined_date are given, the others are
      still unset. */
  function ProfileInstanceColumns(userid: int, username: string, joinedDate: Date): (cs: Columns)
    ensures DistinctColumns(cs)
  {
    [("userid", Some(IntValue(userid))),
     ("username", Some(StrValue(username))),
     ("enabled", Some(BoolValue(true))),
     ("archiveorg_enabled", None),
     ("joined_date", Some(DateValue(joinedDate))),
     ("lastscan_date", None)]
  }

  /** The dict `write_profile` inserts carries exactly the four given
      columns; the others take their column defaults on insert. */
  method ProfileInsertValues(userid: int, username: string, joinedDate: Date) returns (d: map<string, ColumnValue>)
    ensures d.Keys == {"userid", "username", "enabled", "joined_date"}
    ensures d["userid"] == IntValue(userid) && d["enabled"] == BoolValue(true)
  {
    var cs := ProfileInstanceColumns(userid, username, joinedDate);
    d := ToDict(cs);
    assert cs[0].0 == "userid" && cs[1].0 == "username" && cs[2].0 == "enabled" && cs[4].0 == "joined_date";
    forall c | c in d ensures c in {"userid", "username", "enabled", "joined_date"} {
      var i :| 0 <= i < |cs| && cs[i].0 == c && cs[i].1.Some?;
    }
  }
}
