/** `Twitterclient.ensure_tweets_are_deleted`
    (twitterscraper/twitterclient/twitterclient.py). */
module Twitterclient {

  /** `get_tweet(tweet_id, search_all_instances=True)` is truthy: an oracle
      over the Nitter mirrors. */
  type TweetLookup = int -> bool

  /** The ids the lookup no longer finds. */
  function NotFound(ids: seq<int>, found: TweetLookup): (r: set<int>)
    ensures forall id :: id in r <==> id in ids && !found(id)
  {
    set id | id in ids && !found(id)
  }

  /** Checks every id once, in the order given (the source runs the checks
      concurrently; the set they fill does not depend on the order), and
      returns the ids whose lookup came back falsy. `checked` records the
      lookups made. */
  method EnsureTweetsAreDeleted(ids: seq<int>, found: TweetLookup) returns (deleted: set<int>, checked: seq<int>)
    ensures deleted == NotFound(ids, found)
    ensures checked == ids
  {
    deleted := {};
    checked := [];
    var i := 0;
    while i < |ids|
      invariant 0 <= i <= |ids|
      invariant checked == ids[..i]
      invariant deleted == NotFound(ids[..i], found)
    {
      var id := ids[i];
      checked := checked + [id];
      if !found(id) {
        deleted := deleted + {id};
      }
      assert ids[..i + 1] == ids[..i] + [id];
      i := i + 1;
    }
    assert ids[..i] == ids;
  }

  /** The result is a subset of the input, an id is in it iff it is no
      longer found, and an empty input gives an empty set. */
  lemma NotFoundProperties(ids: seq<int>, found: TweetLookup)
    ensures NotFound(ids, found) <= set id | id in ids
    ensures ids == [] ==> NotFound(ids, found) == {}
    ensures (forall i | 0 <= i < |ids| :: found(ids[i])) ==> NotFound(ids, found) == {}
  {
  }
}
