/**
 * The `GET /` handler of run.js: the records the store returned are put in
 * reverse order and each is turned into a `Tweet` and added to a fresh
 * `TweetList`, whose rendering becomes the page's feed.
 */
module Feed {
  import opened Text
  import opened Tweets
  import opened TweetLists

  /** A stored document: the fields `name`, `tweet`, `latitude`, `longitude` and `date`. */
  datatype Record = Record(name: string, tweet: string, latitude: string, longitude: string, date: Date)

  /** `new Tweet(tweet.name, tweet.tweet, tweet.latitude, tweet.longitude, tweet.date)`. */
  function ToTweet(r: Record): Tweet
  {
    Tweet(r.name, r.tweet, r.latitude, r.longitude, r.date)
  }

  /** `Array.prototype.reverse`: the last element first. */
  function Reversed<T>(s: seq<T>): (r: seq<T>)
    ensures |r| == |s|
  {
    seq(|s|, i requires 0 <= i < |s| => s[|s| - 1 - i])
  }

  /**
   * The fragments of the given records' tweets, in the given order, for given
   * style attributes of the tweets; every `Tweet` has `TweetStyles`.
   */
  function RecordFragments(st: Styles, records: seq<Record>, timeString: TimeFormatter): (fs: seq<string>)
    ensures |fs| == |records|
  {
    seq(|records|, i requires 0 <= i < |records| => Markup(st, ToTweet(records[i]), timeString(records[i].date)))
  }

  /**
   * The feed markup for the records as the store returned them, for given
   * style attributes of the list and of the tweets; the handler's objects
   * carry `TweetListStyles` and `TweetStyles`.
   */
  function FeedHtml(ls: ListStyles, st: Styles, records: seq<Record>, timeString: TimeFormatter): string
  {
    ls.Render(RecordFragments(st, Reversed(records), timeString))
  }

  /** Lines 75-84: build the list from the reversed records and render it. */
  method BuildFeed(records: seq<Record>, timeString: TimeFormatter) returns (html: string)
    ensures html == FeedHtml(TweetListStyles, TweetStyles, records, timeString)
  {
    var tweetList := new TweetList();
    var tweets := Reversed(records);
    var i := 0;
    while i < |tweets|
      invariant 0 <= i <= |tweets|
      invariant tweetList.Valid() && tweetList.styles == TweetListStyles
      invariant tweetList.Fragments == RecordFragments(TweetStyles, tweets[..i], timeString)
    {
      var tweet := ToTweet(tweets[i]);
      tweetList.AddTweet(tweet, timeString);
      RecordFragmentsSnoc(TweetStyles, tweets, i, timeString);
      i := i + 1;
    }
    assert tweets[..i] == tweets;
    html := tweetList.GetHtml();
  }

  /** Taking one more record adds its fragment at the end. */
  lemma RecordFragmentsSnoc(st: Styles, records: seq<Record>, i: nat, timeString: TimeFormatter)
    requires i < |records|
    ensures RecordFragments(st, records[..i + 1], timeString)
         == RecordFragments(st, records[..i], timeString) + [Markup(st, ToTweet(records[i]), timeString(records[i].date))]
  {
    assert records[..i + 1][..i] == records[..i];
  }

  /** An empty store (for instance right after `POST /adminRemove`) gives an empty feed, and only then. */
  lemma FeedEmptyIff(ls: ListStyles, st: Styles, records: seq<Record>, timeString: TimeFormatter)
    ensures FeedHtml(ls, st, records, timeString) == "" <==> records == []
  {
    RenderEmptyIff(ls, RecordFragments(st, Reversed(records), timeString));
  }

  /** The `k`-th fragment of the reversed records is that of the record `k` places from the end. */
  lemma FragmentOfReversed(st: Styles, records: seq<Record>, timeString: TimeFormatter, k: nat)
    requires k < |records|
    ensures var r := records[|records| - 1 - k];
      RecordFragments(st, Reversed(records), timeString)[k] == Markup(st, ToTweet(r), timeString(r.date))
  {
  }

  /**
   * Reverse store order: the `k`-th wrapped fragment of the feed, which sits
   * right after the wrapper's opening tag and the `k` fragments before it, is
   * that of the record `k` places from the end of the store's list.
   */
  lemma FeedInReverseStoreOrder(ls: ListStyles, st: Styles, records: seq<Record>, timeString: TimeFormatter, k: nat)
    requires k < |records|
    ensures var fs, r := RecordFragments(st, Reversed(records), timeString), records[|records| - 1 - k];
      && fs[k] == Markup(st, ToTweet(r), timeString(r.date))
      && OccursAt(FeedHtml(ls, st, records, timeString), ls.Wrap(fs[k]), |ls.Open()| + |ls.Joined(fs[..k])|)
  {
    var fs := RecordFragments(st, Reversed(records), timeString);
    assert FeedHtml(ls, st, records, timeString) == ls.Render(fs);
    RenderPlacesFragment(ls, fs, k);
    FragmentOfReversed(st, records, timeString, k);
  }

  /**
   * The fragment right after the wrapper is that of the last record the store
   * returned; the handler reverses the store's order and never sorts by date.
   */
  lemma FeedStartsWithLastStored(ls: ListStyles, st: Styles, records: seq<Record>, timeString: TimeFormatter)
    requires records != []
    ensures var fs, r := RecordFragments(st, Reversed(records), timeString), records[|records| - 1];
      && fs[0] == Markup(st, ToTweet(r), timeString(r.date))
      && ls.Open() + ls.Wrap(fs[0]) <= FeedHtml(ls, st, records, timeString)
  {
    RenderStartsWithFirst(ls, RecordFragments(st, Reversed(records), timeString));
    FragmentOfReversed(st, records, timeString, 0);
  }

  /**
   * Every stored record is shown: its text, name, formatted time and both
   * coordinates each appear verbatim in the feed.
   */
  lemma FeedShowsEveryRecord(ls: ListStyles, st: Styles, records: seq<Record>, timeString: TimeFormatter, k: nat)
    requires k < |records|
    ensures var r, feed := records[k], FeedHtml(ls, st, records, timeString);
      && Contains(feed, r.tweet) && Contains(feed, r.name) && Contains(feed, timeString(r.date))
      && Contains(feed, r.latitude) && Contains(feed, r.longitude)
  {
    var fs := RecordFragments(st, Reversed(records), timeString);
    var j := |records| - 1 - k;
    var t := ToTweet(records[k]);
    FragmentOfReversed(st, records, timeString, j);
    MarkupShowsFields(st, t, timeString(t.date));
    RenderContains(ls, fs, j, t.text);
    RenderContains(ls, fs, j, t.name);
    RenderContains(ls, fs, j, timeString(t.date));
    RenderContains(ls, fs, j, t.latitude);
    RenderContains(ls, fs, j, t.longitude);
  }
}
