/** Capture-side bookkeeping of chatter/twitter.py: the per-batch dataset of
    tweets, URLs, hashtags and user ids and its save rule; the round-robin
    list pointer; the geo-search back-off; the high-water mark of a list
    capture; and the bounded retry of an API request. Twitter itself, the
    database and the clock are parameters. */
module Capture {
  import opened Common
  import opened Util

  // ---------------------------------------------------------------- dataset

  /** The fields of a tweet the capture reads. `urls` are the
      `expanded_url`s of its URL entities, `media` those of its extended
      entities when that key is present. */
  datatype Tweet = Tweet(id: int, text: string, userId: int, createdAt: string,
                         urls: seq<string>, media: Option<seq<string>>,
                         retweetedId: Option<string>, hashtags: seq<string>)

  /** `(tweet_id, hash(url), url, netloc)`. */
  datatype UrlRow = UrlRow(tweetId: int, urlHash: string, url: string, netloc: string)

  /** `(tweet_id, text, user_id, created_at, retweeted_id)`. */
  datatype TweetRow = TweetRow(id: int, text: string, userId: int, createdAt: string, retweetedId: Option<string>)

  /** `TweetCaptureDataset`; `mentions` is never filled and is left out. */
  datatype Dataset = Dataset(tweets: seq<TweetRow>, urls: seq<UrlRow>,
                             hashtags: seq<(int, string)>, userids: set<int>)

  const Empty := Dataset([], [], [], {})

  /** The rows a tweet contributes when it is recorded. */
  function RowOf(t: Tweet): TweetRow {
    TweetRow(t.id, t.text, t.userId, t.createdAt, t.retweetedId)
  }

  predicate HasTweet(ds: Dataset, id: int) {
    exists i :: 0 <= i < |ds.tweets| && ds.tweets[i].id == id
  }

  predicate HasUser(ds: Dataset, uid: int) {
    exists i :: 0 <= i < |ds.tweets| && ds.tweets[i].userId == uid
  }

  /** What the dataset keeps between calls: every URL, hashtag and user id
      belongs to a recorded tweet. In particular nothing is pending while
      there are no tweets, which is why `save` tests only `tweets`. */
  predicate Inv(ds: Dataset) {
    && (forall i :: 0 <= i < |ds.urls| ==> HasTweet(ds, ds.urls[i].tweetId))
    && (forall i :: 0 <= i < |ds.hashtags| ==> HasTweet(ds, ds.hashtags[i].0))
    && (forall u :: u in ds.userids ==> HasUser(ds, u))
  }

  /** `_add_url`: an ignored host adds nothing and answers false; any other
      URL is appended with its hash and host. */
  function AddUrl(ds: Dataset, tweetId: int, url: string, ignore: set<string>, lib: Lib): (r: (Dataset, bool))
    ensures r.1 <==> lib.parse(url).netloc !in ignore
    ensures !r.1 ==> r.0 == ds
    ensures r.1 ==> r.0 == ds.(urls := ds.urls + [UrlRow(tweetId, lib.hash(url), url, lib.parse(url).netloc)])
  {
    var (parsed, ignored) := GetDomainIgnore(url, ignore, lib);
    if ignored then (ds, false)
    else (ds.(urls := ds.urls + [UrlRow(tweetId, lib.hash(url), url, parsed.netloc)]), true)
  }

  /** The URLs of `urls` whose host is not ignored, as rows, in order. */
  function KeptUrls(tweetId: int, urls: seq<string>, ignore: set<string>, lib: Lib): (r: seq<UrlRow>)
    ensures |r| <= |urls|
    ensures forall i :: 0 <= i < |r| ==> r[i].tweetId == tweetId && r[i].netloc !in ignore
    ensures |r| > 0 <==> exists i :: 0 <= i < |urls| && lib.parse(urls[i]).netloc !in ignore
  {
    if |urls| == 0 then []
    else
      var rest := KeptUrls(tweetId, urls[1..], ignore, lib);
      assert forall i :: 1 <= i < |urls| ==> urls[i] == urls[1..][i - 1];
      if lib.parse(urls[0]).netloc in ignore then rest
      else [UrlRow(tweetId, lib.hash(urls[0]), urls[0], lib.parse(urls[0]).netloc)] + rest
  }

  /** One `for url in ...: if self._add_url(...): has_url = True` loop. */
  function AddUrls(ds: Dataset, tweetId: int, urls: seq<string>, ignore: set<string>, lib: Lib, hasUrl: bool): (r: (Dataset, bool))
    ensures r.0 == ds.(urls := ds.urls + KeptUrls(tweetId, urls, ignore, lib))
    ensures r.1 <==> hasUrl || |KeptUrls(tweetId, urls, ignore, lib)| > 0
    decreases |urls|
  {
    if |urls| == 0 then (ds, hasUrl)
    else
      var (ds1, added) := AddUrl(ds, tweetId, urls[0], ignore, lib);
      assert ds.urls + KeptUrls(tweetId, urls, ignore, lib)
             == ds1.urls + KeptUrls(tweetId, urls[1..], ignore, lib);
      AddUrls(ds1, tweetId, urls[1..], ignore, lib, hasUrl || added)
  }

  /** Every URL the tweet carries, URL entities first, then media. */
  function AllUrls(t: Tweet): seq<string> {
    t.urls + t.media.GetOr([])
  }

  /** `(tweet_id, x['text'])` for each hashtag of the tweet. */
  function HashtagRows(t: Tweet): (r: seq<(int, string)>)
    ensures |r| == |t.hashtags|
    ensures forall i :: 0 <= i < |r| ==> r[i] == (t.id, t.hashtags[i])
  {
    seq(|t.hashtags|, i requires 0 <= i < |t.hashtags| => (t.id, t.hashtags[i]))
  }

  /** The two URL loops of `add_tweet` together: URL entities, then media. */
  function AddAllUrls(ds: Dataset, t: Tweet, ignore: set<string>, lib: Lib): (r: (Dataset, bool))
    ensures r.0 == ds.(urls := ds.urls + KeptUrls(t.id, AllUrls(t), ignore, lib))
    ensures r.1 <==> |KeptUrls(t.id, AllUrls(t), ignore, lib)| > 0
  {
    var (ds1, has1) := AddUrls(ds, t.id, t.urls, ignore, lib, false);
    KeptUrlsAppend(t.id, t.urls, t.media.GetOr([]), ignore, lib);
    if t.media.Some? then AddUrls(ds1, t.id, t.media.value, ignore, lib, has1)
    else
      assert AllUrls(t) == t.urls;
      (ds1, has1)
  }

  /** `add_tweet`: the kept URLs are appended; the tweet, its user and its
      hashtags are recorded iff at least one URL was kept. */
  function AddTweet(ds: Dataset, t: Tweet, ignore: set<string>, lib: Lib): (r: Dataset)
    ensures var kept := KeptUrls(t.id, AllUrls(t), ignore, lib);
            && r.urls == ds.urls + kept
            && (|kept| == 0 ==> r == ds)
            && (|kept| > 0 ==>
                  && r.tweets == ds.tweets + [RowOf(t)]
                  && r.userids == ds.userids + {t.userId}
                  && r.hashtags == ds.hashtags + HashtagRows(t))
  {
    var (ds2, has) := AddAllUrls(ds, t, ignore, lib);
    if has then
      ds2.(tweets := ds2.tweets + [RowOf(t)],
           userids := ds2.userids + {t.userId},
           hashtags := ds2.hashtags + HashtagRows(t))
    else ds2
  }

  lemma {:induction false} KeptUrlsAppend(id: int, a: seq<string>, b: seq<string>, ignore: set<string>, lib: Lib)
    ensures KeptUrls(id, a + b, ignore, lib) == KeptUrls(id, a, ignore, lib) + KeptUrls(id, b, ignore, lib)
  {
    if |a| > 0 {
      assert (a + b)[0] == a[0];
      assert (a + b)[1..] == a[1..] + b;
      KeptUrlsAppend(id, a[1..], b, ignore, lib);
    } else {
      assert a + b == b;
    }
  }

  /** Adding a tweet keeps every URL, hashtag and user id attached to a
      recorded tweet, although URLs are appended before the tweet is. */
  lemma AddTweetKeepsInv(ds: Dataset, t: Tweet, ignore: set<string>, lib: Lib)
    requires Inv(ds)
    ensures Inv(AddTweet(ds, t, ignore, lib))
  {
    var r := AddTweet(ds, t, ignore, lib);
    var kept := KeptUrls(t.id, AllUrls(t), ignore, lib);
    if |kept| > 0 {
      var n := |ds.tweets|;
      assert r.tweets[n].id == t.id && r.tweets[n].userId == t.userId;
      forall i | 0 <= i < |r.urls|
        ensures HasTweet(r, r.urls[i].tweetId)
      {
        if i < |ds.urls| {
          var j :| 0 <= j < |ds.tweets| && ds.tweets[j].id == ds.urls[i].tweetId;
          assert r.tweets[j] == ds.tweets[j];
        } else {
          assert r.urls[i] == kept[i - |ds.urls|];
        }
      }
      forall i | 0 <= i < |r.hashtags|
        ensures HasTweet(r, r.hashtags[i].0)
      {
        if i < |ds.hashtags| {
          var j :| 0 <= j < |ds.tweets| && ds.tweets[j].id == ds.hashtags[i].0;
          assert r.tweets[j] == ds.tweets[j];
        }
      }
      forall u | u in r.userids
        ensures HasUser(r, u)
      {
        if u in ds.userids {
          var j :| 0 <= j < |ds.tweets| && ds.tweets[j].userId == u;
          assert r.tweets[j] == ds.tweets[j];
        }
      }
    }
  }

  /** What one `save` writes, in order: tweets, URLs, hashtags, user ids. */
  datatype CaptureWrite = CaptureWrite(tweets: seq<TweetRow>, urls: seq<UrlRow>,
                                       hashtags: seq<(int, string)>, userids: set<int>)

  /** `save`: with no tweets nothing is written and nothing changes; with
      tweets everything pending is written and the dataset starts over. */
  function Save(ds: Dataset): (r: (Dataset, Option<CaptureWrite>))
    ensures r.1.Some? <==> |ds.tweets| > 0
    ensures r.1.None? ==> r.0 == ds
    ensures r.1.Some? ==> r.0 == Empty && r.1.value == CaptureWrite(ds.tweets, ds.urls, ds.hashtags, ds.userids)
  {
    if |ds.tweets| > 0 then (Empty, Some(CaptureWrite(ds.tweets, ds.urls, ds.hashtags, ds.userids)))
    else (ds, None)
  }

  /** Under the invariant, anything pending means there are tweets. */
  lemma PendingNeedsTweets(ds: Dataset)
    requires Inv(ds)
    ensures |ds.urls| > 0 || |ds.hashtags| > 0 || ds.userids != {} ==> |ds.tweets| > 0
  {
    if |ds.urls| > 0 {
      assert HasTweet(ds, ds.urls[0].tweetId);
    }
    if |ds.hashtags| > 0 {
      assert HasTweet(ds, ds.hashtags[0].0);
    }
    forall u | u in ds.userids
      ensures |ds.tweets| > 0
    {
      assert HasUser(ds, u);
    }
  }

  /** The guard on `tweets` alone loses nothing: when `save` writes
      nothing, nothing was pending. */
  lemma SaveLosesNothing(ds: Dataset)
    requires Inv(ds)
    requires Save(ds).1.None?
    ensures ds.urls == [] && ds.hashtags == [] && ds.userids == {}
  {
    PendingNeedsTweets(ds);
  }

  // ------------------------------------------------------------ list round-robin

  /** `ListInfo`: the list ids, the next one to capture, and when the ids
      were last read. */
  datatype ListInfo = ListInfo(lists: seq<string>, pointer: nat, lastUpdated: real)

  const RefreshSeconds: real := 3600.0

  /** `get_next_list` at time `now`, with `reread` what re-reading the ids
      would give. Indexing past the end raises `IndexError` (`None`). After
      the last list the pointer wraps to 0, and the ids are re-read if more
      than an hour has passed. */
  function GetNextList(li: ListInfo, now: real, reread: seq<string>): (r: Option<(string, ListInfo)>)
    ensures r.None? <==> li.pointer >= |li.lists|
    ensures r.Some? ==> r.value.0 == li.lists[li.pointer]
    ensures r.Some? && li.pointer + 1 < |li.lists| ==> r.value.1 == li.(pointer := li.pointer + 1)
    ensures r.Some? && li.pointer + 1 >= |li.lists| ==>
              && r.value.1.pointer == 0
              && (r.value.1.lists == if now > li.lastUpdated + RefreshSeconds then reread else li.lists)
  {
    if li.pointer >= |li.lists| then None
    else
      var out := li.lists[li.pointer];
      var p := li.pointer + 1;
      if p >= |li.lists| then
        if now > li.lastUpdated + RefreshSeconds then Some((out, ListInfo(reread, 0, now)))
        else Some((out, li.(pointer := 0)))
      else Some((out, li.(pointer := p)))
  }

  /** A valid pointer stays valid unless the ids are re-read as empty. */
  lemma PointerStaysValid(li: ListInfo, now: real, reread: seq<string>)
    requires li.pointer < |li.lists|
    requires |reread| > 0
    ensures var r := GetNextList(li, now, reread);
            r.Some? && r.value.1.pointer < |r.value.1.lists|
  {
  }

  /** `k` calls within the hour, each with the same `reread` ids. */
  function NextN(li: ListInfo, now: real, k: nat): ListInfo
    requires li.pointer < |li.lists|
    requires now <= li.lastUpdated + RefreshSeconds
    decreases k
  {
    if k == 0 then li
    else
      var r := GetNextList(li, now, []);
      NextN(r.value.1, now, k - 1)
  }

  /** Within the hour the lists are visited round-robin: after `k` calls the
      pointer has advanced by `k` modulo the number of lists, and the lists
      are unchanged. */
  lemma {:induction false} RoundRobin(li: ListInfo, now: real, k: nat)
    requires li.pointer < |li.lists|
    requires now <= li.lastUpdated + RefreshSeconds
    ensures NextN(li, now, k).lists == li.lists
    ensures NextN(li, now, k).pointer == (li.pointer + k) % |li.lists|
    decreases k
  {
    if k > 0 {
      var next := GetNextList(li, now, []).value.1;
      RoundRobin(next, now, k - 1);
      ModStep(li.pointer, k, |li.lists|);
    }
  }

  lemma ModStep(p: nat, k: nat, n: nat)
    requires p < n && k > 0
    ensures ((if p + 1 < n then p + 1 else 0) + (k - 1)) % n == (p + k) % n
  {
    if p + 1 == n {
      ModAddN(k - 1, n);
    }
  }

  lemma ModAddN(x: nat, n: nat)
    requires n > 0
    ensures (x + n) % n == x % n
  {
    var q, r := x / n, x % n;
    assert x == q * n + r;
    assert x + n == (q + 1) * n + r;
    DivModUnique(x + n, n, q + 1, r);
  }

  lemma MulAtLeast(a: int, n: int)
    requires a >= 1 && n > 0
    ensures a * n >= n
  {
    var b := a - 1;
    assert a * n == b * n + n;
    assert b * n >= 0;
  }

  /** `y % n` is the remainder of any division of `y` by `n`. */
  lemma DivModUnique(y: int, n: int, q: int, r: int)
    requires n > 0 && 0 <= r < n && y == q * n + r
    ensures y % n == r
  {
    var q', r' := y / n, y % n;
    assert y == q' * n + r';
    assert (q - q') * n == r' - r;
    if q > q' {
      MulAtLeast(q - q', n);
    } else if q < q' {
      MulAtLeast(q' - q, n);
    }
  }

  // ------------------------------------------------------------ geo back-off

  const GeoPause: real := 2.2
  const MaxCaptureSleepTime: real := 30.0

  /** What one round of `capture_geo` saw. */
  datatype GeoRound = HadTweets | NoTweets | Failed

  /** The sleep after one round of `capture_geo`: back to the base pause
      after tweets, one more pause (capped) after an empty round, unchanged
      after an error. With `exit_on_error` an error ends the capture
      (`None`). */
  function NextSleep(sleep: real, round: GeoRound, exitOnError: bool): (r: Option<real>)
    ensures r.None? <==> round.Failed? && exitOnError
    ensures round.HadTweets? ==> r == Some(GeoPause)
    ensures round.NoTweets? ==> r.Some? && r.value <= MaxCaptureSleepTime
    ensures round.NoTweets? && sleep + GeoPause <= MaxCaptureSleepTime ==> r == Some(sleep + GeoPause)
    ensures round.Failed? && !exitOnError ==> r == Some(sleep)
  {
    match round
    case HadTweets => Some(GeoPause)
    case NoTweets => Some(if sleep + GeoPause > MaxCaptureSleepTime then MaxCaptureSleepTime else sleep + GeoPause)
    case Failed => if exitOnError then None else Some(sleep)
  }

  /** The sleep after `k` empty rounds from the start. */
  function SleepAfterEmpty(k: nat): real {
    if k == 0 then GeoPause else NextSleep(SleepAfterEmpty(k - 1), NoTweets, true).value
  }

  /** After `k` empty rounds the capture sleeps `min(2.2 * (k + 1), 30)`
      seconds. */
  lemma {:induction false} EmptyRoundsBackOff(k: nat)
    ensures SleepAfterEmpty(k) == if GeoPause * (k + 1) as real > MaxCaptureSleepTime
                                  then MaxCaptureSleepTime else GeoPause * (k + 1) as real
  {
    if k > 0 {
      EmptyRoundsBackOff(k - 1);
    }
  }

  /** From any sleep in `[2.2, 30]`, every round keeps it there. */
  lemma SleepStaysInRange(sleep: real, round: GeoRound)
    requires GeoPause <= sleep <= MaxCaptureSleepTime
    ensures var r := NextSleep(sleep, round, false);
            r.Some? && GeoPause <= r.value <= MaxCaptureSleepTime
  {
  }

  /** The search cursor of `capture_geo` after one round, as written: each
      tweet whose id beats the `since_id` the capture started from (not the
      cursor) moves the cursor to its id, so the cursor ends on the last
      such tweet of the round, whatever its rank. */
  function GeoCursor(since: int, cursor: int, ids: seq<int>): (r: int)
    ensures (forall i :: 0 <= i < |ids| ==> ids[i] <= since) ==> r == cursor
    ensures (exists i :: 0 <= i < |ids| && ids[i] > since) ==>
              exists i :: && 0 <= i < |ids| && ids[i] == r && r > since
                          && forall j :: i < j < |ids| ==> ids[j] <= since
  {
    if |ids| == 0 then cursor
    else
      var init := ids[..|ids| - 1];
      assert forall i :: 0 <= i < |init| ==> init[i] == ids[i];
      if ids[|ids| - 1] > since then ids[|ids| - 1] else GeoCursor(since, cursor, init)
  }

  /** If the pager yields a round newest first, ids 30 then 20 above a
      `since_id` of 10 leave the cursor on 20, so the next search asks again
      for tweet 30. The pager's order is not part of this model. */
  lemma GeoCursorGoesBack()
    ensures GeoCursor(10, 10, [30, 20]) == 20
  {
    assert [30, 20][..1] == [30];
  }

  /** The cursor evidently intended: the largest id seen so far, compared
      against the cursor itself. */
  function MaxCursor(cursor: int, ids: seq<int>): (r: int)
    decreases |ids|
    ensures r >= cursor
    ensures forall i :: 0 <= i < |ids| ==> ids[i] <= r
    ensures r == cursor || exists i :: 0 <= i < |ids| && ids[i] == r
  {
    if |ids| == 0 then cursor
    else
      var next := if ids[0] > cursor then ids[0] else cursor;
      var r := MaxCursor(next, ids[1..]);
      assert forall i :: 1 <= i < |ids| ==> ids[i] == ids[1..][i - 1];
      r
  }

  /** If the pager yields a round oldest first, every id above the cursor,
      the cursor as written ends on the newest id, as intended. */
  lemma GeoCursorAscending(since: int, cursor: int, ids: seq<int>)
    requires since <= cursor
    requires forall i :: 0 <= i < |ids| ==> ids[i] > cursor
    requires forall i, j :: 0 <= i < j < |ids| ==> ids[i] <= ids[j]
    ensures GeoCursor(since, cursor, ids) == MaxCursor(cursor, ids)
  {
    if |ids| > 0 {
      var r := MaxCursor(cursor, ids);
      assert r >= ids[|ids| - 1] > cursor;
    }
  }

  /** With the intended cursor, the same round leaves it on 30. */
  lemma MaxCursorKeepsNewest()
    ensures MaxCursor(10, [30, 20]) == 30
  {
  }

  // ------------------------------------------------------------ list capture

  /** The tweets `capture_list` processes: the longest prefix whose ids are
      truthy and newer than `latest`. */
  predicate Processed(t: Tweet, latest: int) {
    t.id != 0 && t.id > latest
  }

  /** The tweet carries a URL whose host is not ignored. */
  predicate KeepsUrl(t: Tweet, ignore: set<string>, lib: Lib) {
    |KeptUrls(t.id, AllUrls(t), ignore, lib)| > 0
  }

  /** Some tweet among the first `n` keeps a URL. */
  predicate KeptAmong(ts: seq<Tweet>, n: nat, ignore: set<string>, lib: Lib)
    requires n <= |ts|
  {
    n > 0 && (KeptAmong(ts, n - 1, ignore, lib) || KeepsUrl(ts[n - 1], ignore, lib))
  }

  lemma {:induction false} KeptAmongMeans(ts: seq<Tweet>, n: nat, ignore: set<string>, lib: Lib)
    requires n <= |ts|
    ensures KeptAmong(ts, n, ignore, lib) <==> exists i :: 0 <= i < n && KeepsUrl(ts[i], ignore, lib)
  {
    if n > 0 {
      KeptAmongMeans(ts, n - 1, ignore, lib);
    }
  }

  /** The tweet rows of the tweets among the first `n` that keep a URL, in
      order. */
  function KeptRows(ts: seq<Tweet>, n: nat, ignore: set<string>, lib: Lib): (r: seq<TweetRow>)
    requires n <= |ts|
    ensures |r| <= n
  {
    if n == 0 then []
    else KeptRows(ts, n - 1, ignore, lib) + (if KeepsUrl(ts[n - 1], ignore, lib) then [RowOf(ts[n - 1])] else [])
  }

  /** The kept URL rows of the first `n` tweets, tweet after tweet. */
  function KeptUrlRows(ts: seq<Tweet>, n: nat, ignore: set<string>, lib: Lib): seq<UrlRow>
    requires n <= |ts|
  {
    if n == 0 then []
    else KeptUrlRows(ts, n - 1, ignore, lib) + KeptUrls(ts[n - 1].id, AllUrls(ts[n - 1]), ignore, lib)
  }

  /** The dataset after `add_tweet` on each of the first `n` tweets in
      turn, from empty: whatever tweets were added, it keeps its invariant,
      and it holds exactly the rows of the tweets that kept a URL and
      exactly their kept URL rows. */
  function Collected(ts: seq<Tweet>, n: nat, ignore: set<string>, lib: Lib): (r: Dataset)
    requires n <= |ts|
    ensures Inv(r)
    ensures r.tweets == KeptRows(ts, n, ignore, lib)
    ensures r.urls == KeptUrlRows(ts, n, ignore, lib)
  {
    if n == 0 then Empty
    else
      var before := Collected(ts, n - 1, ignore, lib);
      AddTweetKeepsInv(before, ts[n - 1], ignore, lib);
      AddTweet(before, ts[n - 1], ignore, lib)
  }

  /** Adding a tweet leaves the dataset holding a tweet exactly when it held
      one before or the new tweet kept a URL. */
  lemma AddTweetHasTweets(ds: Dataset, t: Tweet, ignore: set<string>, lib: Lib)
    ensures |AddTweet(ds, t, ignore, lib).tweets| > 0 <==> |ds.tweets| > 0 || KeepsUrl(t, ignore, lib)
  {
  }

  /** The dataset holds a tweet exactly when some added tweet had a URL
      that was kept. */
  lemma {:induction false} CollectedHasTweets(ts: seq<Tweet>, n: nat, ignore: set<string>, lib: Lib)
    requires n <= |ts|
    ensures |Collected(ts, n, ignore, lib).tweets| > 0 <==> KeptAmong(ts, n, ignore, lib)
  {
    if n > 0 {
      CollectedHasTweets(ts, n - 1, ignore, lib);
      AddTweetHasTweets(Collected(ts, n - 1, ignore, lib), ts[n - 1], ignore, lib);
    }
  }

  /** The loop of `capture_list` over the tweets the pager yields: tweets
      are taken until the first one with a falsy id or an id not newer than
      `latest`; the result is how many were taken and the largest id seen
      (at least `latest`). */
  method ScanTweets(latest: int, tweets: seq<Tweet>) returns (maxId: int, processed: nat)
    ensures processed <= |tweets|
    ensures forall i :: 0 <= i < processed ==> Processed(tweets[i], latest)
    ensures processed < |tweets| ==> !Processed(tweets[processed], latest)
    ensures maxId >= latest
    ensures forall i :: 0 <= i < processed ==> tweets[i].id <= maxId
    ensures maxId == latest || exists i :: 0 <= i < processed && tweets[i].id == maxId
  {
    maxId := latest;
    processed := 0;
    while processed < |tweets|
      invariant processed <= |tweets|
      invariant forall i :: 0 <= i < processed ==> Processed(tweets[i], latest)
      invariant maxId >= latest
      invariant forall i :: 0 <= i < processed ==> tweets[i].id <= maxId
      invariant maxId == latest || exists i :: 0 <= i < processed && tweets[i].id == maxId
    {
      var t := tweets[processed];
      if !Processed(t, latest) {
        break;
      }
      if t.id > maxId {
        maxId := t.id;
      }
      processed := processed + 1;
    }
  }

  /** `capture_list`: each taken tweet goes through `add_tweet`, then the
      final `save` writes exactly when some taken tweet kept a URL, and
      writes a consistent set of rows. */
  method CaptureList(latest: int, tweets: seq<Tweet>, ignore: set<string>, lib: Lib)
    returns (maxId: int, processed: nat, write: Option<CaptureWrite>)
    ensures processed <= |tweets|
    ensures forall i :: 0 <= i < processed ==> Processed(tweets[i], latest)
    ensures processed < |tweets| ==> !Processed(tweets[processed], latest)
    ensures maxId >= latest
    ensures forall i :: 0 <= i < processed ==> tweets[i].id <= maxId
    ensures maxId == latest || exists i :: 0 <= i < processed && tweets[i].id == maxId
    ensures write.Some? <==> exists i :: 0 <= i < processed && KeepsUrl(tweets[i], ignore, lib)
    ensures write.Some? ==> Inv(Dataset(write.value.tweets, write.value.urls, write.value.hashtags, write.value.userids))
    ensures write.Some? ==> && write.value.tweets == KeptRows(tweets, processed, ignore, lib)
                            && write.value.urls == KeptUrlRows(tweets, processed, ignore, lib)
  {
    maxId, processed := ScanTweets(latest, tweets);
    var ds := Collected(tweets, processed, ignore, lib);
    CollectedHasTweets(tweets, processed, ignore, lib);
    KeptAmongMeans(tweets, processed, ignore, lib);
    var saved := Save(ds);
    write := saved.1;
    assert write.Some? ==> Dataset(write.value.tweets, write.value.urls, write.value.hashtags, write.value.userids) == ds;
  }

  // ------------------------------------------------------------ API retry

  const MaxRequestTries: nat := 3

  /** One request attempt: a response, a request error with its HTTP status,
      or a connection error. */
  datatype Attempt = Response | RequestError(status: int) | ConnectionError

  /** An attempt that ends `_api_request` whatever the count: a response is
      returned, a request error below 500 is re-raised at once. */
  predicate Decisive(a: Attempt) {
    a.Response? || (a.RequestError? && a.status < 500)
  }

  /** The first decisive attempt in `[from, MaxRequestTries)`, if any. */
  function FirstDecisive(attempt: nat -> Attempt, from: nat): (r: Option<nat>)
    decreases MaxRequestTries - from
    ensures r.Some? ==> from <= r.value < MaxRequestTries && Decisive(attempt(r.value))
    ensures r.Some? ==> forall k :: from <= k < r.value ==> !Decisive(attempt(k))
    ensures r.None? ==> forall k :: from <= k < MaxRequestTries ==> !Decisive(attempt(k))
  {
    if from >= MaxRequestTries then None
    else if Decisive(attempt(from)) then Some(from)
    else FirstDecisive(attempt, from + 1)
  }

  /** `_api_request`, with `attempt(k)` the outcome of the k-th try. Returns
      how many tries were made and the outcome of the last, which is
      returned if it is a response and re-raised otherwise. */
  method ApiRequest(attempt: nat -> Attempt) returns (tries: nat, last: Attempt)
    ensures 1 <= tries <= MaxRequestTries
    ensures last == attempt(tries - 1)
    ensures match FirstDecisive(attempt, 0)
            case Some(k) => tries == k + 1
            case None => tries == MaxRequestTries
    ensures last.RequestError? && last.status < 500 ==> forall k :: 0 <= k < tries - 1 ==> !Decisive(attempt(k))
  {
    var numTries: nat := 0;
    tries := 0;
    last := attempt(0);
    while numTries < MaxRequestTries
      invariant numTries < MaxRequestTries
      invariant FirstDecisive(attempt, 0) == FirstDecisive(attempt, numTries)
      decreases MaxRequestTries - numTries
    {
      numTries := numTries + 1;
      var a := attempt(numTries - 1);
      if a.Response? {
        return numTries, a;
      }
      if a.RequestError? && a.status < 500 {
        return numTries, a;
      }
      if !ShouldContinue(numTries, MaxRequestTries) {
        return numTries, a;
      }
    }
    assert false;
  }
}
