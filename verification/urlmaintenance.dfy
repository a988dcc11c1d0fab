/** Resolution of captured URLs to their real URL (chatter/urlmaintenance.py):
    the per-URL state machine of `UrlMetadataDataset.process_url`, topic
    recording, `reset`, and the effect of `save` on the stored URL rows.

    The HTTP fetch is abstract (`FetchOutcome`), and so are the page's
    metadata (`Page`) and the classifier (`Classify`): any answer is
    allowed, and a `None` answer stands for the classifier declining a page
    with too little text. */
module UrlMaintenance {
  import opened Common
  import opened Util
  import Classifier
  import Config

  /** A stored URL still waiting for its real URL: `{url, url_hash, domain}`. */
  datatype PendingUrl = PendingUrl(url: string, urlHash: string, domain: string)

  /** What `get_url_metadata` makes of the page: a title and a description,
      either possibly `None`, or an exception (no `<title>`, say). */
  datatype Page = Metadata(title: Option<string>, description: Option<string>) | Unparseable

  /** `requests.get(url)`: it raised, or it followed the redirects to
      `finalUrl` and answered with `status` and a page. */
  datatype FetchOutcome = Fail | Resp(finalUrl: string, status: int, page: Page)

  /** `(real_url, real_url_hash, domain, url_hash)`, the row update queued. */
  datatype UrlUpdate = UrlUpdate(realUrl: string, realUrlHash: string, domain: string, urlHash: string)

  /** `(real_url_hash, title, desc)`. */
  datatype UrlInfo = UrlInfo(realUrlHash: string, title: Option<string>, description: Option<string>)

  /** `(real_url_hash, topic, score)`. */
  datatype TopicRow = TopicRow(realUrlHash: string, topic: string, score: real)

  /** The fields of `UrlMetadataDataset`: the failure counter and the four
      lists written by `save`. */
  datatype Dataset = Dataset(requestFails: map<string, nat>, urlInfo: seq<UrlInfo>,
                             urlTopics: seq<TopicRow>, realUrlUpdates: seq<UrlUpdate>,
                             hashesToDelete: seq<string>)

  /** The classification collaborator, called with `(title, description)`. */
  type Classify = (Option<string>, Option<string>) -> Option<seq<Classifier.Topic>>

  /** The topic recorded for a page the classifier found nothing in. */
  const NoTopicLabel: string := "None"

  /** `Counter[h]`: zero for a hash never counted. */
  function FailCount(fails: map<string, nat>, h: string): nat {
    if h in fails then fails[h] else 0
  }

  /** A fresh dataset, as `__init__` builds it. */
  const Empty: Dataset := Dataset(map[], [], [], [], [])

  /** Whether `process_url` fetches the URL at all: the stored domain is a
      domain of interest, or the URL is short enough to be a short link. */
  predicate Fetchable(t: PendingUrl, validDomains: set<string>, cfg: Config.Settings) {
    t.domain in validDomains || |t.url| < cfg.maxTinyUrlLength
  }

  /** `reset`: the four output lists are cleared; the failure counter is kept
      so that failures add up across polling cycles. */
  function Reset(ds: Dataset): (r: Dataset)
    ensures r.requestFails == ds.requestFails
    ensures r.urlInfo == [] && r.urlTopics == [] && r.realUrlUpdates == [] && r.hashesToDelete == []
  {
    ds.(urlInfo := [], urlTopics := [], realUrlUpdates := [], hashesToDelete := [])
  }

  /** `get_topics` once the classifier has answered with a list: one row per
      topic in order, or the single sentinel row when the list is empty. */
  function GetTopics(ds: Dataset, realUrlHash: string, topics: seq<Classifier.Topic>): (r: Dataset)
    ensures r == ds.(urlTopics := r.urlTopics)
    ensures |r.urlTopics| == |ds.urlTopics| + (if |topics| == 0 then 1 else |topics|)
    ensures r.urlTopics[..|ds.urlTopics|] == ds.urlTopics
    ensures |topics| == 0 ==> r.urlTopics[|ds.urlTopics|] == TopicRow(realUrlHash, NoTopicLabel, 1.0)
    ensures forall i :: 0 <= i < |topics| ==>
              r.urlTopics[|ds.urlTopics| + i] == TopicRow(realUrlHash, topics[i].topic, topics[i].score)
  {
    if |topics| == 0 then ds.(urlTopics := ds.urlTopics + [TopicRow(realUrlHash, NoTopicLabel, 1.0)])
    else ds.(urlTopics := ds.urlTopics + seq(|topics|, i requires 0 <= i < |topics| =>
                                              TopicRow(realUrlHash, topics[i].topic, topics[i].score)))
  }

  /** The topics stored in some topic rows, read back in order. */
  function RowTopics(rows: seq<TopicRow>): (r: seq<Classifier.Topic>)
    ensures |r| == |rows|
    ensures forall i :: 0 <= i < |rows| ==> r[i] == Classifier.Topic(rows[i].topic, rows[i].score)
  {
    seq(|rows|, i requires 0 <= i < |rows| => Classifier.Topic(rows[i].topic, rows[i].score))
  }

  /** Reading back the rows `get_topics` appends gives the classifier's
      answer, or the single sentinel topic for an empty answer, and every
      one of them carries the URL's hash. */
  lemma GetTopicsReadBack(ds: Dataset, realUrlHash: string, topics: seq<Classifier.Topic>)
    ensures var added := GetTopics(ds, realUrlHash, topics).urlTopics[|ds.urlTopics|..];
            && RowTopics(added) == (if |topics| == 0 then [Classifier.Topic(NoTopicLabel, 1.0)] else topics)
            && forall i :: 0 <= i < |added| ==> added[i].realUrlHash == realUrlHash
  {
    var added := GetTopics(ds, realUrlHash, topics).urlTopics[|ds.urlTopics|..];
    if |topics| > 0 {
      assert forall i :: 0 <= i < |topics| ==> added[i] == GetTopics(ds, realUrlHash, topics).urlTopics[|ds.urlTopics| + i];
    }
  }

  /** The common tail of `process_url`: forget the URL's failures and queue
      its row update. */
  function Finish(ds: Dataset, upd: UrlUpdate): (r: Dataset)
    ensures FailCount(r.requestFails, upd.urlHash) == 0
    ensures forall h :: h != upd.urlHash ==> FailCount(r.requestFails, h) == FailCount(ds.requestFails, h)
    ensures r.realUrlUpdates == ds.realUrlUpdates + [upd]
    ensures r.urlInfo == ds.urlInfo && r.urlTopics == ds.urlTopics && r.hashesToDelete == ds.hashesToDelete
  {
    ds.(requestFails := ds.requestFails - {upd.urlHash}, realUrlUpdates := ds.realUrlUpdates + [upd])
  }

  /** The `except` branch of `process_url`: count the failure and return
      early while the budget lasts; otherwise fall through with whatever
      `upd` the try block had reached. */
  function Failed(ds: Dataset, upd: UrlUpdate, retries: nat): (r: Dataset)
    ensures var n := FailCount(ds.requestFails, upd.urlHash) + 1;
            && (n < retries ==> FailCount(r.requestFails, upd.urlHash) == n && r.realUrlUpdates == ds.realUrlUpdates)
            && (n >= retries ==> FailCount(r.requestFails, upd.urlHash) == 0 && r.realUrlUpdates == ds.realUrlUpdates + [upd])
    ensures forall h :: h != upd.urlHash ==> FailCount(r.requestFails, h) == FailCount(ds.requestFails, h)
    ensures r.urlInfo == ds.urlInfo && r.urlTopics == ds.urlTopics && r.hashesToDelete == ds.hashesToDelete
  {
    var n := FailCount(ds.requestFails, upd.urlHash) + 1;
    var counted := ds.(requestFails := ds.requestFails[upd.urlHash := n]);
    if n < retries then counted else Finish(counted, upd)
  }

  /** `process_url` for one pending URL, given what the fetch does. */
  function ProcessUrl(ds: Dataset, t: PendingUrl, validDomains: set<string>, cfg: Config.Settings,
                      outcome: FetchOutcome, lib: Lib, classify: Classify): (r: Dataset)
    // Either the early return of a failure within budget, which only counts the failure ...
    ensures || (&& Fetchable(t, validDomains, cfg)
                && FailCount(ds.requestFails, t.urlHash) + 1 < cfg.requestRetries
                && r == ds.(requestFails := ds.requestFails[t.urlHash := FailCount(ds.requestFails, t.urlHash) + 1]))
    // ... or exactly one row update for this URL, with its failures forgotten.
            || (&& |r.realUrlUpdates| == |ds.realUrlUpdates| + 1
                && r.realUrlUpdates[..|ds.realUrlUpdates|] == ds.realUrlUpdates
                && r.realUrlUpdates[|ds.realUrlUpdates|].urlHash == t.urlHash
                && r.requestFails == ds.requestFails - {t.urlHash})
    // Not fetched: the stored values are written back as the real ones.
    ensures !Fetchable(t, validDomains, cfg) ==>
              r == ds.(requestFails := ds.requestFails - {t.urlHash},
                       realUrlUpdates := ds.realUrlUpdates + [UrlUpdate(t.url, t.urlHash, t.domain, t.urlHash)])
    // Deletions are queued only for this URL, and only when the fetch ends on an ignored host.
    ensures r.hashesToDelete == ds.hashesToDelete
            || (&& r.hashesToDelete == ds.hashesToDelete + [t.urlHash]
                && Fetchable(t, validDomains, cfg) && outcome.Resp?
                && lib.parse(outcome.finalUrl).netloc in cfg.domainsToIgnore)
    ensures Fetchable(t, validDomains, cfg) && outcome.Resp? ==>
              var p := lib.parse(outcome.finalUrl);
              // An ignored final host: delete, and write back the raw URL with the new host.
              && (p.netloc in cfg.domainsToIgnore ==>
                    r == ds.(requestFails := ds.requestFails - {t.urlHash},
                             realUrlUpdates := ds.realUrlUpdates + [UrlUpdate(t.url, t.urlHash, p.netloc, t.urlHash)],
                             hashesToDelete := ds.hashesToDelete + [t.urlHash]))
              // A dead link: only the host is updated, it is never promoted or enriched.
              && (p.netloc !in cfg.domainsToIgnore && outcome.status == 404 ==>
                    r == ds.(requestFails := ds.requestFails - {t.urlHash},
                             realUrlUpdates := ds.realUrlUpdates + [UrlUpdate(t.url, t.urlHash, p.netloc, t.urlHash)]))
              // A live page off the domains of interest: promoted to its cleansed URL, not enriched.
              && (p.netloc !in cfg.domainsToIgnore && outcome.status != 404 && p.netloc !in validDomains ==>
                    var realUrl := lib.unparse(CleanseParseResult(p));
                    r == ds.(requestFails := ds.requestFails - {t.urlHash},
                             realUrlUpdates := ds.realUrlUpdates + [UrlUpdate(realUrl, lib.hash(realUrl), p.netloc, t.urlHash)]))
    // Enrichment happens only for a live page on a domain of interest, topics before info.
    ensures r.urlInfo == ds.urlInfo || (|r.urlInfo| == |ds.urlInfo| + 1 && r.urlInfo[..|ds.urlInfo|] == ds.urlInfo)
    ensures r.urlInfo != ds.urlInfo ==>
              && Fetchable(t, validDomains, cfg) && outcome.Resp? && outcome.status != 404
              && lib.parse(outcome.finalUrl).netloc !in cfg.domainsToIgnore
              && lib.parse(outcome.finalUrl).netloc in validDomains
              && |r.urlTopics| > |ds.urlTopics|
              && var realUrl := lib.unparse(CleanseParseResult(lib.parse(outcome.finalUrl)));
                 && r.urlInfo[|ds.urlInfo|].realUrlHash == lib.hash(realUrl)
                 && r.realUrlUpdates == ds.realUrlUpdates + [UrlUpdate(realUrl, lib.hash(realUrl), lib.parse(outcome.finalUrl).netloc, t.urlHash)]
    ensures r.urlTopics != ds.urlTopics ==> r.urlInfo != ds.urlInfo
  {
    if !Fetchable(t, validDomains, cfg) then
      Finish(ds, UrlUpdate(t.url, t.urlHash, t.domain, t.urlHash))
    else match outcome
      case Fail => Failed(ds, UrlUpdate(t.url, t.urlHash, t.domain, t.urlHash), cfg.requestRetries)
      case Resp(finalUrl, status, page) =>
        var (p, ignored) := GetDomainIgnore(finalUrl, cfg.domainsToIgnore, lib);
        var domain := p.netloc;
        if ignored then
          Finish(ds.(hashesToDelete := ds.hashesToDelete + [t.urlHash]), UrlUpdate(t.url, t.urlHash, domain, t.urlHash))
        else if status == 404 then
          Finish(ds, UrlUpdate(t.url, t.urlHash, domain, t.urlHash))
        else
          var realUrl := lib.unparse(CleanseParseResult(p));
          var upd := UrlUpdate(realUrl, lib.hash(realUrl), domain, t.urlHash);
          if domain !in validDomains then Finish(ds, upd)
          else match page
            case Unparseable => Failed(ds, upd, cfg.requestRetries)
            case Metadata(title, desc) =>
              match classify(title, desc)
              // `len(None)` raises inside the try block.
              case None => Failed(ds, upd, cfg.requestRetries)
              case Some(topics) =>
                var withTopics := GetTopics(ds, upd.realUrlHash, topics);
                Finish(withTopics.(urlInfo := withTopics.urlInfo + [UrlInfo(upd.realUrlHash, title, desc)]), upd)
  }

  /** A live page on a domain of interest whose host is not ignored, and
      which the classifier answered: the URL is promoted to its cleansed
      real URL and hash, the topic rows of the answer are appended, then one
      info row with the page's title and description, and the failures of
      the URL are forgotten. */
  lemma EnrichedPage(ds: Dataset, t: PendingUrl, validDomains: set<string>, cfg: Config.Settings,
                     finalUrl: string, status: int, title: Option<string>, desc: Option<string>,
                     lib: Lib, classify: Classify)
    ensures var p := lib.parse(finalUrl);
            var realUrl := lib.unparse(CleanseParseResult(p));
            var upd := UrlUpdate(realUrl, lib.hash(realUrl), p.netloc, t.urlHash);
            var r := ProcessUrl(ds, t, validDomains, cfg, Resp(finalUrl, status, Metadata(title, desc)), lib, classify);
            Fetchable(t, validDomains, cfg) && p.netloc !in cfg.domainsToIgnore && status != 404
              && p.netloc in validDomains && classify(title, desc).Some? ==>
              && r.realUrlUpdates == ds.realUrlUpdates + [upd]
              && r.urlInfo == ds.urlInfo + [UrlInfo(upd.realUrlHash, title, desc)]
              && r.urlTopics == GetTopics(ds, upd.realUrlHash, classify(title, desc).value).urlTopics
              && r.requestFails == ds.requestFails - {t.urlHash}
              && r.hashesToDelete == ds.hashesToDelete
  {
  }

  /** The same page when enrichment raises: the metadata cannot be read,
      or the classifier answers `None`. The failure is counted; while the
      budget lasts nothing else happens, and once it is spent the fallback
      update carries the cleansed real URL already computed. */
  lemma EnrichmentFails(ds: Dataset, t: PendingUrl, validDomains: set<string>, cfg: Config.Settings,
                        finalUrl: string, status: int, page: Page, lib: Lib, classify: Classify)
    ensures var p := lib.parse(finalUrl);
            var realUrl := lib.unparse(CleanseParseResult(p));
            var upd := UrlUpdate(realUrl, lib.hash(realUrl), p.netloc, t.urlHash);
            var n := FailCount(ds.requestFails, t.urlHash) + 1;
            var r := ProcessUrl(ds, t, validDomains, cfg, Resp(finalUrl, status, page), lib, classify);
            Fetchable(t, validDomains, cfg) && p.netloc !in cfg.domainsToIgnore && status != 404
              && p.netloc in validDomains
              && (page.Unparseable? || (page.Metadata? && classify(page.title, page.description).None?)) ==>
              && (n < cfg.requestRetries ==> r == ds.(requestFails := ds.requestFails[t.urlHash := n]))
              && (n >= cfg.requestRetries ==>
                    r == ds.(requestFails := ds.requestFails - {t.urlHash},
                             realUrlUpdates := ds.realUrlUpdates + [upd]))
  {
    var p := lib.parse(finalUrl);
    var realUrl := lib.unparse(CleanseParseResult(p));
    var upd := UrlUpdate(realUrl, lib.hash(realUrl), p.netloc, t.urlHash);
    var n := FailCount(ds.requestFails, t.urlHash) + 1;
    if Fetchable(t, validDomains, cfg) && p.netloc !in cfg.domainsToIgnore && status != 404
       && p.netloc in validDomains
       && (page.Unparseable? || (page.Metadata? && classify(page.title, page.description).None?)) {
      assert ProcessUrl(ds, t, validDomains, cfg, Resp(finalUrl, status, page), lib, classify)
             == Failed(ds, upd, cfg.requestRetries);
      assert ds.requestFails[t.urlHash := n] - {t.urlHash} == ds.requestFails - {t.urlHash};
    }
  }

  /** The outcome is consulted only when the URL is fetched at all. */
  lemma OutcomeIgnoredWhenNotFetched(ds: Dataset, t: PendingUrl, validDomains: set<string>, cfg: Config.Settings,
                                      o1: FetchOutcome, o2: FetchOutcome, lib: Lib, classify: Classify)
    requires !Fetchable(t, validDomains, cfg)
    ensures ProcessUrl(ds, t, validDomains, cfg, o1, lib, classify) == ProcessUrl(ds, t, validDomains, cfg, o2, lib, classify)
  {
  }

  /** A fetch happens iff the URL is fetchable: a fetch landing on an ignored
      host queues a deletion exactly then. */
  lemma FetchAttemptedIff(ds: Dataset, t: PendingUrl, validDomains: set<string>, cfg: Config.Settings,
                          finalUrl: string, page: Page, lib: Lib, classify: Classify)
    requires lib.parse(finalUrl).netloc in cfg.domainsToIgnore
    ensures Fetchable(t, validDomains, cfg)
            <==> |ProcessUrl(ds, t, validDomains, cfg, Resp(finalUrl, 200, page), lib, classify).hashesToDelete| > |ds.hashesToDelete|
  {
  }

  /** The dataset after `k` polling cycles in which fetching `t` raises every
      time: each cycle processes the URL, saves and resets. */
  function AfterFailedPolls(ds: Dataset, t: PendingUrl, validDomains: set<string>, cfg: Config.Settings,
                            lib: Lib, classify: Classify, k: nat): Dataset
  {
    if k == 0 then ds
    else Reset(ProcessUrl(AfterFailedPolls(ds, t, validDomains, cfg, lib, classify, k - 1),
                          t, validDomains, cfg, Fail, lib, classify))
  }

  /** Below the budget, failures only accumulate in the counter, across
      resets. */
  lemma {:induction false} FailuresAccumulate(ds: Dataset, t: PendingUrl, validDomains: set<string>,
                                              cfg: Config.Settings, lib: Lib, classify: Classify, k: nat)
    requires Fetchable(t, validDomains, cfg)
    requires t.urlHash !in ds.requestFails
    requires k < cfg.requestRetries
    ensures AfterFailedPolls(ds, t, validDomains, cfg, lib, classify, k).requestFails
            == if k == 0 then ds.requestFails else ds.requestFails[t.urlHash := k]
  {
    if k > 0 {
      FailuresAccumulate(ds, t, validDomains, cfg, lib, classify, k - 1);
      var prev := AfterFailedPolls(ds, t, validDomains, cfg, lib, classify, k - 1);
      assert FailCount(prev.requestFails, t.urlHash) == k - 1;
      if k - 1 > 0 {
        assert ds.requestFails[t.urlHash := k - 1][t.urlHash := k] == ds.requestFails[t.urlHash := k];
      }
    }
  }

  /** Below the budget, the `k`-th failing poll of `t` only counts the
      failure. */
  lemma PollBelowBudget(ds: Dataset, t: PendingUrl, validDomains: set<string>, cfg: Config.Settings,
                        lib: Lib, classify: Classify, k: nat)
    requires Fetchable(t, validDomains, cfg)
    requires t.urlHash !in ds.requestFails
    requires 1 <= k < cfg.requestRetries
    ensures var before := AfterFailedPolls(ds, t, validDomains, cfg, lib, classify, k - 1);
            var polled := ProcessUrl(before, t, validDomains, cfg, Fail, lib, classify);
            && polled.realUrlUpdates == before.realUrlUpdates
            && polled.requestFails == ds.requestFails[t.urlHash := k]
  {
    FailuresAccumulate(ds, t, validDomains, cfg, lib, classify, k - 1);
    var before := AfterFailedPolls(ds, t, validDomains, cfg, lib, classify, k - 1);
    assert FailCount(before.requestFails, t.urlHash) == k - 1;
    assert ProcessUrl(before, t, validDomains, cfg, Fail, lib, classify)
           == Failed(before, UrlUpdate(t.url, t.urlHash, t.domain, t.urlHash), cfg.requestRetries);
    if k - 1 > 0 {
      assert ds.requestFails[t.urlHash := k - 1][t.urlHash := k] == ds.requestFails[t.urlHash := k];
    }
  }

  /** The poll that reaches the budget writes the raw URL back and clears
      the counter. */
  lemma PollSpendsBudget(ds: Dataset, t: PendingUrl, validDomains: set<string>, cfg: Config.Settings,
                         lib: Lib, classify: Classify)
    requires Fetchable(t, validDomains, cfg)
    requires t.urlHash !in ds.requestFails
    requires cfg.requestRetries >= 1
    ensures var before := AfterFailedPolls(ds, t, validDomains, cfg, lib, classify, cfg.requestRetries - 1);
            var polled := ProcessUrl(before, t, validDomains, cfg, Fail, lib, classify);
            && polled.realUrlUpdates == before.realUrlUpdates + [UrlUpdate(t.url, t.urlHash, t.domain, t.urlHash)]
            && polled.requestFails == ds.requestFails
  {
    var k := cfg.requestRetries;
    FailuresAccumulate(ds, t, validDomains, cfg, lib, classify, k - 1);
    var before := AfterFailedPolls(ds, t, validDomains, cfg, lib, classify, k - 1);
    assert FailCount(before.requestFails, t.urlHash) == k - 1;
    assert ProcessUrl(before, t, validDomains, cfg, Fail, lib, classify)
           == Failed(before, UrlUpdate(t.url, t.urlHash, t.domain, t.urlHash), cfg.requestRetries);
    assert ds.requestFails[t.urlHash := k - 1] - {t.urlHash} == ds.requestFails;
  }

  /** The retry budget: for a URL whose fetch always raises, polls
      `1 .. retries-1` write nothing for it, and poll `retries` writes the
      raw URL back as its real URL and clears its counter. */
  lemma RetryBudget(ds: Dataset, t: PendingUrl, validDomains: set<string>, cfg: Config.Settings,
                    lib: Lib, classify: Classify, k: nat)
    requires Fetchable(t, validDomains, cfg)
    requires t.urlHash !in ds.requestFails
    requires 1 <= k <= cfg.requestRetries
    ensures var before := AfterFailedPolls(ds, t, validDomains, cfg, lib, classify, k - 1);
            var polled := ProcessUrl(before, t, validDomains, cfg, Fail, lib, classify);
            && (k < cfg.requestRetries ==>
                  && polled.realUrlUpdates == before.realUrlUpdates
                  && polled.requestFails == ds.requestFails[t.urlHash := k])
            && (k == cfg.requestRetries ==>
                  && polled.realUrlUpdates == before.realUrlUpdates + [UrlUpdate(t.url, t.urlHash, t.domain, t.urlHash)]
                  && polled.requestFails == ds.requestFails)
  {
    if k < cfg.requestRetries {
      PollBelowBudget(ds, t, validDomains, cfg, lib, classify, k);
    } else {
      PollSpendsBudget(ds, t, validDomains, cfg, lib, classify);
    }
  }

  // ---------------------------------------------------------------------
  // save: the effect on the stored URL rows
  // ---------------------------------------------------------------------

  /** A stored URL row (`tweeted_urls`), keyed by `url_hash`. */
  datatype StoredUrl = StoredUrl(domain: string, realUrl: Option<string>, realUrlHash: Option<string>)

  /** The batches `save` writes, in the order it writes them. */
  datatype SaveBatch =
    | DeleteUrls(hashes: seq<string>)
    | UpdateUrls(updates: seq<UrlUpdate>)
    | AddUrlInfo(info: seq<UrlInfo>)
    | AddUrlTopics(topics: seq<TopicRow>)

  function SaveBatches(ds: Dataset): seq<SaveBatch> {
    [DeleteUrls(ds.hashesToDelete), UpdateUrls(ds.realUrlUpdates), AddUrlInfo(ds.urlInfo), AddUrlTopics(ds.urlTopics)]
  }

  /** `DELETE ... WHERE url_hash=%s`, once per queued hash. */
  function ApplyDeletes(store: map<string, StoredUrl>, hs: seq<string>): (r: map<string, StoredUrl>)
    ensures r.Keys == store.Keys - (set h | h in hs)
    ensures forall k :: k in r ==> r[k] == store[k]
  {
    if |hs| == 0 then store
    else
      var r := ApplyDeletes(store - {hs[0]}, hs[1..]);
      assert (set h | h in hs) == {hs[0]} + (set h | h in hs[1..]);
      r
  }

  function ApplyUpdate(row: StoredUrl, u: UrlUpdate): StoredUrl {
    StoredUrl(u.domain, Some(u.realUrl), Some(u.realUrlHash))
  }

  /** The last queued update for `h`, if any. */
  function LastUpdateFor(ups: seq<UrlUpdate>, h: string): Option<UrlUpdate> {
    if |ups| == 0 then None
    else if ups[|ups| - 1].urlHash == h then Some(ups[|ups| - 1])
    else LastUpdateFor(ups[..|ups| - 1], h)
  }

  /** `UPDATE ... WHERE url_hash=%s`, in queue order: rows that exist take
      their last update; no row is created. */
  function ApplyUpdates(store: map<string, StoredUrl>, ups: seq<UrlUpdate>): (r: map<string, StoredUrl>)
    ensures r.Keys == store.Keys
    ensures forall k :: k in r ==> r[k] == match LastUpdateFor(ups, k)
                                           case None => store[k]
                                           case Some(u) => ApplyUpdate(store[k], u)
  {
    if |ups| == 0 then store
    else
      var prev := ApplyUpdates(store, ups[..|ups| - 1]);
      var u := ups[|ups| - 1];
      if u.urlHash in prev then prev[u.urlHash := ApplyUpdate(prev[u.urlHash], u)] else prev
  }

  /** `save` on the URL rows: deletions run before updates, so a URL queued
      for deletion is gone afterwards even though it also has an update
      queued, and every other row takes its last update. */
  function SaveUrls(ds: Dataset, store: map<string, StoredUrl>): (r: map<string, StoredUrl>)
    ensures r.Keys == store.Keys - (set h | h in ds.hashesToDelete)
    ensures forall k :: k in r ==> r[k] == match LastUpdateFor(ds.realUrlUpdates, k)
                                           case None => store[k]
                                           case Some(u) => ApplyUpdate(store[k], u)
  {
    ApplyUpdates(ApplyDeletes(store, ds.hashesToDelete), ds.realUrlUpdates)
  }

  /** A URL whose fetch lands on an ignored host is removed from the store
      by the next save. */
  lemma IgnoredUrlRemovedOnSave(ds: Dataset, t: PendingUrl, validDomains: set<string>, cfg: Config.Settings,
                                finalUrl: string, status: int, page: Page, lib: Lib, classify: Classify,
                                store: map<string, StoredUrl>)
    requires Fetchable(t, validDomains, cfg)
    requires lib.parse(finalUrl).netloc in cfg.domainsToIgnore
    ensures t.urlHash !in SaveUrls(ProcessUrl(ds, t, validDomains, cfg, Resp(finalUrl, status, page), lib, classify), store)
  {
    var r := ProcessUrl(ds, t, validDomains, cfg, Resp(finalUrl, status, page), lib, classify);
    assert r.hashesToDelete[|r.hashesToDelete| - 1] == t.urlHash;
  }
}
