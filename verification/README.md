# Chatter core in Dafny

Chatter captures tweets from Twitter lists and geo searches and keeps the links they carry. It resolves each link to its real URL and classifies the page into topics. It then serves a "hot list" of the links tweeted most recently and most often, alone or clustered by textual similarity.

This project models the sequential logic at the heart of that pipeline and proves properties of it:

- URL cleansing and domain gating (`util.dfy`, `config.dfy`).
- The per-URL resolution state machine, its retry budget, and the effect of saving on the stored URL rows (`urlmaintenance.dfy`).
- The guard, normalisation, bounded retry and topic extraction of the Calais classifier (`classifier.dfy`).
- Hotness of a link and of a cluster (`hotness.dfy`).
- Token filtering for the topic model (`tokens.dfy`).
- The greedy clustering loop over an abstract similarity (`clustering.dfy`).
- Stable descending sort and Python slicing (`sorting.dfy`).
- Request parsing and hot-list assembly (`hotlist.dfy`).
- Capture bookkeeping (`capture.dfy`): the tweet dataset and its invariant, the round-robin list pointer, geo back-off, the list-capture high-water mark and the API retry bound.
- List assignment, the daily counter and the user refresh partition (`users.dfy`).
- The CSV domain upload (`domains.dfy`).

`common.dfy` holds `Option` and `Result`. `strings.dfy` holds the string helpers the code relies on: `strip`, `lower`, `replace`, substring search, `str(n)` and `int(s)`.

Everything is pure functions over immutable datatypes, except for a few methods. `Classify`, `ClusterIndices`/`GetClusterLinks`, `ScanTweets` and `ApiRequest` are methods with loops. `CaptureList`, `GenHotList`, `TopArticles` and `TopClusters` are methods that call them. The outside world enters as parameters:

- `Util.Lib` bundles `sha1`, `urlparse` and `geturl` as uninterpreted functions.
- An HTTP fetch is a `FetchOutcome`.
- A Calais POST is `nat -> PostOutcome`, indexed by attempt.
- A Twitter request is `nat -> Attempt`.
- LSI similarity is `Clustering.Similarity`, a function from index pairs to reals.
- Page metadata is a `Page`.
- The clock is passed in as elapsed seconds.
- Database state is a map or set where its effect matters.

Some behaviour of the code is easy to miss, and the model keeps it:

- An empty hot list carries the message "No links to process for specified parameters".
- A URL that is not fetched is not left unresolved: its stored URL, hash and domain are written back as the real ones.
- A fetch that lands on an ignored host queues a deletion and also still queues a row update.
- An exception after the fetch takes the failure path, and the fallback update then carries the values reached so far. Two such exceptions are modelled: the page has no title, or the classifier returns `None`, so that `len(None)` raises.
- A CSV row with one or two fields aborts the whole upload rather than being skipped. The reader fills the missing fields with `None`, and `None.strip()` raises.

## Model

| member | source | states |
|---|---|---|
| Util.CleanseQuery | chatter/util.py:13-24 | keeps exactly the query pairs whose key starts with none of `utm_`, `fbclid`, `gclid`, `trk_`: a subsequence of the input, with no tracking pair left and every other pair as often as before |
| Util.CleanseParseResult | chatter/util.py:16-24 | only the query component changes, and it loses exactly its tracking pairs; scheme, netloc, path, params and fragment are untouched |
| Util.CleanseQueryOfClean | chatter/util.py:18-24 | a query without tracking pairs is returned unchanged |
| Util.CleanseIdempotent | chatter/util.py:16-24 | cleansing an already cleansed URL changes nothing |
| Util.GetDomainIgnore | chatter/util.py:27-33 | returns the parsed URL and whether its netloc is an exact member of the ignore set |
| Util.GetIntDefaultOrMax | chatter/util.py:51-59 | unparseable input gives the default; parsed input is capped by a truthy maximum and otherwise kept, negatives included |
| Util.ClampBound | chatter/util.py:55-58 | with a non-zero maximum the result exceeds it only when it is the default |
| Config.AsWrittenMissesYoutubeAndFacebook | chatter/config.py:36-39 | with the ignore set as written, YouTube and Facebook links are not ignored while `youtu.be` links are |
| Config.CorrectedIgnoresYoutubeAndFacebook | chatter/config.py:36-39 | with the comma restored both hosts are ignored, and a subdomain of an ignored host still is not |
| UrlMaintenance.Reset | chatter/urlmaintenance.py:28-32 | the four output lists are emptied and the failure counter is kept |
| UrlMaintenance.GetTopics | chatter/urlmaintenance.py:85-91 | one topic row per topic in order, or the single `('None', 1)` row for an empty list; nothing else changes |
| UrlMaintenance.GetTopicsReadBack | chatter/urlmaintenance.py:85-91 | reading the appended rows back gives the classifier's topics in order, or the single `('None', 1)` topic, each row carrying the URL's real hash |
| UrlMaintenance.Finish | chatter/urlmaintenance.py:81-83 | the URL's failure counter is cleared, every other counter kept, and exactly its update is appended; nothing else changes |
| UrlMaintenance.Failed | chatter/urlmaintenance.py:69-83 | the failure is counted; within the budget nothing else changes, and once the budget is reached the counter is cleared and the fallback update appended |
| UrlMaintenance.ProcessUrl | chatter/urlmaintenance.py:34-83 | either a failure within budget only bumps the counter, or exactly one update for this URL is appended and its counter cleared; not fetched writes the stored values back; an ignored host queues the deletion; a 404 updates only the domain; other pages are promoted to the cleansed URL and its hash; info and topics are added only for a domain of interest (that branch in full: `EnrichedPage`, `EnrichmentFails`) |
| UrlMaintenance.EnrichedPage | chatter/urlmaintenance.py:57-83 | a live page on a domain of interest that the classifier answers is promoted to its cleansed URL and hash, gains the topic rows of the answer and then one info row, and loses its failures; no deletion is queued |
| UrlMaintenance.EnrichmentFails | chatter/urlmaintenance.py:63-83 | on the same page, unreadable metadata or a `None` answer counts a failure; within the budget only the counter changes, and at the budget the update carries the cleansed URL already computed |
| UrlMaintenance.OutcomeIgnoredWhenNotFetched | chatter/urlmaintenance.py:42-78 | a URL that is neither on a domain of interest nor short is never fetched: the fetch outcome does not matter |
| UrlMaintenance.FetchAttemptedIff | chatter/urlmaintenance.py:42-54 | a deletion is queued for a fetch landing on an ignored host exactly when the URL qualifies for fetching |
| UrlMaintenance.FailuresAccumulate | chatter/urlmaintenance.py:69-76 | below the budget, k failing polls leave the counter at k for the URL across resets, and nothing else in it changes |
| UrlMaintenance.PollBelowBudget | chatter/urlmaintenance.py:69-76 | below the budget, the k-th failing poll writes no update and leaves the counter at k |
| UrlMaintenance.PollSpendsBudget | chatter/urlmaintenance.py:69-83 | the poll reaching the budget writes the raw URL as the real one and clears the counter |
| UrlMaintenance.RetryBudget | chatter/urlmaintenance.py:71-83 | for an always-failing URL, polls below the budget write no update; the poll reaching the budget writes the raw URL as the real one and clears the counter |
| UrlMaintenance.ApplyDeletes | chatter/urlmaintenance.py:93-94 | the queued hashes are removed from the store and every other row is kept |
| UrlMaintenance.ApplyUpdates | chatter/urlmaintenance.py:93-95 | no row is created or removed; each existing row takes its last queued update |
| UrlMaintenance.SaveUrls | chatter/urlmaintenance.py:93-97 | deletions run first: the result holds the rows not deleted, each with its last queued update |
| UrlMaintenance.IgnoredUrlRemovedOnSave | chatter/urlmaintenance.py:93-95 | a URL whose fetch lands on an ignored host is gone from the store after the next save, despite its queued update |
| Classifier.CleanTitle | chatter/classifier_calais.py:31 | the stripped title with each CR and LF turned into a space and every other character kept: same length as the stripped title, no CR or LF, no surrounding whitespace |
| Classifier.Prepare | chatter/classifier_calais.py:25-34 | nothing is sent iff the title is shorter than 5 and the content shorter than 10; the header is set iff the title is longer than 5, to the cleaned title; content shorter than 5 is then replaced by it |
| Classifier.ExtractTopics | chatter/classifier_calais.py:44-49 | topics are a prefix of the category entries in key order, and all of them when no category entry is malformed |
| Classifier.Classify | chatter/classifier_calais.py:24-57 | `None` with no POST for thin input; otherwise the first attempt that does not raise ends the loop, at most `retries` POSTs, and the topics are those of that answer (none when it is not ok); the title header persists across calls |
| Hotness.Multiplier | chatter/urlanalysis.py:76-85 | the multiplier is positive at every age, and at a non-negative age lies in [0.05, 1.20] |
| Hotness.CalculateHotness | chatter/urlanalysis.py:74-86 | the score is positive, zero or negative exactly as the tweet count is |
| Hotness.HotnessBounds | chatter/urlanalysis.py:74-86 | at a non-negative age the score lies between 0.05 and 1.20 times the tweet count |
| Hotness.HotnessDiff | chatter/urlanalysis.py:74-86 | at a fixed age, the hotness difference of two tweet counts is the multiplier times the difference in tweets |
| Hotness.HotnessIncreasesWithTweets | chatter/urlanalysis.py:74-86 | at any non-negative age more tweets give strictly more hotness |
| Hotness.MultiplierDecreases | chatter/urlanalysis.py:76-85 | over [0, 24] hours the multiplier strictly falls with age, across the 4-hour step too |
| Hotness.AgeDiff | chatter/urlanalysis.py:74-86 | for a fixed tweet count, the hotness difference of two ages is the multiplier difference times the tweets |
| Hotness.HotnessDecreasesWithAge | chatter/urlanalysis.py:74-86 | with tweets, hotness strictly falls with age over the first day |
| Hotness.HotnessFlatAfterDay | chatter/urlanalysis.py:76-77 | past 24 hours age no longer changes hotness |
| Hotness.HotnessExample | chatter/urlanalysis.py:74-86 | 16 tweets at 3 hours score 17.2 |
| Hotness.MaxAge | chatter/urlanalysis.py:100 | the age of some member, and no member is older |
| Hotness.SumTweetsBoundsMember | chatter/urlanalysis.py:101 | with non-negative counts, no member has more tweets than the cluster total |
| Hotness.SumTweetsNonNegative | chatter/urlanalysis.py:101 | non-negative counts sum to a non-negative total |
| Hotness.ClusterHotness | chatter/urlanalysis.py:99-102 | the score of the summed tweets at the age of a member no member is older than, positive iff the summed tweets are |
| Hotness.HotnessMonotone | chatter/urlanalysis.py:74-86 | at a non-negative age, hotness never falls as tweets grow |
| Hotness.ClusterAtLeastOldestMember | chatter/urlanalysis.py:99-102 | a cluster is at least as hot as its oldest member scored alone |
| Hotness.ClusterOfOne | chatter/urlanalysis.py:99-102 | a one-link cluster scores as its link |
| Hotness.ClusterHotnessExample | chatter/urlanalysis.py:99-102 | links of 2 h/10 tweets and 3 h/6 tweets form a cluster scoring 17.2 |
| Sorting.InsertDesc | chatter/urlanalysis.py:118 | inserting into a descending sequence keeps it descending and adds exactly the element |
| Sorting.SortDesc | chatter/urlanalysis.py:118 | the result is descending by the key and a permutation of the input |
| Sorting.InsertDescStable | chatter/urlanalysis.py:118 | inserting puts the element ahead of every element with the same key and keeps their order |
| Sorting.SortDescStable | chatter/urlanalysis.py:118 | the sort is stable: for every key value, the elements with that key keep their input order |
| Sorting.WithKeyPrefix | chatter/urlanalysis.py:119 | the elements with a given key in a prefix are the first of those in the whole sequence |
| Sorting.SliceTo | chatter/urlanalysis.py:119 | a prefix of length `min(k, n)`, or `max(n + k, 0)` for negative `k` |
| Sorting.PrefixOfSortedIsTop | chatter/urlanalysis.py:118-119 | a prefix of a sorted sequence is drawn from it and outranks everything left out |
| Sorting.SortedSliceIsTop | chatter/urlanalysis.py:118-119 | sorting then slicing yields the top entries of the input |
| Clustering.Below | chatter/urlanalysis.py:60 | the set of indices below `n` |
| Clustering.JoinedFrom | chatter/urlanalysis.py:65 | the indices from `i` that join the seed (similarity above 0.8, or the seed itself), increasing |
| Clustering.KeepIn | chatter/urlanalysis.py:66 | the indices still unclaimed, order kept |
| Clustering.FirstIn | chatter/urlanalysis.py:63 | the minimum of the remaining indices |
| Clustering.ChoiceIsGreedyStep | chatter/urlanalysis.py:63-70 | seeding at the minimum unclaimed index and taking every unclaimed index joining it is one greedy step, and afterwards the unclaimed set is the old one minus the joined indices |
| Clustering.ClusterIndices | chatter/urlanalysis.py:60-71 | the loop terminates and builds a greedy clustering of `0..n-1` |
| Clustering.GreedyIsPartition | chatter/urlanalysis.py:60-71 | a greedy clustering covers every index below `n` exactly once, and each cluster is increasing |
| Clustering.Pick | chatter/urlanalysis.py:66 | the links at the given indices, in order |
| Clustering.GetClusterLinks | chatter/urlanalysis.py:43-71 | the clusters come from a greedy clustering of the links; each is non-empty, sorted hottest first and a permutation of its links; within a cluster, equally hot links keep the order of the links |
| Tokens.Split | chatter/urlanalysis.py:49 | one piece per separator plus one, each of word characters only |
| Tokens.Separators | chatter/urlanalysis.py:49 | the separators of the text, one per non-word character, in order |
| Tokens.SplitRoundTrip | chatter/urlanalysis.py:49 | one piece more than separators, and putting each separator back between its pieces gives the text again |
| Tokens.SplitConcat | chatter/urlanalysis.py:49 | the pieces, joined, are exactly the word characters of the text in order |
| Tokens.SplitCharsIn | chatter/urlanalysis.py:49 | every character of every piece occurs in the text |
| Tokens.SplitWord | chatter/urlanalysis.py:49 | text of word characters only is a single piece |
| Tokens.Keep | chatter/urlanalysis.py:49 | the elements meeting the filter, in order, each as often as in the input |
| Tokens.Flatten | chatter/urlanalysis.py:51 | a word is in the corpus iff it is in some text |
| Tokens.FlattenCount | chatter/urlanalysis.py:51 | no text holds a word more often than the corpus |
| Tokens.KeepEach | chatter/urlanalysis.py:51-53 | one filtered text per text, each the elements of its text meeting the filter |
| Tokens.FlattenKeep | chatter/urlanalysis.py:51-53 | filtering each text filters the corpus the same way |
| Tokens.CandidateTexts | chatter/urlanalysis.py:44-50 | one candidate list per link, from its title and description |
| Tokens.Texts | chatter/urlanalysis.py:44-53 | each text is a subsequence of its candidates and loses exactly the words seen once in the whole corpus |
| Tokens.CandidateIsWord | chatter/urlanalysis.py:44-50 | a candidate word is longer than one, not a stop-word, of word characters only and free of capitals |
| Tokens.TextWordWasCandidate | chatter/urlanalysis.py:44-53 | a word of a filtered text was a candidate of the same link and does not occur exactly once in the corpus |
| Tokens.TokensAreFrequentWords | chatter/urlanalysis.py:44-53 | a surviving token is lower-case word characters, longer than one, not a stop-word, and occurs at least twice across the filtered texts |
| HotList.MakeConfig | chatter/urlanalysis.py:31-40 | age at most 24 and result count at most 100; missing or unparseable values take the defaults 0, 0, 12, 50; the flags are the truthiness of the values given |
| HotList.ClusterFalseStillClusters | chatter/urlanalysis.py:39 | `cluster=false` turns clustering on, since any non-empty value is truthy |
| HotList.RequestedAge | chatter/urlanalysis.py:36 | a requested age of n hours becomes `min(n, 24)` |
| HotList.ScoreAll | chatter/urlanalysis.py:110-111 | every row gets its hotness from its age and tweets, and nothing else changes |
| HotList.TopArticles | chatter/urlanalysis.py:117-119 | the links sorted hottest first, cut to `max_results`: sorted, the top entries of the input, of the sliced length; equally hot links keep their query order, and those kept are the first of them |
| HotList.TopClusters | chatter/urlanalysis.py:113-116 | the clusters of a greedy clustering of the links, each non-empty, sorted hottest first and a permutation of its links, are ranked by cluster hotness and cut to `max_results`: the result is sorted, the top clusters, of the sliced length, no more than the links; equally hot clusters keep their order, and those kept are the first of them |
| HotList.GenHotList | chatter/urlanalysis.py:105-124 | the message alone iff there are no rows; clusters iff requested; articles are the top `max_results` scored rows, sorted, with equally hot rows in query order; clusters are the top `max_results` clusters, by cluster hotness, of a greedy clustering of the scored rows, each sorted and a permutation of its links |
| HotList.PrefixSorted | chatter/urlanalysis.py:116-119 | truncating a sorted list keeps it sorted |
| HotList.ClusterCount | chatter/urlanalysis.py:60-71 | a greedy clustering of n links has at most n clusters |
| HotList.ClusterMembers | chatter/urlanalysis.py:66 | every clustered link is one of the scored links |
| Capture.AddUrl | chatter/twitter.py:48-54 | an ignored host adds nothing and answers false; otherwise the row with hash and host is appended and the answer is true |
| Capture.KeptUrls | chatter/twitter.py:60-69 | the kept URL rows carry the tweet id and a host not ignored, and exist iff some URL has such a host |
| Capture.AddUrls | chatter/twitter.py:60-63 | the loop appends exactly the kept rows, and the flag is set iff it was set or a row was kept |
| Capture.HashtagRows | chatter/twitter.py:77 | one `(tweet id, hashtag)` row per hashtag, in order |
| Capture.AddAllUrls | chatter/twitter.py:56-69 | URL entities then media URLs, appended as kept |
| Capture.AddTweet | chatter/twitter.py:56-77 | the kept URLs are appended; the tweet, its user and its hashtags are recorded iff at least one URL was kept |
| Capture.KeptUrlsAppend | chatter/twitter.py:60-69 | keeping distributes over concatenation |
| Capture.AddTweetKeepsInv | chatter/twitter.py:56-77 | adding a tweet keeps every URL, hashtag and user id attached to a recorded tweet |
| Capture.Save | chatter/twitter.py:79-91 | with no tweets nothing is written and nothing changes; otherwise everything pending is written and the dataset is emptied |
| Capture.PendingNeedsTweets | chatter/twitter.py:83-85 | under the invariant, pending URLs, hashtags or users imply pending tweets |
| Capture.SaveLosesNothing | chatter/twitter.py:79-91 | the guard on tweets alone drops nothing: when save writes nothing, nothing was pending |
| Capture.GetNextList | chatter/twitter.py:104-111 | returns the list at the pointer and advances it, wrapping to 0 and re-reading after an hour; a pointer past the end (only ever 0 on an empty list) raises |
| Capture.PointerStaysValid | chatter/twitter.py:104-111 | a valid pointer stays valid while the lists are non-empty |
| Capture.RoundRobin | chatter/twitter.py:104-111 | within the hour, k calls advance the pointer by k modulo the number of lists |
| Capture.NextSleep | chatter/twitter.py:234-247 | tweets reset the sleep to 2.2 s; an empty round adds 2.2 s, capped at 30 s; an error ends the capture or keeps the sleep |
| Capture.EmptyRoundsBackOff | chatter/twitter.py:222-242 | after k empty rounds the sleep is `min(2.2 (k + 1), 30)` seconds |
| Capture.SleepStaysInRange | chatter/twitter.py:234-242 | the sleep stays within [2.2, 30] |
| Capture.GeoCursor | chatter/twitter.py:231-232 | as written: the cursor ends on the last tweet of the round newer than the starting `since_id`, or stays put if there is none |
| Capture.GeoCursorGoesBack | chatter/twitter.py:229-232 | if the pager yields ids 30 then 20 above `since_id` 10, the cursor ends on 20 |
| Capture.GeoCursorAscending | chatter/twitter.py:229-232 | if the pager yields ids oldest first, all above the cursor, the cursor as written ends on the newest id, as with the corrected cursor |
| Capture.MaxCursor | chatter/twitter.py:231-232 | corrected: the cursor is the largest of itself and the ids seen |
| Capture.MaxCursorKeepsNewest | chatter/twitter.py:231-232 | with the corrected cursor the same round leaves it on 30 |
| Capture.KeptAmongMeans | chatter/twitter.py:56-77 | the recursive test for "some of the first n tweets kept a URL" holds iff such a tweet exists |
| Capture.Collected | chatter/twitter.py:259-262 | the dataset after adding the first n tweets in turn satisfies the dataset invariant, and holds exactly the rows of the tweets that kept a URL, in order, and exactly their kept URL rows |
| Capture.AddTweetHasTweets | chatter/twitter.py:56-77 | after adding a tweet the dataset holds a tweet iff it did before or the new tweet kept a URL |
| Capture.CollectedHasTweets | chatter/twitter.py:259-262 | the dataset after n tweets holds a tweet iff one of them kept a URL |
| Capture.ScanTweets | chatter/twitter.py:258-266 | tweets are taken up to the first falsy or not-newer id; the result is the largest of `latest` and the taken ids |
| Capture.CaptureList | chatter/twitter.py:250-269 | as the scan, and then something is written iff a taken tweet kept a URL; what is written satisfies the dataset invariant and holds exactly the rows of the taken tweets that kept a URL and their kept URL rows |
| Capture.FirstDecisive | chatter/twitter.py:134-155 | the first attempt that is a response or an error below 500, if any |
| Capture.ApiRequest | chatter/twitter.py:131-155 | between 1 and 3 tries; the loop stops at the first response or error below 500, which is never retried, and otherwise after 3 tries |
| Users.FirstWithRoom | chatter/usermaintenance.py:33-41 | the first list with fewer than 4999 members, counting the full lists before it |
| Users.ChooseList | chatter/usermaintenance.py:32-45 | an existing list iff one has room, and then the first such in order; otherwise a new list `chatter<n+1>` for n lists |
| Users.Assign | chatter/usermaintenance.py:47-48 | a prefix of the waiting users cut to the room left, so the list never exceeds 4999 |
| Users.PauseAsWritten | chatter/usermaintenance.py:57-63 | as written: a normal pause below 1000 users a day, else a sleep ending 5 s after the day, whatever the elapsed time |
| Users.NegativeSleepAsWritten | chatter/usermaintenance.py:57-63 | a thousandth addition 86420 s into the day yields a sleep of −15 s |
| Users.DayPause | chatter/usermaintenance.py:57-63 | corrected: the same choice, the rest-of-day sleep is never negative, and it agrees with the source whenever that one is non-negative |
| Users.Pairs | chatter/usermaintenance.py:53 | one `(slug, uid)` row per assigned user, in order |
| Users.ListsRound | chatter/usermaintenance.py:25-69 | as written: nothing to do iff no users wait; otherwise the chosen list, at most 4999 members, a non-empty prefix of the users, the pause the source computes; the loop ends iff that sleep is negative, else the counter grows by the batch or restarts after a day |
| Users.NegativeSleepEndsRound | chatter/usermaintenance.py:57-63 | a thousandth user added 86420 s into the day is recorded, then the sleep of −15 s ends the loop |
| Users.ListsRoundCorrected | chatter/usermaintenance.py:57-69 | corrected: the loop never ends on the sleep, and the rest-of-day pause is never negative |
| Users.CorrectedRoundAgrees | chatter/usermaintenance.py:25-69 | whenever the round as written goes on, the corrected round is identical to it |
| Users.InfoMap | chatter/usermaintenance.py:82 | one entry per id in the response, keyed by its own id |
| Users.InfoMapLastWins | chatter/usermaintenance.py:82 | the entry of an id is its last occurrence in the response |
| Users.Select | chatter/usermaintenance.py:85-92 | the uids found (or missing) in the map, in order, each as often as in the input |
| Users.SplitUids | chatter/usermaintenance.py:78-92 | each uid goes to exactly one of updates (found) or suspensions (missing), order kept, updates carrying the latest info |
| Users.UpdatesFor | chatter/usermaintenance.py:86-90 | one update per found uid, in order, each carrying that uid's info |
| Users.UsersRound | chatter/usermaintenance.py:72-97 | an empty first fetch ends the job, an empty later fetch does not; otherwise each uid goes to exactly one of updates (found) or suspensions (missing), order kept, updates carrying the latest info |
| Users.SelectSplits | chatter/usermaintenance.py:85-92 | the two selections together are as long as the input |
| Domains.RecordOf | chatter/domainmaintenance.py:16-22 | a record iff the stripped set and domain are non-empty; fields stripped, an empty subset stored as `None` |
| Domains.FirstShortIsFirst | chatter/domainmaintenance.py:14-18 | the first row with one or two fields is such a row and every row before it is complete or empty |
| Domains.CollectFrom | chatter/domainmaintenance.py:12-22 | on success no more records than rows, every stored field stripped and non-blank |
| Domains.CollectFromFails | chatter/domainmaintenance.py:14-18 | the upload fails iff some row has one or two fields, naming the first such row |
| Domains.UpdateDomains | chatter/domainmaintenance.py:12-23 | the upload fails iff some row has one or two fields, naming the first such row; otherwise no more records than rows, and a record is uploaded iff some complete row makes it, with its fields stripped and an empty subset stored as `None` |
| Domains.CollectFromYields | chatter/domainmaintenance.py:15-20 | a successful upload holds a record iff some complete row, stripped, makes it |
| Domains.OneRow | chatter/domainmaintenance.py:12-20 | a CSV of one complete row uploads exactly that row's record, or nothing when its set or domain is blank |
| Domains.RecordOfBlankSubset | chatter/domainmaintenance.py:16-20 | a row with a blank subset stores its stripped set and domain with the subset `None` |
| Domains.UnstrippedRowExample | chatter/domainmaintenance.py:15-20 | the row `" news , cnn.com , "` is uploaded as `("news", "cnn.com", "None")` |
| Domains.CollectFromCount | chatter/domainmaintenance.py:14-22 | a successful upload holds one record per complete row with a non-blank set and domain |
| Domains.ReportedCount | chatter/domainmaintenance.py:12-24 | nothing is printed iff a short row aborts the upload; otherwise the count of complete rows with a non-blank set and domain |
| Domains.CleanRowsKept | chatter/domainmaintenance.py:15-20 | clean complete rows come through unchanged, one record per row, in order |
| Domains.CleanRowStep | chatter/domainmaintenance.py:15-20 | a clean row is stored as it is, ahead of the records of the rows after it |
| Domains.CleanRowRecord | chatter/domainmaintenance.py:16-22 | a complete row of clean fields is stored as it is |
| Domains.BlankRowSkipped | chatter/domainmaintenance.py:19-22 | a row with a blank set or domain adds nothing wherever it stands |
| Domains.ApplyUpdate | chatter/domainmaintenance.py:12-24 | the table gains exactly the uploaded records, the records the complete rows make; after an error it is unchanged |
| Domains.ResetDomains | chatter/domainmaintenance.py:27-29 | the table ends with exactly the records the complete rows make, and empty if the upload fails after the delete |
| Strings.Strip | chatter/domainmaintenance.py:16-18 | no longer than the input, with no whitespace at either end |
| Strings.StripIsSlice | chatter/domainmaintenance.py:16-18 | the result is a slice of the input, and everything cut off on either side is whitespace |
| Strings.StripNoSpaces | chatter/domainmaintenance.py:16-18 | stripping text with no surrounding whitespace returns it unchanged |
| Strings.Lower | chatter/urlanalysis.py:49 | same length, each character lowered, no ASCII capital left |
| Strings.ReplaceChar | chatter/classifier_calais.py:31 | every occurrence of one character replaced, all else kept |
| Strings.Contains | chatter/classifier_calais.py:47 | true iff the substring occurs at some position |
| Strings.ParseIntOfNatToString | chatter/util.py:54 | `int(str(n)) == n` for every natural number |

## Left out

- HTTP (requests, Calais, TwitterAPI and its pagers), SQL (`dbutil`), gensim, BeautifulSoup and Flask are not modelled. They are external services and libraries. They appear only as the parameters described above.
- `time.sleep`, `time.time` and `datetime` are left out. Time enters as elapsed-seconds parameters.
- The rounding of hotness to 8 digits is left out. Hotness is an exact real.
- `get_hashed_string` is the uninterpreted `Lib.hash`. `urlparse`, `geturl`, `parse_qsl` and `urlencode` are uninterpreted too. The query is modelled as its parsed pair list. Three effects of the real functions are lost. Percent-encoding is one. `parse_qsl` also drops blank and valueless parameters, so `?ref=&id=1` becomes `id=1`. `urlencode` re-encodes what it writes back. As a result, a URL with no tracking parameter can still change its text, and so its hash, in `process_url`. `Util.CleanseQueryOfClean` holds only for the parsed pair list, not for the URL text.
- `Strings.Lower` lowers ASCII letters only, whereas Python's `lower` is full Unicode. `Strings.ParseInt` accepts ASCII digits only, whereas Python's `int` also takes underscores and other Unicode digits.
- `Util.ShouldContinue` keeps only its decision, `num_tries < max_tries`. Its log line and its sleep are left out. Its effect is stated by `Capture.ApiRequest`.
- `Domains.CollectFrom` states bounds, count and cleanliness of the records. `Domains.UpdateDomains` states which records are uploaded, not in what order. The order is proved only for clean rows (`CleanRowsKept`). The table is a set, so the order does not reach it.
- `UrlMaintenance.ProcessUrl` models the page metadata as an abstract `Page`. The classifier is an arbitrary function, and its `None` answer stands for the classifier declining a page with too little text.
- The insert-or-ignore behaviour of the database (`ON CONFLICT DO NOTHING`) is assumed, not verified. `Domains.ApplyUpdate` models the table as a set.
- The mention list of the tweet dataset is never filled by the code and is left out.
- Parsing `created_at` is left out: the tweet carries it as text.
- `calc_popularity_hotness` is not used and depends on an object that is not part of this model.
- `cli.py`, `dbutil.py`, `setup.py` are not modelled. Neither are `api_test`, `rl_for_request`, `get_rate_limit_status`, `get_lists`, `list_exists`, `get_info_for_users`, `add_list`, `add_users_to_list`, `stream`, `capture_user_lists` or `classify_urls`. They are plumbing, logging, or thin wrappers around the Twitter API and the database.
- The endless outer loops of `maintain_urls`, `maintain_lists`, `maintain_users` and `capture_geo` are not modelled. Each is modelled as one round, and repeated rounds appear through the lemmas that iterate them.
- Loading the stop-list file and compiling the word-split pattern are I/O. The stop list is a parameter, and the pattern is `Tokens.IsWordChar`.

## Findings

| source | as written | input that shows it | evidently intended | confidence | as-written member | corrected member |
|---|---|---|---|---|---|---|
| chatter/config.py:37 | two host literals with no comma between them concatenate, so the ignore set holds one host nobody uses | a tweet linking `https://www.youtube.com/watch` is captured | YouTube and Facebook are ignored like `youtu.be` | high; not executed | Config.AsWrittenMissesYoutubeAndFacebook | Config.CorrectedIgnoresYoutubeAndFacebook |
| chatter/usermaintenance.py:63 | the rest-of-day sleep is `86400 - elapsed + 5` seconds with no lower bound | the thousandth addition of the day at 86420 s gives −15 s, and `time.sleep` raises `ValueError`, ending the loop | sleep until the day is over, not at all if it already is | medium; not executed | Users.NegativeSleepEndsRound | Users.ListsRoundCorrected |
| chatter/twitter.py:231 | each tweet newer than the starting `since_id` moves the cursor, so it ends on the last such tweet of the round; this goes wrong only if the pager yields a round newest first, and `CustomTwitterPager` is not part of this model | search results with ids 30 then 20 over `since_id` 10 leave the cursor on 20 | the cursor keeps the newest id seen | low; not executed | Capture.GeoCursorGoesBack | Capture.MaxCursor |
