/** Topic classification through the Calais service
    (chatter/classifier_calais.py): the guard against content too thin to
    classify, title normalisation, the bounded attempt loop and the
    extraction of category topics from the service's answer. The HTTP POST
    is abstract: `post(k)` is the outcome of the k-th attempt. */
module Classifier {
  import opened Common
  import opened Strings

  /** One topic the classifier reports, as `{'topic': ..., 'score': ...}`. */
  datatype Topic = Topic(topic: string, score: real)

  /** A value of the service's JSON object: a category entry carrying `name`
      and `score`, or one missing either field. */
  datatype CalaisEntry = Entry(name: string, score: real) | Incomplete

  /** The response body: a JSON object in key order, or something `r.json()`
      cannot turn into one. */
  datatype CalaisBody = Json(items: seq<(string, CalaisEntry)>) | NotJson

  /** One POST attempt: it raised, or it answered (`ok` is `r.ok`). */
  datatype PostOutcome = Raised | Responded(ok: bool, body: CalaisBody)

  /** The only part of the classifier's headers that changes between calls. */
  datatype ClassifierState = ClassifierState(documentTitle: Option<string>)

  /** What is sent: the content, and the document-title header when set. */
  datatype Prepared = Prepared(content: string, header: Option<string>)

  const CategoryMarker: string := "/cat/"

  predicate IsCategoryKey(key: string) {
    Contains(key, CategoryMarker)
  }

  /** `title.strip().replace("\r", " ").replace("\n", " ")`. */
  function CleanTitle(t: string): (r: string)
    ensures |r| <= |t|
    ensures |r| == |Strip(t)|
    ensures forall i :: 0 <= i < |r| ==>
              r[i] == (if Strip(t)[i] == '\r' || Strip(t)[i] == '\n' then ' ' else Strip(t)[i])
    ensures forall i :: 0 <= i < |r| ==> r[i] != '\r' && r[i] != '\n'
    ensures |r| > 0 ==> !IsSpace(r[0]) && !IsSpace(r[|r| - 1])
  {
    var s := Strip(t);
    ReplaceChar(ReplaceChar(s, '\r', ' '), '\n', ' ')
  }

  /** Input normalisation and the early `None` return of `classify`:
      missing title or content count as empty; with a title shorter than 5
      and content shorter than 10 nothing is sent; a title longer than 5 is
      cleaned, becomes the document-title header, and replaces content
      shorter than 5. */
  function Prepare(title: Option<string>, content: Option<string>): (r: Option<Prepared>)
    ensures var t := title.GetOr(""); var c := content.GetOr("");
            && (r.None? <==> |t| < 5 && |c| < 10)
            && (r.Some? ==> (r.value.header.Some? <==> |t| > 5))
            && (r.Some? && |t| > 5 ==> r.value.header == Some(CleanTitle(t)))
            && (r.Some? && |t| > 5 && |c| < 5 ==> r.value.content == CleanTitle(t))
            && (r.Some? && (|t| <= 5 || |c| >= 5) ==> r.value.content == c)
  {
    var t := title.GetOr("");
    var c := content.GetOr("");
    if |t| < 5 && |c| < 10 then None
    else if |t| > 5 then
      var ct := CleanTitle(t);
      Some(Prepared(if |c| < 5 then ct else c, Some(ct)))
    else Some(Prepared(c, None))
  }

  /** Every topic of a category entry, in key order (the reference reading
      of the extraction loop when no entry is malformed). */
  function CategoryTopics(items: seq<(string, CalaisEntry)>): seq<Topic>
  {
    if |items| == 0 then []
    else
      var head := if IsCategoryKey(items[0].0) && items[0].1.Entry? then [Topic(items[0].1.name, items[0].1.score)] else [];
      head + CategoryTopics(items[1..])
  }

  /** The extraction loop over the response object: one topic per category
      key, in order; a category entry missing a field raises `KeyError`,
      which ends the extraction with the topics collected so far. */
  function ExtractTopics(items: seq<(string, CalaisEntry)>): (r: seq<Topic>)
    ensures r <= CategoryTopics(items)
    ensures (forall i :: 0 <= i < |items| && IsCategoryKey(items[i].0) ==> items[i].1.Entry?)
            ==> r == CategoryTopics(items)
  {
    if |items| == 0 then []
    else if !IsCategoryKey(items[0].0) then ExtractTopics(items[1..])
    else match items[0].1
      case Incomplete => []
      case Entry(name, score) => [Topic(name, score)] + ExtractTopics(items[1..])
  }

  /** The index of the first attempt in `[from, retries)` that did not
      raise, if any. */
  function FirstAnswer(post: nat -> PostOutcome, from: nat, retries: int): Option<nat>
    decreases retries - from
  {
    if from >= retries then None
    else if !post(from).Raised? then Some(from)
    else FirstAnswer(post, from + 1, retries)
  }

  /** The topics one answered attempt yields: none unless the answer is ok
      and its body parses. */
  function AnswerTopics(o: PostOutcome): seq<Topic>
  {
    match o
    case Responded(true, Json(items)) => ExtractTopics(items)
    case _ => []
  }

  /** `ClassifierCalais.classify`. Returns the new header state, the result
      (`None` when there is too little to classify) and how many POSTs were
      made: attempts go on only while they raise, at most `retries` of
      them, and the first answer (ok or not) ends the loop. */
  method Classify(st: ClassifierState, title: Option<string>, content: Option<string>,
                  retries: int, post: nat -> PostOutcome)
    returns (st': ClassifierState, result: Option<seq<Topic>>, attempts: nat)
    ensures Prepare(title, content).None? ==> st' == st && result.None? && attempts == 0
    ensures Prepare(title, content).Some? ==>
              && result.Some?
              && st'.documentTitle == (if Prepare(title, content).value.header.Some?
                                       then Prepare(title, content).value.header
                                       else st.documentTitle)
    ensures attempts <= if retries < 0 then 0 else retries
    ensures Prepare(title, content).Some? ==>
              match FirstAnswer(post, 0, retries)
              case Some(k) => attempts == k + 1 && result == Some(AnswerTopics(post(k)))
              case None => attempts == (if retries < 0 then 0 else retries) && result == Some([])
  {
    var p := Prepare(title, content);
    if p.None? {
      return st, None, 0;
    }
    st' := if p.value.header.Some? then ClassifierState(p.value.header) else st;
    var topics: seq<Topic> := [];
    var numAttempts: int := 0;
    var answered: Option<nat> := None;
    attempts := 0;
    while numAttempts < retries
      invariant answered.None? ==> numAttempts == attempts && topics == []
                                   && FirstAnswer(post, 0, retries) == FirstAnswer(post, attempts, retries)
      invariant answered.Some? ==> && numAttempts == retries && attempts == answered.value + 1
                                   && FirstAnswer(post, 0, retries) == answered
                                   && topics == AnswerTopics(post(answered.value))
      invariant attempts <= if retries < 0 then 0 else retries
      decreases retries - numAttempts
    {
      numAttempts := numAttempts + 1;
      attempts := attempts + 1;
      var o := post(attempts - 1);
      if !o.Raised? {
        numAttempts := retries;
        answered := Some(attempts - 1);
        topics := AnswerTopics(o);
      }
    }
    result := Some(topics);
  }
}
