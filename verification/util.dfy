/** URL cleansing, domain gating and the small retry / clamp helpers shared by
    the capture, URL-maintenance and hot-list code (chatter/util.py). */
module Util {
  import opened Common

  /** A URL split into the six components `urllib.parse.urlparse` yields
      (section 3 of RFC 3986), with the query already split into its
      key/value pairs by `parse_qsl`. */
  datatype Url = Url(scheme: string, netloc: string, path: string, params: string,
                     query: seq<(string, string)>, fragment: string)

  /** The library calls the modelled code makes and that are not modelled:
      `sha1(...).hexdigest()`, `urlparse` and `geturl()`. */
  datatype Lib = Lib(hash: string -> string, parse: string -> Url, unparse: Url -> string)

  /** Key prefixes of the tracking query parameters that are stripped. */
  const CleansePrefixes: seq<string> := ["utm_", "fbclid", "gclid", "trk_"]

  /** Python's `key.startswith(CLEANSE_PREFIXES)`. */
  predicate IsTrackingKey(key: string) {
    exists i :: 0 <= i < |CleansePrefixes| && CleansePrefixes[i] <= key
  }

  /** `a` can be obtained from `b` by deleting elements (order kept). */
  predicate IsSubsequence<T(==)>(a: seq<T>, b: seq<T>)
    decreases |b|
  {
    |a| == 0 || (|b| > 0 && if a[0] == b[0] then IsSubsequence(a[1..], b[1..]) else IsSubsequence(a, b[1..]))
  }

  /** `r` is `q` with exactly the tracking pairs removed: it keeps the order
      of `q`, holds no tracking pair, and holds every other pair as often as
      `q` does. These three facts determine `r` uniquely. */
  ghost predicate CleansedOf(r: seq<(string, string)>, q: seq<(string, string)>) {
    && IsSubsequence(r, q)
    && (forall i :: 0 <= i < |r| ==> !IsTrackingKey(r[i].0))
    && (forall p :: multiset(r)[p] == if IsTrackingKey(p.0) then 0 else multiset(q)[p])
  }

  /** The loop of `cleanse_parse_result` over the query pairs. */
  function CleanseQuery(q: seq<(string, string)>): (r: seq<(string, string)>)
    ensures CleansedOf(r, q)
  {
    if |q| == 0 then []
    else
      var rest := CleanseQuery(q[1..]);
      assert q == [q[0]] + q[1..];
      if IsTrackingKey(q[0].0) then
        assert |rest| > 0 ==> rest[0] != q[0];
        rest
      else
        [q[0]] + rest
  }

  /** `cleanse_parse_result`: only the query component changes, and it loses
      exactly its tracking pairs. */
  function CleanseParseResult(u: Url): (r: Url)
    ensures r == u.(query := r.query)
    ensures CleansedOf(r.query, u.query)
  {
    u.(query := CleanseQuery(u.query))
  }

  /** A query with no tracking pair is a fixed point of cleansing. */
  lemma {:induction false} CleanseQueryOfClean(q: seq<(string, string)>)
    requires forall i :: 0 <= i < |q| ==> !IsTrackingKey(q[i].0)
    ensures CleanseQuery(q) == q
  {
    if |q| > 0 {
      CleanseQueryOfClean(q[1..]);
    }
  }

  /** Cleansing twice is cleansing once. */
  lemma CleanseIdempotent(u: Url)
    ensures CleanseParseResult(CleanseParseResult(u)) == CleanseParseResult(u)
  {
    CleanseQueryOfClean(CleanseParseResult(u).query);
  }

  /** `get_domain_ignore`: the parsed URL, and whether its netloc is listed
      in the ignore set (exact string match, no suffix or subdomain match). */
  function GetDomainIgnore(url: string, ignore: set<string>, lib: Lib): (r: (Url, bool))
    ensures r.0 == lib.parse(url)
    ensures r.1 <==> lib.parse(url).netloc in ignore
  {
    var p := lib.parse(url);
    (p, p.netloc in ignore)
  }

  /** `should_continue`: another attempt is allowed while attempts remain. */
  predicate ShouldContinue(numTries: int, maxTries: int) {
    numTries < maxTries
  }

  /** Python truthiness of an optional integer: `None` and `0` are false. */
  predicate Truthy(v: Option<int>) {
    v.Some? && v.value != 0
  }

  function Min(a: int, b: int): int { if a <= b then a else b }

  /** `get_int_default_or_max`: `val` is what `int(val)` yields (`None` when
      it raises). An unparseable value gives the default; a parsed value is
      capped at a truthy maximum and otherwise returned as is, so negative
      values pass through. */
  function GetIntDefaultOrMax(val: Option<int>, defaultVal: int, maxVal: Option<int>): (r: int)
    ensures val.None? ==> r == defaultVal
    ensures val.Some? && Truthy(maxVal) ==> r == Min(val.value, maxVal.value)
    ensures val.Some? && !Truthy(maxVal) ==> r == val.value
  {
    match val
    case None => defaultVal
    case Some(i) => if Truthy(maxVal) && i > maxVal.value then maxVal.value else i
  }

  /** With a non-zero maximum, the result exceeds it only when it is the
      default. */
  lemma ClampBound(val: Option<int>, defaultVal: int, maxVal: int)
    requires maxVal != 0
    ensures GetIntDefaultOrMax(val, defaultVal, Some(maxVal)) <= maxVal
            || GetIntDefaultOrMax(val, defaultVal, Some(maxVal)) == defaultVal
  {
  }
}
