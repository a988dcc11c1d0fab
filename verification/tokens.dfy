/** The token filtering that prepares the documents of `get_cluster_links`
    (chatter/urlanalysis.py) for the topic model: each link's text is
    lower-cased and split on every character outside `[a-zA-Z0-9_']`;
    pieces of length one or less and stop-words are dropped; then every
    word that occurs exactly once in the whole corpus is dropped. */
module Tokens {
  import opened Common
  import opened Strings
  import opened Util
  import opened Hotness

  /** `' '.join(x for x in [title, description] if x is not None)`. */
  function Document(l: Link): string {
    match (l.title, l.description)
    case (Some(t), Some(s)) => t + " " + s
    case (Some(t), None) => t
    case (None, Some(s)) => s
    case (None, None) => ""
  }

  /** The characters the word-split pattern does not split on. */
  predicate IsWordChar(c: char) {
    ('a' <= c <= 'z') || ('A' <= c <= 'Z') || ('0' <= c <= '9') || c == '_' || c == '\''
  }

  predicate AllWordChars(w: string) {
    forall k :: 0 <= k < |w| ==> IsWordChar(w[k])
  }

  /** The concatenation of a list of strings. */
  function Concat(ws: seq<string>): string {
    if |ws| == 0 then "" else ws[0] + Concat(ws[1..])
  }

  /** The word characters of `s`, in order. */
  function WordCharsOf(s: string): string {
    if |s| == 0 then "" else (if IsWordChar(s[0]) then [s[0]] else "") + WordCharsOf(s[1..])
  }

  function CountNonWord(s: string): nat {
    if |s| == 0 then 0 else (if IsWordChar(s[0]) then 0 else 1) + CountNonWord(s[1..])
  }

  /** `re.split("[^a-zA-Z0-9_']", s)`: the pieces between single separator
      characters, empty pieces included. */
  function Split(s: string): (r: seq<string>)
    ensures |r| == CountNonWord(s) + 1
    ensures forall i :: 0 <= i < |r| ==> AllWordChars(r[i])
  {
    if |s| == 0 then [""]
    else
      var rest := Split(s[1..]);
      if IsWordChar(s[0]) then
        var r := [[s[0]] + rest[0]] + rest[1..];
        assert forall i :: 1 <= i < |r| ==> r[i] == rest[i];
        r
      else
        [""] + rest
  }

  /** The pieces put back together are the word characters of the text:
      only the separators are lost. */
  lemma {:induction false} SplitConcat(s: string)
    ensures Concat(Split(s)) == WordCharsOf(s)
  {
    if |s| > 0 {
      SplitConcat(s[1..]);
      var rest := Split(s[1..]);
      if IsWordChar(s[0]) {
        var r := [[s[0]] + rest[0]] + rest[1..];
        assert Concat(rest) == rest[0] + Concat(rest[1..]);
        assert r[1..] == rest[1..];
      } else {
        assert ([""] + rest)[1..] == rest;
      }
    }
  }

  /** The separator characters of `s`, in order. */
  function Separators(s: string): (r: string)
    ensures |r| == CountNonWord(s)
    ensures forall i :: 0 <= i < |r| ==> !IsWordChar(r[i])
  {
    if |s| == 0 then "" else (if IsWordChar(s[0]) then "" else [s[0]]) + Separators(s[1..])
  }

  /** `pieces[0] + seps[0] + pieces[1] + ... + pieces[n]`: the inverse of a
      split on single characters. */
  function Interleave(pieces: seq<string>, seps: string): string
    requires |pieces| == |seps| + 1
  {
    if |seps| == 0 then pieces[0]
    else pieces[0] + [seps[0]] + Interleave(pieces[1..], seps[1..])
  }

  /** Prefixing a word character to the first piece prefixes it to the
      joined text. */
  lemma InterleaveWordFirst(c: char, pieces: seq<string>, seps: string)
    requires |pieces| == |seps| + 1
    ensures Interleave([[c] + pieces[0]] + pieces[1..], seps) == [c] + Interleave(pieces, seps)
  {
    var r := [[c] + pieces[0]] + pieces[1..];
    if |seps| > 0 {
      assert r[1..] == pieces[1..];
      assert Interleave(r, seps) == ([c] + pieces[0]) + [seps[0]] + Interleave(pieces[1..], seps[1..]);
    }
  }

  /** Splitting loses nothing: putting each separator back between its two
      pieces gives the text again. */
  lemma {:induction false} SplitRoundTrip(s: string)
    ensures |Split(s)| == |Separators(s)| + 1
    ensures Interleave(Split(s), Separators(s)) == s
  {
    if |s| > 0 {
      SplitRoundTrip(s[1..]);
      var rest := Split(s[1..]);
      var seps := Separators(s[1..]);
      assert s == [s[0]] + s[1..];
      if IsWordChar(s[0]) {
        assert Separators(s) == seps;
        InterleaveWordFirst(s[0], rest, seps);
      } else {
        assert Separators(s) == [s[0]] + seps;
        assert ([""] + rest)[1..] == rest;
        assert ([s[0]] + seps)[1..] == seps;
      }
    }
  }

  /** Every character of every piece comes from the text. */
  lemma {:induction false} SplitCharsIn(s: string)
    ensures forall i, k :: 0 <= i < |Split(s)| && 0 <= k < |Split(s)[i]| ==> Split(s)[i][k] in s
  {
    if |s| > 0 {
      SplitCharsIn(s[1..]);
      var rest := Split(s[1..]);
      var r := Split(s);
      forall i, k | 0 <= i < |r| && 0 <= k < |r[i]|
        ensures r[i][k] in s
      {
        if IsWordChar(s[0]) {
          if i == 0 {
            if k > 0 {
              assert r[0][k] == rest[0][k - 1];
              assert rest[0][k - 1] in s[1..];
            }
          } else {
            assert r[i] == rest[i];
            assert rest[i][k] in s[1..];
          }
        } else if i > 0 {
          assert r[i] == rest[i - 1];
          assert rest[i - 1][k] in s[1..];
        }
      }
    }
  }

  /** Splitting loses only the separators: a string of word characters
      alone comes back as one piece. */
  lemma {:induction false} SplitWord(w: string)
    requires AllWordChars(w)
    ensures Split(w) == [w]
  {
    if |w| > 0 {
      SplitWord(w[1..]);
      assert [w[0]] + w[1..] == w;
    }
  }

  /** The elements of `ws` satisfying `p`, in order. */
  function Keep(ws: seq<string>, p: string -> bool): (r: seq<string>)
    ensures IsSubsequence(r, ws)
    ensures forall w :: multiset(r)[w] == if p(w) then multiset(ws)[w] else 0
    ensures forall i :: 0 <= i < |r| ==> p(r[i])
  {
    if |ws| == 0 then []
    else
      var rest := Keep(ws[1..], p);
      assert ws == [ws[0]] + ws[1..];
      if p(ws[0]) then [ws[0]] + rest
      else
        assert |rest| > 0 ==> rest[0] != ws[0];
        rest
  }

  /** `word not in stoplist and len(word) > 1`. */
  predicate IsCandidate(w: string, stop: set<string>) {
    w !in stop && |w| > 1
  }

  /** The words of one document before the corpus-wide filter. */
  function Candidates(doc: string, stop: set<string>): seq<string> {
    Keep(Split(Lower(doc)), w => IsCandidate(w, stop))
  }

  /** `sum(texts, [])`. */
  function Flatten(texts: seq<seq<string>>): (r: seq<string>)
    ensures forall w :: w in r <==> exists i :: 0 <= i < |texts| && w in texts[i]
  {
    if |texts| == 0 then []
    else
      var r := texts[0] + Flatten(texts[1..]);
      assert forall i :: 1 <= i < |texts| ==> texts[i] == texts[1..][i - 1];
      r
  }

  lemma {:induction false} FlattenCount(texts: seq<seq<string>>, i: nat, w: string)
    requires i < |texts|
    ensures multiset(texts[i])[w] <= multiset(Flatten(texts))[w]
  {
    if i > 0 {
      FlattenCount(texts[1..], i - 1, w);
    }
  }

  /** Every text filtered by the same predicate. */
  function KeepEach(texts: seq<seq<string>>, p: string -> bool): (r: seq<seq<string>>)
    ensures |r| == |texts|
    ensures forall i :: 0 <= i < |texts| ==> r[i] == Keep(texts[i], p)
  {
    seq(|texts|, i requires 0 <= i < |texts| => Keep(texts[i], p))
  }

  /** Filtering every text by the same predicate filters their
      concatenation by it. */
  lemma {:induction false} FlattenKeep(texts: seq<seq<string>>, p: string -> bool, w: string)
    ensures multiset(Flatten(KeepEach(texts, p)))[w] == if p(w) then multiset(Flatten(texts))[w] else 0
  {
    if |texts| > 0 {
      FlattenKeep(texts[1..], p, w);
      var k0 := Keep(texts[0], p);
      var tail := KeepEach(texts[1..], p);
      assert KeepEach(texts, p) == [k0] + tail;
      assert ([k0] + tail)[1..] == tail;
      assert Flatten(KeepEach(texts, p)) == k0 + Flatten(tail);
    }
  }

  /** The candidate words of every document, before the corpus filter. */
  function CandidateTexts(links: seq<Link>, stop: set<string>): (r: seq<seq<string>>)
    ensures |r| == |links|
    ensures forall i :: 0 <= i < |links| ==> r[i] == Candidates(Document(links[i]), stop)
  {
    seq(|links|, i requires 0 <= i < |links| => Candidates(Document(links[i]), stop))
  }

  /** The texts handed to the topic model: the candidates of each document
      less the words that occur once in the whole candidate corpus. Each
      text keeps its order, and keeps every occurrence of a word seen more
      than once among all candidates. */
  function Texts(links: seq<Link>, stop: set<string>): (r: seq<seq<string>>)
    ensures |r| == |links|
    ensures forall i :: 0 <= i < |r| ==> IsSubsequence(r[i], CandidateTexts(links, stop)[i])
    ensures forall i, w :: 0 <= i < |r| ==>
              multiset(r[i])[w] == if multiset(Flatten(CandidateTexts(links, stop)))[w] == 1 then 0
                                   else multiset(CandidateTexts(links, stop)[i])[w]
  {
    var cands := CandidateTexts(links, stop);
    var allTokens := Flatten(cands);
    var p := w => multiset(allTokens)[w] != 1;
    KeepEach(cands, p)
  }

  /** A candidate word is lower-case word characters only, longer than one
      character and not a stop-word. */
  lemma CandidateIsWord(doc: string, stop: set<string>, w: string)
    requires w in Candidates(doc, stop)
    ensures |w| > 1 && w !in stop
    ensures AllWordChars(w) && forall k :: 0 <= k < |w| ==> !IsUpperAscii(w[k])
  {
    var lower := Lower(doc);
    var pieces := Split(lower);
    assert multiset(Candidates(doc, stop))[w] > 0;
    assert multiset(pieces)[w] > 0;
    var j :| 0 <= j < |pieces| && pieces[j] == w;
    SplitCharsIn(lower);
    forall k | 0 <= k < |w|
      ensures !IsUpperAscii(w[k])
    {
      assert w[k] in lower;
    }
  }

  /** A word of a filtered text was a candidate of the same document, and
      not one seen only once in the candidate corpus. */
  lemma TextWordWasCandidate(links: seq<Link>, stop: set<string>, i: nat, w: string)
    requires i < |links| && w in Texts(links, stop)[i]
    ensures w in CandidateTexts(links, stop)[i]
    ensures multiset(Flatten(CandidateTexts(links, stop)))[w] != 1
  {
    assert multiset(Texts(links, stop)[i])[w] > 0;
  }

  /** A token of a filtered text: lower-case word characters only, longer
      than one character, not a stop-word, and found at least twice in the
      filtered corpus. */
  lemma TokensAreFrequentWords(links: seq<Link>, stop: set<string>, i: nat, w: string)
    requires i < |links| && w in Texts(links, stop)[i]
    ensures |w| > 1 && w !in stop
    ensures AllWordChars(w) && forall k :: 0 <= k < |w| ==> !IsUpperAscii(w[k])
    ensures multiset(Flatten(Texts(links, stop)))[w] >= 2
  {
    var cands := CandidateTexts(links, stop);
    var p := w => multiset(Flatten(cands))[w] != 1;
    TextWordWasCandidate(links, stop, i, w);
    CandidateIsWord(Document(links[i]), stop, w);
    assert Texts(links, stop) == KeepEach(cands, p);
    FlattenKeep(cands, p, w);
    FlattenCount(cands, i, w);
  }
}
