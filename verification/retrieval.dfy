/** Relevance filtering of the similarity-search result and the context
    built from what survives it. The search itself (embeddings and the
    vector index) is not modelled: its up to `TopK` scored chunks are an
    input. */
module Retrieval {
  import opened Strings
  import opened Sequences

  /** A retrieved chunk with its distance to the question; smaller means
      more similar. */
  datatype ScoredMatch = ScoredMatch(chunk: string, score: real)

  /** Largest distance a chunk may have and still be used as context. */
  const SimilarityThreshold: real := 1.4

  /** Number of nearest chunks the search is asked for. */
  const TopK: nat := 7

  predicate IsRelevant(m: ScoredMatch) {
    m.score <= SimilarityThreshold
  }

  /** The matches whose distance is at most the threshold, in retrieval
      order: exactly those, each as often as it was retrieved. */
  function RelevantMatches(ms: seq<ScoredMatch>): (r: seq<ScoredMatch>)
    ensures |r| <= |ms|
    ensures forall k :: 0 <= k < |r| ==> IsRelevant(r[k])
    ensures IsSubsequence(r, ms)
    ensures forall m :: multiset(r)[m] == if IsRelevant(m) then multiset(ms)[m] else 0
  {
    if ms == [] then []
    else
      var rest := RelevantMatches(ms[1..]);
      assert ms == [ms[0]] + ms[1..];
      if IsRelevant(ms[0]) then
        assert ([ms[0]] + rest)[1..] == rest;
        [ms[0]] + rest
      else
        rest
  }

  /** The filter never yields more than the search was asked for. */
  lemma RelevantMatchesWithinTopK(ms: seq<ScoredMatch>)
    requires |ms| <= TopK
    ensures |RelevantMatches(ms)| <= TopK
  {
  }

  /** The "not enough information" branch is taken exactly when every
      retrieved chunk is farther than the threshold. */
  lemma NoRelevantMatchIff(ms: seq<ScoredMatch>)
    ensures RelevantMatches(ms) == [] <==> forall k :: 0 <= k < |ms| ==> !IsRelevant(ms[k])
  {
    var r := RelevantMatches(ms);
    if exists k :: 0 <= k < |ms| && IsRelevant(ms[k]) {
      var k :| 0 <= k < |ms| && IsRelevant(ms[k]);
      assert ms[k] in multiset(ms);
      assert multiset(r)[ms[k]] > 0;
    }
  }

  /** Filtering distributes over concatenation: the kept matches of an
      earlier batch all come before those of a later one. */
  lemma {:induction false} RelevantMatchesConcat(a: seq<ScoredMatch>, b: seq<ScoredMatch>)
    ensures RelevantMatches(a + b) == RelevantMatches(a) + RelevantMatches(b)
  {
    if a == [] {
      assert a + b == b;
    } else {
      assert (a + b)[0] == a[0];
      assert (a + b)[1..] == a[1..] + b;
      RelevantMatchesConcat(a[1..], b);
    }
  }

  /** The chunk texts of `ms`, in order (`doc.page_content`). */
  function Chunks(ms: seq<ScoredMatch>): (r: seq<string>)
    ensures |r| == |ms|
    ensures forall k :: 0 <= k < |ms| ==> r[k] == ms[k].chunk
  {
    if ms == [] then [] else [ms[0].chunk] + Chunks(ms[1..])
  }

  /** The context handed to the prompt: the chunk texts joined by spaces. */
  function Context(kept: seq<ScoredMatch>): (r: string)
    ensures kept == [] ==> r == []
    ensures |kept| == 1 ==> r == kept[0].chunk
    ensures |kept| > 0 ==> kept[0].chunk <= r
  {
    Join(Chunks(kept), " ")
  }

  /** The last kept chunk ends the context. */
  lemma ContextEndsWithLastChunk(kept: seq<ScoredMatch>)
    requires |kept| > 0
    ensures var r, last := Context(kept), kept[|kept| - 1].chunk;
            |last| <= |r| && r[|r| - |last|..] == last
  {
    JoinEndsWithLast(Chunks(kept), " ");
  }

  /** The context of a longer selection extends the context of its first
      part by one space and the rest, so chunks appear in retrieval order. */
  lemma ContextOfConcat(a: seq<ScoredMatch>, b: seq<ScoredMatch>)
    requires |a| > 0 && |b| > 0
    ensures Context(a + b) == Context(a) + " " + Context(b)
  {
    assert Chunks(a + b) == Chunks(a) + Chunks(b);
    JoinConcat(Chunks(a), Chunks(b), " ");
  }

  /** When no chunk holds a space, splitting the context on spaces gives
      back each kept chunk, in order. */
  lemma ContextRoundTrip(kept: seq<ScoredMatch>)
    requires |kept| > 0
    requires forall k :: 0 <= k < |kept| ==> ' ' !in kept[k].chunk
    ensures Split(Context(kept), ' ') == Chunks(kept)
  {
    SplitJoin(Chunks(kept), ' ');
  }
}
