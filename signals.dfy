/** Steps 5 to 8 of `/api/search` on the merged candidates: the 20 best by
    the BM25/semantic blend are kept, then every kept candidate gets its LLM
    coherence, GNN, PRF and user-feedback scores and the fixed-weight final
    score. The draws of `Math.random` and the chat replies are inputs. */
module Signals {
  import opened Records
  import opened Sorting
  import opened Coherence

  /** How many candidates reach the LLM stage. */
  const TopK: nat := 20

  /** The pre-ranking blend `bm25 * 0.4 + semantic * 0.6`. */
  function Blend(c: Scored): real
  {
    c.scores.bm25 * 0.4 + c.scores.semantic * 0.6
  }

  /** `combined.sort((a, b) => Blend(b) - Blend(a)).slice(0, 20)` */
  function TopCandidates(merged: seq<Scored>): (top: seq<Scored>)
    ensures |top| == if |merged| < TopK then |merged| else TopK
    ensures SortedDesc(top, Blend)
    ensures multiset(top) <= multiset(merged)
  {
    var sorted := SortDesc(merged, Blend);
    SortDescSorted(merged, Blend);
    SortDescPermutes(merged, Blend);
    var n := if |sorted| < TopK then |sorted| else TopK;
    assert sorted == sorted[..n] + sorted[n..];
    sorted[..n]
  }

  /** No candidate left out of the top 20 has a higher blend than one kept. */
  lemma TopCandidatesAreBest(merged: seq<Scored>)
    ensures forall c, t :: c in multiset(merged) - multiset(TopCandidates(merged)) && t in TopCandidates(merged) ==>
              Blend(t) >= Blend(c)
  {
    SortedPrefixIsBest(merged, Blend, |TopCandidates(merged)|);
  }

  /** What one candidate draws outside the code: the chat reply, and the two
      `Math.random()` values of the GNN and RL stages. */
  datatype Draws = Draws(reply: Reply, gnnDraw: real, feedbackDraw: real)

  /** `Math.random()` lies in [0, 1). */
  predicate ValidDraws(d: Draws)
  {
    0.0 <= d.gnnDraw < 1.0 && 0.0 <= d.feedbackDraw < 1.0
  }

  /** Step 5 for one candidate: the coherence of the reply. Nothing else changes. */
  function WithCoherence(c: Scored, reply: Reply): (r: Scored)
    ensures r.patent == c.patent && r.scores.(llmCoherence := c.scores.llmCoherence) == c.scores
    ensures r.scores.llmCoherence >= 0.0
    ensures reply.CallFailed? ==> r.scores.llmCoherence == 0.5
  {
    FallbackScore(reply);
    c.(scores := c.scores.(llmCoherence := CoherenceScore(reply)))
  }

  /** Step 6 for one candidate: a patent the graph model has embedded (an
      array, even an empty one, is truthy) scores `0.3 + 0.7 * draw`, any
      other 0. Nothing else changes. */
  function WithGnn(c: Scored, draw: real): (r: Scored)
    requires 0.0 <= draw < 1.0
    ensures r.patent == c.patent && r.scores.(gnn := c.scores.gnn) == c.scores
    ensures r.scores.gnn == 0.0 <==> c.patent.gnnEmbedding.None?
    ensures c.patent.gnnEmbedding.Some? ==> 0.3 <= r.scores.gnn < 1.0
  {
    var gnn := if c.patent.gnnEmbedding.Some? then 0.3 + draw * 0.7 else 0.0;
    c.(scores := c.scores.(gnn := gnn))
  }

  /** Step 7 for one candidate: PRF mixes semantic similarity and coherence
      7 : 3, so it lies between the two. Nothing else changes. */
  function WithPrf(c: Scored): (r: Scored)
    ensures r.patent == c.patent && r.scores.(prf := c.scores.prf) == c.scores
    ensures c.scores.semantic <= c.scores.llmCoherence ==>
              c.scores.semantic <= r.scores.prf <= c.scores.llmCoherence
    ensures c.scores.llmCoherence <= c.scores.semantic ==>
              c.scores.llmCoherence <= r.scores.prf <= c.scores.semantic
  {
    c.(scores := c.scores.(prf := c.scores.semantic * 0.7 + c.scores.llmCoherence * 0.3))
  }

  /** The fixed weights of step 8; they sum to 1. */
  const WBm25: real := 0.15
  const WSemantic: real := 0.25
  const WLlm: real := 0.3
  const WGnn: real := 0.1
  const WPrf: real := 0.1
  const WFeedback: real := 0.1

  /** Step 8 for one candidate: a user-feedback score `0.3 + 0.7 * draw`, the
      weighted final score, and a diversity penalty of 0. The signals already
      recorded do not change. Because the weights sum to 1, the final score
      lies between the smallest and the largest of the six signals. */
  function Weighted(c: Scored, draw: real): (r: Scored)
    requires 0.0 <= draw < 1.0
    ensures r.patent == c.patent
    ensures r.scores.(userFeedback := c.scores.userFeedback, final := c.scores.final,
                      diversityPenalty := c.scores.diversityPenalty) == c.scores
    ensures 0.3 <= r.scores.userFeedback < 1.0 && r.scores.diversityPenalty == 0.0
    ensures var s := r.scores;
            forall lo: real, hi: real {:trigger Between(s, lo, hi)} :: Between(s, lo, hi) ==> lo <= s.final <= hi
  {
    var s := c.scores.(userFeedback := draw * 0.7 + 0.3);
    c.(scores := s.(final := WeightedSum(s), diversityPenalty := 0.0))
  }

  /** The weighted sum of the six signals of `s`. */
  function WeightedSum(s: Scores): real
  {
    WBm25 * s.bm25 + WSemantic * s.semantic + WLlm * s.llmCoherence
    + WGnn * s.gnn + WPrf * s.prf + WFeedback * s.userFeedback
  }

  /** All six weighted signals of `s` lie in [lo, hi]. */
  predicate Between(s: Scores, lo: real, hi: real)
  {
    && lo <= s.bm25 <= hi && lo <= s.semantic <= hi && lo <= s.llmCoherence <= hi
    && lo <= s.gnn <= hi && lo <= s.prf <= hi && lo <= s.userFeedback <= hi
  }

  /** Steps 5 to 8 for one candidate. */
  function ScoreCandidate(c: Scored, d: Draws): Scored
    requires ValidDraws(d)
  {
    Weighted(WithPrf(WithGnn(WithCoherence(c, d.reply), d.gnnDraw)), d.feedbackDraw)
  }

  /** Steps 5 to 8 over the kept candidates; each stage is a position-wise
      `map`, so running the four maps one after the other is running the
      four steps on each candidate. */
  function ScoreAll(top: seq<Scored>, draws: seq<Draws>): (r: seq<Scored>)
    requires |draws| == |top| && forall i :: 0 <= i < |draws| ==> ValidDraws(draws[i])
    ensures |r| == |top|
    ensures forall i :: 0 <= i < |top| ==> r[i].patent == top[i].patent
  {
    seq(|top|, i requires 0 <= i < |top| => ScoreCandidate(top[i], draws[i]))
  }

  /** The score object a candidate leaves step 8 with. Folding PRF into the
      weights, the final score is `0.15 bm25 + 0.32 semantic + 0.33 llm +
      0.1 gnn + 0.1 feedback`; with BM25, semantic and coherence scores in
      [0, 1] it lies in [0.03, 1). */
  lemma ScoreCandidateScores(c: Scored, d: Draws)
    requires ValidDraws(d)
    ensures var r := ScoreCandidate(c, d);
            && r.patent == c.patent
            && r.scores.bm25 == c.scores.bm25 && r.scores.semantic == c.scores.semantic
            && r.scores.llmCoherence == CoherenceScore(d.reply)
            && (r.scores.gnn == 0.0 <==> c.patent.gnnEmbedding.None?)
            && (c.patent.gnnEmbedding.Some? ==> 0.3 <= r.scores.gnn < 1.0)
            && r.scores.prf == 0.7 * c.scores.semantic + 0.3 * r.scores.llmCoherence
            && 0.3 <= r.scores.userFeedback < 1.0
            && r.scores.diversityPenalty == 0.0
            && r.scores.final == WeightedSum(r.scores)
            && r.scores.final == 0.15 * c.scores.bm25 + 0.32 * c.scores.semantic + 0.33 * r.scores.llmCoherence
                                 + 0.1 * r.scores.gnn + 0.1 * r.scores.userFeedback
            && (0.0 <= c.scores.bm25 <= 1.0 && 0.0 <= c.scores.semantic <= 1.0 && r.scores.llmCoherence <= 1.0 ==>
                  0.03 <= r.scores.final < 1.0)
  {
    var c1 := WithCoherence(c, d.reply);
    var c2 := WithGnn(c1, d.gnnDraw);
    var c3 := WithPrf(c2);
    assert c3.scores.prf == 0.7 * c.scores.semantic + 0.3 * c1.scores.llmCoherence;
  }
}
