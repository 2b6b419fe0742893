/** The ranking the client runs when no backend is attached: each patent of
    a fixed list gets a keyword relevance, affine scores derived from it, a
    random diversity penalty, and the list is sorted by final score and cut
    to the requested length. Classification answers from a fixed table or
    three fallback domains. The patent list, the classification table and
    the `Math.random()` draws are parameters. */
module MockApi {
  import opened JsBuiltins
  import opened Records
  import opened Sorting
  import opened Signals

  /** Score of a title that contains the query. */
  const TitleMatch: real := 0.8
  /** Score of an abstract that contains the query. */
  const AbstractMatch: real := 0.6
  /** Score of a field that does not contain the query. */
  const NoMatch: real := 0.1

  /** `a.toLowerCase().includes(b.toLowerCase())` */
  predicate ContainsIgnoringCase(text: string, query: string)
  {
    Includes(ToLower(text), ToLower(query))
  }

  /** `Math.max(titleMatchScore, abstractMatchScore)` */
  function Relevance(p: Patent, query: string): (r: real)
    ensures r == TitleMatch || r == AbstractMatch || r == NoMatch
    ensures ContainsIgnoringCase(p.title, query) ==> r == TitleMatch
  {
    var t := if ContainsIgnoringCase(p.title, query) then TitleMatch else NoMatch;
    var a := if ContainsIgnoringCase(p.abstractText, query) then AbstractMatch else NoMatch;
    if t >= a then t else a
  }

  /** Relevance is 0.8 for a title match, 0.6 for an abstract-only match and
      0.1 otherwise, whatever the case of the query. */
  lemma RelevanceCases(p: Patent, query: string)
    ensures Relevance(p, query) == 0.8 <==> ContainsIgnoringCase(p.title, query)
    ensures Relevance(p, query) == 0.6 <==>
              !ContainsIgnoringCase(p.title, query) && ContainsIgnoringCase(p.abstractText, query)
    ensures Relevance(p, query) == 0.1 <==>
              !ContainsIgnoringCase(p.title, query) && !ContainsIgnoringCase(p.abstractText, query)
    ensures Relevance(p, ToLower(query)) == Relevance(p, query)
  {
    ToLowerIdempotent(query);
  }

  /** The empty query matches every title. */
  lemma EmptyQueryMatchesAll(p: Patent)
    ensures Relevance(p, "") == TitleMatch
  {
    IncludesEmpty(ToLower(p.title));
  }

  /** One score component: `base + relevance * slope`. */
  datatype Component = Component(base: real, slope: real)
  {
    function At(relevance: real): real
    {
      base + relevance * slope
    }
  }

  const Bm25Component := Component(0.3, 0.7)
  const SemanticComponent := Component(0.4, 0.6)
  const LlmComponent := Component(0.2, 0.8)
  const GnnComponent := Component(0.3, 0.7)
  const PrfComponent := Component(0.25, 0.75)
  const FeedbackComponent := Component(0.4, 0.6)

  /** `generateMockScores(relevance)`, with `penaltyDraw` the value of
      `Math.random()`. */
  function MockScores(relevance: real, penaltyDraw: real): (s: Scores)
    requires 0.0 <= penaltyDraw < 1.0
    ensures 0.0 <= s.diversityPenalty < 0.3
    ensures s.final == WeightedSum(s) - s.diversityPenalty
  {
    var signals := Scores(
      Bm25Component.At(relevance), SemanticComponent.At(relevance), LlmComponent.At(relevance),
      GnnComponent.At(relevance), PrfComponent.At(relevance), FeedbackComponent.At(relevance),
      0.0, penaltyDraw * 0.3);
    signals.(final := WeightedSum(signals) - signals.diversityPenalty)
  }

  /** Every component is calibrated: it is increasing, reaches 1 at
      relevance 1, and stays in [base, 1] for a relevance in [0, 1]. */
  lemma ComponentsCalibrated(g: Component, r1: real, r2: real)
    requires g in {Bm25Component, SemanticComponent, LlmComponent, GnnComponent, PrfComponent, FeedbackComponent}
    ensures g.base + g.slope == 1.0 && g.At(1.0) == 1.0
    ensures r1 < r2 ==> g.At(r1) < g.At(r2)
    ensures 0.0 <= r1 <= 1.0 ==> g.base <= g.At(r1) <= 1.0
  {
  }

  /** The weighted sum of the components is itself `0.3 + 0.7 * relevance`,
      so the mock final score is that minus the penalty; for a relevance in
      [0, 1] it lies in (0, 1], and a more relevant patent outscores a less
      relevant one drawing the same penalty. */
  lemma MockFinal(relevance: real, penaltyDraw: real)
    requires 0.0 <= penaltyDraw < 1.0
    ensures var s := MockScores(relevance, penaltyDraw);
            && s.final == 0.3 + 0.7 * relevance - s.diversityPenalty
            && (0.0 <= relevance <= 1.0 ==> 0.0 < s.final <= 1.0)
  {
  }

  /** A more relevant patent outscores a less relevant one drawing the same penalty. */
  lemma MockFinalMonotone(r1: real, r2: real, penaltyDraw: real)
    requires 0.0 <= penaltyDraw < 1.0 && r1 < r2
    ensures MockScores(r1, penaltyDraw).final < MockScores(r2, penaltyDraw).final
  {
    MockFinal(r1, penaltyDraw);
    MockFinal(r2, penaltyDraw);
  }

  /** `MOCK_CLASSIFICATIONS[patent.id]?.[0]` */
  function FirstStored(table: map<string, seq<Classification>>, id: string): Option<Classification>
  {
    if id in table && |table[id]| > 0 then Some(table[id][0]) else None
  }

  function FinalOfResult(r: SearchResult): real
  {
    r.scores.final
  }

  /** The per-patent `map` of `searchPatents`, before sorting. */
  function MockResults(patents: seq<Patent>, query: string, draws: seq<real>,
                       table: map<string, seq<Classification>>): (rs: seq<SearchResult>)
    requires |draws| == |patents| && forall i :: 0 <= i < |draws| ==> 0.0 <= draws[i] < 1.0
    ensures |rs| == |patents|
    ensures forall i :: 0 <= i < |patents| ==> rs[i].patent == patents[i]
  {
    seq(|patents|, i requires 0 <= i < |patents| =>
      SearchResult(patents[i], MockScores(Relevance(patents[i], query), draws[i]), FirstStored(table, patents[i].id)))
  }

  /** `request.limit || 10`: an absent limit and a limit of 0 both mean 10. */
  function EffectiveLimit(limit: Option<int>): int
  {
    if limit.None? || limit.value == 0 then 10 else limit.value
  }

  /** The response of `searchPatents`. */
  datatype MockResponse = MockResponse(results: seq<SearchResult>, timingMs: nat, stages: seq<Stage>)

  /** The stage timings the mock reports. */
  function MockStages(): seq<Stage>
  {
    [Stage("BM25 Filtering", 121), Stage("Semantic Embedding", 324), Stage("LLM Coherence Scoring", 587),
     Stage("GNN Embedding Similarity", 143), Stage("PRF Expansion", 112), Stage("RL Weighting", 98),
     Stage("MMR Diversity", 47)]
  }

  /** The total time the mock reports. */
  const MockTiming: nat := 1432

  /** `searchPatents`: score every patent, sort by final score (descending,
      ties in list order), keep the first `limit || 10`. */
  function SearchPatents(patents: seq<Patent>, query: string, limit: Option<int>, draws: seq<real>,
                         table: map<string, seq<Classification>>): (r: MockResponse)
    requires |draws| == |patents| && forall i :: 0 <= i < |draws| ==> 0.0 <= draws[i] < 1.0
    ensures |r.results| <= |patents|
    ensures r.timingMs == TotalTime(r.stages)
  {
    var sorted := SortDesc(MockResults(patents, query, draws, table), FinalOfResult);
    MockTimingIsStageSum();
    MockResponse(SliceTo(sorted, EffectiveLimit(limit)), MockTiming, MockStages())
  }

  /** How many results come back: `min(limit, n)` for a positive limit,
      `min(10, n)` for an absent or zero limit, and for a negative limit all
      but the last `-limit`. */
  lemma SearchCount(patents: seq<Patent>, query: string, limit: Option<int>, draws: seq<real>,
                    table: map<string, seq<Classification>>)
    requires |draws| == |patents| && forall i :: 0 <= i < |draws| ==> 0.0 <= draws[i] < 1.0
    ensures var n := |SearchPatents(patents, query, limit, draws, table).results|;
            && (limit.None? || limit.value == 0 ==> n == if |patents| < 10 then |patents| else 10)
            && (limit.Some? && limit.value > 0 ==> n == if |patents| < limit.value then |patents| else limit.value)
            && (limit.Some? && limit.value < 0 ==> n == if |patents| + limit.value > 0 then |patents| + limit.value else 0)
  {
    var sorted := SortDesc(MockResults(patents, query, draws, table), FinalOfResult);
    SliceToSpec(sorted, EffectiveLimit(limit));
  }

  /** The results are sorted by final score and are some of the scored
      patents. */
  lemma SearchSorted(patents: seq<Patent>, query: string, limit: Option<int>, draws: seq<real>,
                     table: map<string, seq<Classification>>)
    requires |draws| == |patents| && forall i :: 0 <= i < |draws| ==> 0.0 <= draws[i] < 1.0
    ensures var rs := SearchPatents(patents, query, limit, draws, table).results;
            && SortedDesc(rs, FinalOfResult)
            && multiset(rs) <= multiset(MockResults(patents, query, draws, table))
  {
    var all := MockResults(patents, query, draws, table);
    SortedPrefix(all, FinalOfResult, SliceLength(|all|, EffectiveLimit(limit)));
  }

  /** No scored patent left out has a higher final score than one returned. */
  lemma SearchKeepsBest(patents: seq<Patent>, query: string, limit: Option<int>, draws: seq<real>,
                        table: map<string, seq<Classification>>)
    requires |draws| == |patents| && forall i :: 0 <= i < |draws| ==> 0.0 <= draws[i] < 1.0
    ensures var all := MockResults(patents, query, draws, table);
            var rs := SearchPatents(patents, query, limit, draws, table).results;
            forall x, y :: x in multiset(all) - multiset(rs) && y in rs ==> y.scores.final >= x.scores.final
  {
    var all := MockResults(patents, query, draws, table);
    var n := SliceLength(|all|, EffectiveLimit(limit));
    var rs := SearchPatents(patents, query, limit, draws, table).results;
    assert rs == SortDesc(all, FinalOfResult)[..n];
    SortedPrefixIsBest(all, FinalOfResult, n);
    forall x, y | x in multiset(all) - multiset(rs) && y in rs
      ensures y.scores.final >= x.scores.final
    {
      assert FinalOfResult(y) >= FinalOfResult(x);
    }
  }

  /** Each result is a listed patent with its mock scores and the first
      stored classification of its id. */
  lemma SearchEntries(patents: seq<Patent>, query: string, limit: Option<int>, draws: seq<real>,
                      table: map<string, seq<Classification>>)
    requires |draws| == |patents| && forall i :: 0 <= i < |draws| ==> 0.0 <= draws[i] < 1.0
    ensures forall r :: r in SearchPatents(patents, query, limit, draws, table).results ==>
              exists i :: 0 <= i < |patents| && r.patent == patents[i]
                && r.scores == MockScores(Relevance(patents[i], query), draws[i])
                && r.classification == FirstStored(table, patents[i].id)
  {
    var all := MockResults(patents, query, draws, table);
    SearchSorted(patents, query, limit, draws, table);
    forall r | r in SearchPatents(patents, query, limit, draws, table).results
      ensures exists i :: 0 <= i < |patents| && r.patent == patents[i]
                && r.scores == MockScores(Relevance(patents[i], query), draws[i])
                && r.classification == FirstStored(table, patents[i].id)
    {
      assert r in multiset(all);
      var i :| 0 <= i < |all| && all[i] == r;
    }
  }

  /** The reported total equals the sum of the reported stage timings. */
  lemma MockTimingIsStageSum()
    ensures TotalTime(MockStages()) == MockTiming
  {
    var s := MockStages();
    TotalTimeAppend(s[..6], [s[6]]);
    TotalTimeAppend(s[..5], [s[5]]);
    TotalTimeAppend(s[..4], [s[4]]);
    TotalTimeAppend(s[..3], [s[3]]);
    TotalTimeAppend(s[..2], [s[2]]);
    TotalTimeAppend(s[..1], [s[1]]);
    assert s[..1] + [s[1]] == s[..2];
    assert s[..2] + [s[2]] == s[..3];
    assert s[..3] + [s[3]] == s[..4];
    assert s[..4] + [s[4]] == s[..5];
    assert s[..5] + [s[5]] == s[..6];
    assert s[..6] + [s[6]] == s;
  }

  /** The three `Math.random()` values of a fallback classification. */
  datatype ConfidenceDraws = ConfidenceDraws(ai: real, ml: real, data: real)

  predicate ValidConfidenceDraws(d: ConfidenceDraws)
  {
    0.0 <= d.ai < 1.0 && 0.0 <= d.ml < 1.0 && 0.0 <= d.data < 1.0
  }

  /** `{ classifications, success: true }` */
  datatype ClassifyResponse = ClassifyResponse(classifications: seq<Classification>, success: bool)

  /** `classifyPatent`: the stored list of a known id (an empty list is
      truthy and is returned as it is), else three fallback domains. */
  function ClassifyPatent(id: string, table: map<string, seq<Classification>>, d: ConfidenceDraws): (r: ClassifyResponse)
    ensures r.success
    ensures id in table ==> r.classifications == table[id]
    ensures id !in table ==> |r.classifications| == 3 && forall c :: c in r.classifications ==> c.patentId == id
  {
    var classifications :=
      if id in table then table[id]
      else [Classification(id, "Artificial Intelligence", 0.85 + d.ai * 0.15),
            Classification(id, "Machine Learning", 0.75 + d.ml * 0.2),
            Classification(id, "Data Processing", 0.65 + d.data * 0.25)];
    ClassifyResponse(classifications, true)
  }

  /** Classification always succeeds; a known id gets its stored list, an
      unknown one three fallback domains for that id, with confidences in
      [0.85, 1), [0.75, 0.95) and [0.65, 0.9). */
  lemma ClassifyCases(id: string, table: map<string, seq<Classification>>, d: ConfidenceDraws)
    requires ValidConfidenceDraws(d)
    ensures var r := ClassifyPatent(id, table, d);
            && r.success
            && (id in table ==> r.classifications == table[id])
            && (id !in table ==>
                  && |r.classifications| == 3
                  && (forall c :: c in r.classifications ==> c.patentId == id)
                  && r.classifications[0].domain == "Artificial Intelligence"
                  && 0.85 <= r.classifications[0].confidence < 1.0
                  && r.classifications[1].domain == "Machine Learning"
                  && 0.75 <= r.classifications[1].confidence < 0.95
                  && r.classifications[2].domain == "Data Processing"
                  && 0.65 <= r.classifications[2].confidence < 0.9)
  {
  }

  /** A search result carries the first entry of the list `classifyPatent`
      returns for a known id with a non-empty list, and none otherwise. */
  lemma SearchAgreesWithClassify(id: string, table: map<string, seq<Classification>>, d: ConfidenceDraws)
    ensures FirstStored(table, id).Some? <==> id in table && ClassifyPatent(id, table, d).classifications != []
    ensures FirstStored(table, id).Some? ==> FirstStored(table, id).value == ClassifyPatent(id, table, d).classifications[0]
  {
  }
}
