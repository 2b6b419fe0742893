/** The records the ranking code passes around: a patent row, the score
    object every stage extends, a search result, a classification and a
    timed pipeline stage. */
module Records {
  import opened JsBuiltins

  /** A row of the `patents` table. `gnnEmbedding` is absent when the graph
      model has not embedded the patent; the dense embedding and the creation
      time are not read by the ranking code and are not modelled; `abstractText`
      is the `abstract` column. */
  datatype Patent = Patent(id: string, title: string, abstractText: string, gnnEmbedding: Option<seq<real>>)

  /** The `scores` object of a result. A field the pipeline has not written
      yet is 0 here. */
  datatype Scores = Scores(
    bm25: real,
    semantic: real,
    llmCoherence: real,
    gnn: real,
    prf: real,
    userFeedback: real,
    final: real,
    diversityPenalty: real)

  /** A `{ patent, scores }` pair as it moves through the pipeline stages. */
  datatype Scored = Scored(patent: Patent, scores: Scores)

  /** A row returned by the vector search: the patent and its similarity. */
  datatype VectorHit = VectorHit(patent: Patent, similarity: real)

  datatype Classification = Classification(patentId: string, domain: string, confidence: real)

  /** A result as returned to the caller. */
  datatype SearchResult = SearchResult(patent: Patent, scores: Scores, classification: Option<Classification>)

  /** One entry of `pipeline_stages`. */
  datatype Stage = Stage(name: string, timingMs: nat)

  /** The sum of the stage timings, as `reduce((sum, stage) => sum + stage.timing_ms, 0)`. */
  function TotalTime(stages: seq<Stage>): nat
  {
    if stages == [] then 0 else TotalTime(stages[..|stages| - 1]) + stages[|stages| - 1].timingMs
  }

  /** Recording one more stage adds exactly its timing to the total. */
  lemma TotalTimeAppend(stages: seq<Stage>, more: seq<Stage>)
    ensures TotalTime(stages + more) == TotalTime(stages) + TotalTime(more)
    decreases |more|
  {
    if more != [] {
      assert (stages + more)[..|stages + more| - 1] == stages + more[..|more| - 1];
      TotalTimeAppend(stages, more[..|more| - 1]);
    } else {
      assert stages + more == stages;
    }
  }
}
