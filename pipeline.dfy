/** The `/api/search` handler: checks the query, runs the BM25 search, and
    either returns the BM25 rows as they are or runs the nine ADRLCS stages,
    recording each stage's timing, and attaches each result's first
    classification. The database and model calls are inputs. */
module SearchPipeline {
  import opened JsBuiltins
  import opened Records
  import opened JsMaps
  import opened Sorting
  import opened CandidateMerge
  import opened MergeProperties
  import opened Signals
  import opened Diversity

  /** The fields of the request body; an absent field is `None`. */
  datatype Request = Request(query: Option<string>, limit: Option<int>, useAdrlcs: Option<bool>)

  /** An awaited foreign call: what it resolved to, or the message of the
      error it threw. */
  datatype Call<T> = Returned(value: T) | Threw(message: string)

  /** What the handler receives from outside its own code. */
  datatype Backend = Backend(
    /** The rows of the full-text search (the database orders and limits them). */
    bm25: Call<seq<Patent>>,
    /** The query embedding; only passed on to the vector search. */
    embedding: Call<seq<real>>,
    /** The rows of the `match_patents` call (the database applies its threshold). */
    vector: Call<seq<VectorHit>>,
    /** The chat reply and the two `Math.random()` values of the `i`-th kept candidate. */
    draws: nat -> Draws,
    /** What `timeExecution` measured for the `i`-th stage. */
    stageTime: nat -> nat,
    /** The `classifications` rows of a patent id; no rows when the query fails. */
    classifications: string -> seq<Classification>)

  /** `{ results, timing_ms, pipeline_stages }` */
  datatype Response = Response(results: seq<SearchResult>, timingMs: nat, stages: seq<Stage>)

  /** The JSON the handler answers with: a response, a 400 or a 500 with its message. */
  datatype Outcome = Ok(response: Response) | BadRequest(message: string) | ServerError(message: string)

  /** `Math.random()` lies in [0, 1) for every draw. */
  ghost predicate ValidBackend(env: Backend)
  {
    forall i: nat :: ValidDraws(env.draws(i))
  }

  /** `!query`: an absent query and the empty string are both rejected. */
  predicate MissingQuery(req: Request)
  {
    req.query.None? || req.query.value == ""
  }

  /** `limit = 10`: the default applies only when the field is absent. */
  function LimitOf(req: Request): int
  {
    if req.limit.Some? then req.limit.value else 10
  }

  /** `useAdrlcs = true` */
  predicate UseAdrlcs(req: Request)
  {
    req.useAdrlcs.None? || req.useAdrlcs.value
  }

  const Bm25Name := "BM25 Filtering"
  const EmbeddingName := "Semantic Embedding"
  const VectorName := "Vector Similarity"
  const CombinationName := "Result Combination"
  const LlmName := "LLM Coherence Scoring"
  const GnnName := "GNN Embedding Similarity"
  const PrfName := "PRF Expansion"
  const RlName := "RL Weighting"
  const MmrName := "MMR Diversity"

  /** The nine stages of the ADRLCS path with their timings, in the order
      they are pushed. */
  function AdrlcsStages(t: nat -> nat): (s: seq<Stage>)
    ensures |s| == 9 && forall i :: 0 <= i < 9 ==> s[i].timingMs == t(i)
  {
    [Stage(Bm25Name, t(0))] + [Stage(EmbeddingName, t(1))] + [Stage(VectorName, t(2))]
    + [Stage(CombinationName, t(3))]
    + [Stage(LlmName, t(4)), Stage(GnnName, t(5)), Stage(PrfName, t(6)), Stage(RlName, t(7))]
    + [Stage(MmrName, t(8))]
  }

  /** The scores of a BM25-only result. */
  const Bm25OnlyScores := Scores(1.0, 0.0, 0.0, 0.0, 0.0, 0.0, 1.0, 0.0)

  /** `bm25Results.slice(0, limit).map(patent => ({ patent, scores }))` */
  function Bm25Only(rows: seq<Patent>, limit: int): seq<SearchResult>
  {
    var kept := SliceTo(rows, limit);
    seq(|kept|, i requires 0 <= i < |kept| => SearchResult(kept[i], Bm25OnlyScores, None))
  }

  /** The draws of the first `n` kept candidates. */
  function DrawsFor(n: nat, draws: nat -> Draws): seq<Draws>
  {
    seq(n, i requires 0 <= i < n => draws(i))
  }

  /** Steps 4 to 8: merge, keep the top 20 and score them. */
  function Candidates(rows: seq<Patent>, hits: seq<VectorHit>, draws: nat -> Draws): seq<Scored>
    requires forall i: nat :: ValidDraws(draws(i))
  {
    var top := TopCandidates(Merge(rows, hits));
    ScoreAll(top, DrawsFor(|top|, draws))
  }

  /** Step 9 on the scored candidates: pick by MMR. */
  function Selected(rows: seq<Patent>, hits: seq<VectorHit>, limit: int, draws: nat -> Draws): seq<Scored>
    requires forall i: nat :: ValidDraws(draws(i))
  {
    Mmr(Candidates(rows, hits, draws), limit)
  }

  /** `classifications?.length > 0 ? classifications[0] : null` */
  function FirstClassification(rows: seq<Classification>): Option<Classification>
  {
    if |rows| > 0 then Some(rows[0]) else None
  }

  /** Each picked candidate with the first classification of its patent. */
  function Attach(selected: seq<Scored>, classify: string -> seq<Classification>): seq<SearchResult>
  {
    seq(|selected|, i requires 0 <= i < |selected| =>
      SearchResult(selected[i].patent, selected[i].scores, FirstClassification(classify(selected[i].patent.id))))
  }

  /** What the handler answers to `req`. */
  function Handle(req: Request, env: Backend): (r: Outcome)
    requires ValidBackend(env)
    // every reported stage carries the timing measured for it, and the
    // reported total is the sum of the reported stages
    ensures r.Ok? ==> forall i :: 0 <= i < |r.response.stages| ==> r.response.stages[i].timingMs == env.stageTime(i)
    ensures r.Ok? ==> r.response.timingMs == TotalTime(r.response.stages)
  {
    if MissingQuery(req) then BadRequest("Query is required")
    else match env.bm25
      case Threw(m) => ServerError("BM25 search error: " + m)
      case Returned(rows) =>
        if !UseAdrlcs(req) then
          assert TotalTime([Stage(Bm25Name, env.stageTime(0))]) == TotalTime([]) + env.stageTime(0);
          Ok(Response(Bm25Only(rows, LimitOf(req)), env.stageTime(0), [Stage(Bm25Name, env.stageTime(0))]))
        else Adrlcs(rows, LimitOf(req), env)
  }

  /** Steps 2 to 9 once the BM25 rows are in. */
  function Adrlcs(rows: seq<Patent>, limit: int, env: Backend): (r: Outcome)
    requires ValidBackend(env)
    ensures r.Ok? <==> env.embedding.Returned? && env.vector.Returned?
    ensures r.Ok? ==> r.response.stages == AdrlcsStages(env.stageTime)
    ensures r.Ok? ==> r.response.timingMs == TotalTime(r.response.stages)
  {
    match env.embedding
    case Threw(m) => ServerError(m)
    case Returned(_) =>
      match env.vector
      case Threw(m) => ServerError("Vector search error: " + m)
      case Returned(hits) =>
        var stages := AdrlcsStages(env.stageTime);
        Ok(Response(Attach(Selected(rows, hits, limit, env.draws), env.classifications), TotalTime(stages), stages))
  }

  /** The handler: each stage runs in turn and is pushed to
      `pipeline_stages`; a thrown error ends the request with a 500. */
  method Search(req: Request, env: Backend) returns (outcome: Outcome)
    requires ValidBackend(env)
    ensures outcome == Handle(req, env)
  {
    if MissingQuery(req) {
      return BadRequest("Query is required");
    }
    var limit := LimitOf(req);
    var stages: seq<Stage> := [];
    if env.bm25.Threw? {
      return ServerError("BM25 search error: " + env.bm25.message);
    }
    var rows := env.bm25.value;
    stages := stages + [Stage(Bm25Name, env.stageTime(0))];
    if !UseAdrlcs(req) {
      return Ok(Response(Bm25Only(rows, limit), stages[0].timingMs, stages));
    }
    outcome := RunAdrlcs(rows, limit, env, stages);
  }

  /** Steps 2 to 9, pushing each stage after the one recorded for BM25. */
  method RunAdrlcs(rows: seq<Patent>, limit: int, env: Backend, stages0: seq<Stage>) returns (outcome: Outcome)
    requires ValidBackend(env)
    requires stages0 == [Stage(Bm25Name, env.stageTime(0))]
    ensures outcome == Adrlcs(rows, limit, env)
  {
    var stages := stages0;
    if env.embedding.Threw? {
      return ServerError(env.embedding.message);
    }
    stages := stages + [Stage(EmbeddingName, env.stageTime(1))];
    if env.vector.Threw? {
      return ServerError("Vector search error: " + env.vector.message);
    }
    var hits := env.vector.value;
    stages := stages + [Stage(VectorName, env.stageTime(2))];
    var merged := MergeCandidates(rows, hits);
    stages := stages + [Stage(CombinationName, env.stageTime(3))];
    var top := TopCandidates(merged);
    var scored := ScoreAll(top, DrawsFor(|top|, env.draws));
    stages := stages + [Stage(LlmName, env.stageTime(4)), Stage(GnnName, env.stageTime(5)),
                        Stage(PrfName, env.stageTime(6)), Stage(RlName, env.stageTime(7))];
    var selected := SelectDiverse(scored, limit);
    stages := stages + [Stage(MmrName, env.stageTime(8))];
    return Ok(Response(Attach(selected, env.classifications), TotalTime(stages), stages));
  }

  /** The request is rejected with a 400 exactly when the query is absent or empty. */
  lemma HandleRejects(req: Request, env: Backend)
    requires ValidBackend(env)
    ensures Handle(req, env).BadRequest? <==> req.query.None? || req.query.value == ""
    ensures Handle(req, env).BadRequest? ==> Handle(req, env).message == "Query is required"
  {
  }

  /** A 500 comes exactly from a failed BM25 search or, on the ADRLCS path,
      a failed embedding or vector search; the message names the failure. */
  lemma HandleFailures(req: Request, env: Backend)
    requires ValidBackend(env) && !MissingQuery(req)
    ensures Handle(req, env).ServerError? <==>
              env.bm25.Threw? || (UseAdrlcs(req) && (env.embedding.Threw? || env.vector.Threw?))
    ensures env.bm25.Threw? ==> Handle(req, env) == ServerError("BM25 search error: " + env.bm25.message)
    ensures env.bm25.Returned? && UseAdrlcs(req) && env.embedding.Threw? ==>
              Handle(req, env) == ServerError(env.embedding.message)
    ensures env.bm25.Returned? && UseAdrlcs(req) && env.embedding.Returned? && env.vector.Threw? ==>
              Handle(req, env) == ServerError("Vector search error: " + env.vector.message)
  {
  }

  /** Without ADRLCS the response holds the first `limit` BM25 rows, each
      scored `bm25 = final = 1` and 0 otherwise, and one stage whose timing
      is the total. */
  lemma Bm25OnlyResponse(req: Request, env: Backend)
    requires ValidBackend(env) && !MissingQuery(req) && env.bm25.Returned? && !UseAdrlcs(req)
    ensures var out := Handle(req, env);
            var rows := env.bm25.value;
            && out.Ok?
            && |out.response.results| == SliceLength(|rows|, LimitOf(req))
            && (forall i :: 0 <= i < |out.response.results| ==>
                  out.response.results[i] == SearchResult(rows[i], Bm25OnlyScores, None))
            && out.response.stages == [Stage(Bm25Name, env.stageTime(0))]
            && out.response.timingMs == TotalTime(out.response.stages)
  {
    var out := Handle(req, env);
    assert TotalTime(out.response.stages) == TotalTime([]) + env.stageTime(0);
  }

  /** On the ADRLCS path the nine stages are reported in order and the
      total time is the sum of their timings. */
  lemma AdrlcsTiming(req: Request, env: Backend)
    requires ValidBackend(env) && !MissingQuery(req) && UseAdrlcs(req)
    requires env.bm25.Returned? && env.embedding.Returned? && env.vector.Returned?
    ensures var out := Handle(req, env);
            && out.Ok?
            && |out.response.stages| == 9
            && (forall i :: 0 <= i < 9 ==> out.response.stages[i].timingMs == env.stageTime(i))
            && out.response.timingMs == TotalTime(out.response.stages)
            && out.response.timingMs == env.stageTime(0) + env.stageTime(1) + env.stageTime(2)
                 + env.stageTime(3) + env.stageTime(4) + env.stageTime(5) + env.stageTime(6)
                 + env.stageTime(7) + env.stageTime(8)
  {
    StagesTotal(env.stageTime);
  }

  /** The nine stage timings add up to the reported total. */
  lemma StagesTotal(t: nat -> nat)
    ensures |AdrlcsStages(t)| == 9
    ensures forall i :: 0 <= i < 9 ==> AdrlcsStages(t)[i].timingMs == t(i)
    ensures TotalTime(AdrlcsStages(t)) == t(0) + t(1) + t(2) + t(3) + t(4) + t(5) + t(6) + t(7) + t(8)
  {
    var stages := AdrlcsStages(t);
    SumPrefix(stages, t, 9);
    assert stages[..9] == stages;
  }

  /** `t(0) + ... + t(n - 1)` */
  function SumTimes(t: nat -> nat, n: nat): nat
  {
    if n == 0 then 0 else SumTimes(t, n - 1) + t(n - 1)
  }

  lemma {:induction false} SumPrefix(stages: seq<Stage>, t: nat -> nat, n: nat)
    requires n <= |stages|
    requires forall i :: 0 <= i < |stages| ==> stages[i].timingMs == t(i)
    ensures TotalTime(stages[..n]) == SumTimes(t, n)
  {
    if n > 0 {
      SumPrefix(stages, t, n - 1);
      assert stages[..n][..n - 1] == stages[..n - 1];
    }
  }

  /** The ids of either result list. */
  function UnionIds(rows: seq<Patent>, hits: seq<VectorHit>): set<string>
  {
    (set i | 0 <= i < |rows| :: rows[i].id) + (set i | 0 <= i < |hits| :: hits[i].patent.id)
  }

  /** The merge holds one candidate per id of either list. */
  lemma MergeLength(rows: seq<Patent>, hits: seq<VectorHit>)
    ensures |Merge(rows, hits)| == |UnionIds(rows, hits)|
  {
    var ids := Image(Merge(rows, hits), IdOfScored);
    MergeContents(rows, hits);
    IdsOfUnion(rows, hits, ids);
    DistinctCard(ids);
  }

  /** A list holding exactly the ids of either result list has the id union as its set. */
  lemma IdsOfUnion(rows: seq<Patent>, hits: seq<VectorHit>, ids: seq<string>)
    requires forall id :: id in ids <==> HasRow(rows, id) || HasHit(hits, id)
    ensures (set x | x in ids) == UnionIds(rows, hits)
  {
    forall x | x in UnionIds(rows, hits) ensures x in ids {
      if x in (set i | 0 <= i < |rows| :: rows[i].id) {
        var i :| 0 <= i < |rows| && rows[i].id == x;
        assert HasRow(rows, x);
      } else {
        var i :| 0 <= i < |hits| && hits[i].patent.id == x;
        assert HasHit(hits, x);
      }
    }
    forall x | x in ids ensures x in UnionIds(rows, hits) {
      if HasRow(rows, x) {
        var i :| 0 <= i < |rows| && rows[i].id == x;
      } else {
        var i :| 0 <= i < |hits| && hits[i].patent.id == x;
      }
    }
  }

  lemma {:induction false} DistinctCard(s: seq<string>)
    requires Distinct(s)
    ensures |(set x | x in s)| == |s|
  {
    if s != [] {
      var n := |s| - 1;
      DistinctCard(s[..n]);
      assert (set x | x in s) == (set x | x in s[..n]) + {s[n]};
      assert s[n] !in s[..n];
    }
  }

  /** No element of a sequence with distinct keys occurs twice. */
  lemma {:induction false} DistinctKeysOnce<T, K>(s: seq<T>, key: T -> K, x: T)
    requires Distinct(Image(s, key))
    ensures multiset(s)[x] <= 1
  {
    if s != [] {
      var n := |s| - 1;
      assert Image(s[..n], key) == Image(s, key)[..n];
      DistinctKeysOnce(s[..n], key, x);
      assert s == s[..n] + [s[n]];
      if x == s[n] {
        forall i | 0 <= i < n ensures s[..n][i] != x {
          assert Image(s, key)[i] != Image(s, key)[n];
        }
        assert x !in s[..n];
      }
    }
  }

  /** An element at two positions occurs twice. */
  lemma OccursTwice<T>(s: seq<T>, i: nat, j: nat)
    requires i < j < |s| && s[i] == s[j]
    ensures multiset(s)[s[i]] >= 2
  {
    assert s == s[..j] + [s[j]] + s[j + 1..];
    assert s[..j][i] == s[i];
  }

  /** Keeping some of the elements keeps the keys distinct. */
  lemma DistinctKeysSub<T, K>(xs: seq<T>, ys: seq<T>, key: T -> K)
    requires multiset(xs) <= multiset(ys) && Distinct(Image(ys, key))
    ensures Distinct(Image(xs, key))
  {
    forall i, j | 0 <= i < j < |xs|
      ensures Image(xs, key)[i] != Image(xs, key)[j]
    {
      if xs[i] == xs[j] {
        OccursTwice(xs, i, j);
        DistinctKeysOnce(ys, key, xs[i]);
        assert false;
      }
      assert xs[i] in multiset(ys) && xs[j] in multiset(ys);
      var a :| 0 <= a < |ys| && ys[a] == xs[i];
      var b :| 0 <= b < |ys| && ys[b] == xs[j];
      assert Image(ys, key)[a] != Image(ys, key)[b];
    }
  }

  /** The score object a candidate leaves step 8 with: its final score is
      the weighted sum of its signals, it has no diversity penalty yet, BM25
      is 1 exactly for a patent the text search found, and the signal
      stages' rules hold. */
  ghost predicate Fresh(c: Scored, rows: seq<Patent>)
  {
    var s := c.scores;
    && s.diversityPenalty == 0.0
    && s.final == WeightedSum(s)
    && (s.bm25 == 1.0 <==> HasRow(rows, c.patent.id))
    && (s.gnn == 0.0 <==> c.patent.gnnEmbedding.None?)
    && s.prf == 0.7 * s.semantic + 0.3 * s.llmCoherence
    && 0.3 <= s.userFeedback < 1.0
  }

  /** A merged candidate is a patent one of the searches found. */
  lemma MergedFound(rows: seq<Patent>, hits: seq<VectorHit>, c: Scored)
    requires c in Merge(rows, hits)
    ensures c.patent.id in UnionIds(rows, hits)
  {
    MergeContents(rows, hits);
    var merged := Merge(rows, hits);
    var k :| 0 <= k < |merged| && merged[k] == c;
    assert c.patent.id == Image(merged, IdOfScored)[k];
    if HasRow(rows, c.patent.id) {
      var i :| 0 <= i < |rows| && rows[i].id == c.patent.id;
    } else {
      var i :| 0 <= i < |hits| && hits[i].patent.id == c.patent.id;
    }
  }

  /** At most 20 scored candidates, one per id either search found. */
  lemma CandidateCount(rows: seq<Patent>, hits: seq<VectorHit>, draws: nat -> Draws)
    requires forall i: nat :: ValidDraws(draws(i))
    ensures var n := |UnionIds(rows, hits)|;
            |Candidates(rows, hits, draws)| == if n < TopK then n else TopK
  {
    MergeLength(rows, hits);
  }

  /** The scored candidates are distinct patents, each found by one of the searches. */
  lemma CandidateIds(rows: seq<Patent>, hits: seq<VectorHit>, draws: nat -> Draws)
    requires forall i: nat :: ValidDraws(draws(i))
    ensures var cands := Candidates(rows, hits, draws);
            && Distinct(Image(cands, IdOfScored))
            && forall c :: c in cands ==> c.patent.id in UnionIds(rows, hits)
  {
    var merged := Merge(rows, hits);
    var top := TopCandidates(merged);
    var cands := Candidates(rows, hits, draws);
    MergeContents(rows, hits);
    DistinctKeysSub(top, merged, IdOfScored);
    assert Image(cands, IdOfScored) == Image(top, IdOfScored);
    forall c | c in cands
      ensures c.patent.id in UnionIds(rows, hits)
    {
      var i :| 0 <= i < |cands| && cands[i] == c;
      assert top[i] in multiset(merged);
      MergedFound(rows, hits, top[i]);
    }
  }

  /** Every scored candidate is fresh from step 8. */
  lemma CandidatesFresh(rows: seq<Patent>, hits: seq<VectorHit>, draws: nat -> Draws)
    requires forall i: nat :: ValidDraws(draws(i))
    ensures forall c :: c in Candidates(rows, hits, draws) ==> Fresh(c, rows)
  {
    var merged := Merge(rows, hits);
    var top := TopCandidates(merged);
    var ds := DrawsFor(|top|, draws);
    var cands := Candidates(rows, hits, draws);
    MergeContents(rows, hits);
    forall c | c in cands
      ensures Fresh(c, rows)
    {
      var i :| 0 <= i < |cands| && cands[i] == c;
      ScoreCandidateScores(top[i], ds[i]);
      assert top[i] in multiset(merged);
      assert MergedAs(rows, hits, top[i]);
    }
  }

  /** As many results as `limit` allows, out of at most 20 candidates. */
  lemma SelectedCount(rows: seq<Patent>, hits: seq<VectorHit>, limit: int, draws: nat -> Draws)
    requires forall i: nat :: ValidDraws(draws(i))
    ensures var n := |UnionIds(rows, hits)|;
            var pool := if n < TopK then n else TopK;
            |Selected(rows, hits, limit, draws)| == if limit <= 0 then 0 else if limit < pool then limit else pool
  {
    CandidateCount(rows, hits, draws);
    MmrLength(Candidates(rows, hits, draws), limit);
  }

  /** The results are distinct patents, each found by one of the searches. */
  lemma SelectedDistinct(rows: seq<Patent>, hits: seq<VectorHit>, limit: int, draws: nat -> Draws)
    requires forall i: nat :: ValidDraws(draws(i))
    ensures var sel := Selected(rows, hits, limit, draws);
            && Distinct(Image(sel, IdOfScored))
            && forall c :: c in sel ==> c.patent.id in UnionIds(rows, hits)
  {
    var cands := Candidates(rows, hits, draws);
    var sel := Mmr(cands, limit);
    CandidateIds(rows, hits, draws);
    var back := Image(sel, Restored);
    var candsBack := Image(cands, Restored);
    assert Image(candsBack, IdOfScored) == Image(cands, IdOfScored);
    MmrRestores(cands, limit);
    DistinctKeysSub(back, candsBack, IdOfScored);
    assert Image(back, IdOfScored) == Image(sel, IdOfScored);
    MmrOrigins(cands, limit);
    forall c | c in sel
      ensures c.patent.id in UnionIds(rows, hits)
    {
      var j :| 0 <= j < |sel| && sel[j] == c;
      assert Unpenalized(sel[j], sel[..j]) in cands;
    }
  }

  /** The score object of the `j`-th result: its final score plus its
      diversity penalty is the weighted sum of its signals, the penalty is
      what the `j` earlier picks cost it (0 for the first result), and the
      rest is as step 8 left it. */
  lemma SelectedScores(rows: seq<Patent>, hits: seq<VectorHit>, limit: int, draws: nat -> Draws, j: nat)
    requires forall i: nat :: ValidDraws(draws(i))
    requires j < |Selected(rows, hits, limit, draws)|
    ensures var sel := Selected(rows, hits, limit, draws);
            var s := sel[j].scores;
            && s.final + s.diversityPenalty == WeightedSum(s)
            && s.diversityPenalty == PenaltySum(sel[..j], sel[j].patent)
            && 0.02 * j as real <= s.diversityPenalty <= 0.18 * j as real
            && (s.bm25 == 1.0 <==> HasRow(rows, sel[j].patent.id))
            && (s.gnn == 0.0 <==> sel[j].patent.gnnEmbedding.None?)
            && s.prf == 0.7 * s.semantic + 0.3 * s.llmCoherence
            && 0.3 <= s.userFeedback < 1.0
  {
    var cands := Candidates(rows, hits, draws);
    var sel := Mmr(cands, limit);
    MmrOrigins(cands, limit);
    CandidatesFresh(rows, hits, draws);
    assert Fresh(Unpenalized(sel[j], sel[..j]), rows);
  }

  /** Each ADRLCS result is a picked candidate with the first
      classification row of its patent, or none when there is no row. */
  lemma AdrlcsResults(req: Request, env: Backend)
    requires ValidBackend(env) && !MissingQuery(req) && UseAdrlcs(req)
    requires env.bm25.Returned? && env.embedding.Returned? && env.vector.Returned?
    ensures var out := Handle(req, env);
            var sel := Selected(env.bm25.value, env.vector.value, LimitOf(req), env.draws);
            && out.Ok?
            && |out.response.results| == |sel|
            && forall i :: 0 <= i < |sel| ==>
                 var r := out.response.results[i];
                 var rows := env.classifications(sel[i].patent.id);
                 && r.patent == sel[i].patent && r.scores == sel[i].scores
                 && (r.classification.None? <==> rows == [])
                 && (r.classification.Some? ==> r.classification.value == rows[0])
  {
  }
}
