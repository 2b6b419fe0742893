# ADRLCS patent ranking — a Dafny model

This project models the ranking core of the patent search service.

**The `/api/search` handler.** It runs the ADRLCS pipeline:
1. BM25 full-text filtering.
2. Query embedding.
3. Vector similarity search.
4. Merging the two candidate lists.
5. A pre-ranking cut to the 20 best by a BM25/semantic blend.
6. An LLM coherence score parsed from the model's free-text reply.
7. A GNN score.
8. A pseudo-relevance-feedback score.
9. A fixed-weight final score, with a random user-feedback signal.
10. Greedy MMR diversity selection.

It reports each stage's timing and the total. Each result gets its first classification row.

**The client-side mock ranker.** It is the ranking the UI runs without a backend:
- a case-insensitive keyword relevance;
- affine mock scores driven by that relevance;
- a sort by final score;
- a cut to `limit || 10`;
- the mock `classifyPatent`.

Scores are `real`. Foreign calls and random draws are inputs:
- the database and OpenAI calls become the `Backend` record (`Call<T>` is a value or a thrown message);
- `Math.random()` values are parameters in [0, 1);
- `Date.now()` timings are given naturals.

Modules, in dependency order:

- **JsBuiltins.** The JavaScript built-ins the code relies on: `toLowerCase`, `includes`, and `slice(0, end)` with its negative-end rule.
- **Records.** Patents, score objects, results, classifications, stages and the timing total.
- **JsMaps.** A JavaScript `Map`: insertion-ordered keys, and `set` overwriting a value without moving the key.
- **Sorting.** `Array.prototype.sort` with a descending comparator, as a stable insertion sort.
- **CandidateMerge / MergeProperties.** Step 4, including its two `for…of` loops.
- **Coherence.** The reply parser.
- **Signals.** Steps 5–8.
- **Diversity.** The MMR loop.
- **SearchPipeline.** The handler.
- **MockApi.** The mock ranker.

Facts about the code that the request type (src/types/patent.ts:62-69) and the stage names do not make obvious:

- A failed BM25, embedding or vector call ends the request with a 500 carrying the error message. These three calls have no fallback. Two later calls do: a failed coherence call records 0.5, and a failed or empty classification query gives the result no classification.
- The request fields `semanticThreshold`, `useEnhancedScoring` and `useQueryExpansion` are never read. The handler applies no similarity threshold of its own, expands no query and uses one fixed set of weights.
- The coherence score is not clamped: a reply "85" records 8.5.
- Equal scores keep their list order, because the sorts are stable. Nothing breaks ties by id.
- Every BM25 hit scores `bm25 = 1`. No lexical score is computed.

## Model

| member | source | states |
|---|---|---|
| JsBuiltins.IncludesIffOccurs | src/services/api.ts:167-168 | `includes` holds exactly when the needle occurs at some index of the text |
| JsBuiltins.ToLowerIdempotent | src/services/api.ts:167-168 | lower-casing twice is lower-casing once |
| JsBuiltins.SliceToSpec | src/docs/backend-example.js:135 | `slice(0, end)` returns a prefix: all of it past the end, `end` elements for a smaller non-negative `end`, all but the last `-end` for a negative one |
| Records.TotalTimeAppend | src/docs/backend-example.js:449-451 | the `reduce` total of a concatenation of stage lists is the sum of their totals |
| JsMaps.FromEntriesKeys | src/docs/backend-example.js:196-208 | `new Map(entries)` binds exactly the keys that occur in the entries |
| JsMaps.FromEntriesValues | src/docs/backend-example.js:196-208 | each key of `new Map(entries)` maps to the value of its last entry |
| JsMaps.FromEntriesOrder | src/docs/backend-example.js:196-208 | keys of `new Map(entries)` appear in the order of their first entries |
| Sorting.SortDescPermutes | src/docs/backend-example.js:244-248 | the comparator sort returns a permutation of its input |
| Sorting.SortDescSorted | src/docs/backend-example.js:244-248 | the comparator sort returns a sequence non-increasing by the key |
| Sorting.SortDescImage | src/docs/backend-example.js:407-409 | sorting permutes any image of the elements (ids, restored scores) the same way |
| Sorting.SortDescOfSorted | src/docs/backend-example.js:437 | sorting an already ordered sequence changes nothing, so sorting twice is sorting once |
| Sorting.SortDescStable | src/docs/backend-example.js:244-248 | the sort is stable: the elements of any one key come out in the order they went in |
| Sorting.SortedPrefix | src/services/api.ts:179-182 | the first `n` sorted elements are ordered and are some of the input |
| Sorting.SortedPrefixIsBest | src/docs/backend-example.js:244-249 | nothing cut off after the first `n` sorted elements has a larger key than anything kept |
| CandidateMerge.MergeCandidates | src/docs/backend-example.js:194-236 | the two `for…of` loops over the BM25 and vector maps produce exactly `Merge(rows, hits)` |
| CandidateMerge.MergeLoops | src/docs/backend-example.js:211-235 | the two `for…of` loops over the maps build exactly the merged list of their keys, BM25 keys first |
| MergeProperties.MergeContents | src/docs/backend-example.js:196-235 | merged ids are distinct; an id is present iff either search found it; BM25 ids come first; a BM25 id has `bm25 = 1` and its vector similarity or 0; a vector-only id has `bm25 = 0`; the other scores are 0 |
| Coherence.DigitRun | src/docs/backend-example.js:270 | the greedy `\d+` run: all digits, followed by a non-digit or the end |
| Coherence.FirstDigit | src/docs/backend-example.js:270 | the leftmost match starts at the first digit of the reply, or there is none |
| Coherence.MatchNumeral | src/docs/backend-example.js:270 | the first capture group of `(\d+(\.\d+)?)`: the whole part is the longest digit run at the start; a fraction is taken exactly when a point and a digit follow, and is then the longest digit run after the point |
| Coherence.FallbackScore | src/docs/backend-example.js:267-288 | a failed call or a reply without a digit scores 0.5; every score is at least 0 |
| Coherence.ScoreSkipsPrefix | src/docs/backend-example.js:270-271 | text before the first digit does not change the score |
| Coherence.ScoreFromText | src/docs/backend-example.js:270-271 | the parsed score is at least 0, and 0.5 when the reply has no digit |
| Coherence.CoherenceScore | src/docs/backend-example.js:267-288 | the recorded coherence is at least 0, and 0.5 when the call fails |
| Coherence.ScoreOfWholeNumber | src/docs/backend-example.js:270-271 | a reply whose first numeral is a digit string `w` with no fraction (a "/10" after it ignored) scores the value of `w` over 10, leading zeros included |
| Coherence.ScoreOfDecimal | src/docs/backend-example.js:270-271 | a reply whose first numeral is `w.f` scores `(w + 0.f) / 10` |
| Coherence.NatTextValue | src/docs/backend-example.js:271 | `parseFloat` reads the decimal text of `n` back as `n` |
| Coherence.ScoreIsNotClamped | src/docs/backend-example.js:271 | the reply "85" records 8.5: nothing clamps to [0, 1] |
| Coherence.FirstNumeralWins | src/docs/backend-example.js:270-271 | the reply "1 8/10" records 0.1: only the first numeral counts |
| Coherence.LeadingZeroIgnored | src/docs/backend-example.js:270-271 | the reply "07/10" records 0.7: leading zeros do not change the value |
| Signals.TopCandidates | src/docs/backend-example.js:244-249 | the cut keeps `min(n, 20)` candidates, ordered by the 0.4/0.6 blend, all drawn from the merged list |
| Signals.TopCandidatesAreBest | src/docs/backend-example.js:244-249 | no candidate left out of the 20 has a higher blend than one kept |
| Signals.ScoreAll | src/docs/backend-example.js:252-396 | steps 6–8 keep one scored candidate per kept candidate, in order, with the same patent |
| Signals.WithCoherence | src/docs/backend-example.js:267-288 | only `llm_coherence` changes; it is at least 0 and is 0.5 after a failed call |
| Signals.WithGnn | src/docs/backend-example.js:302-327 | only `gnn` changes; it is 0 exactly when the patent has no GNN embedding, else in [0.3, 1) |
| Signals.WithPrf | src/docs/backend-example.js:340-353 | only `prf` changes; it lies between the semantic and coherence scores |
| Signals.Weighted | src/docs/backend-example.js:365-396 | only `user_feedback`, `final` and `diversity_penalty` change; feedback in [0.3, 1), penalty 0, and `final` lies between any bounds of the six signals (the weights sum to 1) |
| Signals.ScoreCandidateScores | src/docs/backend-example.js:267-396 | after steps 5–8 `final` is the weighted sum, i.e. `0.15 bm25 + 0.32 semantic + 0.33 llm + 0.1 gnn + 0.1 feedback`, in [0.03, 1) when BM25, semantic and coherence are in [0, 1]; the other signals follow their stage rules |
| Diversity.Penalty | src/docs/backend-example.js:425-430 | the penalty is 0.18 exactly for equal lower-cased titles and 0.02 otherwise |
| Diversity.Penalize | src/docs/backend-example.js:422-433 | the penalty moves from `final` to `diversity_penalty`: their sum is conserved, `final` drops, nothing else changes |
| Diversity.PenalizeRemaining | src/docs/backend-example.js:421-434 | the inner loop penalizes every remaining candidate once, in place |
| Diversity.SelectDiverse | src/docs/backend-example.js:405-441 | the `while` loop (shift, push, penalize, re-sort) returns exactly `Mmr(results, limit)` |
| Diversity.MmrLength | src/docs/backend-example.js:415 | MMR returns `min(limit, n)` picks, none for a limit of 0 or less |
| Diversity.MmrOrigins | src/docs/backend-example.js:413-434 | each pick is an input penalized once by every earlier pick and otherwise unchanged |
| Diversity.MmrRestores | src/docs/backend-example.js:413-434 | with penalties added back, the picks are a sub-multiset of the inputs: no input is picked twice |
| Diversity.MmrFirstIsBest | src/docs/backend-example.js:407-418 | the first pick has the maximum final score of all inputs |
| Diversity.MmrGreedy | src/docs/backend-example.js:415-437 | an earlier pick's final score exceeds a later one's by at least the penalties between them; finals strictly decrease |
| Diversity.MmrBeatsRemaining | src/docs/backend-example.js:415-437 | greedy choice: the `k`-th pick scores at least as much as every input none of the first `k` picks came from, once that input has lost the penalties of those picks |
| Diversity.PenaltySum | src/docs/backend-example.js:430-432 | `k` picks cost a candidate between `0.02 k` and `0.18 k` |
| SearchPipeline.Search | src/docs/backend-example.js:98-192 | the handler's outcome, stage by stage, is `Handle(req, env)` |
| SearchPipeline.RunAdrlcs | src/docs/backend-example.js:152-447 | steps 2–9 push the nine stages in order and answer `Adrlcs(rows, limit, env)` |
| SearchPipeline.HandleRejects | src/docs/backend-example.js:100-107 | a 400 "Query is required" exactly when the query is absent or empty |
| SearchPipeline.Handle | src/docs/backend-example.js:98-482 | in every successful response each reported stage carries the timing measured for it, and the total is the sum of the reported stages |
| SearchPipeline.Adrlcs | src/docs/backend-example.js:152-480 | the ADRLCS path answers exactly when the embedding and vector calls return; it then reports the nine stages in order, and the total is their sum |
| SearchPipeline.HandleFailures | src/docs/backend-example.js:111-192 | a 500 exactly when BM25 fails or, with ADRLCS, the embedding or vector call fails; the message is "BM25 search error: " or "Vector search error: " plus the thrown message, or the embedding error's own message |
| SearchPipeline.Bm25OnlyResponse | src/docs/backend-example.js:132-150 | without ADRLCS: the first `limit` BM25 rows, `bm25 = final = 1`, other scores 0, one stage whose timing is the total |
| SearchPipeline.AdrlcsTiming | src/docs/backend-example.js:443-451 | nine stages in order; the total is the sum of their timings |
| SearchPipeline.MergeLength | src/docs/backend-example.js:194-236 | the merge has one candidate per id of either list |
| SearchPipeline.CandidateIds | src/docs/backend-example.js:194-249 | the scored candidates are distinct patents that one of the searches found |
| SearchPipeline.CandidatesFresh | src/docs/backend-example.js:244-396 | every scored candidate has `final` = weighted sum, penalty 0, `bm25 = 1` iff found by BM25, and the GNN/PRF/feedback rules |
| SearchPipeline.SelectedCount | src/docs/backend-example.js:244-415 | the result count is `min(limit, min(20, number of distinct ids found))`, or 0 for `limit <= 0` |
| SearchPipeline.SelectedDistinct | src/docs/backend-example.js:405-441 | results are distinct patents, each found by one of the searches |
| SearchPipeline.SelectedScores | src/docs/backend-example.js:365-441 | result `j` has `final + diversity_penalty` = weighted sum, a penalty from the `j` earlier picks in [0.02 j, 0.18 j] (0 for the first), and the stage rules |
| SearchPipeline.AdrlcsResults | src/docs/backend-example.js:453-468 | each result is its pick with the first classification row of its patent, or none |
| MockApi.Relevance | src/services/api.ts:167-169 | relevance is one of 0.8, 0.6 and 0.1, and 0.8 whenever the title matches |
| MockApi.RelevanceCases | src/services/api.ts:167-169 | relevance is 0.8 iff the title matches, 0.6 iff only the abstract does, else 0.1; the query's case does not matter |
| MockApi.EmptyQueryMatchesAll | src/services/api.ts:167 | the empty query matches every title |
| MockApi.MockScores | src/services/api.ts:122-154 | the penalty is in [0, 0.3) and `final` is the weighted sum minus it |
| MockApi.ComponentsCalibrated | src/services/api.ts:124-129 | each component has `base + slope = 1`, increases with relevance, and lies in [base, 1] for relevance in [0, 1] |
| MockApi.MockFinal | src/services/api.ts:124-142 | mock `final = 0.3 + 0.7 relevance − penalty`, in (0, 1] for relevance in [0, 1] |
| MockApi.MockFinalMonotone | src/services/api.ts:124-142 | with the same penalty, higher relevance gives a higher final score |
| MockApi.SearchPatents | src/services/api.ts:159-198 | never more results than listed patents, and the reported total is the sum of the reported stage timings |
| MockApi.SearchCount | src/services/api.ts:182 | `min(limit, n)` results for a positive limit, `min(10, n)` for an absent or zero one, all but the last `-limit` for a negative one |
| MockApi.SearchSorted | src/services/api.ts:179-182 | results are sorted by final score and are some of the scored patents |
| MockApi.SearchKeepsBest | src/services/api.ts:179-182 | no scored patent left out beats one returned |
| MockApi.SearchEntries | src/services/api.ts:166-176 | each result is a listed patent with its mock scores and first stored classification |
| MockApi.MockTimingIsStageSum | src/services/api.ts:187-196 | the hard-coded total 1432 equals the sum of the seven stage timings |
| MockApi.ClassifyPatent | src/services/api.ts:203-232 | `success` is true; a known id gets its stored list; an unknown one three entries for that id |
| MockApi.ClassifyCases | src/services/api.ts:210-231 | `success` is true; a known id gets its stored list; an unknown one three fallback domains with confidences in [0.85, 1), [0.75, 0.95), [0.65, 0.9) |
| MockApi.SearchAgreesWithClassify | src/services/api.ts:174-226 | a search result's classification is the first entry `classifyPatent` returns, when there is one |

## Left out

- The Supabase queries and RPCs, the OpenAI embedding and chat calls, and the BERT classifier are not modelled. They are foreign I/O. Their outcomes are the `Backend` inputs. The 0.5 `match_threshold` and the row limits of 100 are applied by the database.
- `Promise.all` is not modelled as concurrency. The per-candidate calls are independent, so they are modelled as a position-wise map.
- `timeExecution`'s `Date.now()` is not modelled. Stage timings are given naturals.
- `Math.random()` is not modelled. Its values are parameters in [0, 1).
- Floating point is not modelled: scores are exact reals. For example `0.9 * 0.2` is exactly 0.18 here.
- `toLowerCase` is modelled for ASCII letters only. There is no Unicode case mapping.
- Only integer limits are modelled. A `limit` that is a string, fractional, `NaN` or `null` in the request body is not.
- In the mock ranker, `MOCK_CLASSIFICATIONS` is a Dafny map. JavaScript object-prototype keys such as `"constructor"` are not modelled.
- The in-place `sort` calls, the `shift` and the shared score objects are modelled on values. The MMR loop and the merge loops are methods over sequences. Aliasing is not captured; it is unobservable here because a picked candidate is never mutated again.
- Score fields the code has not written yet (`undefined`) are 0 in the model. Each is written before it is read.
- The dense embedding and `created_at` of a patent are not read by the ranking code and are not modelled. The query embedding is only passed through.
- The `/api/ingest` and `/api/classify` handlers, the mock `ingestPatent`, the mock fixtures and delays, the embedding edge function and the React UI are not part of this model. They are I/O, fixtures or presentation.
- Sorting.SortDesc: its own contract states only the length. That it sorts, permutes and is stable is stated by `SortDescSorted`, `SortDescPermutes` and `SortDescStable`, which keeps unfolding it cheap for the prover.
- Coherence.ScoreFromText: its own contract states only the bounds and the fallback. The value read from a numeral is stated by `ScoreOfWholeNumber` and `ScoreOfDecimal`.
- SearchPipeline.Handle: its own contract states only the timing report. The outcomes are stated by `HandleRejects`, `HandleFailures`, `Bm25OnlyResponse` and the lemmas on `Selected`.
- MockApi.SearchPatents: its own contract states only the count bound and the timing total. Order, content and count are stated by `SearchSorted`, `SearchKeepsBest`, `SearchEntries` and `SearchCount`.
- Signals.ScoreAll: its own contract states only the length and the patents. The scores are stated by `ScoreCandidateScores`.
- JSON `null` and non-string request fields are not modelled. An absent field is `None`. In the code a `null` `useAdrlcs` takes the BM25-only path, a `null` limit keeps no rows, and a non-string query reaches the database as it is.
- The BM25-only results carry no `classification` key, while the ADRLCS results carry `classification: null` when a patent has no row. The model gives both as `None`.
