/** Step 4 of `/api/search`, "Result Combination": the BM25 rows and the
    vector-search hits are indexed by patent id and merged into one list of
    candidates, BM25 ids first. */
module CandidateMerge {
  import opened JsBuiltins
  import opened Records
  import opened JsMaps

  /** The value the BM25 index holds: `{ patent, bm25Score: 1.0 }`. */
  datatype Bm25Entry = Bm25Entry(patent: Patent, bm25Score: real)

  /** Every score field starts at 0; the merge writes `bm25` and `semantic`. */
  const NoScores := Scores(0.0, 0.0, 0.0, 0.0, 0.0, 0.0, 0.0, 0.0)

  /** The pairs `bm25Results.map(p => [p.id, { patent: p, bm25Score: 1.0 }])`. */
  function Bm25Pairs(rows: seq<Patent>): seq<(string, Bm25Entry)>
  {
    seq(|rows|, i requires 0 <= i < |rows| => (rows[i].id, Bm25Entry(rows[i], 1.0)))
  }

  /** The pairs `vectorResults.map(p => [p.id, { patent: p, semanticScore: p.similarity }])`. */
  function VectorPairs(hits: seq<VectorHit>): seq<(string, VectorHit)>
  {
    seq(|hits|, i requires 0 <= i < |hits| => (hits[i].patent.id, hits[i]))
  }

  function Bm25Index(rows: seq<Patent>): (m: JsMap<string, Bm25Entry>)
    ensures m.Valid()
  {
    FromEntries(Bm25Pairs(rows))
  }

  function VectorIndex(hits: seq<VectorHit>): (m: JsMap<string, VectorHit>)
    ensures m.Valid()
  {
    FromEntries(VectorPairs(hits))
  }

  /** The candidate the merge stores under a BM25 id: BM25 score 1, and the
      vector similarity when the vector search also found the id, else 0. */
  function FromBm25(id: string, e: Bm25Entry, vectors: JsMap<string, VectorHit>): Scored
  {
    Scored(e.patent, NoScores.(bm25 := e.bm25Score,
                               semantic := if vectors.Has(id) then vectors.entries[id].similarity else 0.0))
  }

  /** The candidate the merge stores under an id only the vector search found. */
  function FromVector(h: VectorHit): Scored
  {
    Scored(h.patent, NoScores.(bm25 := 0.0, semantic := h.similarity))
  }

  /** The vector ids, in index order, that the BM25 index does not hold. */
  function VectorOnly(keys: seq<string>, bm: JsMap<string, Bm25Entry>): (r: seq<string>)
    ensures forall k :: k in r <==> k in keys && !bm.Has(k)
  {
    if keys == [] then []
    else VectorOnly(keys[..|keys| - 1], bm) + (if bm.Has(keys[|keys| - 1]) then [] else [keys[|keys| - 1]])
  }

  /** Behind the BM25 ids `first`, one more vector id is listed exactly when
      BM25 did not find it. */
  lemma VectorOnlyStep(first: seq<string>, keys: seq<string>, j: nat, bm: JsMap<string, Bm25Entry>)
    requires j < |keys|
    ensures bm.Has(keys[j]) ==> first + VectorOnly(keys[..j + 1], bm) == first + VectorOnly(keys[..j], bm)
    ensures !bm.Has(keys[j]) ==> first + VectorOnly(keys[..j + 1], bm) == (first + VectorOnly(keys[..j], bm)) + [keys[j]]
  {
    assert keys[..j + 1][..j] == keys[..j];
  }

  /** While the second loop runs, the next vector id is already merged
      exactly when BM25 found it too. */
  lemma HasOnlyIfBm25(bm: JsMap<string, Bm25Entry>, vm: JsMap<string, VectorHit>, m: JsMap<string, Scored>, j: nat)
    requires bm.Valid() && vm.Valid() && m.Valid() && j < |vm.keys|
    requires m.keys == bm.keys + VectorOnly(vm.keys[..j], bm)
    ensures m.Has(vm.keys[j]) <==> bm.Has(vm.keys[j])
  {
    var id := vm.keys[j];
    assert id !in vm.keys[..j];
    assert id in m.keys <==> id in bm.keys;
  }

  /** The candidate stored under `id` once both loops have run. */
  function MergedEntry(id: string, bm: JsMap<string, Bm25Entry>, vm: JsMap<string, VectorHit>): Scored
    requires bm.Has(id) || vm.Has(id)
  {
    if bm.Has(id) then FromBm25(id, bm.entries[id], vm) else FromVector(vm.entries[id])
  }

  /** Every id merged so far holds its final candidate. */
  ghost predicate Agrees(m: JsMap<string, Scored>, bm: JsMap<string, Bm25Entry>, vm: JsMap<string, VectorHit>)
  {
    forall id :: id in m.entries ==> (bm.Has(id) || vm.Has(id)) && m.entries[id] == MergedEntry(id, bm, vm)
  }

  /** Storing the final candidate of one more id keeps `Agrees`. */
  lemma AgreesSet(m: JsMap<string, Scored>, bm: JsMap<string, Bm25Entry>, vm: JsMap<string, VectorHit>, id: string)
    requires m.Valid() && Agrees(m, bm, vm) && (bm.Has(id) || vm.Has(id))
    ensures Agrees(m.Set(id, MergedEntry(id, bm, vm)), bm, vm)
  {
  }

  /** One round of the first loop: the next BM25 id is stored with its candidate. */
  lemma Bm25Step(m: JsMap<string, Scored>, bm: JsMap<string, Bm25Entry>, vm: JsMap<string, VectorHit>, i: nat)
    requires bm.Valid() && m.Valid() && i < |bm.keys|
    requires m.keys == bm.keys[..i] && Agrees(m, bm, vm)
    ensures var id := bm.keys[i];
            var next := m.Set(id, FromBm25(id, bm.entries[id], vm));
            next.keys == bm.keys[..i + 1] && Agrees(next, bm, vm)
  {
    var id := bm.keys[i];
    assert id !in bm.keys[..i];
    AgreesSet(m, bm, vm, id);
    assert bm.keys[..i + 1] == bm.keys[..i] + [id];
  }

  /** One round of the second loop: the next vector id is stored unless BM25 found it. */
  lemma VectorStep(m: JsMap<string, Scored>, bm: JsMap<string, Bm25Entry>, vm: JsMap<string, VectorHit>, j: nat)
    requires bm.Valid() && vm.Valid() && m.Valid() && j < |vm.keys|
    requires m.keys == bm.keys + VectorOnly(vm.keys[..j], bm) && Agrees(m, bm, vm)
    ensures var id := vm.keys[j];
            var next := if m.Has(id) then m else m.Set(id, FromVector(vm.entries[id]));
            next.keys == bm.keys + VectorOnly(vm.keys[..j + 1], bm) && Agrees(next, bm, vm)
  {
    var id := vm.keys[j];
    VectorOnlyStep(bm.keys, vm.keys, j, bm);
    HasOnlyIfBm25(bm, vm, m, j);
    if !m.Has(id) {
      AgreesSet(m, bm, vm, id);
    }
  }

  /** The merged list `Array.from(mergedResults.values())`: the BM25 ids in
      index order, then the ids only the vector search found. */
  function Merge(rows: seq<Patent>, hits: seq<VectorHit>): seq<Scored>
  {
    MergeIndexes(Bm25Index(rows), VectorIndex(hits))
  }

  /** The merged list built from the two indexes. */
  function MergeIndexes(bm: JsMap<string, Bm25Entry>, vm: JsMap<string, VectorHit>): seq<Scored>
    requires bm.Valid() && vm.Valid()
  {
    var ids := bm.keys + VectorOnly(vm.keys, bm);
    seq(|ids|, i requires 0 <= i < |ids| => MergedEntry(ids[i], bm, vm))
  }

  /** Once both loops have run, the merged map's values are the merged list. */
  lemma AgreeingValues(m: JsMap<string, Scored>, bm: JsMap<string, Bm25Entry>, vm: JsMap<string, VectorHit>)
    requires m.Valid() && bm.Valid() && vm.Valid() && Agrees(m, bm, vm)
    requires m.keys == bm.keys + VectorOnly(vm.keys, bm)
    ensures m.Values() == MergeIndexes(bm, vm)
  {
    var vs, ms := m.Values(), MergeIndexes(bm, vm);
    forall i | 0 <= i < |vs|
      ensures vs[i] == ms[i]
    {
      AgreeingValue(m, bm, vm, i);
    }
  }

  /** The `i`-th merged value is the final candidate of the `i`-th id. */
  lemma AgreeingValue(m: JsMap<string, Scored>, bm: JsMap<string, Bm25Entry>, vm: JsMap<string, VectorHit>, i: nat)
    requires m.Valid() && bm.Valid() && vm.Valid() && Agrees(m, bm, vm)
    requires m.keys == bm.keys + VectorOnly(vm.keys, bm) && i < |m.keys|
    ensures m.Values()[i] == MergeIndexes(bm, vm)[i]
  {
    assert m.keys[i] in m.entries;
  }

  /** `/api/search` step 4: index both result lists, then merge. */
  method MergeCandidates(rows: seq<Patent>, hits: seq<VectorHit>) returns (merged: seq<Scored>)
    ensures merged == Merge(rows, hits)
  {
    var bm25Map := Bm25Index(rows);
    var vectorMap := VectorIndex(hits);
    merged := MergeLoops(bm25Map, vectorMap);
  }

  /** The two `for ... of` loops of the merge, over the two indexes. */
  method MergeLoops(bm25Map: JsMap<string, Bm25Entry>, vectorMap: JsMap<string, VectorHit>) returns (merged: seq<Scored>)
    requires bm25Map.Valid() && vectorMap.Valid()
    ensures merged == MergeIndexes(bm25Map, vectorMap)
  {
    var mergedResults: JsMap<string, Scored> := EmptyMap();
    var i := 0;
    while i < |bm25Map.keys|
      invariant 0 <= i <= |bm25Map.keys|
      invariant mergedResults.Valid()
      invariant mergedResults.keys == bm25Map.keys[..i]
      invariant Agrees(mergedResults, bm25Map, vectorMap)
    {
      var id := bm25Map.keys[i];
      Bm25Step(mergedResults, bm25Map, vectorMap, i);
      mergedResults := mergedResults.Set(id, FromBm25(id, bm25Map.entries[id], vectorMap));
      i := i + 1;
    }
    assert bm25Map.keys[..i] == bm25Map.keys;
    var j := 0;
    while j < |vectorMap.keys|
      invariant 0 <= j <= |vectorMap.keys|
      invariant mergedResults.Valid()
      invariant mergedResults.keys == bm25Map.keys + VectorOnly(vectorMap.keys[..j], bm25Map)
      invariant Agrees(mergedResults, bm25Map, vectorMap)
    {
      var id := vectorMap.keys[j];
      VectorStep(mergedResults, bm25Map, vectorMap, j);
      if !mergedResults.Has(id) {
        mergedResults := mergedResults.Set(id, FromVector(vectorMap.entries[id]));
      }
      j := j + 1;
    }
    assert vectorMap.keys[..j] == vectorMap.keys;
    AgreeingValues(mergedResults, bm25Map, vectorMap);
    merged := mergedResults.Values();
  }
}

/** What the merge promises, stated over the two result lists themselves. */
module MergeProperties {
  import opened JsBuiltins
  import opened Records
  import opened JsMaps
  import opened Sorting
  import opened CandidateMerge

  predicate HasRow(rows: seq<Patent>, id: string)
  {
    exists i :: 0 <= i < |rows| && rows[i].id == id
  }

  predicate HasHit(hits: seq<VectorHit>, id: string)
  {
    exists i :: 0 <= i < |hits| && hits[i].patent.id == id
  }

  /** `rows[k]` is the last BM25 row with this id. */
  ghost predicate IsLastRow(rows: seq<Patent>, k: int, id: string)
  {
    0 <= k < |rows| && rows[k].id == id && forall j :: k < j < |rows| ==> rows[j].id != id
  }

  /** `hits[k]` is the last vector hit with this id. */
  ghost predicate IsLastHit(hits: seq<VectorHit>, k: int, id: string)
  {
    0 <= k < |hits| && hits[k].patent.id == id && forall j :: k < j < |hits| ==> hits[j].patent.id != id
  }

  function IdOfScored(c: Scored): string { c.patent.id }

  /** The BM25 index holds every BM25 id, bound to its last row with score 1. */
  lemma Bm25IndexContents(rows: seq<Patent>)
    ensures forall id :: Bm25Index(rows).Has(id) <==> HasRow(rows, id)
    ensures forall id :: Bm25Index(rows).Has(id) ==>
              exists k :: IsLastRow(rows, k, id) && Bm25Index(rows).entries[id] == Bm25Entry(rows[k], 1.0)
  {
    var es := Bm25Pairs(rows);
    FromEntriesKeys(es);
    FromEntriesValues(es);
    forall id
      ensures KeyIn(es, id) <==> HasRow(rows, id)
    {
      if HasRow(rows, id) {
        var i :| 0 <= i < |rows| && rows[i].id == id;
        assert es[i].0 == id;
      }
    }
    forall id | Bm25Index(rows).Has(id)
      ensures exists k :: IsLastRow(rows, k, id) && Bm25Index(rows).entries[id] == Bm25Entry(rows[k], 1.0)
    {
      var k := LastIndex(es, id);
      assert IsLastRow(rows, k, id) by {
        forall j | k < j < |rows| ensures rows[j].id != id {
          assert es[j].0 == rows[j].id;
        }
      }
    }
  }

  /** The vector index holds every vector id, bound to its last hit. */
  lemma VectorIndexContents(hits: seq<VectorHit>)
    ensures forall id :: VectorIndex(hits).Has(id) <==> HasHit(hits, id)
    ensures forall id :: VectorIndex(hits).Has(id) ==>
              exists k :: IsLastHit(hits, k, id) && VectorIndex(hits).entries[id] == hits[k]
  {
    var es := VectorPairs(hits);
    FromEntriesKeys(es);
    FromEntriesValues(es);
    forall id
      ensures KeyIn(es, id) <==> HasHit(hits, id)
    {
      if HasHit(hits, id) {
        var i :| 0 <= i < |hits| && hits[i].patent.id == id;
        assert es[i].0 == id;
      }
    }
    forall id | VectorIndex(hits).Has(id)
      ensures exists k :: IsLastHit(hits, k, id) && VectorIndex(hits).entries[id] == hits[k]
    {
      var k := LastIndex(es, id);
      assert IsLastHit(hits, k, id) by {
        forall j | k < j < |hits| ensures hits[j].patent.id != id {
          assert es[j].0 == hits[j].patent.id;
        }
      }
    }
  }

  /** The scores and the patent the merge gives a candidate with this id. */
  ghost predicate MergedAs(rows: seq<Patent>, hits: seq<VectorHit>, c: Scored)
  {
    var id := c.patent.id;
    if HasRow(rows, id) then
      && (exists k :: IsLastRow(rows, k, id) && c.patent == rows[k])
      && c.scores.bm25 == 1.0
      && (HasHit(hits, id) ==> exists k :: IsLastHit(hits, k, id) && c.scores.semantic == hits[k].similarity)
      && (!HasHit(hits, id) ==> c.scores.semantic == 0.0)
    else
      && (exists k :: IsLastHit(hits, k, id) && c.patent == hits[k].patent && c.scores.semantic == hits[k].similarity)
      && c.scores.bm25 == 0.0
  }

  /** The ids of the merged list, in order. */
  function MergedIds(rows: seq<Patent>, hits: seq<VectorHit>): seq<string>
  {
    Bm25Index(rows).keys + VectorOnly(VectorIndex(hits).keys, Bm25Index(rows))
  }

  /** Each merged candidate is stored under its own id and scored by the merge rule. */
  lemma MergeEntries(rows: seq<Patent>, hits: seq<VectorHit>)
    ensures Image(Merge(rows, hits), IdOfScored) == MergedIds(rows, hits)
    ensures forall c :: c in Merge(rows, hits) ==>
              MergedAs(rows, hits, c) && c.scores.(bm25 := 0.0, semantic := 0.0) == NoScores
  {
    var bm, vm := Bm25Index(rows), VectorIndex(hits);
    Bm25IndexContents(rows);
    VectorIndexContents(hits);
    var keys := MergedIds(rows, hits);
    var merged := Merge(rows, hits);
    forall i | 0 <= i < |keys|
      ensures merged[i].patent.id == keys[i]
      ensures MergedAs(rows, hits, merged[i])
    {
      var id := keys[i];
      assert bm.Has(id) || vm.Has(id) by {
        if i >= |bm.keys| {
          assert id in VectorOnly(vm.keys, bm);
        }
      }
      if bm.Has(id) {
        var k :| IsLastRow(rows, k, id) && bm.entries[id] == Bm25Entry(rows[k], 1.0);
        if vm.Has(id) {
          var h :| IsLastHit(hits, h, id) && vm.entries[id] == hits[h];
        }
      } else {
        var h :| IsLastHit(hits, h, id) && vm.entries[id] == hits[h];
      }
    }
  }

  /** Merging yields every id of either list exactly once, BM25 ids first;
      a BM25 id scores `bm25 = 1` and its vector similarity or 0, an id only
      the vector search found scores `bm25 = 0` and its similarity; no other
      score is set yet. */
  lemma MergeContents(rows: seq<Patent>, hits: seq<VectorHit>)
    ensures var ids := Image(Merge(rows, hits), IdOfScored);
            && Distinct(ids)
            && (forall id :: id in ids <==> HasRow(rows, id) || HasHit(hits, id))
            && (forall a, b :: 0 <= a < b < |ids| && HasRow(rows, ids[b]) ==> HasRow(rows, ids[a]))
    ensures forall c :: c in Merge(rows, hits) ==>
              MergedAs(rows, hits, c) && c.scores.(bm25 := 0.0, semantic := 0.0) == NoScores
  {
    MergeEntries(rows, hits);
    MergedIdsDistinct(rows, hits);
    MergedIdsCover(rows, hits);
    MergedIdsOrder(rows, hits);
  }

  /** No id is merged twice. */
  lemma MergedIdsDistinct(rows: seq<Patent>, hits: seq<VectorHit>)
    ensures Distinct(MergedIds(rows, hits))
  {
    var bm, vm := Bm25Index(rows), VectorIndex(hits);
    var ids := MergedIds(rows, hits);
    VectorOnlyDistinct(vm.keys, bm);
    forall a, b | 0 <= a < b < |ids| ensures ids[a] != ids[b] {
      if a < |bm.keys| <= b {
        assert ids[b] in VectorOnly(vm.keys, bm);
        assert ids[a] in bm.keys;
      }
    }
  }

  /** The merged ids are the ids of either list. */
  lemma MergedIdsCover(rows: seq<Patent>, hits: seq<VectorHit>)
    ensures forall id :: id in MergedIds(rows, hits) <==> HasRow(rows, id) || HasHit(hits, id)
  {
    var bm, vm := Bm25Index(rows), VectorIndex(hits);
    Bm25IndexContents(rows);
    VectorIndexContents(hits);
    forall id
      ensures id in MergedIds(rows, hits) <==> HasRow(rows, id) || HasHit(hits, id)
    {
      if vm.Has(id) && !bm.Has(id) {
        assert id in VectorOnly(vm.keys, bm);
      }
    }
  }

  /** Every BM25 id comes before every id only the vector search found. */
  lemma MergedIdsOrder(rows: seq<Patent>, hits: seq<VectorHit>)
    ensures var ids := MergedIds(rows, hits);
            forall a, b :: 0 <= a < b < |ids| && HasRow(rows, ids[b]) ==> HasRow(rows, ids[a])
  {
    var bm := Bm25Index(rows);
    var ids := MergedIds(rows, hits);
    Bm25IndexContents(rows);
    forall a, b | 0 <= a < b < |ids| && HasRow(rows, ids[b])
      ensures HasRow(rows, ids[a])
    {
      assert ids[b] in bm.keys;
    }
  }


  lemma {:induction false} VectorOnlyDistinct(keys: seq<string>, bm: JsMap<string, Bm25Entry>)
    requires Distinct(keys)
    ensures Distinct(VectorOnly(keys, bm))
  {
    if keys != [] {
      var init := keys[..|keys| - 1];
      VectorOnlyDistinct(init, bm);
      assert keys[|keys| - 1] !in init;
    }
  }
}
