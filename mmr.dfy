/** Step 9 of `/api/search`, "MMR Diversity": the scored candidates are
    sorted by final score; then, until `limit` results are picked or no
    candidate is left, the best remaining candidate is picked and every other
    remaining candidate loses a penalty (0.18 when its lower-cased title
    equals the pick's, 0.02 otherwise) from its final score and adds it to
    its diversity penalty, and the remaining candidates are sorted again. */
module Diversity {
  import opened JsBuiltins
  import opened Records
  import opened Sorting

  function FinalOf(c: Scored): real
  {
    c.scores.final
  }

  /** The title similarity of two patents: 0.9 for equal lower-cased titles, else 0.1. */
  function Similarity(a: Patent, b: Patent): real
  {
    if ToLower(a.title) == ToLower(b.title) then 0.9 else 0.1
  }

  /** What a remaining candidate `p` loses when `pick` is picked. */
  function Penalty(pick: Patent, p: Patent): (r: real)
    ensures 0.02 <= r <= 0.18
    ensures r == 0.18 <==> ToLower(pick.title) == ToLower(p.title)
    ensures r == 0.02 <==> ToLower(pick.title) != ToLower(p.title)
  {
    Similarity(pick, p) * 0.2
  }

  /** One pass of the inner `for` loop on one candidate: the penalty moves
      from the final score to the diversity penalty, so their sum is
      conserved, and nothing else changes. */
  function Penalize(pick: Patent, c: Scored): (r: Scored)
    ensures r.patent == c.patent
    ensures r.scores.(final := c.scores.final, diversityPenalty := c.scores.diversityPenalty) == c.scores
    ensures r.scores.final + r.scores.diversityPenalty == c.scores.final + c.scores.diversityPenalty
    ensures r.scores.final < c.scores.final
  {
    var p := Penalty(pick, c.patent);
    c.(scores := c.scores.(diversityPenalty := c.scores.diversityPenalty + p, final := c.scores.final - p))
  }

  function PenalizeAll(pick: Patent, cands: seq<Scored>): (r: seq<Scored>)
    ensures |r| == |cands|
    ensures forall i :: 0 <= i < |cands| ==> r[i] == Penalize(pick, cands[i])
  {
    seq(|cands|, i requires 0 <= i < |cands| => Penalize(pick, cands[i]))
  }

  /** The remaining candidates after `cands[0]` is picked: penalized by
      the pick and sorted again. */
  function Next(cands: seq<Scored>): (n: seq<Scored>)
    requires cands != []
    ensures |n| == |cands| - 1
  {
    SortDesc(PenalizeAll(cands[0].patent, cands[1..]), FinalOf)
  }

  /** The picks made from the sorted candidates `cands` while `budget`
      (`limit` minus the picks so far) is positive. */
  function MmrFrom(cands: seq<Scored>, budget: int): seq<Scored>
    decreases |cands|
  {
    if budget <= 0 || cands == [] then [] else [cands[0]] + MmrFrom(Next(cands), budget - 1)
  }

  /** The results of step 9. */
  function Mmr(results: seq<Scored>, limit: int): seq<Scored>
  {
    MmrFrom(SortDesc(results, FinalOf), limit)
  }

  /** The loop of step 9: `candidates` is the array the source shifts, walks
      and re-sorts; `selected` the array it pushes to. */
  method SelectDiverse(results: seq<Scored>, limit: int) returns (selected: seq<Scored>)
    ensures selected == Mmr(results, limit)
  {
    selected := [];
    var candidates := SortDesc(results, FinalOf);
    while |selected| < limit && |candidates| > 0
      invariant selected + MmrFrom(candidates, limit - |selected|) == Mmr(results, limit)
      decreases |candidates|
    {
      ghost var before, budget, prev := candidates, limit - |selected|, selected;
      var pick := candidates[0];
      candidates := candidates[1..];
      selected := selected + [pick];
      candidates := PenalizeRemaining(pick.patent, candidates);
      candidates := SortDesc(candidates, FinalOf);
      assert candidates == Next(before);
      PickStep(prev, before, budget);
    }
  }

  /** The inner `for` loop of step 9: every remaining candidate loses the
      penalty for its title's similarity to the pick's, which it adds to
      its diversity penalty. */
  method PenalizeRemaining(pick: Patent, rest: seq<Scored>) returns (candidates: seq<Scored>)
    ensures candidates == PenalizeAll(pick, rest)
  {
    candidates := rest;
    for i := 0 to |candidates|
      invariant |candidates| == |rest|
      invariant candidates[..i] == PenalizeAll(pick, rest)[..i]
      invariant candidates[i..] == rest[i..]
    {
      var c := candidates[i];
      var penalty := Similarity(pick, c.patent) * 0.2;
      c := c.(scores := c.scores.(diversityPenalty := c.scores.diversityPenalty + penalty));
      c := c.(scores := c.scores.(final := c.scores.final - penalty));
      candidates := candidates[i := c];
    }
  }

  /** One pick: the first candidate, then the picks from what remains. */
  lemma MmrFromStep(cands: seq<Scored>, budget: int)
    requires budget > 0 && cands != []
    ensures MmrFrom(cands, budget) == [cands[0]] + MmrFrom(Next(cands), budget - 1)
  {
  }

  /** One round of the loop: pushing the pick onto the results and going on
      from the re-sorted remainder gives the same picks. */
  lemma PickStep(prev: seq<Scored>, cands: seq<Scored>, budget: int)
    requires budget > 0 && cands != []
    ensures (prev + [cands[0]]) + MmrFrom(Next(cands), budget - 1) == prev + MmrFrom(cands, budget)
  {
    MmrFromStep(cands, budget);
  }

  /** `limit` picks, or all candidates when there are fewer; none for a
      limit of 0 or less. */
  lemma {:induction false} MmrFromLength(cands: seq<Scored>, budget: int)
    ensures |MmrFrom(cands, budget)| == if budget <= 0 then 0 else if budget < |cands| then budget else |cands|
    decreases |cands|
  {
    if budget > 0 && cands != [] {
      MmrFromLength(Next(cands), budget - 1);
    }
  }

  lemma MmrLength(results: seq<Scored>, limit: int)
    ensures |Mmr(results, limit)| == if limit <= 0 then 0 else if limit < |results| then limit else |results|
  {
    MmrFromLength(SortDesc(results, FinalOf), limit);
  }

  /** The total penalty the picks in `picks` impose on a candidate `p`. */
  function PenaltySum(picks: seq<Scored>, p: Patent): (r: real)
    ensures 0.02 * |picks| as real <= r <= 0.18 * |picks| as real
  {
    if picks == [] then 0.0 else Penalty(picks[0].patent, p) + PenaltySum(picks[1..], p)
  }

  /** `c` once every pick in `picks` has penalized it. */
  function PenalizedBy(c: Scored, picks: seq<Scored>): Scored
  {
    var ps := PenaltySum(picks, c.patent);
    c.(scores := c.scores.(final := c.scores.final - ps, diversityPenalty := c.scores.diversityPenalty + ps))
  }

  /** Undoes `Penalize(pick, c)`. */
  function Unpenalize(pick: Patent, c: Scored): Scored
  {
    var p := Penalty(pick, c.patent);
    c.(scores := c.scores.(diversityPenalty := c.scores.diversityPenalty - p, final := c.scores.final + p))
  }

  /** The input candidate the `j`-th pick was made from. */
  ghost function Origin(cands: seq<Scored>, budget: int, j: nat): Scored
    requires j < |MmrFrom(cands, budget)|
    decreases |cands|
  {
    if j == 0 then cands[0] else Unpenalize(cands[0].patent, Origin(Next(cands), budget - 1, j - 1))
  }

  /** A candidate of the re-sorted remainder is a penalized remaining candidate. */
  lemma NextFrom(cands: seq<Scored>, y: Scored)
    requires cands != [] && y in Next(cands)
    ensures Unpenalize(cands[0].patent, y) in cands[1..]
    ensures y == Penalize(cands[0].patent, Unpenalize(cands[0].patent, y))
  {
    var penalized := PenalizeAll(cands[0].patent, cands[1..]);
    SortDescPermutes(penalized, FinalOf);
    assert y in multiset(penalized);
    var i :| 0 <= i < |penalized| && penalized[i] == y;
  }

  /** The `j`-th pick is an input candidate penalized by each earlier pick
      and changed in no other way. */
  lemma {:induction false} MmrFromOrigin(cands: seq<Scored>, budget: int, j: nat)
    requires j < |MmrFrom(cands, budget)|
    ensures Origin(cands, budget, j) in cands
    ensures MmrFrom(cands, budget)[j] == PenalizedBy(Origin(cands, budget, j), MmrFrom(cands, budget)[..j])
    decreases |cands|
  {
    MmrFromStep(cands, budget);
    var r := MmrFrom(cands, budget);
    if j == 0 {
      assert r[..0] == [];
    } else {
      var pick := cands[0];
      var next := Next(cands);
      var r' := MmrFrom(next, budget - 1);
      MmrFromOrigin(next, budget - 1, j - 1);
      var y := Origin(next, budget - 1, j - 1);
      NextFrom(cands, y);
      var x := Unpenalize(pick.patent, y);
      assert Origin(cands, budget, j) == x;
      PenalizedByCons(pick, x, y, r', j - 1);
    }
  }

  /** A pick that is `x` penalized by `pick` and then by the `i` picks before
      it in `later` is `x` penalized by all `i + 1` picks of `[pick] + later`. */
  lemma PenalizedByCons(pick: Scored, x: Scored, y: Scored, later: seq<Scored>, i: nat)
    requires i < |later| && y == Penalize(pick.patent, x) && later[i] == PenalizedBy(y, later[..i])
    ensures ([pick] + later)[i + 1] == PenalizedBy(x, ([pick] + later)[..i + 1])
  {
    var r := [pick] + later;
    assert r[..i + 1] == [pick] + later[..i];
    assert r[..i + 1][1..] == later[..i];
  }

  /** Greedy choice: when the `k`-th pick was made, no later pick scored
      more. Since each pick costs every remaining candidate at least 0.02,
      the final scores of the results strictly decrease. */
  lemma {:induction false} MmrFromGreedy(cands: seq<Scored>, budget: int, k: nat, j: nat)
    requires SortedDesc(cands, FinalOf)
    requires k < j < |MmrFrom(cands, budget)|
    ensures var r := MmrFrom(cands, budget);
            r[k].scores.final >= r[j].scores.final + PenaltySum(r[k..j], r[j].patent)
    ensures MmrFrom(cands, budget)[k].scores.final > MmrFrom(cands, budget)[j].scores.final
    decreases k
  {
    MmrFromStep(cands, budget);
    if k == 0 {
      GreedyFirst(cands, budget, j);
    } else {
      var next := Next(cands);
      SortDescSorted(PenalizeAll(cands[0].patent, cands[1..]), FinalOf);
      MmrFromGreedy(next, budget - 1, k - 1, j - 1);
      GreedyShift(cands[0], MmrFrom(next, budget - 1), k, j);
    }
  }

  /** The first pick scores at least as much as each later pick plus the
      penalties that pick received. */
  lemma GreedyFirst(cands: seq<Scored>, budget: int, j: nat)
    requires SortedDesc(cands, FinalOf)
    requires 0 < j < |MmrFrom(cands, budget)|
    ensures var r := MmrFrom(cands, budget);
            r[0].scores.final >= r[j].scores.final + PenaltySum(r[0..j], r[j].patent)
  {
    var r := MmrFrom(cands, budget);
    MmrFromStep(cands, budget);
    MmrFromOrigin(cands, budget, j);
    assert r[0..j] == r[..j];
    SortedHead(cands, FinalOf, Origin(cands, budget, j));
  }

  /** Greedy dominance between positions `k - 1` and `j - 1` of `later`
      carries over to positions `k` and `j` of `[pick] + later`. */
  lemma GreedyShift(pick: Scored, later: seq<Scored>, k: nat, j: nat)
    requires 0 < k < j <= |later|
    requires later[k - 1].scores.final >= later[j - 1].scores.final + PenaltySum(later[k - 1..j - 1], later[j - 1].patent)
    ensures var r := [pick] + later;
            r[k].scores.final >= r[j].scores.final + PenaltySum(r[k..j], r[j].patent)
  {
    var r := [pick] + later;
    assert r[k..j] == later[k - 1..j - 1];
  }

  /** A candidate with its diversity penalty added back to its final score. */
  function Restored(c: Scored): Scored
  {
    c.(scores := c.scores.(final := c.scores.final + c.scores.diversityPenalty, diversityPenalty := 0.0))
  }

  /** Penalizing does not change what `Restored` gives back. */
  lemma RestoredPenalized(pick: Patent, cands: seq<Scored>)
    ensures Image(PenalizeAll(pick, cands), Restored) == Image(cands, Restored)
  {
  }

  lemma ImageCons<T, U>(x: T, s: seq<T>, f: T -> U)
    ensures Image([x] + s, f) == [f(x)] + Image(s, f)
  {
  }

  /** The picks, with their penalties undone, are some of the candidates. */
  lemma {:induction false} MmrFromRestores(cands: seq<Scored>, budget: int)
    ensures multiset(Image(MmrFrom(cands, budget), Restored)) <= multiset(Image(cands, Restored))
    decreases |cands|
  {
    if budget > 0 && cands != [] {
      MmrFromRestores(Next(cands), budget - 1);
      RestoredNext(cands);
      MmrFromStep(cands, budget);
      ConsImageSub(MmrFrom(Next(cands), budget - 1), cands, Restored);
    }
  }

  /** Penalizing and re-sorting the remainder does not change what `Restored` gives back. */
  lemma RestoredNext(cands: seq<Scored>)
    requires cands != []
    ensures multiset(Image(Next(cands), Restored)) == multiset(Image(cands[1..], Restored))
  {
    var penalized := PenalizeAll(cands[0].patent, cands[1..]);
    SortDescImage(penalized, FinalOf, Restored);
    RestoredPenalized(cands[0].patent, cands[1..]);
  }

  /** Putting the first element of `s` in front of a sub-multiset of the
      rest of `s` (under `f`) gives a sub-multiset of `s`. */
  lemma ConsImageSub<T, U>(later: seq<T>, s: seq<T>, f: T -> U)
    requires s != [] && multiset(Image(later, f)) <= multiset(Image(s[1..], f))
    ensures multiset(Image([s[0]] + later, f)) <= multiset(Image(s, f))
  {
    ImageCons(s[0], later, f);
    assert s == [s[0]] + s[1..];
    ImageCons(s[0], s[1..], f);
  }

  /** `c` with the penalties of the picks in `picks` given back. */
  function Unpenalized(c: Scored, picks: seq<Scored>): Scored
  {
    var ps := PenaltySum(picks, c.patent);
    c.(scores := c.scores.(final := c.scores.final + ps, diversityPenalty := c.scores.diversityPenalty - ps))
  }

  /** Each result is an input candidate penalized once by every earlier
      result and changed in no other way: giving those penalties back
      yields an input. */
  lemma MmrOrigins(results: seq<Scored>, limit: int)
    ensures var r := Mmr(results, limit);
            forall j :: 0 <= j < |r| ==> Unpenalized(r[j], r[..j]) in results
  {
    var sorted := SortDesc(results, FinalOf);
    SortDescPermutes(results, FinalOf);
    var r := Mmr(results, limit);
    forall j | 0 <= j < |r|
      ensures Unpenalized(r[j], r[..j]) in results
    {
      MmrFromOrigin(sorted, limit, j);
      var x := Origin(sorted, limit, j);
      assert Unpenalized(r[j], r[..j]) == x;
      assert x in multiset(results);
    }
  }

  /** With their penalties undone, the results are some of the inputs: no
      input is returned twice. */
  lemma MmrRestores(results: seq<Scored>, limit: int)
    ensures multiset(Image(Mmr(results, limit), Restored)) <= multiset(Image(results, Restored))
  {
    MmrFromRestores(SortDesc(results, FinalOf), limit);
    SortDescImage(results, FinalOf, Restored);
  }

  /** The first result has the highest final score of all inputs. */
  lemma MmrFirstIsBest(results: seq<Scored>, limit: int)
    ensures var r := Mmr(results, limit);
            r != [] ==> forall x :: x in results ==> r[0].scores.final >= x.scores.final
  {
    var sorted := SortDesc(results, FinalOf);
    SortDescSorted(results, FinalOf);
    SortDescPermutes(results, FinalOf);
    var r := Mmr(results, limit);
    if r != [] {
      MmrFromStep(sorted, limit);
      forall x | x in results
        ensures r[0].scores.final >= x.scores.final
      {
        assert x in multiset(sorted);
        SortedHead(sorted, FinalOf, x);
      }
    }
  }

  /** Every result scores at least as much as each later one plus the
      penalties the later one received in between, so the results come in
      strictly decreasing final score. */
  lemma MmrGreedy(results: seq<Scored>, limit: int)
    ensures var r := Mmr(results, limit);
            forall k, j :: 0 <= k < j < |r| ==>
              r[k].scores.final >= r[j].scores.final + PenaltySum(r[k..j], r[j].patent) &&
              r[k].scores.final > r[j].scores.final
  {
    var sorted := SortDesc(results, FinalOf);
    SortDescSorted(results, FinalOf);
    var r := Mmr(results, limit);
    forall k, j | 0 <= k < j < |r|
      ensures r[k].scores.final >= r[j].scores.final + PenaltySum(r[k..j], r[j].patent)
      ensures r[k].scores.final > r[j].scores.final
    {
      MmrFromGreedy(sorted, limit, k, j);
    }
  }
  /** Greedy choice against the candidates not picked: when the `k`-th pick
      was made, any candidate `x` that none of the first `k` picks came from
      had been penalized by each of them, and then scored no more than the
      pick. */
  lemma {:induction false} MmrFromBeats(cands: seq<Scored>, budget: int, k: nat, x: Scored)
    requires SortedDesc(cands, FinalOf)
    requires k < |MmrFrom(cands, budget)| && x in cands
    requires forall j :: 0 <= j < k ==> Origin(cands, budget, j) != x
    ensures var r := MmrFrom(cands, budget);
            x.scores.final - PenaltySum(r[..k], x.patent) <= r[k].scores.final
    decreases k
  {
    if k == 0 {
      MmrFromStep(cands, budget);
      SortedHead(cands, FinalOf, x);
      assert MmrFrom(cands, budget)[..0] == [];
    } else {
      var next, y := Next(cands), Penalize(cands[0].patent, x);
      UnpickedNext(cands, budget, k, x, next, budget - 1);
      MmrFromBeats(next, budget - 1, k - 1, y);
      BeatsStep(cands, budget, k, x);
    }
  }

  /** The re-sorted remainder is sorted. */
  lemma NextSorted(cands: seq<Scored>)
    requires cands != []
    ensures SortedDesc(Next(cands), FinalOf)
  {
    SortDescSorted(PenalizeAll(cands[0].patent, cands[1..]), FinalOf);
  }

  /** The bound for `x` penalized by the first pick, against pick `k - 1`
      from the re-sorted remainder, is the bound for `x` against pick `k`. */
  lemma BeatsStep(cands: seq<Scored>, budget: int, k: nat, x: Scored)
    requires 0 < k < |MmrFrom(cands, budget)|
    requires var y := Penalize(cands[0].patent, x);
             var later := MmrFrom(Next(cands), budget - 1);
             k - 1 < |later| && y.scores.final - PenaltySum(later[..k - 1], y.patent) <= later[k - 1].scores.final
    ensures var r := MmrFrom(cands, budget);
            x.scores.final - PenaltySum(r[..k], x.patent) <= r[k].scores.final
  {
    MmrFromStep(cands, budget);
    BeatsShift(cands[0], x, MmrFrom(Next(cands), budget - 1), k - 1);
  }

  /** A remaining candidate other than the pick reappears, penalized by
      the pick, in the re-sorted remainder. */
  lemma PenalizedInNext(cands: seq<Scored>, x: Scored)
    requires cands != [] && x in cands && x != cands[0]
    ensures Penalize(cands[0].patent, x) in Next(cands)
  {
    var penalized := PenalizeAll(cands[0].patent, cands[1..]);
    var i :| 0 <= i < |cands| && cands[i] == x;
    assert penalized[i - 1] == Penalize(cands[0].patent, x);
    SortDescPermutes(penalized, FinalOf);
    assert Penalize(cands[0].patent, x) in multiset(penalized);
  }

  /** A candidate none of the first `k` picks came from reappears, penalized
      by the first pick, as one none of the first `k - 1` picks from the
      re-sorted remainder came from. */
  lemma UnpickedNext(cands: seq<Scored>, budget: int, k: nat, x: Scored, next: seq<Scored>, nb: int)
    requires 0 < k < |MmrFrom(cands, budget)| && next == Next(cands) && nb == budget - 1
    requires x in cands
    requires forall j :: 0 <= j < k ==> Origin(cands, budget, j) != x
    ensures SortedDesc(next, FinalOf) && Penalize(cands[0].patent, x) in next
    ensures k - 1 < |MmrFrom(next, nb)|
    ensures forall j :: 0 <= j < k - 1 ==> Origin(next, nb, j) != Penalize(cands[0].patent, x)
  {
    MmrFromStep(cands, budget);
    assert Origin(cands, budget, 0) == cands[0];
    NextSorted(cands);
    PenalizedInNext(cands, x);
    forall j | 0 <= j < k - 1
      ensures Origin(next, nb, j) != Penalize(cands[0].patent, x)
    {
      OriginStep(cands, budget, j + 1, x);
    }
  }

  /** If a later pick came from `x` penalized by the first pick, that pick
      came from `x`. */
  lemma OriginStep(cands: seq<Scored>, budget: int, j: nat, x: Scored)
    requires 0 < j < |MmrFrom(cands, budget)|
    requires Origin(cands, budget, j) != x
    ensures Origin(Next(cands), budget - 1, j - 1) != Penalize(cands[0].patent, x)
  {
    var pick := cands[0].patent;
    var p := Penalty(pick, x.patent);
    assert Unpenalize(pick, Penalize(pick, x)) == x by {
      assert Penalize(pick, x).patent == x.patent;
      assert Penalize(pick, x).scores.final + p == x.scores.final;
      assert Penalize(pick, x).scores.diversityPenalty - p == x.scores.diversityPenalty;
    }
  }

  /** The bound for `x` penalized by `pick` against position `i` of `later`
      is the bound for `x` against position `i + 1` of `[pick] + later`. */
  lemma BeatsShift(pick: Scored, x: Scored, later: seq<Scored>, i: nat)
    requires i < |later|
    requires var y := Penalize(pick.patent, x);
             y.scores.final - PenaltySum(later[..i], y.patent) <= later[i].scores.final
    ensures var r := [pick] + later;
            x.scores.final - PenaltySum(r[..i + 1], x.patent) <= r[i + 1].scores.final
  {
    var r := [pick] + later;
    assert r[..i + 1][1..] == later[..i];
  }

  /** Greedy choice over the inputs: each result scored at least as much as
      every input not yet picked, once that input is penalized by the
      results before it. */
  lemma MmrBeatsRemaining(results: seq<Scored>, limit: int)
    ensures var r := Mmr(results, limit);
            forall k, x ::
              (0 <= k < |r| && x in results && forall j :: 0 <= j < k ==> Unpenalized(r[j], r[..j]) != x) ==>
              x.scores.final - PenaltySum(r[..k], x.patent) <= r[k].scores.final
  {
    var r := Mmr(results, limit);
    forall k, x | 0 <= k < |r| && x in results && (forall j :: 0 <= j < k ==> Unpenalized(r[j], r[..j]) != x)
      ensures x.scores.final - PenaltySum(r[..k], x.patent) <= r[k].scores.final
    {
      BeatsRemainingAt(results, limit, k, x, SortDesc(results, FinalOf));
    }
  }

  /** `MmrBeatsRemaining` for one pick and one input. */
  lemma BeatsRemainingAt(results: seq<Scored>, limit: int, k: nat, x: Scored, sorted: seq<Scored>)
    requires sorted == SortDesc(results, FinalOf)
    requires k < |Mmr(results, limit)| && x in results
    requires forall j :: 0 <= j < k ==> Unpenalized(Mmr(results, limit)[j], Mmr(results, limit)[..j]) != x
    ensures var r := Mmr(results, limit);
            x.scores.final - PenaltySum(r[..k], x.patent) <= r[k].scores.final
  {
    SortDescSorted(results, FinalOf);
    SortDescPermutes(results, FinalOf);
    assert x in multiset(sorted);
    OriginsAvoid(results, limit, k, x, sorted);
    MmrFromBeats(sorted, limit, k, x);
  }

  /** An input no result before the `k`-th restores to is no origin of those
      results. */
  lemma OriginsAvoid(results: seq<Scored>, limit: int, k: nat, x: Scored, sorted: seq<Scored>)
    requires sorted == SortDesc(results, FinalOf)
    requires k < |Mmr(results, limit)|
    requires forall j :: 0 <= j < k ==> Unpenalized(Mmr(results, limit)[j], Mmr(results, limit)[..j]) != x
    ensures forall j :: 0 <= j < k ==> Origin(sorted, limit, j) != x
  {
    var r := Mmr(results, limit);
    forall j | 0 <= j < k
      ensures Origin(sorted, limit, j) != x
    {
      MmrFromOrigin(sorted, limit, j);
      assert Unpenalized(r[j], r[..j]) == Origin(sorted, limit, j);
    }
  }
}
