/**
 * Cosine top-k neighbour search (`cosine_topk_indices`). The similarity
 * matrix is taken as given, an N x N matrix of exact reals; its diagonal is
 * overwritten in place with the sentinel -1.0 and every row is then ranked by
 * descending similarity and cut to its first k columns.
 *
 * The ranking breaks ties between equal similarities by ascending column
 * index, which makes the result unique (TopKUnique).
 */
module Ranking {
  import opened Seqs

  /** The sentinel written over self-similarities. */
  const Sentinel: real := -1.0

  /** Column `a` is ranked before column `b` in `row`: strictly more similar,
      or equally similar and of smaller index. */
  predicate Before(row: seq<real>, a: nat, b: nat)
    requires a < |row| && b < |row|
  {
    row[a] > row[b] || (row[a] == row[b] && a < b)
  }

  /** `r` is the list of the `k` best-ranked columns of `row`, best first
      (all of them when the row has fewer than `k`). */
  predicate IsTopK(row: seq<real>, k: nat, r: seq<nat>)
  {
    && |r| == (if k <= |row| then k else |row|)
    && (forall p :: 0 <= p < |r| ==> r[p] < |row|)
    && (forall p, q :: 0 <= p < q < |r| ==> Before(row, r[p], r[q]))
    && (forall p, j :: 0 <= p < |r| && 0 <= j < |row| && j !in r ==> Before(row, r[p], j))
  }

  /** The `i`-th row of `sim`. */
  function Row(sim: array2<real>, i: nat): (row: seq<real>)
    reads sim
    requires i < sim.Length0
    ensures |row| == sim.Length1
    ensures forall j :: 0 <= j < sim.Length1 ==> row[j] == sim[i, j]
  {
    seq(sim.Length1, j requires 0 <= j < sim.Length1 reads sim => sim[i, j])
  }

  /** `sim[np.arange(N), np.arange(N)] = -1.0`. */
  method ExcludeSelf(sim: array2<real>)
    requires sim.Length0 == sim.Length1
    modifies sim
    ensures forall i, j :: 0 <= i < sim.Length0 && 0 <= j < sim.Length1 ==>
      sim[i, j] == if i == j then Sentinel else old(sim[i, j])
  {
    for d := 0 to sim.Length0
      invariant forall i, j :: 0 <= i < sim.Length0 && 0 <= j < sim.Length1 ==>
        sim[i, j] == if i == j && i < d then Sentinel else old(sim[i, j])
    {
      sim[d, d] := Sentinel;
    }
  }

  /** The position of the best-ranked column among the candidates (the `argmax` step of the ranking). */
  method SelectBest(row: seq<real>, cands: seq<nat>) returns (m: nat)
    requires cands != []
    requires forall t :: 0 <= t < |cands| ==> cands[t] < |row|
    requires forall s, t :: 0 <= s < t < |cands| ==> cands[s] != cands[t]
    ensures m < |cands|
    ensures forall u :: 0 <= u < |cands| && u != m ==> Before(row, cands[m], cands[u])
  {
    m := 0;
    for t := 1 to |cands|
      invariant 0 <= m < |cands|
      invariant forall u :: 0 <= u < t && u != m ==> Before(row, cands[m], cands[u])
    {
      if Before(row, cands[t], cands[m]) {
        m := t;
      }
    }
  }

  /** Removing the element at position `m` keeps every other value. */
  lemma RemoveAtKeeps(xs: seq<nat>, m: nat, j: nat)
    requires m < |xs| && j in xs && j != xs[m]
    ensures j in xs[..m] + xs[m + 1..]
  {
    var t :| 0 <= t < |xs| && xs[t] == j;
    if t < m {
      assert (xs[..m] + xs[m + 1..])[t] == j;
    } else {
      assert (xs[..m] + xs[m + 1..])[t - 1] == j;
    }
  }

  /**
   * The first `k` columns of `row` by descending similarity
   * (`np.argsort(-row)[:k]`), found by repeatedly selecting the best-ranked
   * column not chosen yet.
   */
  method TopKRow(row: seq<real>, k: nat) returns (r: seq<nat>)
    ensures IsTopK(row, k, r)
    ensures |r| == if k <= |row| then k else |row|
    ensures forall p :: 0 <= p < |r| ==> r[p] < |row|
    ensures forall p, q :: 0 <= p < q < |r| ==> r[p] != r[q] && row[r[p]] >= row[r[q]]
    ensures forall p, j :: 0 <= p < |r| && 0 <= j < |row| && j !in r ==> row[j] <= row[r[p]]
  {
    var n := if k <= |row| then k else |row|;
    var remaining: seq<nat> := seq(|row|, j requires 0 <= j < |row| => j);
    r := [];
    forall j | 0 <= j < |row| ensures j in remaining {
      assert remaining[j] == j;
    }
    while |r| < n
      invariant |r| <= n
      invariant |r| + |remaining| == |row|
      invariant forall p :: 0 <= p < |r| ==> r[p] < |row|
      invariant forall t :: 0 <= t < |remaining| ==> remaining[t] < |row|
      invariant forall s, t :: 0 <= s < t < |remaining| ==> remaining[s] != remaining[t]
      invariant forall j :: 0 <= j < |row| ==> j in r || j in remaining
      invariant forall p, q :: 0 <= p < q < |r| ==> Before(row, r[p], r[q])
      invariant forall p, t :: 0 <= p < |r| && 0 <= t < |remaining| ==> Before(row, r[p], remaining[t])
    {
      var m := SelectBest(row, remaining);
      var best := remaining[m];
      var rest := remaining[..m] + remaining[m + 1..];
      forall j | 0 <= j < |row| && j !in r && j != best ensures j in rest {
        RemoveAtKeeps(remaining, m, j);
      }
      r, remaining := r + [best], rest;
    }
  }

  /** `cosine_topk_indices` on a given similarity matrix: overwrite the
      diagonal with the sentinel, then rank every row. */
  method CosineTopK(sim: array2<real>, k: nat) returns (topk: seq<seq<nat>>)
    requires sim.Length0 == sim.Length1
    modifies sim
    ensures forall i, j :: 0 <= i < sim.Length0 && 0 <= j < sim.Length1 ==>
      sim[i, j] == if i == j then Sentinel else old(sim[i, j])
    ensures |topk| == sim.Length0
    ensures forall i :: 0 <= i < sim.Length0 ==> IsTopK(Row(sim, i), k, topk[i])
  {
    ExcludeSelf(sim);
    topk := [];
    for i := 0 to sim.Length0
      invariant |topk| == i
      invariant forall i', j :: 0 <= i' < sim.Length0 && 0 <= j < sim.Length1 ==>
        sim[i', j] == if i' == j then Sentinel else old(sim[i', j])
      invariant forall i' :: 0 <= i' < i ==> IsTopK(Row(sim, i'), k, topk[i'])
    {
      var ranked := TopKRow(Row(sim, i), k);
      topk := topk + [ranked];
    }
  }

  /** The ranking is a strict total order on the columns of a row. */
  lemma BeforeTotal(row: seq<real>, a: nat, b: nat)
    requires a < |row| && b < |row| && a != b
    ensures Before(row, a, b) != Before(row, b, a)
  {
  }

  /** The top-k list of a row is unique: running the selection twice gives the same result. */
  lemma TopKUnique(row: seq<real>, k: nat, r1: seq<nat>, r2: seq<nat>)
    requires IsTopK(row, k, r1) && IsTopK(row, k, r2)
    ensures r1 == r2
  {
    TopKAgree(row, k, r1, r2, |r1|);
  }

  lemma {:induction false} TopKAgree(row: seq<real>, k: nat, r1: seq<nat>, r2: seq<nat>, n: nat)
    requires IsTopK(row, k, r1) && IsTopK(row, k, r2)
    requires n <= |r1|
    ensures r1[..n] == r2[..n]
  {
    if n > 0 {
      TopKAgree(row, k, r1, r2, n - 1);
      var p := n - 1;
      var a, b := r1[p], r2[p];
      if a != b {
        BeforeTotal(row, a, b);
        if Before(row, a, b) {
          // `a` is listed in r2 after position p, or not at all; both contradict r2
          if a in r2 {
            var q :| 0 <= q < |r2| && r2[q] == a;
          }
        } else {
          if b in r1 {
            var q :| 0 <= q < |r1| && r1[q] == b;
          }
        }
      }
      assert r1[..n] == r1[..n - 1] + [a];
      assert r2[..n] == r2[..n - 1] + [b];
    }
  }

  /**
   * Self-exclusion holds only conditionally: when `k` is below the row length
   * and every other column of row `i` is strictly more similar than the
   * sentinel at position `i`, column `i` is not among the top k.
   */
  lemma SelfExcluded(row: seq<real>, i: nat, k: nat, r: seq<nat>)
    requires IsTopK(row, k, r)
    requires i < |row| && row[i] == Sentinel
    requires forall j :: 0 <= j < |row| && j != i ==> row[j] > Sentinel
    requires k < |row|
    ensures i !in r
  {
    if i in r {
      var p :| 0 <= p < |r| && r[p] == i;
      // column i ranks below every other column, so all of them are listed too
      assert forall j :: 0 <= j < |row| ==> j in r;
      CoversRange(r, |row|);
    }
  }

  /**
   * With a tie at the sentinel, self-exclusion fails: in row 0 of
   * [[-1, -1], [-1, -1]] (after the overwrite) both columns are equally
   * similar, and the index tie-break selects column 0 itself for k = 1.
   */
  lemma SelfRetrievedOnTie(r: seq<nat>)
    requires IsTopK([Sentinel, Sentinel], 1, r)
    ensures r == [0]
  {
    var row := [Sentinel, Sentinel];
    assert IsTopK(row, 1, [0]) by {
      assert 1 !in [0];
      assert Before(row, 0, 1);
    }
    TopKUnique(row, 1, r, [0]);
  }
}
