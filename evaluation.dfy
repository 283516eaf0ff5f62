/**
 * Retrieval evaluation (`evaluate_retrieval_from_topk`): for every query
 * whose style has another member, the number of ground-truth items among its
 * retrieved ones, precision@k, recall@k and hit@k, and their means.
 */
module Evaluation {
  import opened Wrappers
  import opened Seqs

  /** One evaluated query: its row index, style, ground-truth size and hit count. */
  datatype QueryRecord<S> = QueryRecord(queryIdx: nat, style: S, gtSize: nat, hitCnt: nat)

  /** The aggregate metrics and the per-query records. */
  datatype EvaluationResult<S> = EvaluationResult(
    precisionAtK: real,
    recallAtK: real,
    hitAtK: real,
    numQueries: nat,
    perQuery: seq<QueryRecord<S>>)

  /** The evaluation divides by k, so k = 0 fails as soon as a query is evaluated. */
  datatype EvalError = ZeroDivision

  /** `style_to_idx[s]` after the first `n` items: their indices of style `s`, ascending. */
  function Members<S(==)>(styles: seq<S>, s: S, n: nat): (m: seq<int>)
    requires n <= |styles|
    ensures Ascending(m)
    ensures forall p :: 0 <= p < |m| ==> 0 <= m[p] < n && styles[m[p]] == s
  {
    if n == 0 then []
    else Members(styles, s, n - 1) + (if styles[n - 1] == s then [n - 1] else [])
  }

  /** `style_to_idx[s]` lists every index of style `s`, once each. */
  lemma {:induction false} MembersComplete<S>(styles: seq<S>, s: S, n: nat, j: nat)
    requires n <= |styles| && j < n && styles[j] == s
    ensures j in Members(styles, s, n)
  {
    if j < n - 1 {
      MembersComplete(styles, s, n - 1, j);
    }
  }

  /** A style that none of the first `n` items has has no members yet. */
  lemma {:induction false} MembersAbsent<S>(styles: seq<S>, s: S, n: nat)
    requires n <= |styles|
    requires forall j :: 0 <= j < n ==> styles[j] != s
    ensures Members(styles, s, n) == []
  {
    if n > 0 {
      MembersAbsent(styles, s, n - 1);
    }
  }

  lemma {:induction false} MembersCount<S>(styles: seq<S>, s: S, n: nat)
    requires n <= |styles|
    ensures |Members(styles, s, n)| == multiset(styles[..n])[s]
  {
    if n > 0 {
      var init := styles[..n - 1];
      MembersCount(styles, s, n - 1);
      assert styles[..n] == init + [styles[n - 1]];
      assert multiset(styles[..n]) == multiset(init) + multiset{styles[n - 1]};
    }
  }

  /** The ground truth of query `i`: every other index with the same style, ascending. */
  function GroundTruth<S(==)>(styles: seq<S>, i: nat): (gt: seq<int>)
    requires i < |styles|
    ensures Ascending(gt)
    ensures forall p :: 0 <= p < |gt| ==> 0 <= gt[p] < |styles| && gt[p] != i && styles[gt[p]] == styles[i]
  {
    var m := Members(styles, styles[i], |styles|);
    RemoveAllAscending(m, i);
    RemoveAll(m, i)
  }

  /** Every other index with the same style is in the ground truth. */
  lemma GroundTruthComplete<S>(styles: seq<S>, i: nat, j: nat)
    requires i < |styles| && j < |styles|
    requires j != i && styles[j] == styles[i]
    ensures j in GroundTruth(styles, i)
  {
    var m := Members(styles, styles[i], |styles|);
    MembersComplete(styles, styles[i], |styles|, j);
    var p :| 0 <= p < |m| && m[p] == j;
    RemoveAllKeeps(m, i, p);
  }

  /** The ground truth of query `i` has one element less than the style has members. */
  lemma GroundTruthSize<S>(styles: seq<S>, i: nat)
    requires i < |styles|
    ensures |GroundTruth(styles, i)| == multiset(styles)[styles[i]] - 1
  {
    var m := Members(styles, styles[i], |styles|);
    RemoveAllCount(m, i);
    MembersCount(styles, styles[i], |styles|);
    assert styles[..|styles|] == styles;
    MembersComplete(styles, styles[i], |styles|, i);
    AscendingOccursOnce(m, i);
  }

  /**
   * `len(set(retrieved) & set(gt))`, counted along the ground truth: the
   * number of its entries that are retrieved. Ground truths have no repeated
   * entries, so this is the size of the intersection (HitCountIsIntersection).
   */
  function HitCount(retrieved: seq<int>, gt: seq<int>): (h: nat)
    ensures h <= |gt|
  {
    if gt == [] then 0
    else HitCount(retrieved, gt[..|gt| - 1]) + (if gt[|gt| - 1] in retrieved then 1 else 0)
  }

  /** For a ground truth without repetitions, the hit count is the size of the set intersection. */
  lemma {:induction false} HitCountIsIntersection(retrieved: seq<int>, gt: seq<int>)
    requires Ascending(gt)
    ensures HitCount(retrieved, gt) == |Elems(retrieved) * Elems(gt)|
  {
    if gt != [] {
      var init, last := gt[..|gt| - 1], gt[|gt| - 1];
      AscendingInit(gt);
      HitCountIsIntersection(retrieved, init);
      ElemsLast(gt);
      IntersectAdd(Elems(retrieved), Elems(init), last);
    }
  }

  lemma IntersectAdd(r: set<int>, a: set<int>, x: int)
    requires x !in a
    ensures |r * (a + {x})| == |r * a| + (if x in r then 1 else 0)
  {
    if x in r {
      assert r * (a + {x}) == r * a + {x};
    } else {
      assert r * (a + {x}) == r * a;
    }
  }

  /** A hit count never exceeds the ground-truth size or the number retrieved. */
  lemma HitCountBounds(retrieved: seq<int>, gt: seq<int>)
    requires Ascending(gt)
    ensures HitCount(retrieved, gt) <= |gt|
    ensures HitCount(retrieved, gt) <= |retrieved|
  {
    HitCountIsIntersection(retrieved, gt);
    SubsetCard(Elems(retrieved) * Elems(gt), Elems(retrieved));
    ElemsCard(retrieved);
  }

  /** A hit count is positive exactly when some retrieved item is in the ground truth. */
  lemma {:induction false} HitCountPositive(retrieved: seq<int>, gt: seq<int>)
    ensures HitCount(retrieved, gt) > 0 <==> exists j :: j in retrieved && j in gt
  {
    if gt != [] {
      var init, last := gt[..|gt| - 1], gt[|gt| - 1];
      HitCountPositive(retrieved, init);
      assert gt == init + [last];
      if exists j :: j in retrieved && j in init {
        var j :| j in retrieved && j in init;
        assert j in gt;
      }
      if last in retrieved {
        assert last in gt;
      }
    }
  }

  /** The record of item `i` when it is evaluated. */
  predicate IsRecordOf<S(==)>(rec: QueryRecord<S>, topk: seq<seq<int>>, styles: seq<S>)
    requires |topk| >= |styles|
  {
    && rec.queryIdx < |styles|
    && rec.style == styles[rec.queryIdx]
    && rec.gtSize == |GroundTruth(styles, rec.queryIdx)| > 0
    && rec.hitCnt == HitCount(topk[rec.queryIdx], GroundTruth(styles, rec.queryIdx))
  }

  /** An item can be evaluated when another item has the same style. */
  predicate Evaluable<S(==)>(styles: seq<S>, i: nat)
    requires i < |styles|
  {
    exists j :: 0 <= j < |styles| && j != i && styles[j] == styles[i]
  }

  /** The ground truth of an item is non-empty exactly when the item is evaluable. */
  lemma GroundTruthNonEmpty<S>(styles: seq<S>, i: nat)
    requires i < |styles|
    ensures |GroundTruth(styles, i)| > 0 <==> Evaluable(styles, i)
  {
    var gt := GroundTruth(styles, i);
    if |gt| > 0 {
      assert gt[0] != i && styles[gt[0]] == styles[i];
    }
    if Evaluable(styles, i) {
      var j :| 0 <= j < |styles| && j != i && styles[j] == styles[i];
      GroundTruthComplete(styles, i, j);
    }
  }

  /** The items that are evaluated. */
  function EvaluableSet<S(==)>(styles: seq<S>): set<nat>
  {
    set i: nat | i < |styles| && Evaluable(styles, i)
  }

  /** The query indices of a list of records. */
  function QueryIndices<S>(recs: seq<QueryRecord<S>>): seq<int>
  {
    seq(|recs|, q requires 0 <= q < |recs| => recs[q].queryIdx)
  }

  /** The record item `i` contributes: none when its ground truth is empty. */
  function Candidate<S(==)>(topk: seq<seq<int>>, styles: seq<S>, i: nat): Option<QueryRecord<S>>
    requires |topk| >= |styles| && i < |styles|
  {
    var gt := GroundTruth(styles, i);
    if |gt| == 0 then None else Some(QueryRecord(i, styles[i], |gt|, HitCount(topk[i], gt)))
  }

  function Candidates<S(==)>(topk: seq<seq<int>>, styles: seq<S>): (c: seq<Option<QueryRecord<S>>>)
    requires |topk| >= |styles|
    ensures |c| == |styles|
  {
    seq(|styles|, i requires 0 <= i < |styles| => Candidate(topk, styles, i))
  }

  /** An item contributes a record only when it is evaluable. */
  lemma CandidateEvaluable<S>(topk: seq<seq<int>>, styles: seq<S>, i: nat)
    requires |topk| >= |styles| && i < |styles|
    requires Candidate(topk, styles, i).Some?
    ensures Evaluable(styles, i)
  {
    GroundTruthNonEmpty(styles, i);
  }

  /** Entry `i` of `cands`, when present, is a record of item `i` with a non-empty ground truth. */
  predicate Indexed<S>(cands: seq<Option<QueryRecord<S>>>)
  {
    forall i :: 0 <= i < |cands| && cands[i].Some? ==> cands[i].value.queryIdx == i && cands[i].value.gtSize > 0
  }

  lemma CandidatesIndexed<S>(topk: seq<seq<int>>, styles: seq<S>)
    requires |topk| >= |styles|
    ensures Indexed(Candidates(topk, styles))
  {
    var cands := Candidates(topk, styles);
    forall i | 0 <= i < |cands| && cands[i].Some? ensures cands[i].value.queryIdx == i && cands[i].value.gtSize > 0 {
      assert cands[i] == Candidate(topk, styles, i);
    }
  }

  /** The records kept from indexed candidates are in strictly ascending item order, with non-empty ground truths. */
  lemma {:induction false} IndexedSomes<S>(cands: seq<Option<QueryRecord<S>>>)
    requires Indexed(cands)
    ensures Ascending(QueryIndices(Somes(cands)))
    ensures forall q :: 0 <= q < |Somes(cands)| ==> Somes(cands)[q].queryIdx < |cands| && Somes(cands)[q].gtSize > 0
  {
    if cands != [] {
      var init, last := cands[..|cands| - 1], cands[|cands| - 1];
      assert Indexed(init) by {
        forall i | 0 <= i < |init| && init[i].Some? ensures init[i].value.queryIdx == i && init[i].value.gtSize > 0 {
          assert init[i] == cands[i];
        }
      }
      IndexedSomes(init);
      var rest := Somes(init);
      if last.Some? {
        assert Somes(cands) == rest + [last.value];
        assert QueryIndices(Somes(cands)) == QueryIndices(rest) + [|cands| - 1];
        AscendingSnoc(QueryIndices(rest), |cands| - 1);
      } else {
        assert Somes(cands) == rest;
      }
    }
  }

  /** The `per_query` list: one record per item with a non-empty ground truth, in item order. */
  function QueryRecords<S(==)>(topk: seq<seq<int>>, styles: seq<S>): (recs: seq<QueryRecord<S>>)
    requires |topk| >= |styles|
    ensures forall q :: 0 <= q < |recs| ==> recs[q].queryIdx < |styles| && recs[q].gtSize > 0
  {
    CandidatesIndexed(topk, styles);
    IndexedSomes(Candidates(topk, styles));
    Somes(Candidates(topk, styles))
  }

  /** Every record is the record of an evaluated item: its style, ground-truth size and hit count. */
  lemma QueriedIsEvaluable<S>(topk: seq<seq<int>>, styles: seq<S>, q: nat)
    requires |topk| >= |styles|
    requires q < |QueryRecords(topk, styles)|
    ensures IsRecordOf(QueryRecords(topk, styles)[q], topk, styles)
    ensures Evaluable(styles, QueryRecords(topk, styles)[q].queryIdx)
  {
    var cands := Candidates(topk, styles);
    SomesSound(cands, q);
    var j :| 0 <= j < |cands| && cands[j] == Some(Somes(cands)[q]);
    assert cands[j] == Candidate(topk, styles, j);
    GroundTruthNonEmpty(styles, j);
  }

  /** Every item whose style has another member is queried; skipping happens only for singleton styles. */
  lemma EvaluableIsQueried<S>(topk: seq<seq<int>>, styles: seq<S>, j: nat)
    requires |topk| >= |styles| && j < |styles|
    requires Evaluable(styles, j)
    ensures exists q :: 0 <= q < |QueryRecords(topk, styles)| && QueryRecords(topk, styles)[q].queryIdx == j
  {
    var cands := Candidates(topk, styles);
    GroundTruthNonEmpty(styles, j);
    assert cands[j] == Candidate(topk, styles, j);
    SomesComplete(cands, j);
    var q :| 0 <= q < |Somes(cands)| && Somes(cands)[q] == cands[j].value;
    assert QueryRecords(topk, styles)[q].queryIdx == j;
  }

  /** `num_queries` is the number of items whose style occurs at least twice. */
  lemma NumQueries<S>(topk: seq<seq<int>>, styles: seq<S>)
    requires |topk| >= |styles|
    ensures |QueryRecords(topk, styles)| == |EvaluableSet(styles)|
  {
    var cands := Candidates(topk, styles);
    SomesCount(cands);
    forall i: nat | i < |styles| ensures cands[i].Some? <==> Evaluable(styles, i) {
      assert cands[i] == Candidate(topk, styles, i);
      GroundTruthNonEmpty(styles, i);
    }
    assert (set i: nat | i < |cands| && cands[i].Some?) == EvaluableSet(styles);
  }

  /** Queries are recorded in item order, each item at most once. */
  lemma QueryOrder<S>(topk: seq<seq<int>>, styles: seq<S>)
    requires |topk| >= |styles|
    ensures Ascending(QueryIndices(QueryRecords(topk, styles)))
  {
    CandidatesIndexed(topk, styles);
    IndexedSomes(Candidates(topk, styles));
  }

  /** `hit_cnt / k` per record. */
  function Precisions<S>(recs: seq<QueryRecord<S>>, k: nat): (ps: seq<real>)
    requires k > 0 || recs == []
    ensures |ps| == |recs| && forall q :: 0 <= q < |ps| ==> 0.0 <= ps[q]
  {
    seq(|recs|, q requires 0 <= q < |recs| => Ratio(recs[q].hitCnt, k))
  }

  /** `hit_cnt / len(gt)` per record. */
  function Recalls<S>(recs: seq<QueryRecord<S>>): (rs: seq<real>)
    requires forall q :: 0 <= q < |recs| ==> recs[q].gtSize > 0
    ensures |rs| == |recs| && forall q :: 0 <= q < |rs| ==> 0.0 <= rs[q]
  {
    seq(|recs|, q requires 0 <= q < |recs| => Ratio(recs[q].hitCnt, recs[q].gtSize))
  }

  /** `1.0 if hit_cnt > 0 else 0.0` per record. */
  function Hits<S>(recs: seq<QueryRecord<S>>): (hs: seq<real>)
    ensures |hs| == |recs| && forall q :: 0 <= q < |hs| ==> hs[q] == 0.0 || hs[q] == 1.0
  {
    seq(|recs|, q requires 0 <= q < |recs| => if recs[q].hitCnt > 0 then 1.0 else 0.0)
  }

  /** `ps`, `rs` and `hs` are the per-query precision, recall and hit lists of `recs`. */
  predicate MetricsOf<S>(recs: seq<QueryRecord<S>>, k: nat, ps: seq<real>, rs: seq<real>, hs: seq<real>)
  {
    && (k > 0 || recs == [])
    && (forall q :: 0 <= q < |recs| ==> recs[q].gtSize > 0)
    && ps == Precisions(recs, k)
    && rs == Recalls(recs)
    && hs == Hits(recs)
  }

  /** Appending a record appends its precision, recall and hit indicator. */
  lemma MetricsSnoc<S>(recs: seq<QueryRecord<S>>, rec: QueryRecord<S>, k: nat, ps: seq<real>, rs: seq<real>, hs: seq<real>)
    requires MetricsOf(recs, k, ps, rs, hs)
    requires k > 0 && rec.gtSize > 0
    ensures MetricsOf(recs + [rec], k, ps + [Ratio(rec.hitCnt, k)], rs + [Ratio(rec.hitCnt, rec.gtSize)],
      hs + [if rec.hitCnt > 0 then 1.0 else 0.0])
  {
  }

  /** Python's true division `a / b` of two counts, over exact reals. */
  function Ratio(a: nat, b: nat): (r: real)
    requires b > 0
    ensures 0.0 <= r && (a <= b ==> r <= 1.0)
  {
    a as real / b as real
  }

  function SumReal(xs: seq<real>): real
  {
    if xs == [] then 0.0 else SumReal(xs[..|xs| - 1]) + xs[|xs| - 1]
  }

  /** `np.mean(xs)`, over exact reals. */
  function Mean(xs: seq<real>): real
    requires xs != []
  {
    SumReal(xs) / |xs| as real
  }

  lemma {:induction false} SumRealBetween(xs: seq<real>)
    requires forall q :: 0 <= q < |xs| ==> 0.0 <= xs[q] <= 1.0
    ensures 0.0 <= SumReal(xs) <= |xs| as real
  {
    if xs != [] {
      SumRealBetween(xs[..|xs| - 1]);
    }
  }

  /** The mean of values in [0, 1] lies in [0, 1]. */
  lemma MeanInUnitInterval(xs: seq<real>)
    requires xs != []
    requires forall q :: 0 <= q < |xs| ==> 0.0 <= xs[q] <= 1.0
    ensures 0.0 <= Mean(xs) <= 1.0
  {
    SumRealBetween(xs);
  }

  /**
   * Per-query bounds: the hit count is at most the ground-truth size and at
   * most k when every retrieved row holds at most k indices.
   */
  lemma RecordBounds<S>(topk: seq<seq<int>>, styles: seq<S>, k: nat, q: nat)
    requires |topk| >= |styles|
    requires forall i :: 0 <= i < |topk| ==> |topk[i]| <= k
    requires q < |QueryRecords(topk, styles)|
    ensures var rec := QueryRecords(topk, styles)[q];
      rec.hitCnt <= rec.gtSize && rec.hitCnt <= k
  {
    QueriedIsEvaluable(topk, styles, q);
    var i := QueryRecords(topk, styles)[q].queryIdx;
    HitCountBounds(topk[i], GroundTruth(styles, i));
  }

  /** Means of per-query metrics whose hit counts are bounded by k and by the ground-truth size lie in [0, 1]. */
  lemma MeansInUnitInterval<S>(recs: seq<QueryRecord<S>>, k: nat)
    requires k > 0 && recs != []
    requires forall q :: 0 <= q < |recs| ==> recs[q].hitCnt <= recs[q].gtSize && recs[q].hitCnt <= k && recs[q].gtSize > 0
    ensures 0.0 <= Mean(Precisions(recs, k)) <= 1.0
    ensures 0.0 <= Mean(Recalls(recs)) <= 1.0
    ensures 0.0 <= Mean(Hits(recs)) <= 1.0
  {
    var ps, rs, hs := Precisions(recs, k), Recalls(recs), Hits(recs);
    MeanInUnitInterval(ps);
    MeanInUnitInterval(rs);
    MeanInUnitInterval(hs);
  }

  /**
   * Precision, recall and the hit indicator of every query lie in [0, 1], so
   * their means P@k, R@k and Hit@k do too.
   */
  lemma MetricsInUnitInterval<S>(topk: seq<seq<int>>, styles: seq<S>, k: nat)
    requires |topk| >= |styles| && k > 0
    requires forall i :: 0 <= i < |topk| ==> |topk[i]| <= k
    requires QueryRecords(topk, styles) != []
    ensures var recs := QueryRecords(topk, styles);
      && 0.0 <= Mean(Precisions(recs, k)) <= 1.0
      && 0.0 <= Mean(Recalls(recs)) <= 1.0
      && 0.0 <= Mean(Hits(recs)) <= 1.0
  {
    var recs := QueryRecords(topk, styles);
    forall q | 0 <= q < |recs|
      ensures recs[q].hitCnt <= recs[q].gtSize && recs[q].hitCnt <= k && recs[q].gtSize > 0
    {
      RecordBounds(topk, styles, k, q);
    }
    MeansInUnitInterval(recs, k);
  }

  /** The `style_to_idx` dictionary: each style maps to the indices of its items, in item order. */
  method IndexByStyle<S(==)>(styles: seq<S>) returns (styleToIdx: map<S, seq<int>>)
    ensures forall s :: s in styleToIdx <==> s in styles
    ensures forall s :: s in styleToIdx ==> styleToIdx[s] == Members(styles, s, |styles|)
  {
    styleToIdx := map[];
    for i := 0 to |styles|
      invariant forall s :: s in styleToIdx <==> s in styles[..i]
      invariant forall s :: s in styleToIdx ==> styleToIdx[s] == Members(styles, s, i)
    {
      var s := styles[i];
      assert styles[..i + 1] == styles[..i] + [s];
      if s !in styleToIdx {
        forall j | 0 <= j < i ensures styles[j] != s {
          assert styles[..i][j] == styles[j];
        }
        MembersAbsent(styles, s, i);
      }
      styleToIdx := styleToIdx[s := (if s in styleToIdx then styleToIdx[s] else []) + [i]];
    }
    assert styles[..|styles|] == styles;
  }

  /** After the last item the loop has collected exactly the query records; with k = 0 there were none to evaluate. */
  lemma LoopComplete<S>(topk: seq<seq<int>>, styles: seq<S>, k: nat, perQuery: seq<QueryRecord<S>>)
    requires |topk| >= |styles|
    requires perQuery == Somes(Candidates(topk, styles)[..|styles|])
    requires k == 0 ==> perQuery == []
    ensures perQuery == QueryRecords(topk, styles)
    ensures k == 0 ==> EvaluableSet(styles) == {}
  {
    assert Candidates(topk, styles)[..|styles|] == Candidates(topk, styles);
    NumQueries(topk, styles);
  }

  /**
   * One iteration of the evaluation loop before the metrics: the ground truth
   * of item `i` (its style's index list without `i` itself) and, when it is
   * non-empty, the item's record with its hit count.
   */
  method QueryItem<S(==)>(topk: seq<seq<int>>, styles: seq<S>, styleToIdx: map<S, seq<int>>, i: nat)
    returns (cand: Option<QueryRecord<S>>)
    requires |topk| >= |styles| && i < |styles|
    requires forall s :: s in styleToIdx <==> s in styles
    requires forall s :: s in styleToIdx ==> styleToIdx[s] == Members(styles, s, |styles|)
    ensures cand == Candidate(topk, styles, i)
  {
    var s := styles[i];
    var gt := RemoveAll(styleToIdx[s], i);
    if |gt| == 0 {
      return None;
    }
    var hitCnt := HitCount(topk[i], gt);
    return Some(QueryRecord(i, s, |gt|, hitCnt));
  }

  /**
   * `evaluate_retrieval_from_topk(topk, items, k)`, with `items` given by
   * their style labels and `topk` holding a retrieved row for every item
   * (rows beyond the last item are never read).
   */
  method EvaluateRetrieval<S(==)>(topk: seq<seq<int>>, styles: seq<S>, k: nat)
    returns (res: Result<EvaluationResult<S>, EvalError>)
    requires |topk| >= |styles|
    ensures res.Failure? <==> k == 0 && EvaluableSet(styles) != {}
    ensures res.Success? ==>
      var e := res.value;
      && e.perQuery == QueryRecords(topk, styles)
      && e.numQueries == |e.perQuery|
      && (k > 0 || e.perQuery == [])
      && (e.numQueries == 0 ==> e.precisionAtK == 0.0 && e.recallAtK == 0.0 && e.hitAtK == 0.0)
      && (e.numQueries > 0 ==>
            && e.precisionAtK == Mean(Precisions(e.perQuery, k))
            && e.recallAtK == Mean(Recalls(e.perQuery))
            && e.hitAtK == Mean(Hits(e.perQuery)))
  {
    var styleToIdx := IndexByStyle(styles);

    ghost var cands := Candidates(topk, styles);
    var precisions, recalls, hits: seq<real> := [], [], [];
    var perQuery: seq<QueryRecord<S>> := [];
    for i := 0 to |styles|
      invariant perQuery == Somes(cands[..i])
      invariant MetricsOf(perQuery, k, precisions, recalls, hits)
    {
      var cand := QueryItem(topk, styles, styleToIdx, i);
      SomesPrefix(cands, i);
      assert cands[i] == cand;
      if cand.None? {
        continue;
      }
      var rec := cand.value;
      if k == 0 {
        CandidateEvaluable(topk, styles, i);
        assert i in EvaluableSet(styles);
        res := Failure(ZeroDivision);
        return;
      }
      MetricsSnoc(perQuery, rec, k, precisions, recalls, hits);
      precisions := precisions + [Ratio(rec.hitCnt, k)];
      recalls := recalls + [Ratio(rec.hitCnt, rec.gtSize)];
      hits := hits + [if rec.hitCnt > 0 then 1.0 else 0.0];
      perQuery := perQuery + [rec];
    }

    LoopComplete(topk, styles, k, perQuery);
    res := Success(EvaluationResult(
      if |precisions| > 0 then Mean(precisions) else 0.0,
      if |recalls| > 0 then Mean(recalls) else 0.0,
      if |hits| > 0 then Mean(hits) else 0.0,
      |precisions|,
      perQuery));
  }
}
