/**
  The ranking metrics of the evaluation script: mean reciprocal rank and recall at k,
  computed over pairs of a true id and the ids predicted for it, best first.
  Floating-point division is modelled by exact `real` division.
*/
module Evaluation {
  import opened Seqs

  /** One evaluated query: the correct id and the predicted ids in order of confidence. */
  datatype Prediction<T> = Prediction(trueId: T, preds: seq<T>)

  /** `1 / (preds.index(true_id) + 1)` when the true id was predicted, `0` otherwise. */
  function ReciprocalRank<T(==)>(p: Prediction<T>): (r: real)
    ensures 0.0 <= r <= 1.0
    ensures r == 0.0 <==> p.trueId !in p.preds
    ensures r == 1.0 <==> |p.preds| > 0 && p.preds[0] == p.trueId
  {
    if p.trueId in p.preds then
      var i := IndexOf(p.preds, p.trueId);
      assert i > 0 ==> p.preds[..i][0] == p.preds[0];
      1.0 / (i + 1) as real
    else 0.0
  }

  /** Only the first occurrence of the true id counts: its rank is its position plus one. */
  lemma RankIsFirstOccurrence<T>(p: Prediction<T>, i: nat)
    requires i < |p.preds| && p.preds[i] == p.trueId && p.trueId !in p.preds[..i]
    ensures ReciprocalRank(p) == 1.0 / (i + 1) as real
  {
    IndexOfUnique(p.preds, p.trueId, i);
  }

  /** Mean reciprocal rank; the source divides by `len(predictions)`, so it needs one pair. */
  function Mrr<T(==)>(ps: seq<Prediction<T>>): (r: real)
    requires |ps| > 0
    ensures 0.0 <= r <= 1.0
  {
    SumAtLeast(ps, ReciprocalRank, 0.0);
    SumAtMost(ps, ReciprocalRank, 1.0);
    Sum(ps, ReciprocalRank) / |ps| as real
  }

  /** Whether the true id is among `preds[:k]` (a Python slice, so `k` may be negative). */
  predicate HitAt<T(==)>(p: Prediction<T>, k: int) {
    p.trueId in Take(p.preds, k)
  }

  /** `1` for a hit within the first `k` predictions, `0` otherwise. */
  function Hit<T(==)>(k: int): Prediction<T> -> real
  {
    (p: Prediction<T>) => if HitAt(p, k) then 1.0 else 0.0
  }

  /** Recall at k: the fraction of pairs whose true id is among the first `k` predictions. */
  function RAtK<T(==)>(ps: seq<Prediction<T>>, k: int): (r: real)
    requires |ps| > 0
    ensures 0.0 <= r <= 1.0
  {
    SumAtLeast(ps, Hit(k), 0.0);
    SumAtMost(ps, Hit(k), 1.0);
    Sum(ps, Hit(k)) / |ps| as real
  }

  // ---------------------------------------------------------------------------
  // laws of the metrics

  /** MRR is 1 exactly when every true id is the top prediction of its list. */
  lemma MrrIsOne<T>(ps: seq<Prediction<T>>)
    requires |ps| > 0
    ensures Mrr(ps) == 1.0 <==>
      forall i :: 0 <= i < |ps| ==> |ps[i].preds| > 0 && ps[i].preds[0] == ps[i].trueId
  {
    SumReachesBound(ps, ReciprocalRank, 1.0);
  }

  /** MRR is 0 exactly when no true id appears in its list at all. */
  lemma MrrIsZero<T>(ps: seq<Prediction<T>>)
    requires |ps| > 0
    ensures Mrr(ps) == 0.0 <==> forall i :: 0 <= i < |ps| ==> ps[i].trueId !in ps[i].preds
  {
    SumIsZero(ps, ReciprocalRank);
  }

  /** For non-negative cut-offs, recall at k never decreases as k grows. */
  lemma RAtKMonotone<T>(ps: seq<Prediction<T>>, k1: int, k2: int)
    requires |ps| > 0 && 0 <= k1 <= k2
    ensures RAtK(ps, k1) <= RAtK(ps, k2)
  {
    forall i | 0 <= i < |ps|
      ensures Hit(k1)(ps[i]) <= Hit(k2)(ps[i])
    {
      if HitAt(ps[i], k1) {
        TakeMonotone(ps[i].preds, k1, k2, ps[i].trueId);
      }
    }
    SumMonotone(ps, Hit(k1), Hit(k2));
    DivideMonotone(Sum(ps, Hit(k1)), Sum(ps, Hit(k2)), |ps| as real);
  }

  /** Recall at 1 never exceeds MRR: a hit at the top has reciprocal rank 1. */
  lemma RAtOneAtMostMrr<T>(ps: seq<Prediction<T>>)
    requires |ps| > 0
    ensures RAtK(ps, 1) <= Mrr(ps)
  {
    forall i | 0 <= i < |ps|
      ensures Hit(1)(ps[i]) <= ReciprocalRank(ps[i])
    {
      if HitAt(ps[i], 1) {
        assert Take(ps[i].preds, 1) == [ps[i].preds[0]];
      }
    }
    SumMonotone(ps, Hit(1), ReciprocalRank);
    DivideMonotone(Sum(ps, Hit(1)), Sum(ps, ReciprocalRank), |ps| as real);
  }

  /** MRR never exceeds recall at any cut-off that covers every list. */
  lemma MrrAtMostRAtK<T>(ps: seq<Prediction<T>>, k: int)
    requires |ps| > 0
    requires forall i :: 0 <= i < |ps| ==> |ps[i].preds| <= k
    ensures Mrr(ps) <= RAtK(ps, k)
  {
    forall i | 0 <= i < |ps|
      ensures ReciprocalRank(ps[i]) <= Hit(k)(ps[i])
    {
      assert Take(ps[i].preds, k) == ps[i].preds;
    }
    SumMonotone(ps, ReciprocalRank, Hit(k));
    DivideMonotone(Sum(ps, ReciprocalRank), Sum(ps, Hit(k)), |ps| as real);
  }

  lemma DivideMonotone(a: real, b: real, n: real)
    requires a <= b && n > 0.0
    ensures a / n <= b / n
  {
  }

  /** MRR does not depend on the order of the pairs. */
  lemma MrrPermutation<T>(ps: seq<Prediction<T>>, qs: seq<Prediction<T>>)
    requires |ps| > 0 && multiset(ps) == multiset(qs)
    ensures |qs| > 0 && Mrr(ps) == Mrr(qs)
  {
    assert |qs| == |multiset(qs)| == |multiset(ps)| == |ps|;
    SumPermutation(ps, qs, ReciprocalRank);
  }

  /** Recall at k does not depend on the order of the pairs. */
  lemma RAtKPermutation<T>(ps: seq<Prediction<T>>, qs: seq<Prediction<T>>, k: int)
    requires |ps| > 0 && multiset(ps) == multiset(qs)
    ensures |qs| > 0 && RAtK(ps, k) == RAtK(qs, k)
  {
    assert |qs| == |multiset(qs)| == |multiset(ps)| == |ps|;
    SumPermutation(ps, qs, Hit(k));
  }
}
