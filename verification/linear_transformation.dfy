/**
  The two pure pieces of the linear-transformation training: the largest possible distance,
  in Frobenius norm, between the learned matrix and the identity, and the optional removal of
  training pairs whose two texts are the same. Distances are kept squared: the square root
  that the norm takes is monotone and left out.
*/
module LinearTransformation {
  import opened Wrappers
  import Seqs

  function Max(a: real, b: real): real {
    if a >= b then a else b
  }

  function Square(x: real): real {
    x * x
  }

  lemma SquareNonNegative(x: real)
    ensures Square(x) >= 0.0
  {
    if x < 0.0 {
      assert Square(x) == (-x) * (-x);
    }
  }

  lemma SquareZero(x: real)
    requires Square(x) == 0.0
    ensures x == 0.0
  {
    ProductZero(x, x);
  }

  lemma ProductZero(a: real, b: real)
    requires a * b == 0.0
    ensures a == 0.0 || b == 0.0
  {
  }

  lemma ProductNonNegative(a: real, b: real)
    requires a >= 0.0 && b >= 0.0
    ensures a * b >= 0.0
  {
  }

  lemma ProductPositive(a: real, b: real)
    requires a > 0.0 && b > 0.0
    ensures a * b > 0.0
  {
  }

  /** The number of entries off the diagonal of an `n` by `n` matrix. */
  function OffDiagonal(n: nat): (k: nat)
    ensures n >= 2 ==> k >= 2
  {
    if n == 0 then 0
    else
      assert n * (n - 1) >= 0 by {
        ProductNonNegative(n as real, (n - 1) as real);
      }
      assert n >= 2 ==> n * (n - 1) >= 2 by {
        if n >= 2 {
          assert n * (n - 1) == (n - 2) * (n - 1) + 2 * (n - 1);
          ProductNonNegative((n - 2) as real, (n - 1) as real);
        }
      }
      n * (n - 1)
  }

  /**
    `max_frobenius_norm(n, a_min, a_max)` squared: `n` diagonal entries deviate from 1 and
    `n * (n - 1)` off-diagonal ones from 0, each by as much as an end of the range allows.
  */
  function MaxFrobeniusNormSquared(n: nat, aMin: real, aMax: real): (r: real)
    ensures r >= 0.0
  {
    var maxDiagDeviation := Max(Square(aMin - 1.0), Square(aMax - 1.0));
    var maxOffDiagDeviation := Max(Square(aMin), Square(aMax));
    SquareNonNegative(aMin - 1.0);
    SquareNonNegative(aMin);
    ProductNonNegative(n as real, maxDiagDeviation);
    ProductNonNegative(OffDiagonal(n) as real, maxOffDiagDeviation);
    n as real * maxDiagDeviation + OffDiagonal(n) as real * maxOffDiagDeviation
  }

  /** The bound does not depend on which end of the range is called the minimum. */
  lemma BoundSymmetric(n: nat, aMin: real, aMax: real)
    ensures MaxFrobeniusNormSquared(n, aMin, aMax) == MaxFrobeniusNormSquared(n, aMax, aMin)
  {
  }

  /** The bound spelled out in terms of the two largest deviations. */
  lemma BoundIs(n: nat, aMin: real, aMax: real, d: real, o: real)
    requires d == Max(Square(aMin - 1.0), Square(aMax - 1.0))
    requires o == Max(Square(aMin), Square(aMax))
    ensures MaxFrobeniusNormSquared(n, aMin, aMax) == n as real * d + OffDiagonal(n) as real * o
  {
  }

  lemma SumPositive(n: real, d: real, off: real, o: real)
    requires n > 0.0 && off > 0.0 && d >= 0.0 && o >= 0.0 && (d > 0.0 || o > 0.0)
    ensures n * d + off * o > 0.0
  {
    ProductNonNegative(n, d);
    ProductNonNegative(off, o);
    if d > 0.0 {
      ProductPositive(n, d);
    } else {
      ProductPositive(off, o);
    }
  }

  /** When no entry may deviate off the diagonal, the range is the single value 0. */
  lemma OffDeviationZero(aMin: real, aMax: real)
    requires Max(Square(aMin), Square(aMax)) == 0.0
    ensures aMin == 0.0 && Square(aMin - 1.0) == 1.0
  {
    SquareNonNegative(aMin);
    SquareNonNegative(aMax);
    SquareZero(aMin);
  }

  /**
    For two or more dimensions the bound is positive, so the normalising division is defined;
    for one dimension it is zero exactly when the range is the single value 1.
  */
  lemma BoundPositive(n: nat, aMin: real, aMax: real)
    ensures n >= 2 ==> MaxFrobeniusNormSquared(n, aMin, aMax) > 0.0
    ensures n == 1 ==> (MaxFrobeniusNormSquared(n, aMin, aMax) == 0.0 <==> aMin == 1.0 && aMax == 1.0)
    ensures n == 0 ==> MaxFrobeniusNormSquared(n, aMin, aMax) == 0.0
  {
    var d := Max(Square(aMin - 1.0), Square(aMax - 1.0));
    var o := Max(Square(aMin), Square(aMax));
    BoundIs(n, aMin, aMax, d, o);
    SquareNonNegative(aMin - 1.0);
    SquareNonNegative(aMax - 1.0);
    SquareNonNegative(aMin);
    SquareNonNegative(aMax);
    if n >= 2 {
      if o == 0.0 {
        OffDeviationZero(aMin, aMax);
      }
      SumPositive(n as real, d, OffDiagonal(n) as real, o);
    } else if n == 1 {
      if d == 0.0 {
        SquareZero(aMin - 1.0);
        SquareZero(aMax - 1.0);
      }
    }
  }

  // ---------------------------------------------------------------------------
  // every matrix in range is within the bound

  /** An `n` by `n` matrix. */
  predicate IsSquare(m: seq<seq<real>>, n: nat) {
    |m| == n && forall i :: 0 <= i < n ==> |m[i]| == n
  }

  /** Every entry lies between `lo` and `hi`, as between `np.min(T)` and `np.max(T)`. */
  predicate Within(m: seq<seq<real>>, lo: real, hi: real) {
    forall i, j :: 0 <= i < |m| && 0 <= j < |m[i]| ==> lo <= m[i][j] <= hi
  }

  /** The squared deviation of one entry from the identity matrix. */
  function EntryDeviation(x: real, diagonal: bool): real {
    if diagonal then Square(x - 1.0) else Square(x)
  }

  /** The squared deviations of row `i` from column `j` on. */
  function RowDeviation(row: seq<real>, i: nat, j: nat): real
    decreases |row| - j
  {
    if j >= |row| then 0.0 else EntryDeviation(row[j], i == j) + RowDeviation(row, i, j + 1)
  }

  /** `np.linalg.norm(T - I, "fro")` squared, from row `i` on. */
  function Deviation(m: seq<seq<real>>, i: nat): real
    decreases |m| - i
  {
    if i >= |m| then 0.0 else RowDeviation(m[i], i, 0) + Deviation(m, i + 1)
  }

  /** A square of a value between `p` and `q` is at most the larger of their squares. */
  lemma SquareBetween(p: real, x: real, q: real)
    requires p <= x <= q
    ensures Square(x) <= Max(Square(p), Square(q))
  {
    if x >= 0.0 {
      SquareMonotone(x, q);
    } else {
      SquareNegate(x);
      SquareNegate(p);
      SquareMonotone(-x, -p);
    }
  }

  lemma SquareNegate(x: real)
    ensures Square(-x) == Square(x)
  {
  }

  lemma SquareMonotone(a: real, b: real)
    requires 0.0 <= a <= b
    ensures Square(a) <= Square(b)
  {
    MultiplyMonotone(a, b, a);
    MultiplyMonotone(a, b, b);
    assert a * b == b * a;
  }

  lemma MultiplyMonotone(a: real, b: real, c: real)
    requires 0.0 <= a <= b && 0.0 <= c
    ensures a * c <= b * c
  {
  }

  /** Row `i` from column `j`: at most one diagonal entry, the rest off the diagonal. */
  lemma {:induction false} RowBound(row: seq<real>, i: nat, j: nat, d: real, o: real)
    requires forall k :: 0 <= k < |row| ==> EntryDeviation(row[k], k == i) <= (if k == i then d else o)
    requires j <= |row|
    ensures var diagonal := j <= i < |row|;
      RowDeviation(row, i, j) <= (if diagonal then d else 0.0) + (|row| - j - (if diagonal then 1 else 0)) as real * o
    decreases |row| - j
  {
    if j < |row| {
      RowBound(row, i, j + 1, d, o);
      var c := |row| - (j + 1) - (if j + 1 <= i < |row| then 1 else 0);
      if j != i {
        assert (c + 1) as real * o == c as real * o + o;
      }
    }
  }

  /** Entries in range deviate by at most what the ends of the range allow. */
  lemma EntryBound(x: real, diagonal: bool, lo: real, hi: real)
    requires lo <= x <= hi
    ensures EntryDeviation(x, diagonal) <=
      if diagonal then Max(Square(lo - 1.0), Square(hi - 1.0)) else Max(Square(lo), Square(hi))
  {
    if diagonal {
      SquareBetween(lo - 1.0, x - 1.0, hi - 1.0);
    } else {
      SquareBetween(lo, x, hi);
    }
  }

  lemma MultiplySuccessor(c: nat, p: real)
    ensures (c + 1) as real * p == c as real * p + p
  {
  }

  lemma RatioAtMostOne(a: real, b: real)
    requires 0.0 < b && a <= b
    ensures a / b <= 1.0
  {
  }

  /** Each row stays within `perRow`, so rows from `i` on stay within `(n - i) * perRow`. */
  lemma {:induction false} DeviationBound(m: seq<seq<real>>, i: nat, perRow: real)
    requires i <= |m|
    requires forall k :: 0 <= k < |m| ==> RowDeviation(m[k], k, 0) <= perRow
    ensures Deviation(m, i) <= (|m| - i) as real * perRow
    decreases |m| - i
  {
    if i < |m| {
      DeviationBound(m, i + 1, perRow);
      MultiplySuccessor(|m| - (i + 1), perRow);
    }
  }

  /** A row of length `n` in range has one diagonal entry and `n - 1` others. */
  lemma RowWithinShare(row: seq<real>, i: nat, lo: real, hi: real)
    requires i < |row| && forall k :: 0 <= k < |row| ==> lo <= row[k] <= hi
    ensures RowDeviation(row, i, 0) <= RowShare(|row|, lo, hi)
  {
    EntriesWithin(row, i, lo, hi);
    RowOfDeviations(row, i, DiagonalMax(lo, hi), OffDiagonalMax(lo, hi));
  }

  lemma EntriesWithin(row: seq<real>, i: nat, lo: real, hi: real)
    requires forall k :: 0 <= k < |row| ==> lo <= row[k] <= hi
    ensures forall k :: 0 <= k < |row| ==>
      EntryDeviation(row[k], k == i) <= (if k == i then DiagonalMax(lo, hi) else OffDiagonalMax(lo, hi))
  {
    forall k | 0 <= k < |row|
      ensures EntryDeviation(row[k], k == i) <= (if k == i then DiagonalMax(lo, hi) else OffDiagonalMax(lo, hi))
    {
      EntryBound(row[k], k == i, lo, hi);
    }
  }

  /** A whole row holding its diagonal entry. */
  lemma RowOfDeviations(row: seq<real>, i: nat, d: real, o: real)
    requires i < |row|
    requires forall k :: 0 <= k < |row| ==> EntryDeviation(row[k], k == i) <= (if k == i then d else o)
    ensures RowDeviation(row, i, 0) <= d + (|row| - 1) as real * o
  {
    RowBound(row, i, 0, d, o);
    assert |row| - 0 - 1 == |row| - 1;
  }

  /**
    Any `n` by `n` matrix whose entries lie in `[lo, hi]` is no further from the identity than
    the bound, so the normalised norm of the trained matrix is at most 1.
  */
  lemma FrobeniusWithinBound(m: seq<seq<real>>, n: nat, lo: real, hi: real)
    requires IsSquare(m, n) && Within(m, lo, hi)
    ensures Deviation(m, 0) <= MaxFrobeniusNormSquared(n, lo, hi)
    ensures MaxFrobeniusNormSquared(n, lo, hi) > 0.0 ==> Deviation(m, 0) / MaxFrobeniusNormSquared(n, lo, hi) <= 1.0
  {
    DeviationWithinRows(m, n, lo, hi);
    BoundByRows(n, lo, hi);
    var bound := MaxFrobeniusNormSquared(n, lo, hi);
    if bound > 0.0 {
      RatioAtMostOne(Deviation(m, 0), bound);
    }
  }

  /** The largest squared deviation a diagonal entry in `[lo, hi]` can have from 1. */
  function DiagonalMax(lo: real, hi: real): real {
    Max(Square(lo - 1.0), Square(hi - 1.0))
  }

  /** The largest squared deviation an off-diagonal entry in `[lo, hi]` can have from 0. */
  function OffDiagonalMax(lo: real, hi: real): real {
    Max(Square(lo), Square(hi))
  }

  /** The most one row of an `n` by `n` matrix in `[lo, hi]` can deviate. */
  function RowShare(n: nat, lo: real, hi: real): real {
    DiagonalMax(lo, hi) + (n - 1) as real * OffDiagonalMax(lo, hi)
  }

  /** The matrix deviates by no more than `n` rows' worth. */
  lemma DeviationWithinRows(m: seq<seq<real>>, n: nat, lo: real, hi: real)
    requires IsSquare(m, n) && Within(m, lo, hi)
    ensures Deviation(m, 0) <= n as real * RowShare(n, lo, hi)
  {
    var perRow := RowShare(n, lo, hi);
    forall k | 0 <= k < |m|
      ensures RowDeviation(m[k], k, 0) <= perRow
    {
      assert |m[k]| == n;
      RowWithinShare(m[k], k, lo, hi);
    }
    DeviationBound(m, 0, perRow);
  }

  /** The bound is `n` rows' worth of the largest row deviation. */
  lemma BoundByRows(n: nat, lo: real, hi: real)
    ensures MaxFrobeniusNormSquared(n, lo, hi) == n as real * RowShare(n, lo, hi)
  {
    var d := Max(Square(lo - 1.0), Square(hi - 1.0));
    var o := Max(Square(lo), Square(hi));
    BoundIs(n, lo, hi, d, o);
    BoundPerRow(n, d, o);
  }

  /** `n` rows of one diagonal and `n - 1` off-diagonal entries make up the whole matrix. */
  lemma BoundPerRow(n: nat, d: real, o: real)
    ensures n as real * d + OffDiagonal(n) as real * o == n as real * (d + (n - 1) as real * o)
  {
    if n > 0 {
      CastProduct(n, n - 1);
      Distribute(n as real, d, (n - 1) as real, o);
    }
  }

  lemma CastProduct(a: int, b: int)
    ensures (a * b) as real == a as real * b as real
  {
  }

  lemma Distribute(x: real, d: real, k: real, o: real)
    ensures x * d + (x * k) * o == x * (d + k * o)
  {
  }

  // ---------------------------------------------------------------------------
  // select_only_different

  /** A training pair: a career-history text and an occupation text. */
  type Pair = (string, string)

  /** The pairs whose two texts differ, in their original order. */
  function Different(pairs: seq<Pair>): seq<Pair> {
    Seqs.FilterMap(pairs, (p: Pair) => p, (p: Pair) => p.0 != p.1)
  }

  const UnpackError: string := "not enough values to unpack (expected 2, got 0)"

  /**
    The pairs `train_linear_transformation` encodes: all of them, or only those whose texts
    differ when `selectOnlyDifferent` is set. Unpacking `zip(*pairs)` raises for no pairs,
    before and after the filtering.
  */
  function SelectPairs(pairs: seq<Pair>, selectOnlyDifferent: bool): (r: Result<seq<Pair>, string>)
    ensures r.Success? ==> |r.value| > 0
  {
    if pairs == [] then Failure(UnpackError)
    else if !selectOnlyDifferent then Success(pairs)
    else
      var kept := Different(pairs);
      if kept == [] then Failure(UnpackError) else Success(kept)
  }

  /** The selection fails exactly when no pair is left to unpack. */
  lemma SelectFails(pairs: seq<Pair>, selectOnlyDifferent: bool)
    ensures SelectPairs(pairs, selectOnlyDifferent).Failure? <==>
      pairs == [] || (selectOnlyDifferent && forall i :: 0 <= i < |pairs| ==> pairs[i].0 == pairs[i].1)
  {
    if selectOnlyDifferent && pairs != [] {
      if Different(pairs) == [] {
        forall i | 0 <= i < |pairs|
          ensures pairs[i].0 == pairs[i].1
        {
          if pairs[i].0 != pairs[i].1 {
            Seqs.FilterMapMembers(pairs, (p: Pair) => p, (p: Pair) => p.0 != p.1, pairs[i]);
          }
        }
      } else {
        var q := Different(pairs)[0];
        Seqs.FilterMapMembers(pairs, (p: Pair) => p, (p: Pair) => p.0 != p.1, q);
      }
    }
  }

  /** A selected pair is a pair of the input whose texts differ, and every such pair is selected. */
  lemma DifferentMembers(pairs: seq<Pair>, q: Pair)
    ensures q in Different(pairs) <==> q in pairs && q.0 != q.1
  {
    Seqs.FilterMapMembers(pairs, (p: Pair) => p, (p: Pair) => p.0 != p.1, q);
  }

  /** The filter keeps order: the pairs of a concatenation are selected part by part. */
  lemma DifferentInOrder(xs: seq<Pair>, ys: seq<Pair>)
    ensures Different(xs + ys) == Different(xs) + Different(ys)
  {
    Seqs.FilterMapAppend(xs, ys, (p: Pair) => p, (p: Pair) => p.0 != p.1);
  }

  /** Pairs that all differ are kept as they are, so filtering twice filters once. */
  lemma DifferentIdempotent(pairs: seq<Pair>)
    ensures Different(Different(pairs)) == Different(pairs)
  {
    var kept := Different(pairs);
    forall i | 0 <= i < |kept|
      ensures kept[i].0 != kept[i].1
    {
      DifferentMembers(pairs, kept[i]);
    }
    Seqs.FilterMapFixed(kept, (p: Pair) => p, (p: Pair) => p.0 != p.1);
  }
}
