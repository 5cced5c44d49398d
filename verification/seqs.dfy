/**
  Python list idioms used throughout the model: slice bounds, `list.index`,
  `dict.fromkeys` de-duplication and sums over a list.
*/
module Seqs {

  // ---------------------------------------------------------------------------
  // slicing

  /** The position a Python slice bound `i` denotes in a list of length `len`. */
  function SliceIndex(len: nat, i: int): (j: nat)
    ensures j <= len
    ensures 0 <= i <= len ==> j == i
    ensures i > len ==> j == len
    ensures i < 0 && len as int + i >= 0 ==> j as int == len as int + i
    ensures len as int + i < 0 ==> j == 0
  {
    if i >= 0 then (if i <= len then i else len)
    else if len + i >= 0 then len + i
    else 0
  }

  /** `xs[:k]` */
  function Take<T>(xs: seq<T>, k: int): (ys: seq<T>)
    ensures |ys| <= |xs|
    ensures 0 <= k ==> |ys| == if k <= |xs| then k else |xs|
    ensures forall i :: 0 <= i < |ys| ==> ys[i] == xs[i]
  {
    xs[..SliceIndex(|xs|, k)]
  }

  /** `xs[-m:]`; note that `m == 0` keeps the whole list, since `-0 == 0`. */
  function TakeLast<T>(xs: seq<T>, m: int): (ys: seq<T>)
    ensures |ys| <= |xs|
    ensures m == 0 ==> ys == xs
    ensures m > 0 ==> |ys| == if m <= |xs| then m else |xs|
    ensures forall i :: 0 <= i < |ys| ==> ys[i] == xs[|xs| - |ys| + i]
  {
    xs[SliceIndex(|xs|, -m)..]
  }

  /** A prefix `xs[:k]` grows with `k` for non-negative bounds. */
  lemma TakeMonotone<T>(xs: seq<T>, k1: int, k2: int, x: T)
    requires 0 <= k1 <= k2
    requires x in Take(xs, k1)
    ensures x in Take(xs, k2)
  {
    var i :| 0 <= i < |Take(xs, k1)| && Take(xs, k1)[i] == x;
    assert Take(xs, k2)[i] == x;
  }

  // ---------------------------------------------------------------------------
  // list.index

  /** `xs.index(x)`: the position of the first occurrence of `x`. */
  function IndexOf<T(==)>(xs: seq<T>, x: T): (i: nat)
    requires x in xs
    ensures i < |xs| && xs[i] == x
    ensures x !in xs[..i]
  {
    if xs[0] == x then 0
    else
      var j := IndexOf(xs[1..], x);
      assert xs[1..][..j] == xs[1..j + 1];
      assert xs[..j + 1] == [xs[0]] + xs[1..j + 1];
      j + 1
  }

  /** Any position whose prefix does not hold `x` is the one `index` reports. */
  lemma IndexOfUnique<T>(xs: seq<T>, x: T, i: nat)
    requires i < |xs| && xs[i] == x && x !in xs[..i]
    ensures IndexOf(xs, x) == i
  {
    var j := IndexOf(xs, x);
    assert forall k :: 0 <= k < i ==> xs[..i][k] == xs[k];
    assert forall k :: 0 <= k < j ==> xs[..j][k] == xs[k];
  }

  // ---------------------------------------------------------------------------
  // de-duplication

  predicate NoDuplicates<T(==)>(xs: seq<T>) {
    forall i, j :: 0 <= i < j < |xs| ==> xs[i] != xs[j]
  }

  /**
    `list(dict.fromkeys(xs))`: the first occurrence of every element, in order.
  */
  function Dedupe<T(==)>(xs: seq<T>): (ys: seq<T>)
    ensures NoDuplicates(ys)
    ensures forall i :: 0 <= i < |ys| ==> ys[i] in xs
    ensures forall i :: 0 <= i < |xs| ==> xs[i] in ys
    ensures |ys| <= |xs|
    decreases |xs|
  {
    if |xs| == 0 then []
    else
      var init := Dedupe(xs[..|xs| - 1]);
      var last := xs[|xs| - 1];
      assert xs == xs[..|xs| - 1] + [last];
      if last in init then init else init + [last]
  }

  /**
    The elements of `Dedupe(xs)` appear in the order of their first occurrence in `xs`:
    together with the contract of `Dedupe` this fixes its result uniquely.
  */
  lemma {:induction false} DedupeOrder<T>(xs: seq<T>)
    ensures forall i, j :: 0 <= i < j < |Dedupe(xs)| ==>
      IndexOf(xs, Dedupe(xs)[i]) < IndexOf(xs, Dedupe(xs)[j])
    decreases |xs|
  {
    if |xs| > 0 {
      var pre := xs[..|xs| - 1];
      var last := xs[|xs| - 1];
      var init := Dedupe(pre);
      DedupeOrder(pre);
      assert xs == pre + [last];
      forall y | y in init
        ensures IndexOf(xs, y) == IndexOf(pre, y)
      {
        var k := IndexOf(pre, y);
        assert xs[..k] == pre[..k];
        IndexOfUnique(xs, y, k);
      }
      if last !in init {
        assert last !in pre;
        assert xs[..|xs| - 1] == pre;
        IndexOfUnique(xs, last, |xs| - 1);
        var ys := Dedupe(xs);
        assert ys == init + [last];
        forall i, j | 0 <= i < j < |ys|
          ensures IndexOf(xs, ys[i]) < IndexOf(xs, ys[j])
        {
          assert ys[i] == init[i];
          if j < |init| {
            assert ys[j] == init[j];
          }
        }
      }
    }
  }

  /** Removing duplicates from a list without any leaves it unchanged. */
  lemma {:induction false} DedupeOfDistinct<T>(xs: seq<T>)
    requires NoDuplicates(xs)
    ensures Dedupe(xs) == xs
    decreases |xs|
  {
    if |xs| > 0 {
      var pre := xs[..|xs| - 1];
      assert NoDuplicates(pre);
      DedupeOfDistinct(pre);
      assert xs[|xs| - 1] !in pre;
      assert xs == pre + [xs[|xs| - 1]];
    }
  }

  /** The first `k` unique elements come from the list, and are all of them when few enough. */
  lemma TakeDedupeMembers<T>(xs: seq<T>, k: nat, x: T)
    ensures x in Take(Dedupe(xs), k) ==> x in xs
    ensures |Dedupe(xs)| <= k ==> (x in Take(Dedupe(xs), k) <==> x in xs)
  {
    var ys := Dedupe(xs);
    if x in Take(ys, k) {
      var i :| 0 <= i < |Take(ys, k)| && Take(ys, k)[i] == x;
      assert ys[i] == x;
    }
    if |ys| <= k {
      assert Take(ys, k) == ys;
      if x in xs {
        var i :| 0 <= i < |xs| && xs[i] == x;
      }
    }
  }

  // ---------------------------------------------------------------------------
  // map and filter

  /** `[f(x) for x in xs if keep(f(x))]`: every element mapped, in order, the kept images only. */
  function FilterMap<A, B>(xs: seq<A>, f: A -> B, keep: B -> bool): seq<B>
    decreases |xs|
  {
    if |xs| == 0 then []
    else (if keep(f(xs[0])) then [f(xs[0])] else []) + FilterMap(xs[1..], f, keep)
  }

  /** An element of the result is exactly a kept image of some element. */
  lemma {:induction false} FilterMapMembers<A, B>(xs: seq<A>, f: A -> B, keep: B -> bool, y: B)
    ensures y in FilterMap(xs, f, keep) <==> keep(y) && exists i :: 0 <= i < |xs| && f(xs[i]) == y
    decreases |xs|
  {
    if |xs| > 0 {
      FilterMapMembers(xs[1..], f, keep, y);
      if y in FilterMap(xs[1..], f, keep) {
        var i :| 0 <= i < |xs[1..]| && f(xs[1..][i]) == y;
        assert f(xs[i + 1]) == y;
      }
      if exists i :: 0 <= i < |xs| && f(xs[i]) == y {
        var i :| 0 <= i < |xs| && f(xs[i]) == y;
        if i > 0 {
          assert f(xs[1..][i - 1]) == y;
        }
      }
    }
  }

  /** Elements that are their own kept images come through unchanged. */
  lemma {:induction false} FilterMapFixed<A>(xs: seq<A>, f: A -> A, keep: A -> bool)
    requires forall i :: 0 <= i < |xs| ==> f(xs[i]) == xs[i] && keep(xs[i])
    ensures FilterMap(xs, f, keep) == xs
    decreases |xs|
  {
    if |xs| > 0 {
      assert f(xs[0]) == xs[0] && keep(xs[0]);
      FilterMapFixed(xs[1..], f, keep);
    }
  }

  /** Filtering a concatenation filters each part: the kept elements stay in their order. */
  lemma {:induction false} FilterMapAppend<A, B>(xs: seq<A>, ys: seq<A>, f: A -> B, keep: B -> bool)
    ensures FilterMap(xs + ys, f, keep) == FilterMap(xs, f, keep) + FilterMap(ys, f, keep)
    decreases |xs|
  {
    if |xs| == 0 {
      assert xs + ys == ys;
    } else {
      assert (xs + ys)[0] == xs[0] && (xs + ys)[1..] == xs[1..] + ys;
      FilterMapAppend(xs[1..], ys, f, keep);
    }
  }

  /** The result is no longer than the input. */
  lemma {:induction false} FilterMapLength<A, B>(xs: seq<A>, f: A -> B, keep: B -> bool)
    ensures |FilterMap(xs, f, keep)| <= |xs|
    decreases |xs|
  {
    if |xs| > 0 {
      FilterMapLength(xs[1..], f, keep);
    }
  }

  // ---------------------------------------------------------------------------
  // concatenation

  /** The lists of `xss` one after the other, as repeated `extend` builds them. */
  function Concat<T>(xss: seq<seq<T>>): seq<T>
    decreases |xss|
  {
    if |xss| == 0 then [] else xss[0] + Concat(xss[1..])
  }

  /** Lists of at most `m` elements each concatenate to at most `m` per list. */
  lemma {:induction false} ConcatAtMost<T>(xss: seq<seq<T>>, m: nat)
    requires forall i :: 0 <= i < |xss| ==> |xss[i]| <= m
    ensures |Concat(xss)| <= m * |xss|
    decreases |xss|
  {
    if |xss| > 0 {
      ConcatAtMost(xss[1..], m);
    }
  }

  /** Concatenating one-element lists keeps their number. */
  lemma {:induction false} ConcatOfSingletons<T>(xss: seq<seq<T>>)
    requires forall i :: 0 <= i < |xss| ==> |xss[i]| == 1
    ensures |Concat(xss)| == |xss|
    decreases |xss|
  {
    if |xss| > 0 {
      ConcatOfSingletons(xss[1..]);
    }
  }

  /** An element is in the concatenation exactly when it is in one of the lists. */
  lemma {:induction false} ConcatMembers<T>(xss: seq<seq<T>>, x: T)
    ensures x in Concat(xss) <==> exists i :: 0 <= i < |xss| && x in xss[i]
    decreases |xss|
  {
    if |xss| > 0 {
      ConcatMembers(xss[1..], x);
      if x in Concat(xss[1..]) {
        var i :| 0 <= i < |xss[1..]| && x in xss[1..][i];
        assert x in xss[i + 1];
      }
      if exists i :: 0 <= i < |xss| && x in xss[i] {
        var i :| 0 <= i < |xss| && x in xss[i];
        if i > 0 {
          assert x in xss[1..][i - 1];
        }
      }
    }
  }

  // ---------------------------------------------------------------------------
  // sums

  /** `sum(f(x) for x in xs)` over reals. */
  function Sum<T>(xs: seq<T>, f: T -> real): real
    decreases |xs|
  {
    if |xs| == 0 then 0.0 else f(xs[0]) + Sum(xs[1..], f)
  }

  /** A sum of terms each at least `lo` is at least `lo * n`. */
  lemma {:induction false} SumAtLeast<T>(xs: seq<T>, f: T -> real, lo: real)
    requires forall i :: 0 <= i < |xs| ==> lo <= f(xs[i])
    ensures lo * |xs| as real <= Sum(xs, f)
    decreases |xs|
  {
    if |xs| > 0 {
      SumAtLeast(xs[1..], f, lo);
    }
  }

  /** A sum of terms each at most `hi` is at most `hi * n`. */
  lemma {:induction false} SumAtMost<T>(xs: seq<T>, f: T -> real, hi: real)
    requires forall i :: 0 <= i < |xs| ==> f(xs[i]) <= hi
    ensures Sum(xs, f) <= hi * |xs| as real
    decreases |xs|
  {
    if |xs| > 0 {
      SumAtMost(xs[1..], f, hi);
    }
  }

  /** Termwise comparison carries over to the sums. */
  lemma {:induction false} SumMonotone<T>(xs: seq<T>, f: T -> real, g: T -> real)
    requires forall i :: 0 <= i < |xs| ==> f(xs[i]) <= g(xs[i])
    ensures Sum(xs, f) <= Sum(xs, g)
    decreases |xs|
  {
    if |xs| > 0 {
      SumMonotone(xs[1..], f, g);
    }
  }

  /** A sum of terms bounded by `hi` reaches `hi * n` exactly when every term is `hi`. */
  lemma {:induction false} SumReachesBound<T>(xs: seq<T>, f: T -> real, hi: real)
    requires forall i :: 0 <= i < |xs| ==> f(xs[i]) <= hi
    ensures Sum(xs, f) == hi * |xs| as real <==> forall i :: 0 <= i < |xs| ==> f(xs[i]) == hi
    decreases |xs|
  {
    if |xs| > 0 {
      var rest := xs[1..];
      assert forall i :: 0 <= i < |rest| ==> rest[i] == xs[i + 1];
      SumReachesBound(rest, f, hi);
      SumAtMost(rest, f, hi);
      assert hi * |xs| as real == hi + hi * |rest| as real;
    }
  }

  /** A sum of non-negative terms is zero exactly when every term is zero. */
  lemma {:induction false} SumIsZero<T>(xs: seq<T>, f: T -> real)
    requires forall i :: 0 <= i < |xs| ==> 0.0 <= f(xs[i])
    ensures Sum(xs, f) == 0.0 <==> forall i :: 0 <= i < |xs| ==> f(xs[i]) == 0.0
    decreases |xs|
  {
    if |xs| > 0 {
      SumIsZero(xs[1..], f);
      SumAtLeast(xs[1..], f, 0.0);
      if forall i :: 0 <= i < |xs| ==> f(xs[i]) == 0.0 {
        assert forall i :: 0 <= i < |xs[1..]| ==> f(xs[1..][i]) == 0.0 by {
          forall i | 0 <= i < |xs[1..]| ensures f(xs[1..][i]) == 0.0 {
            assert xs[1..][i] == xs[i + 1];
          }
        }
      }
    }
  }

  /** Removing the element at position `j` takes its term out of the sum. */
  lemma {:induction false} SumRemove<T>(xs: seq<T>, f: T -> real, j: nat)
    requires j < |xs|
    ensures Sum(xs, f) == f(xs[j]) + Sum(xs[..j] + xs[j + 1..], f)
    decreases |xs|
  {
    if j > 0 {
      var rest := xs[..j] + xs[j + 1..];
      SumRemove(xs[1..], f, j - 1);
      assert xs[1..][j - 1] == xs[j];
      assert rest[0] == xs[0];
      assert xs[1..][..j - 1] + xs[1..][j..] == rest[1..];
      assert Sum(rest, f) == f(xs[0]) + Sum(rest[1..], f);
    } else {
      assert xs[..0] + xs[1..] == xs[1..];
    }
  }

  /** Sums do not depend on the order of the terms. */
  lemma {:induction false} SumPermutation<T>(xs: seq<T>, ys: seq<T>, f: T -> real)
    requires multiset(xs) == multiset(ys)
    ensures Sum(xs, f) == Sum(ys, f)
    decreases |xs|
  {
    if |xs| == 0 {
      assert |ys| == |multiset(ys)| == 0;
    } else {
      var x := xs[0];
      assert x in multiset(ys);
      var j :| 0 <= j < |ys| && ys[j] == x;
      var rest := ys[..j] + ys[j + 1..];
      assert ys == ys[..j] + [x] + ys[j + 1..];
      assert xs == [x] + xs[1..];
      assert multiset(ys) == multiset(ys[..j]) + multiset{x} + multiset(ys[j + 1..]);
      assert multiset(xs) == multiset{x} + multiset(xs[1..]);
      assert multiset(rest) == multiset(ys[..j]) + multiset(ys[j + 1..]);
      assert multiset(rest) == multiset(ys) - multiset{x};
      assert multiset(xs[1..]) == multiset(xs) - multiset{x};
      SumPermutation(xs[1..], rest, f);
      SumRemove(ys, f, j);
    }
  }
}
