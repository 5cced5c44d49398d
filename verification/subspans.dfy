/**
  The `subspans` generator of the training-data builders: every contiguous window of
  length at least two, shortest first and, within one length, by start position.
  A window is described by its start and length; `Subspans` slices a list along them.
*/
module Spans {

  /** The contiguous window `lst[start:start + len]`. */
  datatype Window = Window(start: nat, len: nat) {
    predicate Fits(n: nat) {
      2 <= len && start + len <= n
    }

    /** The order in which the generator yields windows: by length, then by start. */
    predicate Before(other: Window) {
      len < other.len || (len == other.len && start < other.start)
    }
  }

  /** The inner loop: windows of length `len` starting at `start`, `start + 1`, ... */
  function Row(n: nat, len: nat, start: nat): (ws: seq<Window>)
    requires 2 <= len
    ensures forall i :: 0 <= i < |ws| ==> ws[i].Fits(n) && ws[i].len == len && ws[i].start >= start
    ensures forall i, j :: 0 <= i < j < |ws| ==> ws[i].start < ws[j].start
    decreases n - start
  {
    if start + len > n then [] else [Window(start, len)] + Row(n, len, start + 1)
  }

  /** The outer loop: all rows of lengths `len`, `len + 1`, ..., `n`. */
  function Rows(n: nat, len: nat): (ws: seq<Window>)
    requires 2 <= len
    ensures forall i :: 0 <= i < |ws| ==> ws[i].Fits(n) && ws[i].len >= len
    ensures forall i, j :: 0 <= i < j < |ws| ==> ws[i].Before(ws[j])
    decreases n + 1 - len
  {
    if len > n then []
    else
      var row := Row(n, len, 0);
      var rest := Rows(n, len + 1);
      assert forall i, j :: 0 <= i < |row| && 0 <= j < |rest| ==> row[i].Before(rest[j]);
      row + rest
  }

  /** The windows `subspans` visits for a list of length `n`, in order. */
  function Windows(n: nat): (ws: seq<Window>)
    ensures forall i :: 0 <= i < |ws| ==> ws[i].Fits(n)
    ensures forall i, j :: 0 <= i < j < |ws| ==> ws[i].Before(ws[j])
  {
    Rows(n, 2)
  }

  /** `list(subspans(lst))` */
  function Subspans<T>(lst: seq<T>): (spans: seq<seq<T>>)
    ensures |spans| == |Windows(|lst|)|
    ensures forall k :: 0 <= k < |spans| ==>
      var w := Windows(|lst|)[k]; spans[k] == lst[w.start..w.start + w.len]
  {
    var ws := Windows(|lst|);
    seq(|ws|, k requires 0 <= k < |ws| => lst[ws[k].start..ws[k].start + ws[k].len])
  }

  /**
    A list of `n` elements has `n * (n - 1) / 2` subspans, each of at least two elements, and
    every contiguous slice of at least two elements is among them.
  */
  lemma SubspansComplete<T>(lst: seq<T>)
    ensures 2 * |Subspans(lst)| == |lst| * (|lst| - 1)
    ensures forall k :: 0 <= k < |Subspans(lst)| ==> |Subspans(lst)[k]| >= 2
    ensures forall w: Window :: w.Fits(|lst|) ==> lst[w.start..w.start + w.len] in Subspans(lst)
  {
    WindowsCount(|lst|);
    SlicesListed(lst, Subspans(lst));
  }

  /** Slicing along every window lists every slice of at least two elements. */
  lemma SlicesListed<T>(lst: seq<T>, spans: seq<seq<T>>)
    requires |spans| == |Windows(|lst|)|
    requires forall k :: 0 <= k < |spans| ==>
      var w := Windows(|lst|)[k]; spans[k] == lst[w.start..w.start + w.len]
    ensures forall w: Window :: w.Fits(|lst|) ==> lst[w.start..w.start + w.len] in spans
  {
    var ws := Windows(|lst|);
    forall w: Window | w.Fits(|lst|)
      ensures lst[w.start..w.start + w.len] in spans
    {
      WindowsExactlyOnce(|lst|, w);
      var k :| 0 <= k < |ws| && ws[k] == w;
      assert spans[k] == lst[w.start..w.start + w.len];
    }
  }

  // ---------------------------------------------------------------------------
  // completeness, uniqueness and count

  lemma {:induction false} RowComplete(n: nat, len: nat, start: nat, s: nat)
    requires 2 <= len && start <= s && s + len <= n
    ensures Window(s, len) in Row(n, len, start)
    decreases n - start
  {
    if start < s {
      RowComplete(n, len, start + 1, s);
    }
  }

  lemma {:induction false} RowsComplete(n: nat, len: nat, w: Window)
    requires 2 <= len <= w.len && w.Fits(n)
    ensures w in Rows(n, len)
    decreases n + 1 - len
  {
    if len == w.len {
      RowComplete(n, len, 0, w.start);
    } else {
      RowsComplete(n, len + 1, w);
    }
  }

  /** Every window of length at least two is visited, and visited exactly once. */
  lemma WindowsExactlyOnce(n: nat, w: Window)
    requires w.Fits(n)
    ensures w in Windows(n)
    ensures forall i, j :: 0 <= i < j < |Windows(n)| ==> Windows(n)[i] != Windows(n)[j]
  {
    RowsComplete(n, 2, w);
  }

  lemma {:induction false} RowLength(n: nat, len: nat, start: nat)
    requires 2 <= len && start + len <= n + 1
    ensures |Row(n, len, start)| == n + 1 - len - start
    decreases n - start
  {
    if start + len <= n {
      RowLength(n, len, start + 1);
    }
  }

  lemma {:induction false} RowsLength(n: nat, len: nat)
    requires 2 <= len <= n + 1
    ensures 2 * |Rows(n, len)| == (n + 1 - len) * (n + 2 - len)
    decreases n + 1 - len
  {
    if len <= n {
      RowLength(n, len, 0);
      RowsLength(n, len + 1);
      var m := n + 1 - len;
      assert (m - 1) * m + 2 * m == m * (m + 1);
    }
  }

  /** A list of length `n` has `n * (n - 1) / 2` subspans (none when `n < 2`). */
  lemma WindowsCount(n: nat)
    ensures 2 * |Windows(n)| == n * (n - 1)
  {
    if n >= 1 {
      RowsLength(n, 2);
    }
  }

  // ---------------------------------------------------------------------------
  // alignment of parallel lists

  /** `list(range(n))` */
  function Range(n: nat): (r: seq<nat>)
    ensures |r| == n
    ensures forall i :: 0 <= i < n ==> r[i] == i
  {
    seq(n, i requires 0 <= i < n => i)
  }

  /** The `i`-th element of the `k`-th subspan is the list's element `start + i` of window `k`. */
  lemma SubspanElements<T>(lst: seq<T>, k: nat)
    requires k < |Subspans(lst)|
    ensures var w := Windows(|lst|)[k];
      && |Subspans(lst)[k]| == w.len
      && forall i :: 0 <= i < w.len ==> Subspans(lst)[k][i] == lst[w.start + i]
  {
  }

  /** The `k`-th subspan of a list is the list read at the `k`-th subspan of its positions. */
  lemma SubspanIndexes<T>(lst: seq<T>, k: nat)
    requires k < |Subspans(lst)|
    ensures k < |Subspans(Range(|lst|))|
    ensures var idx := Subspans(Range(|lst|))[k]; var span := Subspans(lst)[k];
      && |idx| == |span|
      && forall i :: 0 <= i < |idx| ==> idx[i] < |lst| && span[i] == lst[idx[i]]
  {
    var n := |lst|;
    var w := Windows(n)[k];
    SubspanElements(lst, k);
    SubspanElements(Range(n), k);
    var idx := Subspans(Range(n))[k];
    forall i | 0 <= i < |idx|
      ensures idx[i] == w.start + i
    {
      assert idx[i] == Range(n)[w.start + i];
    }
  }

  /**
    Subspans of `range(n)` list the positions each subspan covers, so indexing the
    whole list at the last position of the `k`-th index subspan gives the last element
    of the `k`-th subspan of that list.
  */
  lemma SubspansAlign<T>(lst: seq<T>, k: nat)
    requires k < |Subspans(lst)|
    ensures k < |Subspans(Range(|lst|))|
    ensures var idx := Subspans(Range(|lst|))[k]; var span := Subspans(lst)[k];
      |idx| == |span| >= 2 && idx[|idx| - 1] < |lst| && lst[idx[|idx| - 1]] == span[|span| - 1]
  {
  }
}
