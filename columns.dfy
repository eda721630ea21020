/**
 * Column edges: drawDividers draws a divider at the right edge of every column,
 * and doHitTest reports a splitter when the mouse is within a pixel of one.
 */
module DLColumns {

  /** The right edge of column n - 1: the sum of the first n widths. */
  function Edge(ws: seq<int>, n: nat): int
    requires n <= |ws|
  {
    if n == 0 then 0 else Edge(ws, n - 1) + ws[n - 1]
  }

  /** With widths that are not negative the edges move right from column to column. */
  lemma {:induction false} EdgeMonotone(ws: seq<int>, m: nat, n: nat)
    requires m <= n <= |ws|
    requires forall i :: 0 <= i < |ws| ==> ws[i] >= 0
    ensures Edge(ws, m) <= Edge(ws, n)
    decreases n - m
  {
    if m < n {
      EdgeMonotone(ws, m, n - 1);
    }
  }

  /** The number of columns the hit test scans: the column count, but only columns that have a width. */
  function Scanned(ws: seq<int>, count: int): nat
  {
    if count < 0 then 0 else if count < |ws| then count else |ws|
  }

  /** The mouse at h is on the divider right of column i. */
  predicate OnDivider(ws: seq<int>, i: nat, h: int)
    requires i < |ws|
  {
    Edge(ws, i + 1) - 1 <= h <= Edge(ws, i + 1) + 1
  }

  /** The first column from i on, below n, whose divider is under h, or -1. */
  function SplitterFrom(ws: seq<int>, n: nat, i: nat, h: int): (r: int)
    requires n <= |ws|
    ensures r == -1 || i <= r < n
    decreases n - i
  {
    if i >= n then -1 else if OnDivider(ws, i, h) then i else SplitterFrom(ws, n, i + 1, h)
  }

  /** The splitter doHitTest reports: the first scanned column whose divider is under h, or -1. */
  function SplitterAt(ws: seq<int>, count: int, h: int): int
  {
    SplitterFrom(ws, Scanned(ws, count), 0, h)
  }

  /** The search from i finds the first divider under h at or after i, and -1 exactly when there is none. */
  lemma {:induction false} SplitterFromMeaning(ws: seq<int>, n: nat, i: nat, h: int)
    requires n <= |ws|
    ensures var r := SplitterFrom(ws, n, i, h);
      (r >= 0 ==> i <= r < n && OnDivider(ws, r, h) && forall j :: i <= j < r ==> !OnDivider(ws, j, h)) &&
      (r == -1 <==> forall j :: i <= j < n ==> !OnDivider(ws, j, h))
    decreases n - i
  {
    if i < n && !OnDivider(ws, i, h) {
      SplitterFromMeaning(ws, n, i + 1, h);
    }
  }

  /** The splitter is the first scanned column whose divider is under h, and -1 exactly when there is none. */
  lemma SplitterAtMeaning(ws: seq<int>, count: int, h: int)
    ensures var r := SplitterAt(ws, count, h);
      (r >= 0 ==> r < count && r < |ws| && OnDivider(ws, r, h) && forall j :: 0 <= j < r ==> !OnDivider(ws, j, h)) &&
      (r == -1 <==> forall j :: 0 <= j < Scanned(ws, count) ==> !OnDivider(ws, j, h))
  {
    SplitterFromMeaning(ws, Scanned(ws, count), 0, h);
  }
}
