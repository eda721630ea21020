/**
 * The selection state of the Omnis list the data list shows: one selected flag per
 * line and the current line.  The data list keeps a copy of the list (mDataList) and
 * writes every selection change to both; the two copies are one object here.
 * Lines are numbered from 1; line 0 means "no line".
 */
module DLSelection {

  /** The list's selection: `selected[r - 1]` is the flag of line r; `current` is 0 when no line is current. */
  class RowList {
    var selected: seq<bool>
    var current: int

    constructor (selected: seq<bool>, current: int)
      ensures this.selected == selected && this.current == current
    {
      this.selected := selected;
      this.current := current;
    }

    /** rowCnt */
    function RowCount(): (n: nat)
      reads this
      ensures n == |selected|
    {
      |selected|
    }

    /** isRowSelected: lines outside the list are never selected. */
    predicate IsRowSelected(row: int)
      reads this
    {
      Selected(selected, row)
    }

    /** selectRow: sets the flag of a line of the list; a line outside it is ignored. */
    method SelectRow(row: int, b: bool)
      modifies this`selected
      ensures selected == Marked(old(selected), row, b)
    {
      if 1 <= row <= |selected| {
        selected := selected[row - 1 := b];
      }
    }

    /** setCurRow */
    method SetCurrent(row: int)
      modifies this`current
      ensures current == row
    {
      current := row;
    }
  }

  /** Line `row` is selected; lines outside the list are not. */
  predicate Selected(sel: seq<bool>, row: int)
  {
    1 <= row <= |sel| && sel[row - 1]
  }

  /** n lines, all with flag b. */
  function AllSet(n: nat, b: bool): (r: seq<bool>)
    ensures |r| == n && forall i :: 0 <= i < n ==> r[i] == b
  {
    seq(n, i requires 0 <= i < n => b)
  }

  /** The flags after line `row` is set to b; a line outside the list changes nothing. */
  function Marked(sel: seq<bool>, row: int, b: bool): (r: seq<bool>)
    ensures |r| == |sel|
    ensures forall i :: 0 <= i < |sel| ==> r[i] == (if i + 1 == row then b else sel[i])
  {
    if 1 <= row <= |sel| then sel[row - 1 := b] else sel
  }

  /** n lines of which only `line` is selected (none when it is outside the list). */
  function Only(n: nat, line: int): (r: seq<bool>)
    ensures |r| == n
  {
    seq(n, i requires 0 <= i < n => i + 1 == line)
  }

  /** Line r lies on the way from `from` to `to`: after `from`, up to and including `to`, in either direction. */
  predicate OnTheWay(r: int, from: int, to: int)
  {
    (from < r <= to) || (to <= r < from)
  }

  /** A shift-click: every line on the way from the current line to the clicked one takes the current line's flag. */
  function Extended(sel: seq<bool>, from: int, to: int, b: bool): (r: seq<bool>)
    ensures |r| == |sel|
  {
    seq(|sel|, i requires 0 <= i < |sel| => if OnTheWay(i + 1, from, to) then b else sel[i])
  }

  /** A right click: a selected line keeps the selection, anything else selects only that line (or nothing). */
  function RightClicked(sel: seq<bool>, line: int): (r: seq<bool>)
    ensures |r| == |sel|
  {
    if line > 0 && line <= |sel| && sel[line - 1] then sel else Only(|sel|, line)
  }

  /**
   * A click on a row: with shift (and a current line, and the selection shown) the lines
   * on the way from the current line take its flag; with control (and the selection
   * shown) the line is toggled; otherwise only the line is selected.
   */
  function RowClicked(sel: seq<bool>, current: int, line: int, shift: bool, control: bool, showSelected: bool): (r: seq<bool>)
    ensures |r| == |sel|
  {
    if shift && current != 0 && showSelected then Extended(sel, current, line, Selected(sel, current))
    else if control && showSelected then Marked(sel, line, !Selected(sel, line))
    else Only(|sel|, line)
  }

  /** A click on a node: every line is deselected when the selection is shown, else only the current line. */
  function NodeClicked(sel: seq<bool>, current: int, showSelected: bool): (r: seq<bool>)
    ensures |r| == |sel|
  {
    if showSelected then AllSet(|sel|, false) else Marked(sel, current, false)
  }

  /**
   * What a row click promises: a plain click leaves the clicked line, when it is in the
   * list, as the only selected line; a control click flips the clicked line alone; a
   * shift click gives the whole block from the current line to the clicked one the
   * current line's flag and leaves every line off that block alone.
   */
  lemma RowClickedMeaning(sel: seq<bool>, current: int, line: int, shift: bool, control: bool, showSelected: bool)
    ensures var r := RowClicked(sel, current, line, shift, control, showSelected);
      (!showSelected ==> r == Only(|sel|, line)) &&
      (!(shift && current != 0) && control && showSelected ==>
         (Selected(r, line) <==> 1 <= line <= |sel| && !Selected(sel, line)) &&
         forall i :: 0 <= i < |sel| && i + 1 != line ==> r[i] == sel[i]) &&
      (shift && current != 0 && showSelected ==>
         (forall i :: 0 <= i < |sel| && !OnTheWay(i + 1, current, line) ==> r[i] == sel[i]) &&
         (forall i :: 0 <= i < |sel| && (OnTheWay(i + 1, current, line) || i + 1 == current) ==> r[i] == Selected(sel, current)))
  {
    if shift && current != 0 && showSelected {
      ExtendedMeaning(sel, current, line, Selected(sel, current));
    }
  }

  /** A plain click selects exactly the clicked line, so clicking it again changes nothing. */
  lemma PlainClickIdempotent(sel: seq<bool>, current: int, line: int)
    ensures RowClicked(RowClicked(sel, current, line, false, false, true), line, line, false, false, true) ==
            RowClicked(sel, current, line, false, false, true)
  {
  }

  /** Toggling a line twice restores the flags. */
  lemma ToggleTwice(sel: seq<bool>, row: int)
    ensures Marked(Marked(sel, row, !(1 <= row <= |sel| && sel[row - 1])), row, (1 <= row <= |sel| && sel[row - 1])) == sel
  {
  }

  /** After a plain click on a line of the list, that line alone is selected, so a right click on it keeps everything. */
  lemma RightClickAfterClick(n: nat, line: int)
    requires 1 <= line <= n
    ensures RightClicked(Only(n, line), line) == Only(n, line)
  {
  }

  /** A right click is idempotent. */
  lemma RightClickIdempotent(sel: seq<bool>, line: int)
    ensures RightClicked(RightClicked(sel, line), line) == RightClicked(sel, line)
  {
    if !(line > 0 && line <= |sel| && sel[line - 1]) && 1 <= line <= |sel| {
      assert Only(|sel|, line)[line - 1];
    }
  }

  /**
   * A shift-click on the current line itself changes no flag; lines off the way keep
   * theirs; and since the current line keeps its own flag, the whole block from the
   * current line to the clicked one ends up with one flag.
   */
  lemma ExtendedMeaning(sel: seq<bool>, from: int, to: int, b: bool)
    ensures Extended(sel, from, from, b) == sel
    ensures forall i :: 0 <= i < |sel| && !OnTheWay(i + 1, from, to) ==> Extended(sel, from, to, b)[i] == sel[i]
    ensures 1 <= from <= |sel| && sel[from - 1] == b ==> forall i :: 0 <= i < |sel| && (OnTheWay(i + 1, from, to) || i + 1 == from) ==> Extended(sel, from, to, b)[i] == b
  {
  }

  /** One more step of the shift-click walk away from `from`: the line reached takes the flag too. */
  lemma ExtendedStep(sel: seq<bool>, from: int, c: int, b: bool, next: int)
    requires (from <= c && next == c + 1) || (c <= from && next == c - 1)
    ensures Marked(Extended(sel, from, c, b), next, b) == Extended(sel, from, next, b)
  {
    var l := Marked(Extended(sel, from, c, b), next, b);
    var r := Extended(sel, from, next, b);
    forall i | 0 <= i < |sel|
      ensures l[i] == r[i]
    {
      assert OnTheWay(i + 1, from, next) <==> OnTheWay(i + 1, from, c) || i + 1 == next;
    }
  }
}
