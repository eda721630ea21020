/**
 * Layout of the outline (oDataList::drawNode and the height part of oDataList::drawRow):
 * a prefix sum of header heights, row heights and line spacing over the node tree, with
 * off-screen subtrees skipped while cached positions are being reused.  Painting itself
 * is not modelled; text measurement is a function supplied by the host.
 */
module DLLayout {
  import opened Geometry
  import opened DLTree

  /**
   * What the layout reads from the component: the tree indent (mIndent), the spacing
   * after every header and row (mLineSpacing), the height cap (mMaxRowHeight), the
   * vertical scroll offset, the client area's top and bottom, the font height, the
   * widths of the columns in use and the extend flags (mColumnExtend).  `cellHeight(line,
   * column, width)` is the measured height of a column's text of a line at that width,
   * and `textHeight(text, width)` the measured height of a header label.
   */
  datatype Style = Style(indent: int, lineSpacing: int, maxRowHeight: int, offsetY: int,
                         clientTop: int, clientBottom: int, fontHeight: nat,
                         widths: seq<int>, extend: seq<bool>,
                         cellHeight: (int, int, int) -> int, textHeight: (string, int) -> nat)

  /** Settings no negative height can come out of (the measured font and label heights are never negative). */
  ghost predicate WellFormed(st: Style)
  {
    st.lineSpacing >= 0 && st.maxRowHeight >= 0
  }

  // ---------------------------------------------------------------------------
  // drawRow: the height of one row
  // ---------------------------------------------------------------------------

  /** The width a column's text is measured at; the first column loses the row's indent. */
  function ColumnWidth(st: Style, i: nat, indent: int): int
    requires i < |st.widths|
  {
    st.widths[i] - 4 - (if i == 0 then indent else 0)
  }

  /** Whether column i may make its row taller: only the first 256 columns have a flag. */
  predicate Extends(st: Style, i: nat)
  {
    i < 256 && i < |st.extend| && st.extend[i]
  }

  /** The height of column i's text of the line, measured at its width but never narrower than 10. */
  function CellHeight(st: Style, line: int, i: nat, indent: int): int
    requires i < |st.widths|
  {
    st.cellHeight(line, i, Max(ColumnWidth(st, i, indent), 10))
  }

  /** The tallest of the font height and the extended columns' heights among the first n columns. */
  function TallestUpTo(st: Style, line: int, indent: int, n: nat): int
    requires n <= |st.widths|
  {
    if n == 0 then st.fontHeight
    else
      var h := TallestUpTo(st, line, indent, n - 1);
      var c := CellHeight(st, line, n - 1, indent);
      if c > h && Extends(st, n - 1) then c else h
  }

  /** The height of a row: the tallest of font and extended columns, capped at the maximum row height. */
  function RowHeight(st: Style, line: int, indent: int): int
  {
    var h := TallestUpTo(st, line, indent, |st.widths|);
    if h > st.maxRowHeight then st.maxRowHeight else h
  }

  /** TallestUpTo is the maximum of the font height and the extended columns' heights. */
  lemma {:induction false} TallestIsMaximum(st: Style, line: int, indent: int, n: nat)
    requires n <= |st.widths|
    ensures TallestUpTo(st, line, indent, n) >= st.fontHeight
    ensures forall i :: 0 <= i < n && Extends(st, i) ==> CellHeight(st, line, i, indent) <= TallestUpTo(st, line, indent, n)
    ensures TallestUpTo(st, line, indent, n) == st.fontHeight ||
            exists i :: 0 <= i < n && Extends(st, i) && TallestUpTo(st, line, indent, n) == CellHeight(st, line, i, indent)
  {
    if n > 0 {
      TallestIsMaximum(st, line, indent, n - 1);
    }
  }

  /**
   * A row is min(maximum row height, max(font height, heights of the extended columns)):
   * never above the cap, never below the font height or an extended column unless capped,
   * and either the cap, the font height or the height of one extended column.
   */
  lemma RowHeightMeaning(st: Style, line: int, indent: int)
    ensures RowHeight(st, line, indent) <= st.maxRowHeight
    ensures RowHeight(st, line, indent) == st.maxRowHeight || RowHeight(st, line, indent) >= st.fontHeight
    ensures forall i :: 0 <= i < |st.widths| && Extends(st, i) ==>
              RowHeight(st, line, indent) == st.maxRowHeight || CellHeight(st, line, i, indent) <= RowHeight(st, line, indent)
    ensures RowHeight(st, line, indent) == st.maxRowHeight || RowHeight(st, line, indent) == st.fontHeight ||
            exists i :: 0 <= i < |st.widths| && Extends(st, i) && RowHeight(st, line, indent) == CellHeight(st, line, i, indent)
    ensures st.fontHeight >= 0 && st.maxRowHeight >= 0 ==> RowHeight(st, line, indent) >= 0
  {
    TallestIsMaximum(st, line, indent, |st.widths|);
  }

  /** Columns without an extend flag (all of them from the 257th on) never change a row's height. */
  lemma {:induction false} UnextendedIgnored(st: Style, st': Style, line: int, indent: int, n: nat)
    requires n <= |st.widths| == |st'.widths|
    requires st'.fontHeight == st.fontHeight && st'.widths == st.widths
    requires forall i :: 0 <= i < n && Extends(st, i) ==> Extends(st', i) && CellHeight(st', line, i, indent) == CellHeight(st, line, i, indent)
    requires forall i :: 0 <= i < n && Extends(st', i) ==> Extends(st, i)
    ensures TallestUpTo(st', line, indent, n) == TallestUpTo(st, line, indent, n)
  {
    if n > 0 {
      UnextendedIgnored(st, st', line, indent, n - 1);
    }
  }

  // ---------------------------------------------------------------------------
  // drawNode: the header of a node
  // ---------------------------------------------------------------------------

  /** A node draws a tree icon when it has children or row entries. */
  predicate NeedIcon(t: Tree)
  {
    |t.children| > 0 || |t.rows| > 0
  }

  /**
   * The indent a header line passes to drawRow, as written: `pIndent + needIcon ? mIndent : 0`
   * groups as `(pIndent + needIcon) ? mIndent : 0`.
   */
  function HeaderIndentAsWritten(indent: int, needIcon: bool, st: Style): int
  {
    if indent + (if needIcon then 1 else 0) != 0 then st.indent else 0
  }

  /** The indent of a header line: the node's indent plus the icon's width when it has an icon. */
  function HeaderIndent(indent: int, needIcon: bool, st: Style): int
  {
    indent + (if needIcon then st.indent else 0)
  }

  /**
   * The width a header label is measured at, as written: `colwidth - pIndent - needIcon ?
   * mIndent : 0 - 4` groups as `(colwidth - pIndent - needIcon) ? mIndent : -4`.
   */
  function HeaderWidthAsWritten(indent: int, needIcon: bool, st: Style): int
  {
    if 10000 - indent - (if needIcon then 1 else 0) != 0 then st.indent else -4
  }

  /** The width a header label is measured at: 10000 less the header's indent and a margin of 4. */
  function HeaderWidth(indent: int, needIcon: bool, st: Style): int
  {
    10000 - HeaderIndent(indent, needIcon, st) - 4
  }

  /** The written grouping loses the node's own indent: a header line at indent 20 without icon gets 16. */
  lemma HeaderIndentDiffers()
    ensures var st := Style(16, 4, 200, 0, 0, 100, 12, [100], [true], (l, c, w) => 12, (s, w) => 12);
            HeaderIndentAsWritten(20, false, st) == 16 && HeaderIndent(20, false, st) == 20
  {
  }

  /** The written grouping measures a label at the icon's width: 20 instead of 9976 at indent 0 with an icon. */
  lemma HeaderWidthDiffers()
    ensures var st := Style(20, 4, 200, 0, 0, 100, 12, [100], [true], (l, c, w) => 12, (s, w) => 12);
            HeaderWidthAsWritten(0, true, st) == 20 && HeaderWidth(0, true, st) == 9976
  {
  }

  /**
   * A node's header and its own rows share their indent, and a label is measured at the
   * width a first-column cell of those rows would get in a column 10000 wide.
   */
  lemma HeaderAligned(t: Tree, indent: int, top: int, st: Style)
    requires indent != -1
    ensures HeaderIndent(indent, NeedIcon(t), st) == Head(t, indent, top, st).indent
    ensures |st.widths| > 0 && st.widths[0] == 10000 ==>
              HeaderWidth(indent, NeedIcon(t), st) == ColumnWidth(st, 0, Head(t, indent, top, st).indent)
  {
  }

  /** What the header of a node contributes: the node as positioned, the indent below it, and its height. */
  datatype Header = Header(tree: Tree, indent: int, height: int)

  /** The laid-out height of a header, before the line spacing: a line of its own, or the measured label. */
  function HeaderHeight(t: Tree, indent: int, st: Style): int
  {
    if t.lineNo != 0 then RowHeight(st, t.lineNo, HeaderIndent(indent, NeedIcon(t), st)) + 2
    else
      var h := 2 + st.textHeight(t.description, Max(HeaderWidth(indent, NeedIcon(t), st), 10));
      if h > st.maxRowHeight then st.maxRowHeight else h
  }

  /**
   * The root (indent -1) has no header; any other node gets its header height plus the
   * line spacing, and a node with an icon has the icon placed and indents what is below it.
   */
  function Head(t: Tree, indent: int, top: int, st: Style): Header
  {
    if indent == -1 then Header(t.(top := top), 0, 0)
    else
      var height := HeaderHeight(t, indent, st) + st.lineSpacing;
      if NeedIcon(t)
      then Header(t.(top := top, treeIcon := Rect(indent + 1, top, indent + 1 + st.indent, top + st.indent)),
                  indent + st.indent, height)
      else Header(t.(top := top), indent, height)
  }

  lemma HeadHeight(t: Tree, indent: int, top: int, st: Style)
    requires WellFormed(st)
    ensures Head(t, indent, top, st).height >= 0
  {
    if indent != -1 && t.lineNo != 0 {
      RowHeightMeaning(st, t.lineNo, HeaderIndent(indent, NeedIcon(t), st));
    }
  }

  // ---------------------------------------------------------------------------
  // drawNode: the pass over the tree
  // ---------------------------------------------------------------------------

  /** What drawNode threads through the tree: the running top and mUpdatePositions. */
  datatype Pass = Pass(top: int, update: bool)

  datatype Laid = Laid(tree: Tree, pass: Pass)
  datatype LaidKids = LaidKids(trees: seq<Tree>, pass: Pass)
  datatype LaidRows = LaidRows(rows: seq<Row>, pass: Pass)

  /** A cached extent lies wholly below or wholly above the client area. */
  predicate Offscreen(st: Style, top: int, bottom: int)
  {
    top - st.offsetY > st.clientBottom || bottom - st.offsetY < st.clientTop
  }

  /** A row's cached extent overlaps the client area. */
  predicate RowOnscreen(st: Style, r: Row)
  {
    r.top - st.offsetY < st.clientBottom && r.bottom - st.offsetY > st.clientTop
  }

  /**
   * drawNode: a cached top that does not match turns on the update flag; while reusing
   * positions an off-screen node returns its cached bottom untouched; otherwise the node
   * takes the running top, its header is laid out, then (when expanded) its children and
   * rows, and the bottom reached is stored and returned.
   */
  function LayNode(t: Tree, indent: int, p: Pass, st: Style): Laid
    decreases t, 1
  {
    var update := p.update || t.top != p.top;
    if !update && Offscreen(st, t.top, t.bottom) then Laid(t, Pass(t.bottom, false))
    else
      var h := Head(t, indent, p.top, st);
      if t.expanded then
        var k := LayKids(t, |t.children|, h.indent, Pass(p.top + h.height, update), st);
        var r := LayRows(t.rows, |t.rows|, h.indent, k.pass, st);
        Laid(h.tree.(children := k.trees, rows := r.rows, bottom := r.pass.top), r.pass)
      else
        Laid(h.tree.(bottom := p.top + h.height), Pass(p.top + h.height, update))
  }

  // The three lemmas below only unfold LayNode, one case each, with its parts named; they
  // are the steps the proof of the drawNode method takes.

  /** Unfolding of LayNode: an off-screen node reusing its positions is returned as it is. */
  lemma LayNodeSkipped(t: Tree, indent: int, p: Pass, st: Style)
    requires !p.update && t.top == p.top && Offscreen(st, t.top, t.bottom)
    ensures LayNode(t, indent, p, st) == Laid(t, Pass(t.bottom, false))
  {
  }

  /** Unfolding of LayNode: a collapsed node that is laid out ends below its header. */
  lemma LayNodeClosed(t: Tree, indent: int, p: Pass, st: Style, update: bool, h: Header)
    requires update == (p.update || t.top != p.top) && (update || !Offscreen(st, t.top, t.bottom))
    requires h == Head(t, indent, p.top, st) && !t.expanded
    ensures LayNode(t, indent, p, st) == Laid(h.tree.(bottom := p.top + h.height), Pass(p.top + h.height, update))
  {
  }

  /** Unfolding of LayNode: an expanded node that is laid out ends below its children and then its rows. */
  lemma LayNodeOpen(t: Tree, indent: int, p: Pass, st: Style, update: bool, h: Header, k: LaidKids, r: LaidRows)
    requires update == (p.update || t.top != p.top) && (update || !Offscreen(st, t.top, t.bottom))
    requires h == Head(t, indent, p.top, st) && t.expanded
    requires k == LayKids(t, |t.children|, h.indent, Pass(p.top + h.height, update), st)
    requires r == LayRows(t.rows, |t.rows|, h.indent, k.pass, st)
    ensures LayNode(t, indent, p, st) == Laid(h.tree.(children := k.trees, rows := r.rows, bottom := r.pass.top), r.pass)
  {
  }

  /** The first k children of t laid out one after the other. */
  function LayKids(t: Tree, k: nat, indent: int, p: Pass, st: Style): (r: LaidKids)
    requires k <= |t.children|
    ensures |r.trees| == k
    decreases t, 0, k
  {
    if k == 0 then LaidKids([], p)
    else
      var r := LayKids(t, k - 1, indent, p, st);
      var a := LayNode(t.children[k - 1], indent, r.pass, st);
      LaidKids(r.trees + [a.tree], a.pass)
  }

  /** One row entry laid out, and the pass after it. */
  datatype LaidRow = LaidRow(row: Row, pass: Pass)

  /**
   * One row entry: a cached top that does not match turns on the update flag; a row being
   * positioned or on screen gets the running top and its height, any other keeps its
   * cached extent and the pass goes on from its bottom; either way the line spacing follows.
   */
  function LayRow(row: Row, indent: int, p: Pass, st: Style): LaidRow
  {
    var update := p.update || row.top != p.top;
    if update || RowOnscreen(st, row) then
      var bottom := p.top + RowHeight(st, row.lineNo, indent);
      LaidRow(Row(row.lineNo, p.top, bottom), Pass(bottom + st.lineSpacing, update))
    else
      LaidRow(row, Pass(row.bottom + st.lineSpacing, update))
  }

  /** The first k row entries laid out one after the other. */
  function LayRows(rows: seq<Row>, k: nat, indent: int, p: Pass, st: Style): (r: LaidRows)
    requires k <= |rows|
    ensures |r.rows| == k
  {
    if k == 0 then LaidRows([], p)
    else
      var r := LayRows(rows, k - 1, indent, p, st);
      var a := LayRow(rows[k - 1], indent, r.pass, st);
      LaidRows(r.rows + [a.row], a.pass)
  }

  /** One more child laid out: in a sequence holding the laid-out children and then the rest, child k is replaced. */
  lemma LayKidsNext(t: Tree, k: nat, indent: int, p: Pass, st: Style, cs: seq<Tree>)
    requires k < |t.children| && cs == LayKids(t, k, indent, p, st).trees + t.children[k..]
    ensures cs[k] == t.children[k]
    ensures var a := LayNode(t.children[k], indent, LayKids(t, k, indent, p, st).pass, st);
            var r := LayKids(t, k + 1, indent, p, st);
            cs[k := a.tree] == r.trees + t.children[k + 1..] && r.pass == a.pass
  {
    var r := LayKids(t, k, indent, p, st);
    var a := LayNode(t.children[k], indent, r.pass, st);
    assert cs[k] == t.children[k];
    assert cs[k := a.tree] == (r.trees + [a.tree]) + t.children[k + 1..];
  }

  /** One more row laid out: in a sequence holding the laid-out rows and then the rest, row k is replaced. */
  lemma LayRowsNext(rows: seq<Row>, k: nat, indent: int, p: Pass, st: Style, rs: seq<Row>)
    requires k < |rows| && rs == LayRows(rows, k, indent, p, st).rows + rows[k..]
    ensures rs[k] == rows[k]
    ensures var a := LayRow(rows[k], indent, LayRows(rows, k, indent, p, st).pass, st);
            var r := LayRows(rows, k + 1, indent, p, st);
            rs[k := a.row] == r.rows + rows[k + 1..] && r.pass == a.pass
  {
    var r := LayRows(rows, k, indent, p, st);
    var a := LayRow(rows[k], indent, r.pass, st);
    assert rs[k] == rows[k];
    assert rs[k := a.row] == (r.rows + [a.row]) + rows[k + 1..];
  }

  // ---------------------------------------------------------------------------
  // What the layout keeps
  // ---------------------------------------------------------------------------

  /** Two trees that differ at most in geometry: cached extents, icons and row extents. */
  ghost predicate SameShape(a: Tree, b: Tree)
  {
    a.touched == b.touched && a.expanded == b.expanded && a.lineNo == b.lineNo &&
    a.sortOrder == b.sortOrder && a.value == b.value && a.description == b.description &&
    |a.rows| == |b.rows| && (forall i :: 0 <= i < |a.rows| ==> a.rows[i].lineNo == b.rows[i].lineNo) &&
    |a.children| == |b.children| && forall i :: 0 <= i < |a.children| ==> SameShape(a.children[i], b.children[i])
  }

  lemma {:induction false} SameShapeRefl(t: Tree)
    ensures SameShape(t, t)
    decreases t
  {
    forall i | 0 <= i < |t.children|
      ensures SameShape(t.children[i], t.children[i])
    {
      SameShapeRefl(t.children[i]);
    }
  }

  /** Layout changes geometry only: flags, keys, lines, children and row entries stay as they were. */
  lemma {:induction false} LayShape(t: Tree, indent: int, p: Pass, st: Style)
    ensures SameShape(LayNode(t, indent, p, st).tree, t)
    decreases t, 1
  {
    var update := p.update || t.top != p.top;
    var l := LayNode(t, indent, p, st);
    var h := Head(t, indent, p.top, st);
    if !update && Offscreen(st, t.top, t.bottom) {
      SameShapeRefl(t);
    } else if t.expanded {
      LayKidsShape(t, |t.children|, h.indent, Pass(p.top + h.height, update), st);
      var k := LayKids(t, |t.children|, h.indent, Pass(p.top + h.height, update), st);
      LayRowsShape(t.rows, |t.rows|, h.indent, k.pass, st);
      var r := LayRows(t.rows, |t.rows|, h.indent, k.pass, st);
      assert l.tree == h.tree.(children := k.trees, rows := r.rows, bottom := r.pass.top);
    } else {
      SameShapeRefl(t);
      assert l.tree.children == t.children && l.tree.rows == t.rows;
    }
  }

  lemma {:induction false} LayKidsShape(t: Tree, k: nat, indent: int, p: Pass, st: Style)
    requires k <= |t.children|
    ensures forall i :: 0 <= i < k ==> SameShape(LayKids(t, k, indent, p, st).trees[i], t.children[i])
    decreases t, 0, k
  {
    if k > 0 {
      LayKidsShape(t, k - 1, indent, p, st);
      var r := LayKids(t, k - 1, indent, p, st);
      LayShape(t.children[k - 1], indent, r.pass, st);
    }
  }

  lemma {:induction false} LayRowsShape(rows: seq<Row>, k: nat, indent: int, p: Pass, st: Style)
    requires k <= |rows|
    ensures forall i :: 0 <= i < k ==> LayRows(rows, k, indent, p, st).rows[i].lineNo == rows[i].lineNo
  {
    if k > 0 {
      LayRowsShape(rows, k - 1, indent, p, st);
    }
  }

  /**
   * The extents of a laid-out subtree nest and do not overlap: below each expanded node
   * its children come one after the other, then its rows one after the other, all within
   * the node's own extent.  Collapsed nodes keep whatever their children had.
   */
  ghost predicate Stacked(t: Tree)
  {
    t.top <= t.bottom &&
    (t.expanded ==>
       (forall i :: 0 <= i < |t.children| ==>
          t.top <= t.children[i].top && t.children[i].bottom <= t.bottom && Stacked(t.children[i])) &&
       (forall i, j :: 0 <= i < j < |t.children| ==> t.children[i].bottom <= t.children[j].top) &&
       (forall i :: 0 <= i < |t.rows| ==> t.top <= t.rows[i].top <= t.rows[i].bottom <= t.bottom) &&
       (forall i, j :: 0 <= i < j < |t.rows| ==> t.rows[i].bottom <= t.rows[j].top) &&
       (forall i, j :: 0 <= i < |t.children| && 0 <= j < |t.rows| ==> t.children[i].bottom <= t.rows[j].top))
  }

  /** Laid-out children one after the other between lo and hi. */
  ghost predicate KidsBetween(cs: seq<Tree>, lo: int, hi: int)
  {
    (forall i :: 0 <= i < |cs| ==> lo <= cs[i].top && cs[i].bottom <= hi && Stacked(cs[i])) &&
    (forall i, j :: 0 <= i < j < |cs| ==> cs[i].bottom <= cs[j].top)
  }

  /** Laid-out rows one after the other between lo and hi. */
  ghost predicate RowsBetween(rs: seq<Row>, lo: int, hi: int)
  {
    (forall i :: 0 <= i < |rs| ==> lo <= rs[i].top <= rs[i].bottom <= hi) &&
    (forall i, j :: 0 <= i < j < |rs| ==> rs[i].bottom <= rs[j].top)
  }

  /**
   * Laying out with the update flag on positions the whole subtree: the node starts at the
   * running top, ends at the returned bottom, nothing is skipped, the flag stays on, and
   * the extents are stacked.
   */
  lemma {:induction false} LayStacked(t: Tree, indent: int, p: Pass, st: Style)
    requires p.update && WellFormed(st)
    ensures var l := LayNode(t, indent, p, st);
            l.pass.update && l.tree.top == p.top && l.tree.bottom == l.pass.top && p.top <= l.pass.top &&
            Stacked(l.tree)
    decreases t, 1
  {
    var h := Head(t, indent, p.top, st);
    HeadHeight(t, indent, p.top, st);
    if t.expanded {
      var p1 := Pass(p.top + h.height, true);
      LayKidsStacked(t, |t.children|, h.indent, p1, st);
      var k := LayKids(t, |t.children|, h.indent, p1, st);
      LayRowsStacked(t.rows, |t.rows|, h.indent, k.pass, st);
      var r := LayRows(t.rows, |t.rows|, h.indent, k.pass, st);
      var l := LayNode(t, indent, p, st);
      assert l.tree == h.tree.(children := k.trees, rows := r.rows, bottom := r.pass.top);
      KidsRowsStacked(l.tree, p1.top, k.pass.top);
    }
  }

  /** A node whose children and rows are laid out one after the other, children first, is stacked. */
  lemma KidsRowsStacked(t: Tree, lo: int, mid: int)
    requires t.top <= lo <= mid <= t.bottom
    requires KidsBetween(t.children, lo, mid) && RowsBetween(t.rows, mid, t.bottom)
    ensures Stacked(t)
  {
  }

  lemma {:induction false} LayKidsStacked(t: Tree, k: nat, indent: int, p: Pass, st: Style)
    requires k <= |t.children| && p.update && WellFormed(st)
    ensures var r := LayKids(t, k, indent, p, st);
            r.pass.update && p.top <= r.pass.top && KidsBetween(r.trees, p.top, r.pass.top)
    decreases t, 0, k
  {
    if k > 0 {
      LayKidsStacked(t, k - 1, indent, p, st);
      var r := LayKids(t, k - 1, indent, p, st);
      LayStacked(t.children[k - 1], indent, r.pass, st);
      var a := LayNode(t.children[k - 1], indent, r.pass, st);
      KidsAppend(r.trees, a.tree, p.top, r.pass.top, a.pass.top);
    }
  }

  lemma KidsAppend(cs: seq<Tree>, c: Tree, lo: int, mid: int, hi: int)
    requires KidsBetween(cs, lo, mid) && lo <= mid && mid == c.top && c.bottom == hi && Stacked(c)
    ensures KidsBetween(cs + [c], lo, hi)
  {
  }

  lemma {:induction false} LayRowsStacked(rows: seq<Row>, k: nat, indent: int, p: Pass, st: Style)
    requires k <= |rows| && p.update && WellFormed(st)
    ensures var r := LayRows(rows, k, indent, p, st);
            r.pass.update && p.top <= r.pass.top && RowsBetween(r.rows, p.top, r.pass.top)
  {
    if k > 0 {
      LayRowsStacked(rows, k - 1, indent, p, st);
      var r := LayRows(rows, k - 1, indent, p, st);
      RowHeightMeaning(st, rows[k - 1].lineNo, indent);
      var b := r.pass.top + RowHeight(st, rows[k - 1].lineNo, indent);
      RowsAppend(r.rows, Row(rows[k - 1].lineNo, r.pass.top, b), p.top, r.pass.top, b + st.lineSpacing);
    }
  }

  lemma RowsAppend(rs: seq<Row>, row: Row, lo: int, mid: int, hi: int)
    requires RowsBetween(rs, lo, mid) && lo <= mid && mid == row.top <= row.bottom <= hi
    ensures RowsBetween(rs + [row], lo, hi)
  {
  }

  /** A subtree laid out with the flag on leaves it on. */
  lemma {:induction false} LayFlag(t: Tree, indent: int, p: Pass, st: Style)
    requires p.update
    ensures LayNode(t, indent, p, st).pass.update
    decreases t, 1
  {
    if t.expanded {
      var h := Head(t, indent, p.top, st);
      var p1 := Pass(p.top + h.height, true);
      LayKidsFlag(t, |t.children|, h.indent, p1, st);
      var k := LayKids(t, |t.children|, h.indent, p1, st);
      LayRowsFlag(t.rows, |t.rows|, h.indent, k.pass, st);
    }
  }

  /** Children laid out with the flag on leave it on. */
  lemma {:induction false} LayKidsFlag(t: Tree, k: nat, indent: int, p: Pass, st: Style)
    requires k <= |t.children| && p.update
    ensures LayKids(t, k, indent, p, st).pass.update
    decreases t, 0, k
  {
    if k > 0 {
      LayKidsFlag(t, k - 1, indent, p, st);
      LayFlag(t.children[k - 1], indent, LayKids(t, k - 1, indent, p, st).pass, st);
    }
  }

  /** Rows laid out with the flag on leave it on. */
  lemma {:induction false} LayRowsFlag(rows: seq<Row>, k: nat, indent: int, p: Pass, st: Style)
    requires k <= |rows| && p.update
    ensures LayRows(rows, k, indent, p, st).pass.update
  {
    if k > 0 {
      LayRowsFlag(rows, k - 1, indent, p, st);
    }
  }

  /** A laid-out node keeps its header: laying out its header again gives the same node, indent and height. */
  lemma HeadAgain(t: Tree, indent: int, top: int, st: Style, cs: seq<Tree>, rs: seq<Row>, bottom: int)
    requires |cs| == |t.children| && |rs| == |t.rows|
    ensures var h := Head(t, indent, top, st);
            var u := h.tree.(children := cs, rows := rs, bottom := bottom);
            Head(u, indent, top, st) == Header(u, h.indent, h.height)
  {
    var h := Head(t, indent, top, st);
    var u := h.tree.(children := cs, rows := rs, bottom := bottom);
    assert NeedIcon(u) == NeedIcon(t);
    assert HeaderHeight(u, indent, st) == HeaderHeight(t, indent, st);
  }

  /**
   * Positions are reusable: once a subtree has been laid out with the update flag on,
   * laying it out again from the same top with the flag off finds every cached top
   * matching, never turns the flag on, reproduces the same bottom and changes nothing.
   */
  lemma {:induction false} Relayout(t: Tree, indent: int, top: int, st: Style)
    ensures var l := LayNode(t, indent, Pass(top, true), st);
            LayNode(l.tree, indent, Pass(top, false), st) == Laid(l.tree, Pass(l.pass.top, false))
    decreases t, 1
  {
    var l := LayNode(t, indent, Pass(top, true), st);
    var h := Head(t, indent, top, st);
    if t.expanded {
      var p1 := Pass(top + h.height, true);
      var k := LayKids(t, |t.children|, h.indent, p1, st);
      var r := LayRows(t.rows, |t.rows|, h.indent, k.pass, st);
      assert l.tree == h.tree.(children := k.trees, rows := r.rows, bottom := r.pass.top);
      HeadAgain(t, indent, top, st, k.trees, r.rows, r.pass.top);
      LayKidsFlag(t, |t.children|, h.indent, p1, st);
      RelayoutKids(t, |t.children|, h.indent, top + h.height, st, l.tree);
      RelayoutRows(t.rows, |t.rows|, h.indent, k.pass.top, st, l.tree.rows);
      RelaidExpanded(l.tree, indent, top, st, h.indent, h.height, k.pass.top, r.pass.top);
    } else {
      HeadAgain(t, indent, top, st, t.children, t.rows, top + h.height);
    }
  }

  /** The last step of Relayout for an expanded node, once its header, children and rows are known to repeat. */
  lemma RelaidExpanded(u: Tree, indent: int, top: int, st: Style, inner: int, height: int, mid: int, bottom: int)
    requires u.expanded && u.top == top && u.bottom == bottom
    requires Head(u, indent, top, st) == Header(u, inner, height)
    requires LayKids(u, |u.children|, inner, Pass(top + height, false), st) == LaidKids(u.children, Pass(mid, false))
    requires LayRows(u.rows, |u.rows|, inner, Pass(mid, false), st) == LaidRows(u.rows, Pass(bottom, false))
    ensures LayNode(u, indent, Pass(top, false), st) == Laid(u, Pass(bottom, false))
  {
  }

  /** Relayout for the first k children: u holds the laid-out children in its first k places. */
  lemma {:induction false} RelayoutKids(t: Tree, k: nat, indent: int, top: int, st: Style, u: Tree)
    requires k <= |t.children| && k <= |u.children|
    requires forall i :: 0 <= i < k ==> u.children[i] == LayKids(t, k, indent, Pass(top, true), st).trees[i]
    ensures var r := LayKids(t, k, indent, Pass(top, true), st);
            LayKids(u, k, indent, Pass(top, false), st) == LaidKids(r.trees, Pass(r.pass.top, false))
    decreases t, 0, k
  {
    if k > 0 {
      var r := LayKids(t, k - 1, indent, Pass(top, true), st);
      LayKidsFlag(t, k - 1, indent, Pass(top, true), st);
      var a := LayNode(t.children[k - 1], indent, r.pass, st);
      assert LayKids(t, k, indent, Pass(top, true), st).trees == r.trees + [a.tree];
      RelayoutKids(t, k - 1, indent, top, st, u);
      Relayout(t.children[k - 1], indent, r.pass.top, st);
      assert u.children[k - 1] == a.tree;
    }
  }

  /** Relayout for the first k rows: rs holds the laid-out rows in its first k places. */
  lemma {:induction false} RelayoutRows(rows: seq<Row>, k: nat, indent: int, top: int, st: Style, rs: seq<Row>)
    requires k <= |rows| && k <= |rs|
    requires forall i :: 0 <= i < k ==> rs[i] == LayRows(rows, k, indent, Pass(top, true), st).rows[i]
    ensures var r := LayRows(rows, k, indent, Pass(top, true), st);
            LayRows(rs, k, indent, Pass(top, false), st) == LaidRows(r.rows, Pass(r.pass.top, false))
  {
    if k > 0 {
      var r := LayRows(rows, k - 1, indent, Pass(top, true), st);
      LayRowsFlag(rows, k - 1, indent, Pass(top, true), st);
      assert LayRows(rows, k, indent, Pass(top, true), st).rows == r.rows + [LayRows(rows, k, indent, Pass(top, true), st).rows[k - 1]];
      RelayoutRows(rows, k - 1, indent, top, st, rs);
    }
  }

  // ---------------------------------------------------------------------------
  // Extents stay non-negative
  // ---------------------------------------------------------------------------

  /**
   * Laying out from a non-negative top over non-negative cached extents, with measurements
   * no negative height comes out of, leaves every extent non-negative and the pass at a
   * non-negative top.
   */
  lemma {:induction false} LayExtents(t: Tree, indent: int, p: Pass, st: Style)
    requires ExtentsNonNegative(t) && p.top >= 0 && WellFormed(st)
    ensures var l := LayNode(t, indent, p, st);
            ExtentsNonNegative(l.tree) && l.pass.top >= 0
    decreases t, 1
  {
    var update := p.update || t.top != p.top;
    if update || !Offscreen(st, t.top, t.bottom) {
      var h := Head(t, indent, p.top, st);
      HeadHeight(t, indent, p.top, st);
      if t.expanded {
        var p1 := Pass(p.top + h.height, update);
        LayKidsExtents(t, |t.children|, h.indent, p1, st);
        var k := LayKids(t, |t.children|, h.indent, p1, st);
        LayRowsExtents(t.rows, |t.rows|, h.indent, k.pass, st);
      }
    }
  }

  lemma {:induction false} LayKidsExtents(t: Tree, k: nat, indent: int, p: Pass, st: Style)
    requires k <= |t.children| && ExtentsNonNegative(t) && p.top >= 0 && WellFormed(st)
    ensures var r := LayKids(t, k, indent, p, st);
            (forall i :: 0 <= i < k ==> ExtentsNonNegative(r.trees[i])) && r.pass.top >= 0
    decreases t, 0, k
  {
    if k > 0 {
      LayKidsExtents(t, k - 1, indent, p, st);
      var r := LayKids(t, k - 1, indent, p, st);
      LayExtents(t.children[k - 1], indent, r.pass, st);
    }
  }

  lemma {:induction false} LayRowsExtents(rows: seq<Row>, k: nat, indent: int, p: Pass, st: Style)
    requires k <= |rows| && p.top >= 0 && WellFormed(st)
    requires forall i :: 0 <= i < |rows| ==> rows[i].top >= 0 && rows[i].bottom >= 0
    ensures var r := LayRows(rows, k, indent, p, st);
            (forall i :: 0 <= i < k ==> r.rows[i].top >= 0 && r.rows[i].bottom >= 0) && r.pass.top >= 0
  {
    if k > 0 {
      LayRowsExtents(rows, k - 1, indent, p, st);
      var r := LayRows(rows, k - 1, indent, p, st);
      RowHeightMeaning(st, rows[k - 1].lineNo, indent);
    }
  }

  // ---------------------------------------------------------------------------
  // Where findTopForRow's answer lies
  // ---------------------------------------------------------------------------

  /** Every node of the subtree is expanded. */
  ghost predicate AllExpanded(t: Tree)
  {
    t.expanded && forall i :: 0 <= i < |t.children| ==> AllExpanded(t.children[i])
  }

  /**
   * In a stacked subtree whose nodes are all expanded, a top that findTopForRow reports
   * lies within the subtree's own extent.  A collapsed group's cached tops are what its
   * last layout left and are not bounded by it.
   */
  lemma {:induction false} FindTopWithin(t: Tree, line: int)
    requires Stacked(t) && AllExpanded(t)
    ensures FindTop(t, line) != -1 ==> t.top <= FindTop(t, line) <= t.bottom
    decreases t, 1
  {
    if !(line != 0 && t.lineNo == line) && FirstRow(t.rows, line) < 0 {
      FindTopFromWithin(t, 0, line);
    }
  }

  lemma {:induction false} FindTopFromWithin(t: Tree, k: nat, line: int)
    requires k <= |t.children| && Stacked(t) && AllExpanded(t)
    ensures FindTopFrom(t, k, line) != -1 ==> t.top <= FindTopFrom(t, k, line) <= t.bottom
    decreases t, 0, |t.children| - k
  {
    if k < |t.children| {
      var c := t.children[k];
      FindTopWithin(c, line);
      FindTopFromWithin(t, k + 1, line);
    }
  }

  /**
   * A subtree laid out with the update flag on, all of it expanded: a top findTopForRow
   * reports lies between the running top it was laid out from and the bottom it returned.
   */
  lemma LaidFindTopWithin(t: Tree, indent: int, p: Pass, st: Style, line: int)
    requires p.update && WellFormed(st) && AllExpanded(t)
    ensures var l := LayNode(t, indent, p, st);
            FindTop(l.tree, line) != -1 ==> p.top <= FindTop(l.tree, line) <= l.pass.top
  {
    var l := LayNode(t, indent, p, st);
    LayStacked(t, indent, p, st);
    LayShape(t, indent, p, st);
    SameShapeExpanded(l.tree, t);
    FindTopWithin(l.tree, line);
  }

  /** Trees of the same shape are expanded in the same places. */
  lemma {:induction false} SameShapeExpanded(a: Tree, b: Tree)
    requires SameShape(a, b) && AllExpanded(b)
    ensures AllExpanded(a)
    decreases a
  {
    forall i | 0 <= i < |a.children|
      ensures AllExpanded(a.children[i])
    {
      SameShapeExpanded(a.children[i], b.children[i]);
    }
  }
}
