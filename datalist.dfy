/**
 * The data list component (oDataList): its properties, the rebuild of the outline from
 * the Omnis list, the layout pass of doPaint, the scroll arithmetic, the hit test and
 * the mouse and keyboard events.  Drawing itself (text, icons, lines, highlighting),
 * redraw requests and events sent to Omnis are not modelled: an event is returned as a
 * value, and a redraw doPaint asks for is its result.
 */
module DataListComponent {
  import opened Geometry
  import opened DLTree
  import opened DLGrouping
  import opened DLNodes
  import opened DLLayout
  import opened DLConfig
  import opened DLScroll
  import opened DLColumns
  import opened DLSelection

  /** What the mouse is over (oDL_none, oDL_horzSplitter, oDL_treeIcon, oDL_node, oDL_row). */
  datatype Above = Nothing | Splitter | TreeIcon | NodeHit | RowHit

  /** sDLHitTest: what is under the mouse, the column of a splitter, the node and the line. */
  datatype HitTest = HitTest(above: Above, colNo: int, node: Node?, lineNo: int)

  /** The record clearHitTest leaves. */
  const NoHit: HitTest := HitTest(Nothing, 0, null, 0)

  /**
   * What drawing measures through the host: the font height, the height of column i's
   * text of a line at a width (the text comes from the column calculation, the column
   * prefix and the list, none of which is evaluated here), and the height of a label.
   */
  datatype Measure = Measure(fontHeight: nat, cellHeight: (int, int, int) -> int, textHeight: (string, int) -> nat)

  // ---------------------------------------------------------------------------
  // The parsing loops of setProperty, each on the text alone
  // ---------------------------------------------------------------------------

  /** $columncalcs: every separator ends a calculation, and the text after the last one is the last calculation. */
  method ParseColumnCalcs(s: string) returns (calcs: seq<string>)
    ensures calcs == ColumnCalcs(s)
  {
    var t := Normalized(s);
    var piece := "";
    calcs := [];
    var i := 0;
    while i < |t|
      invariant 0 <= i <= |t|
      invariant Cuts(t[..i]) == Cut(calcs, piece)
    {
      CutsStep(t[..i], t[i]);
      assert t[..i + 1] == t[..i] + [t[i]];
      if IsSeparator(t[i]) {
        calcs := calcs + [piece];
        piece := "";
      } else {
        piece := piece + [t[i]];
      }
      i := i + 1;
    }
    assert t[..i] == t;
    calcs := calcs + [piece];
  }

  /** $columnwidths: a comma pushes the width read so far, a digit is shifted in, anything else is skipped. */
  method ParseWidths(s: string) returns (widths: seq<int>)
    ensures widths == Widths(s)
  {
    var width := 0;
    widths := [];
    var i := 0;
    while i < |s|
      invariant 0 <= i <= |s|
      invariant WidthCuts(s[..i]) == WidthCut(widths, width)
    {
      WidthCutsStep(s[..i], s[i]);
      assert s[..i + 1] == s[..i] + [s[i]];
      var digit := s[i];
      if digit == ',' {
        widths := widths + [width];
        width := 0;
      } else if '0' <= digit <= '9' {
        width := 10 * width;
        width := width + (digit as int - '0' as int);
      }
      i := i + 1;
    }
    assert s[..i] == s;
    widths := widths + [width];
  }

  /** $columnaligns: the first column is left aligned and the first character skipped; each later letter adds a column. */
  method ParseAligns(s: string) returns (r: seq<Align>)
    ensures r == Aligns(s)
  {
    r := [Left];
    var i := 1;
    while i < |s|
      invariant 1 <= i && (|s| >= 1 ==> i <= |s|)
      invariant |s| > 1 ==> r == [Left] + Letters(s[1..i])
      invariant |s| <= 1 ==> r == [Left]
    {
      LettersStep(s, i);
      match AlignOf(s[i]) {
        case Some(a) => r := r + [a];
        case None =>
      }
      i := i + 1;
    }
    if |s| > 1 {
      assert s[1..i] == s[1..];
    }
  }

  /** $groupcalcs: one level per delimited calculation, without a parent; an empty last calculation adds none. */
  method ParseGroupCalcs(s: string) returns (gs: seq<Grouping>)
    ensures gs == GroupCalcs(s)
  {
    var t := Normalized(s);
    var piece := "";
    ghost var done: seq<string> := [];
    gs := [];
    var i := 0;
    while i < |t|
      invariant 0 <= i <= |t|
      invariant Cuts(t[..i]) == Cut(done, piece)
      invariant gs == Levels(done)
    {
      CutsStep(t[..i], t[i]);
      assert t[..i + 1] == t[..i] + [t[i]];
      if IsSeparator(t[i]) {
        assert Levels(done + [piece]) == Levels(done) + [Grouping(piece, None)];
        gs := gs + [Grouping(piece, None)];
        done := done + [piece];
        piece := "";
      } else {
        piece := piece + [t[i]];
      }
      i := i + 1;
    }
    assert t[..i] == t;
    ghost var kept := done;
    if |piece| > 0 {
      assert Levels(done + [piece]) == Levels(done) + [Grouping(piece, None)];
      gs := gs + [Grouping(piece, None)];
      kept := done + [piece];
    }
    assert GroupSegments(s) == kept by {
      GroupSegmentsOfCut(s);
    }
  }

  /**
   * $parentcalcs on the levels g0: every level loses its parent calculation; then the
   * g-th delimited calculation, when it is not empty and level g exists, becomes level
   * g's parent calculation.
   */
  method ParseParentCalcs(g0: seq<Grouping>, s: string) returns (gs: seq<Grouping>)
    ensures gs == WithParents(g0, s)
  {
    gs := g0;
    var t := Normalized(s);
    var group := 0;
    while group < |gs|
      invariant 0 <= group <= |gs| == |g0|
      invariant forall k :: 0 <= k < |g0| ==>
        gs[k] == Grouping(g0[k].groupCalc, if k < group then None else g0[k].parentCalc)
    {
      gs := gs[group := Grouping(gs[group].groupCalc, None)];
      group := group + 1;
    }
    assert gs == ParentsFrom(g0, []);
    var piece := "";
    ghost var done: seq<string> := [];
    group := 0;
    var i := 0;
    while i < |t|
      invariant 0 <= i <= |t|
      invariant Cuts(t[..i]) == Cut(done, piece) && group == |done|
      invariant gs == ParentsFrom(g0, done)
    {
      CutsStep(t[..i], t[i]);
      assert t[..i + 1] == t[..i] + [t[i]];
      if IsSeparator(t[i]) {
        ParentsFromStep(g0, done, piece);
        if |piece| > 0 && group < |gs| {
          gs := gs[group := Grouping(gs[group].groupCalc, Some(piece))];
        }
        done := done + [piece];
        group := group + 1;
        piece := "";
      } else {
        piece := piece + [t[i]];
      }
      i := i + 1;
    }
    assert t[..i] == t;
    ParentsFromStep(g0, done, piece);
    if |piece| > 0 && group < |gs| {
      gs := gs[group := Grouping(gs[group].groupCalc, Some(piece))];
    }
    assert Segments(t) == done + [piece];
  }

  /** The splitter scan of doHitTest: the running right edge of each column is compared with the mouse. */
  method FindSplitter(widths: seq<int>, columnCount: int, h: int) returns (col: int)
    ensures col == SplitterAt(widths, columnCount, h)
  {
    var left := 0;
    var i := 0;
    while i < columnCount
      invariant 0 <= i <= Max(0, columnCount)
      invariant left == Edge(widths, Scanned(widths, i))
      invariant forall j :: 0 <= j < Scanned(widths, i) ==> !OnDivider(widths, j, h)
    {
      if i < |widths| {
        left := left + widths[i];
        if left - 1 <= h && left + 1 >= h {
          assert Scanned(widths, i) == i && OnDivider(widths, i, h);
          SplitterAtMeaning(widths, columnCount, h);
          return i;
        }
      }
      i := i + 1;
    }
    SplitterAtMeaning(widths, columnCount, h);
    col := -1;
  }

  /**
   * The scroll to the current line at the end of doPaint, given the top the outline
   * reports for it: a moved top out of view is centred within the range; the top is
   * remembered.
   */
  method ScrollStep(current: int, found: int, lastTop: int, offset: int, height: int, maxScroll: int, page: int)
    returns (s: Scrolled)
    ensures s == AutoScroll(current, found, lastTop, offset, height, maxScroll, page)
  {
    s := Scrolled(offset, lastTop);
    if current != 0 {
      if found == -1 {
        s := s.(lastTop := 0);
      } else if lastTop == found {
      } else if found < offset || found + 32 > offset + height {
        var newOffset := found - Half(height);
        if newOffset > maxScroll - page {
          newOffset := maxScroll - page;
        }
        newOffset := if newOffset > 0 then newOffset else 0;
        s := Scrolled(newOffset, found);
      } else {
        s := s.(lastTop := found);
      }
    } else {
      s := s.(lastTop := 0);
    }
  }

  /**
   * The loop of doPaint over the lines of the list: each line is made current, and a
   * line the filter keeps walks the levels from the root.
   */
  method PlaceLines(root: Node, list: RowList, rowCount: nat, filter: string, cs: seq<Compiled>, e: Engine)
    requires root.Valid()
    modifies root.Repr, list`current
    ensures root.Valid() && fresh(root.Repr - old(root.Repr))
    ensures root.Model() == Build(old(root.Model()), rowCount, filter, cs, e)
    ensures list.current == if rowCount > 0 then rowCount else old(list.current)
    ensures |root.childNodes| >= |old(root.childNodes)| && root.childNodes[..|old(root.childNodes)|] == old(root.childNodes)
  {
    ghost var t0 := root.Model();
    ghost var c0 := list.current;
    var filtering := |filter| > 0 && e.compiles(filter);
    var placed: nat := 0;
    while placed < rowCount
      invariant placed <= rowCount
      invariant root.Valid() && fresh(root.Repr - old(root.Repr))
      invariant root.Model() == Build(t0, placed, filter, cs, e)
      invariant |root.childNodes| >= |old(root.childNodes)| && root.childNodes[..|old(root.childNodes)|] == old(root.childNodes)
      invariant list.current == if placed > 0 then placed else c0
    {
      PlaceLine(root, list, placed, filtering, filter, cs, e, t0);
      placed := placed + 1;
    }
  }

  /** One pass of that loop, for line placed + 1: the line is made current and, when the filter keeps it, placed. */
  method PlaceLine(root: Node, list: RowList, placed: nat, filtering: bool, filter: string, cs: seq<Compiled>, e: Engine, ghost t0: Tree)
    requires root.Valid() && root.Model() == Build(t0, placed, filter, cs, e)
    requires filtering == (|filter| > 0 && e.compiles(filter))
    modifies root.Repr, list`current
    ensures root.Valid() && fresh(root.Repr - old(root.Repr))
    ensures root.Model() == Build(t0, placed + 1, filter, cs, e)
    ensures list.current == placed + 1
    ensures |root.childNodes| >= |old(root.childNodes)| && root.childNodes[..|old(root.childNodes)|] == old(root.childNodes)
  {
    var line := placed + 1;
    list.SetCurrent(line);
    var showNode := true;
    if filtering && !e.holds(filter, line) {
      showNode := false;
    }
    if showNode {
      root.PlaceRow(line, LevelsFor(cs, e, line));
    }
  }

  /** A hit over a node that did not survive the pass, or over a line its node no longer holds. */
  predicate HitStale(h: HitTest)
    reads h.node
  {
    (h.above.NodeHit? || h.above.RowHit?) && h.node != null &&
    (!h.node.touched || (h.lineNo != 0 && !exists i :: 0 <= i < |h.node.rowNodes| && h.node.rowNodes[i].lineNo == h.lineNo))
  }

  /** A row entry of `line` whose stored extent holds the vertical position v. */
  predicate RowAt(rows: seq<Row>, line: int, v: int)
  {
    exists i :: 0 <= i < |rows| && rows[i].lineNo == line && rows[i].top <= v <= rows[i].bottom
  }

  /** No row entry with a line holds the vertical position v. */
  predicate NoRowAt(rows: seq<Row>, v: int)
  {
    forall i :: 0 <= i < |rows| && rows[i].top <= v <= rows[i].bottom ==> rows[i].lineNo == 0
  }

  /** The loop of checkColumns on the widths, justifications and calculations, column by column. */
  method CheckedColumns(w0: seq<int>, a0: seq<Align>, c0: seq<string>, count: nat, update0: bool)
    returns (ws: seq<int>, js: seq<Align>, cs: seq<string>, update: bool)
    ensures ws == CheckedWidths(w0, count)
    ensures js == Completed(a0, count, Left)
    ensures cs == Completed(c0, count, "")
    ensures update == (update0 || ColumnsNeedUpdate(w0, c0, count))
  {
    ws, js, cs, update := w0, a0, c0, update0;
    var i := 0;
    while i < count
      invariant 0 <= i <= count
      invariant ws == CheckedWidths(w0, i)
      invariant js == Completed(a0, i, Left)
      invariant cs == Completed(c0, i, "")
      invariant update == (update0 || ColumnsNeedUpdate(w0, c0, i))
    {
      CheckedWidthsStep(w0, i);
      CompletedStep(a0, i, Left);
      CompletedStep(c0, i, "");
      NeedUpdateStep(w0, c0, i);
      if i >= |ws| {
        update := true;
        ws := ws + [100];
      } else if ws[i] < 10 {
        update := true;
        ws := ws[i := 10];
      }
      if i >= |js| {
        js := js + [Left];
      }
      if i >= |cs| {
        update := true;
        cs := cs + [""];
      }
      i := i + 1;
    }
  }

  /**
   * The children `before` a rebuild that its pass touched (their flags read in the built
   * outline b, where they keep their places), in their order, are the first children
   * `after` it: the same objects, not copies.
   */
  ghost predicate SurvivorsFirst(before: seq<Node>, b: Tree, after: seq<Node>)
  {
    |before| <= |b.children| &&
    var kept := Keep(before, TouchedFlags(b.children)[..|before|]);
    |kept| <= |after| && after[..|kept|] == kept
  }

  /** Sweeping children that the pass only appended to keeps the touched ones of the first `before` in front, in order. */
  lemma SweptSurvivors(before: seq<Node>, grown: seq<Node>, b: Tree, after: seq<Node>)
    requires |before| <= |grown| == |b.children| && grown[..|before|] == before
    requires after == Keep(grown, TouchedFlags(b.children))
    ensures SurvivorsFirst(before, b, after)
  {
    var flags := TouchedFlags(b.children);
    assert grown == before + grown[|before|..];
    KeepAppend(before, grown[|before|..], flags);
  }

  /** A hit record names a node whenever it is over one, a column whenever it is over a splitter, and a line exactly when it is over a row. */
  predicate WellHit(h: HitTest)
  {
    (h.above.TreeIcon? || h.above.NodeHit? || h.above.RowHit? ==> h.node != null) &&
    (h.above.Splitter? ==> h.colNo >= 0) && (h.above.RowHit? <==> h.lineNo != 0)
  }

  class DataList {
    // Properties
    var columnCount: int
    var columnCalcs: seq<string>
    var widths: seq<int>
    var aligns: seq<Align>
    var maxRowHeight: int
    var columnPrefix: string
    const extend: array<bool>
    var groupings: seq<Grouping>
    var indent: int
    var lineSpacing: int
    var showSelected: bool
    var filter: string
    var deselectOnNodeClick: bool

    // State
    var rebuildNodes: bool
    var updatePositions: bool
    var offsetX: int
    var offsetY: int
    var lastCurrentLineTop: int
    var hit: HitTest
    var mouseLast: Point
    const root: Node
    /** The Omnis list named by $dataname together with the component's copy of it. */
    const list: RowList

    /**
     * The outline is well formed and every extent cached in it is non-negative, there are
     * 256 extend flags, at least one column, no negative width, line spacing or maximum row
     * height, and a hit record names a node whenever it is over one, a column whenever it
     * is over a splitter, and a line exactly when it is over a row.
     */
    ghost predicate Valid()
      reads this`columnCount, this`widths, this`hit, this`lineSpacing, this`maxRowHeight
      reads root`childNodes, root`Repr, root.Repr`childNodes, root.Repr`Repr
      reads root`top, root`bottom, root`rowNodes, root.Repr`top, root.Repr`bottom, root.Repr`rowNodes
    {
      root.Valid() && root.ExtentsOk() && lineSpacing >= 0 && maxRowHeight >= 0 &&
      extend.Length == ExtendSlots && columnCount >= 1 &&
      (forall i :: 0 <= i < |widths| ==> widths[i] >= 0) && WellHit(hit)
    }

    /** A change that leaves the outline and the fields the invariant reads alone keeps the component valid. */
    twostate lemma ValidKept()
      requires old(Valid()) && unchanged(old(root.Repr))
      requires unchanged(this`columnCount, this`widths, this`hit, this`lineSpacing, this`maxRowHeight)
      ensures Valid()
    {
    }

    /** The same with a new hit record that is well formed. */
    twostate lemma ValidWithHit()
      requires old(Valid()) && unchanged(old(root.Repr)) && WellHit(hit)
      requires unchanged(this`columnCount, this`widths, this`lineSpacing, this`maxRowHeight)
      ensures Valid()
    {
    }

    /**
     * oDataList(void).  The maximum row height and the extend flags are not set there, so
     * they are parameters, the row height taken to be a height; the client area and the
     * list belong to the host.  The scroll offsets, the hit record and the last mouse
     * position start at zero and no hit, which is this model's choice: the constructor
     * leaves them to be set by the first paint and the first mouse event.
     */
    constructor (maxRowHeight0: int, extend0: seq<bool>, list: RowList)
      requires |extend0| == ExtendSlots && maxRowHeight0 >= 0
      ensures Valid() && fresh(root) && fresh(extend) && this.list == list
      ensures root.Model() == Fresh("", "", 0) && extend[..] == extend0
      ensures filter == "" && columnCount == 1 && !showSelected && rebuildNodes && updatePositions
      ensures !deselectOnNodeClick && indent == 20 && lineSpacing == 4 && lastCurrentLineTop == 0
      ensures maxRowHeight == maxRowHeight0 && columnCalcs == [] && widths == [] && aligns == []
      ensures groupings == [] && columnPrefix == "" && offsetX == 0 && offsetY == 0 && hit == NoHit
    {
      filter, columnCount, showSelected, rebuildNodes, updatePositions := "", 1, false, true, true;
      deselectOnNodeClick, indent, lineSpacing, lastCurrentLineTop := false, 20, 4, 0;
      maxRowHeight, columnCalcs, widths, aligns, groupings, columnPrefix := maxRowHeight0, [], [], [], [], "";
      offsetX, offsetY, hit, mouseLast := 0, 0, NoHit, Point(0, 0);
      root := new Node.Root();
      extend := new bool[ExtendSlots](i requires 0 <= i < ExtendSlots => extend0[i]);
      this.list := list;
    }

    // -------------------------------------------------------------------------
    // setProperty
    // -------------------------------------------------------------------------

    method SetColumnCount(n: int)
      requires Valid()
      modifies this`columnCount, this`updatePositions
      ensures Valid() && columnCount == Max(1, n) && updatePositions
    {
      columnCount := n;
      if columnCount < 1 {
        columnCount := 1;
      }
      updatePositions := true;
    }

    /** The text's line ends are normalised and every delimiter ends a calculation. */
    method SetColumnCalcs(s: string)
      requires Valid()
      modifies this`columnCalcs, this`updatePositions
      ensures Valid() && columnCalcs == ColumnCalcs(s) && updatePositions
    {
      columnCalcs := ParseColumnCalcs(s);
      updatePositions := true;
    }

    /** A comma pushes the width read so far, a digit is shifted in, anything else is skipped. */
    method SetColumnWidths(s: string)
      requires Valid()
      modifies this`widths, this`updatePositions
      ensures Valid() && widths == Widths(s) && updatePositions
    {
      widths := ParseWidths(s);
      updatePositions := true;
    }

    /** The first column is always left aligned; from the second character on each letter adds a column. */
    method SetColumnAligns(s: string)
      requires Valid()
      modifies this`aligns
      ensures Valid() && aligns == Aligns(s)
    {
      aligns := ParseAligns(s);
    }

    method SetMaxRowHeight(n: int)
      requires Valid()
      modifies this`maxRowHeight, this`updatePositions
      ensures Valid() && maxRowHeight == Clamp(n, 14, 200) && updatePositions
    {
      maxRowHeight := n;
      if maxRowHeight < 14 {
        maxRowHeight := 14;
      } else if maxRowHeight > 200 {
        maxRowHeight := 200;
      }
      updatePositions := true;
    }

    method SetColumnPrefix(s: string)
      requires Valid()
      modifies this`columnPrefix, this`updatePositions
      ensures Valid() && columnPrefix == s && updatePositions
    {
      columnPrefix := s;
      updatePositions := true;
    }

    /** Flag i is set by 't' or 'T' at position i, and set by default past the end of the text. */
    method SetVerticalExtend(s: string)
      requires Valid()
      modifies extend, this`updatePositions
      ensures Valid() && extend[..] == ExtendFlags(s) && updatePositions
    {
      var i := 0;
      while i < ExtendSlots
        invariant 0 <= i <= ExtendSlots
        invariant forall j :: 0 <= j < i ==> extend[j] == ExtendFlags(s)[j]
      {
        if i >= |s| {
          extend[i] := true;
        } else if s[i] == 't' || s[i] == 'T' {
          extend[i] := true;
        } else {
          extend[i] := false;
        }
        i := i + 1;
      }
      updatePositions := true;
    }

    /** One grouping level per delimited calculation; an empty last one is dropped; no parents. */
    method SetGroupCalcs(s: string)
      requires Valid()
      modifies this`groupings, this`rebuildNodes
      ensures Valid() && groupings == GroupCalcs(s) && rebuildNodes
    {
      groupings := ParseGroupCalcs(s);
      rebuildNodes := true;
    }

    method SetTreeIndent(n: int)
      requires Valid()
      modifies this`indent
      ensures Valid() && indent == Clamp(n, 16, 100)
    {
      indent := n;
      if indent < 16 {
        indent := 16;
      } else if indent > 100 {
        indent := 100;
      }
    }

    method SetLineSpacing(n: int)
      requires Valid()
      modifies this`lineSpacing
      ensures Valid() && lineSpacing == Clamp(n, 1, 100)
    {
      lineSpacing := n;
      if lineSpacing < 1 {
        lineSpacing := 1;
      } else if lineSpacing > 100 {
        lineSpacing := 100;
      }
    }

    /** Omnis booleans: 2 is true, anything else is false. */
    method SetShowSelected(b: int)
      requires Valid()
      modifies this`showSelected
      ensures Valid() && (showSelected <==> b == 2)
    {
      showSelected := b == 2;
    }

    method SetFilter(s: string)
      requires Valid()
      modifies this`filter, this`rebuildNodes
      ensures Valid() && filter == s && rebuildNodes
    {
      filter := s;
      rebuildNodes := true;
    }

    method SetDeselectOnNodeClick(b: int)
      requires Valid()
      modifies this`deselectOnNodeClick
      ensures Valid() && (deselectOnNodeClick <==> b == 2)
    {
      deselectOnNodeClick := b == 2;
    }

    /**
     * Every level loses its parent calculation; then the g-th delimited calculation,
     * when it is not empty and level g exists, becomes level g's parent calculation.
     */
    method SetParentCalcs(s: string)
      requires Valid()
      modifies this`groupings, this`rebuildNodes
      ensures Valid() && groupings == WithParents(old(groupings), s) && rebuildNodes
    {
      groupings := ParseParentCalcs(groupings, s);
      rebuildNodes := true;
    }

    // -------------------------------------------------------------------------
    // getProperty
    // -------------------------------------------------------------------------

    /** The first columnCount calculations joined by the delimiter, a missing one written as empty. */
    method GetColumnCalcs() returns (r: string)
      requires Valid()
      ensures r == ColumnCalcsText(columnCalcs, columnCount)
    {
      ghost var xs := Padded(columnCalcs, columnCount, "");
      r := "";
      var i := 0;
      while i < columnCount
        invariant 0 <= i <= columnCount
        invariant r == Joined(xs[..i], Delimiter)
      {
        JoinedPrefixStep(xs, i, Delimiter);
        if i != 0 {
          r := r + [Delimiter];
        }
        if i < |columnCalcs| {
          r := r + columnCalcs[i];
        }
        i := i + 1;
      }
      assert xs[..i] == xs;
    }

    /** The first columnCount widths in decimal joined by commas, a missing one written as 100. */
    method GetColumnWidths() returns (r: string)
      requires Valid()
      ensures r == WidthsText(widths, columnCount)
    {
      ghost var xs := WidthEntries(widths, columnCount);
      r := "";
      var i := 0;
      while i < columnCount
        invariant 0 <= i <= columnCount
        invariant r == Joined(xs[..i], ',')
      {
        JoinedPrefixStep(xs, i, ',');
        if i != 0 {
          r := r + ",";
        }
        if i < |widths| {
          r := r + IntText(widths[i]);
        } else {
          r := r + "100";
        }
        i := i + 1;
      }
      assert xs[..i] == xs;
    }

    /** One letter per column; a column without a justification is written as left (the corrected guard). */
    method GetColumnAligns() returns (r: string)
      requires Valid()
      ensures r == AlignsText(aligns, columnCount)
    {
      r := "";
      var i := 0;
      while i < columnCount
        invariant 0 <= i <= columnCount
        invariant r == AlignsText(aligns, columnCount)[..i]
      {
        if i < |aligns| {
          r := r + [AlignLetter(aligns[i])];
        } else {
          r := r + "L";
        }
        i := i + 1;
      }
    }

    /** One letter per column, T or F; a column past the 256 flags is written as F (the corrected getter). */
    method GetVerticalExtend() returns (r: string)
      requires Valid()
      ensures r == ExtendText(extend[..], columnCount)
    {
      r := "";
      var i := 0;
      while i < columnCount
        invariant 0 <= i <= columnCount
        invariant r == ExtendText(extend[..], columnCount)[..i]
      {
        if i < ExtendSlots && extend[i] {
          r := r + "T";
        } else {
          r := r + "F";
        }
        i := i + 1;
      }
    }

    method GetGroupCalcs() returns (r: string)
      requires Valid()
      ensures r == GroupCalcsText(groupings)
    {
      ghost var xs := GroupTexts(groupings);
      r := "";
      var i := 0;
      while i < |groupings|
        invariant 0 <= i <= |groupings|
        invariant r == Joined(xs[..i], Delimiter)
      {
        JoinedPrefixStep(xs, i, Delimiter);
        if i != 0 {
          r := r + [Delimiter];
        }
        r := r + groupings[i].groupCalc;
        i := i + 1;
      }
      assert xs[..i] == xs;
    }

    method GetParentCalcs() returns (r: string)
      requires Valid()
      ensures r == ParentCalcsText(groupings)
    {
      ghost var xs := ParentTexts(groupings);
      r := "";
      var i := 0;
      while i < |groupings|
        invariant 0 <= i <= |groupings|
        invariant r == Joined(xs[..i], Delimiter)
      {
        JoinedPrefixStep(xs, i, Delimiter);
        if i != 0 {
          r := r + [Delimiter];
        }
        if groupings[i].parentCalc.Some? {
          r := r + groupings[i].parentCalc.value;
        }
        i := i + 1;
      }
      assert xs[..i] == xs;
    }

    // -------------------------------------------------------------------------
    // checkColumns and drawDividers
    // -------------------------------------------------------------------------

    /**
     * checkColumns: every column gets a width of at least 10 (100 when it had none), a
     * justification and a calculation; a new width, a raised width or a new calculation
     * asks for new positions.
     */
    method CheckColumns()
      requires Valid()
      modifies this`widths, this`aligns, this`columnCalcs, this`updatePositions
      ensures Valid()
      ensures widths == CheckedWidths(old(widths), columnCount)
      ensures aligns == Completed(old(aligns), columnCount, Left)
      ensures columnCalcs == Completed(old(columnCalcs), columnCount, "")
      ensures updatePositions == (old(updatePositions) || ColumnsNeedUpdate(old(widths), old(columnCalcs), columnCount))
      ensures columnCount <= |widths|
    {
      var ws, js, cs, update := CheckedColumns(widths, aligns, columnCalcs, columnCount, updatePositions);
      CheckedWidthsMeaning(widths, columnCount);
      widths, aligns, columnCalcs, updatePositions := ws, js, cs, update;
    }

    /** drawDividers: the right edge of the last column, where the horizontal scroll range ends. */
    method DrawDividers() returns (left: int)
      requires 0 <= columnCount <= |widths|
      ensures left == Edge(widths, columnCount)
    {
      left := 0;
      var i := 0;
      while i < columnCount
        invariant 0 <= i <= columnCount
        invariant left == Edge(widths, i)
      {
        left := left + widths[i];
        i := i + 1;
      }
    }

    // -------------------------------------------------------------------------
    // drawNode and drawRow: the layout pass
    // -------------------------------------------------------------------------

    /**
     * The settings the layout pass reads, taken once for a paint: drawing changes none of
     * them, so the drawing methods are handed this value instead of reading the fields.
     */
    function Layout(m: Measure, client: Rect): (st: Style)
      reads this`indent, this`lineSpacing, this`maxRowHeight, this`offsetY, this`widths, this`columnCount, extend
      requires 0 <= columnCount <= |widths|
      ensures |st.widths| == columnCount && st.extend == extend[..]
      ensures st.indent == indent && st.lineSpacing == lineSpacing && st.maxRowHeight == maxRowHeight
      ensures st.offsetY == offsetY && st.clientTop == client.top && st.clientBottom == client.bottom
      ensures forall i :: 0 <= i < columnCount ==> st.widths[i] == widths[i]
      ensures lineSpacing >= 0 && maxRowHeight >= 0 ==> WellFormed(st)
    {
      Style(indent, lineSpacing, maxRowHeight, offsetY, client.top, client.bottom, m.fontHeight,
            widths[..columnCount], extend[..], m.cellHeight, m.textHeight)
    }

    /**
     * drawRow: the line is as tall as the font, raised to the height of every column that
     * may extend it, capped at the maximum row height; the bottom of the line is returned.
     */
    method DrawRow(line: int, rowIndent: int, top: int, st: Style) returns (bottom: int)
      requires |st.extend| == ExtendSlots
      ensures bottom == top + RowHeight(st, line, rowIndent)
    {
      var lineHeight := st.fontHeight;
      var i := 0;
      while i < |st.widths|
        invariant 0 <= i <= |st.widths|
        invariant lineHeight == TallestUpTo(st, line, rowIndent, i)
      {
        var width := st.widths[i] - 4 - (if i == 0 then rowIndent else 0);
        var columnHeight := st.cellHeight(line, i, if width > 10 then width else 10);
        if columnHeight > lineHeight && (if i < 256 then st.extend[i] else false) {
          lineHeight := columnHeight;
        }
        i := i + 1;
      }
      if lineHeight > st.maxRowHeight {
        lineHeight := st.maxRowHeight;
      }
      bottom := top + lineHeight;
    }

    /**
     * drawNode: the node as the layout pass leaves it, the bottom it reaches and the update
     * flag it hands on are those of LayNode for the node's value, the running top and the
     * flag on entry.
     */
    method DrawNode(node: Node, nodeIndent: int, top: int, st: Style) returns (bottom: int)
      requires |st.extend| == ExtendSlots && node.Valid()
      modifies node.Repr, this`updatePositions
      ensures node.Valid() && node.Repr == old(node.Repr) && node.childNodes == old(node.childNodes)
      ensures var l := LayNode(old(node.Model()), nodeIndent, Pass(top, old(updatePositions)), st);
              node.Model() == l.tree && bottom == l.pass.top && updatePositions == l.pass.update
      decreases node.Repr, 5
    {
      ghost var t := node.Model();
      if node.top != top && !updatePositions {
        updatePositions := true;
      } else if !updatePositions && (node.top - st.offsetY > st.clientBottom || node.bottom - st.offsetY < st.clientTop) {
        LayNodeSkipped(t, nodeIndent, Pass(top, updatePositions), st);
        return node.bottom;
      }
      node.SetTop(top);
      bottom := DrawPlaced(node, nodeIndent, top, st, t, old(updatePositions));
    }

    /** drawNode once the node is to be laid out: its top is stored, then its header and, when expanded, what is below. */
    method DrawPlaced(node: Node, nodeIndent: int, top: int, st: Style, ghost t: Tree, ghost update0: bool)
      returns (bottom: int)
      requires |st.extend| == ExtendSlots && node.Valid() && node.Model() == t.(top := top)
      requires updatePositions == (update0 || t.top != top)
      requires updatePositions || !Offscreen(st, t.top, t.bottom)
      modifies node.Repr, this`updatePositions
      ensures node.Valid() && node.Repr == old(node.Repr) && node.childNodes == old(node.childNodes)
      ensures var l := LayNode(t, nodeIndent, Pass(top, update0), st);
              node.Model() == l.tree && bottom == l.pass.top && updatePositions == l.pass.update
      decreases node.Repr, 4
    {
      var inner, height := DrawHeader(node, nodeIndent, top, st, t);
      bottom := DrawBelow(node, nodeIndent, top, inner, height, st, t, update0);
    }

    /** The rest of drawNode after the header: the children and rows of an expanded node, then the node's bottom. */
    method DrawBelow(node: Node, nodeIndent: int, top: int, inner: int, height: int, st: Style, ghost t: Tree, ghost update0: bool)
      returns (bottom: int)
      requires |st.extend| == ExtendSlots && node.Valid()
      requires var h := Head(t, nodeIndent, top, st);
               node.Model() == h.tree && inner == h.indent && height == h.height
      requires updatePositions == (update0 || t.top != top)
      requires updatePositions || !Offscreen(st, t.top, t.bottom)
      modifies node.Repr, this`updatePositions
      ensures node.Valid() && node.Repr == old(node.Repr) && node.childNodes == old(node.childNodes)
      ensures Laid(node.Model(), Pass(bottom, updatePositions)) == LayNode(t, nodeIndent, Pass(top, update0), st)
      decreases node.Repr, 3
    {
      ghost var h := Head(t, nodeIndent, top, st);
      if node.expanded {
        ghost var k := LayKids(t, |t.children|, inner, Pass(top + height, updatePositions), st);
        ghost var r := LayRows(t.rows, |t.rows|, inner, k.pass, st);
        LayNodeOpen(t, nodeIndent, Pass(top, update0), st, updatePositions, h, k, r);
        bottom := DrawOpen(node, inner, top + height, st, t);
      } else {
        LayNodeClosed(t, nodeIndent, Pass(top, update0), st, updatePositions, h);
        bottom := top + height;
        node.SetBottom(bottom);
      }
    }

    /** What an expanded node draws below its header: its children, then its rows; the bottom reached is stored. */
    method DrawOpen(node: Node, inner: int, top: int, st: Style, ghost t: Tree) returns (bottom: int)
      requires |st.extend| == ExtendSlots && node.Valid() && node.Model().children == t.children && node.Model().rows == t.rows
      modifies node.Repr, this`updatePositions
      ensures node.Valid() && node.Repr == old(node.Repr) && node.childNodes == old(node.childNodes)
      ensures var k := LayKids(t, |t.children|, inner, Pass(top, old(updatePositions)), st);
              var r := LayRows(t.rows, |t.rows|, inner, k.pass, st);
              node.Model() == old(node.Model()).(children := k.trees, rows := r.rows, bottom := r.pass.top) &&
              bottom == r.pass.top && updatePositions == r.pass.update
      decreases node.Repr, 2
    {
      var y := DrawChildren(node, inner, top, st, t);
      bottom := DrawRows(node, inner, y, st);
      node.SetBottom(bottom);
    }

    /**
     * The header part of drawNode: the root has none; any other node is a line of its own
     * (drawn two pixels down) or a label, then the line spacing; a node with children or
     * rows gets its tree icon placed and indents what is below it.  The indent and the label
     * width are HeaderIndent and HeaderWidth, the corrected reading of the two conditional
     * expressions (HeaderIndentAsWritten and HeaderWidthAsWritten model them as written).
     */
    method DrawHeader(node: Node, nodeIndent: int, top: int, st: Style, ghost t: Tree) returns (inner: int, height: int)
      requires |st.extend| == ExtendSlots && node.Valid() && node.Model() == t.(top := top)
      modifies node`treeIcon
      ensures node.Valid()
      ensures var h := Head(t, nodeIndent, top, st);
              node.Model() == h.tree && inner == h.indent && height == h.height
    {
      inner, height := nodeIndent, 0;
      if nodeIndent == -1 {
        inner := 0;
      } else {
        var needIcon := node.ChildNodeCount() > 0 || node.RowCount() > 0;
        var lineIndent := nodeIndent + (if needIcon then st.indent else 0);
        if node.lineNo != 0 {
          height := DrawRow(node.lineNo, lineIndent, top + 2, st);
          height := height - top;
        } else {
          var width := 10000 - lineIndent - 4;
          height := 2 + st.textHeight(node.description, if width > 10 then width else 10);
          if height > st.maxRowHeight {
            height := st.maxRowHeight;
          }
        }
        if needIcon {
          node.SetTreeIcon(Rect(nodeIndent + 1, top, nodeIndent + 1 + st.indent, top + st.indent));
          inner := inner + st.indent;
        }
        height := height + st.lineSpacing;
      }
    }

    /**
     * The state of the child loop of drawNode before child i: the first i children are
     * laid out as LayKids lays them out from p0, the others are as they were, and the pass
     * has reached the top y with the update flag `update`.
     */
    ghost predicate ChildrenLaid(node: Node, i: nat, inner: int, st: Style, t: Tree, p0: Pass, m0: Tree, y: int, update: bool)
      reads node, node.Repr
    {
      node.Valid() && i <= |node.childNodes| == |t.children| &&
      node.Model() == m0.(children := LayKids(t, i, inner, p0, st).trees + t.children[i..]) &&
      Pass(y, update) == LayKids(t, i, inner, p0, st).pass
    }

    /** The child loop of drawNode: each child in turn is laid out from the bottom the previous one reached. */
    method DrawChildren(node: Node, inner: int, top: int, st: Style, ghost t: Tree) returns (y: int)
      requires |st.extend| == ExtendSlots && node.Valid() && node.Model().children == t.children
      modifies node.Repr - {node}, this`updatePositions
      ensures node.Valid() && node.Repr == old(node.Repr) && node.childNodes == old(node.childNodes)
      ensures var k := LayKids(t, |t.children|, inner, Pass(top, old(updatePositions)), st);
              node.Model() == old(node.Model()).(children := k.trees) && y == k.pass.top && updatePositions == k.pass.update
      decreases node.Repr, 1
    {
      ghost var m0 := node.Model();
      ghost var p0 := Pass(top, updatePositions);
      y := top;
      var i := 0;
      while i < |node.childNodes|
        invariant ChildrenLaid(node, i, inner, st, t, p0, m0, y, updatePositions)
        invariant node.Repr == old(node.Repr) && node.childNodes == old(node.childNodes)
      {
        y := DrawChildAt(node, i, inner, y, st, t, p0, m0);
        i := i + 1;
      }
      assert LayKids(t, i, inner, p0, st).trees + t.children[i..] == LayKids(t, i, inner, p0, st).trees;
    }

    /** One turn of the child loop: getChildByIndex, then drawNode on that child, which takes the pass one child further. */
    method DrawChildAt(node: Node, i: nat, inner: int, top: int, st: Style, ghost t: Tree, ghost p0: Pass, ghost m0: Tree)
      returns (y: int)
      requires |st.extend| == ExtendSlots && i < |node.childNodes|
      requires ChildrenLaid(node, i, inner, st, t, p0, m0, top, updatePositions)
      modifies node.childNodes[i].Repr, this`updatePositions
      ensures ChildrenLaid(node, i + 1, inner, st, t, p0, m0, y, updatePositions)
      ensures node.Repr == old(node.Repr) && node.childNodes == old(node.childNodes)
      decreases node.childNodes[i].Repr, 6
    {
      LayKidsNext(t, i, inner, p0, st, node.Model().children);
      var child := node.childNodes[i];
      y := DrawNode(child, inner, top, st);
      node.ChildrenAfterUpdate(i);
    }

    /**
     * The row loop of drawNode: a row being positioned or on screen is drawn at the
     * running top and stored with its new extent; any other keeps its extent and the
     * pass goes on from its bottom; each row adds the line spacing.
     */
    method DrawRows(node: Node, inner: int, top: int, st: Style) returns (y: int)
      requires |st.extend| == ExtendSlots && node.Valid()
      modifies node`rowNodes, this`updatePositions
      ensures node.Valid()
      ensures var r := LayRows(old(node.rowNodes), |old(node.rowNodes)|, inner, Pass(top, old(updatePositions)), st);
              node.Model() == old(node.Model()).(rows := r.rows) && y == r.pass.top && updatePositions == r.pass.update
    {
      ghost var rs := node.rowNodes;
      ghost var p0 := Pass(top, updatePositions);
      y := top;
      var i := 0;
      while i < node.RowCount()
        invariant 0 <= i <= |node.rowNodes| == |rs| && node.Valid()
        invariant var r := LayRows(rs, i, inner, p0, st);
                  node.rowNodes == r.rows + rs[i..] && y == r.pass.top && updatePositions == r.pass.update
      {
        LayRowsNext(rs, i, inner, p0, st, node.rowNodes);
        y := DrawRowAt(node, i, inner, y, st);
        i := i + 1;
      }
      assert rs[i..] == [];
      node.RowsChanged();
    }

    /** One turn of the row loop: getRowAtIndex, then the row is drawn and stored or skipped. */
    method DrawRowAt(node: Node, i: nat, inner: int, top: int, st: Style) returns (y: int)
      requires |st.extend| == ExtendSlots && node.Valid() && i < |node.rowNodes|
      modifies node`rowNodes, this`updatePositions
      ensures node.Valid()
      ensures var l := LayRow(old(node.rowNodes[i]), inner, Pass(top, old(updatePositions)), st);
              node.rowNodes == old(node.rowNodes)[i := l.row] && y == l.pass.top && updatePositions == l.pass.update
    {
      ghost var l := LayRow(node.rowNodes[i], inner, Pass(top, updatePositions), st);
      var row := node.GetRowAtIndex(i);
      if row.top != top && !updatePositions {
        updatePositions := true;
      }
      if updatePositions || (row.top - st.offsetY < st.clientBottom && row.bottom - st.offsetY > st.clientTop) {
        var b := DrawRow(row.lineNo, inner, top, st);
        assert l.row == Row(row.lineNo, top, b) && l.pass == Pass(b + st.lineSpacing, updatePositions);
        node.SetRowAtIndex(i, Row(row.lineNo, top, b));
        y := b;
      } else {
        assert l.row == row && l.pass == Pass(row.bottom + st.lineSpacing, updatePositions);
        y := row.bottom;
        assert node.rowNodes == node.rowNodes[i := row];
      }
      y := y + st.lineSpacing;
    }

    // -------------------------------------------------------------------------
    // doPaint: the rebuild of the outline
    // -------------------------------------------------------------------------

    /** The grouping loop before the pass: a level takes part when its group calculation compiles. */
    method CompileLevels(e: Engine) returns (cs: seq<Compiled>)
      ensures cs == Active(groupings, e)
    {
      cs := [];
      var group := 0;
      while group < |groupings|
        invariant 0 <= group <= |groupings|
        invariant cs == Active(groupings[..group], e)
      {
        var grouping := groupings[group];
        assert groupings[..group + 1][..group] == groupings[..group];
        if e.compiles(grouping.groupCalc) {
          var parent := None;
          if grouping.parentCalc.Some? && e.compiles(grouping.parentCalc.value) {
            parent := grouping.parentCalc;
          }
          cs := cs + [Compiled(grouping.groupCalc, parent)];
        }
        group := group + 1;
      }
      assert groupings[..group] == groupings;
    }

    /** The check after the pass: a hit over a node that stayed untouched, or over a line it no longer holds, is cleared. */
    method CheckHit()
      requires Valid()
      modifies this`hit
      ensures Valid() && hit == if old(HitStale(hit)) then NoHit else old(hit)
    {
      if hit.above.NodeHit? || hit.above.RowHit? {
        var childnode := hit.node;
        if !childnode.touched {
          hit := NoHit;
        } else if hit.lineNo != 0 {
          var has := childnode.HasRow(hit.lineNo);
          if !has {
            hit := NoHit;
          }
        }
      }
    }

    /**
     * The rebuild with lines in the list: the levels are compiled, every line is placed,
     * a stale hit is cleared and the untouched nodes are swept away.
     */
    method RebuildLines(rowCount: nat, e: Engine)
      requires Valid()
      modifies this`hit, root.Repr, list`current
      ensures Valid() && fresh(root.Repr - old(root.Repr))
      ensures root.Model() == Prune(Build(old(root.Model()), rowCount, filter, Active(groupings, e), e))
      ensures SurvivorsFirst(old(root.childNodes), Build(old(root.Model()), rowCount, filter, Active(groupings, e), e), root.childNodes)
      ensures hit == old(hit) || hit == NoHit
      ensures !(old(hit).above.NodeHit? || old(hit).above.RowHit?) ==> hit == old(hit)
      ensures rowCount > 0 ==> list.current == rowCount
      ensures rowCount == 0 ==> list.current == old(list.current)
    {
      var cs := CompileLevels(e);
      ghost var before := root.childNodes;
      PlaceAll(rowCount, cs, e);
      ghost var grown := root.childNodes;
      ghost var b := root.Model();
      Sweep();
      SweptSurvivors(before, grown, b, root.childNodes);
    }

    /** The placing pass of the rebuild, which keeps the component valid: new nodes start with a zero extent. */
    method PlaceAll(rowCount: nat, cs: seq<Compiled>, e: Engine)
      requires Valid()
      modifies root.Repr, list`current
      ensures Valid() && fresh(root.Repr - old(root.Repr))
      ensures root.Model() == Build(old(root.Model()), rowCount, filter, cs, e)
      ensures |root.childNodes| >= |old(root.childNodes)| && root.childNodes[..|old(root.childNodes)|] == old(root.childNodes)
      ensures rowCount > 0 ==> list.current == rowCount
      ensures rowCount == 0 ==> list.current == old(list.current)
    {
      root.ExtentsMatch();
      BuildExtents(root.Model(), rowCount, filter, cs, e);
      PlaceLines(root, list, rowCount, filter, cs, e);
      root.ExtentsMatch();
    }

    /** After the pass: a stale hit is cleared, then the nodes the pass did not touch are removed. */
    method Sweep()
      requires Valid()
      modifies this`hit, root.Repr
      ensures Valid() && root.Repr == old(root.Repr)
      ensures root.Model() == Prune(old(root.Model()))
      ensures root.childNodes == Keep(old(root.childNodes), TouchedFlags(old(root.Model()).children))
      ensures hit == if old(HitStale(hit)) then NoHit else old(hit)
    {
      CheckHit();
      root.ExtentsMatch();
      PruneExtents(root.Model());
      root.RemoveUntouched();
      root.ExtentsMatch();
    }

    /** The rebuild of an empty list: a node or row hit cannot survive, and the root loses every child. */
    method RebuildEmpty()
      requires Valid()
      modifies this`hit, root`childNodes, root`Repr
      ensures Valid() && root.Repr == {root}
      ensures root.Model() == old(root.Model()).(children := [])
      ensures hit == if old(hit).above.NodeHit? || old(hit).above.RowHit? then NoHit else old(hit)
    {
      if hit.above.NodeHit? || hit.above.RowHit? {
        hit := NoHit;
      }
      root.ClearChildNodes();
    }

    /**
     * The rebuild section of doPaint: positions are to be recomputed, the outline is
     * marked, then rebuilt from the lines of the list and swept, or emptied when the list
     * has no lines; a hit that may name a removed node is cleared.
     */
    method Rebuild(e: Engine)
      requires Valid()
      modifies this`updatePositions, this`rebuildNodes, this`hit, root.Repr, list`current
      ensures Valid() && updatePositions && !rebuildNodes && list.current == old(list.current)
      ensures fresh(root.Repr - old(root.Repr))
      ensures root.Model() == Rebuilt(old(root.Model()), |list.selected|, filter, Active(groupings, e), e)
      ensures |list.selected| == 0 ==> root.childNodes == []
      ensures |list.selected| > 0 ==>
                SurvivorsFirst(old(root.childNodes), Build(UnTouchBelow(old(root.Model())), |list.selected|, filter, Active(groupings, e), e), root.childNodes)
      ensures hit == old(hit) || hit == NoHit
      ensures !(old(hit).above.NodeHit? || old(hit).above.RowHit?) ==> hit == old(hit)
      ensures |list.selected| == 0 ==> hit == if old(hit).above.NodeHit? || old(hit).above.RowHit? then NoHit else old(hit)
    {
      updatePositions := true;
      ValidKept();
      ghost var t0 := root.Model();
      MarkAll();
      RebuildMarked(e, t0);
      label rebuilt:
      rebuildNodes := false;
      ValidKept@rebuilt();
    }

    /** The marking step of the rebuild: every node below the root is marked untouched and loses its row entries. */
    method MarkAll()
      requires Valid()
      modifies root.Repr
      ensures Valid() && root.Repr == old(root.Repr) && root.childNodes == old(root.childNodes)
      ensures root.Model() == UnTouchBelow(old(root.Model()))
    {
      root.ExtentsMatch();
      UnTouchBelowExtents(root.Model());
      root.UnTouchChildren();
      root.ExtentsMatch();
    }

    /**
     * The rebuild once the outline `t0` is marked: the lines are placed and swept, or the
     * outline emptied; the current line is kept.
     */
    method RebuildMarked(e: Engine, ghost t0: Tree)
      requires Valid() && root.Model() == UnTouchBelow(t0)
      modifies this`hit, root.Repr, list`current
      ensures Valid() && list.current == old(list.current)
      ensures fresh(root.Repr - old(root.Repr))
      ensures root.Model() == Rebuilt(t0, |list.selected|, filter, Active(groupings, e), e)
      ensures |list.selected| == 0 ==> root.childNodes == []
      ensures |list.selected| > 0 ==>
                SurvivorsFirst(old(root.childNodes), Build(UnTouchBelow(t0), |list.selected|, filter, Active(groupings, e), e), root.childNodes)
      ensures hit == old(hit) || hit == NoHit
      ensures !(old(hit).above.NodeHit? || old(hit).above.RowHit?) ==> hit == old(hit)
      ensures |list.selected| == 0 ==> hit == if old(hit).above.NodeHit? || old(hit).above.RowHit? then NoHit else old(hit)
    {
      var rowCount := list.RowCount();
      var currentRow := list.current;
      if rowCount != 0 {
        RebuildLines(rowCount, e);
        list.SetCurrent(currentRow);
      } else {
        RebuildEmpty();
      }
    }

    // -------------------------------------------------------------------------
    // doPaint: drawing and scrolling
    // -------------------------------------------------------------------------

    /** The vertical clamp after the layout: an offset past the range less one page is pulled back. */
    method ClampVertical(bottom: int, client: Rect) returns (redraw: bool)
      modifies this`offsetY
      ensures offsetY == ClampOffset(old(offsetY), MaxScroll(bottom), PageSize(Height(client)))
      ensures redraw <==> offsetY != old(offsetY)
    {
      redraw := false;
      var vertPageSize := Half(Height(client));
      var maxVertScroll := bottom + 32;
      vertPageSize := if vertPageSize > 1 then vertPageSize else 1;
      maxVertScroll := if maxVertScroll > 0 then maxVertScroll else 0;
      if offsetY > maxVertScroll - vertPageSize {
        var newOffsetY := maxVertScroll - vertPageSize;
        newOffsetY := if newOffsetY > 0 then newOffsetY else 0;
        if offsetY != newOffsetY {
          offsetY := newOffsetY;
          redraw := true;
        }
      }
    }

    /**
     * The scroll to the current line: a line whose top moved since the last paint and is
     * out of view is centred, within the scroll range; the top is remembered.
     */
    method ScrollToCurrent(bottom: int, client: Rect) returns (redraw: bool)
      requires root.Valid()
      modifies this`offsetY, this`lastCurrentLineTop
      ensures Scrolled(offsetY, lastCurrentLineTop) ==
              AutoScroll(list.current, FindTop(root.Model(), list.current), old(lastCurrentLineTop), old(offsetY),
                         client.bottom - client.top, MaxScroll(bottom), PageSize(Height(client)))
      ensures redraw <==> offsetY != old(offsetY)
    {
      var currentRow := list.current;
      var s := Scrolled(offsetY, 0);
      if currentRow != 0 {
        var currentLineTop := root.FindTopForRow(currentRow);
        s := ScrollStep(currentRow, currentLineTop, lastCurrentLineTop, offsetY, client.bottom - client.top,
                        MaxScroll(bottom), PageSize(Height(client)));
      }
      redraw := s.offset != offsetY;
      offsetY, lastCurrentLineTop := s.offset, s.lastTop;
    }

    /** The horizontal clamp at the end of doPaint: the range ends 32 pixels right of the last column. */
    method ScrollHorizontal(client: Rect) returns (redraw: bool)
      requires 0 <= columnCount <= |widths|
      modifies this`offsetX
      ensures offsetX == ClampOffset(old(offsetX), MaxScroll(Edge(widths, columnCount)), PageSize(Width(client)))
      ensures redraw <==> offsetX != old(offsetX)
    {
      redraw := false;
      var horzPageSize := Half(Width(client));
      var maxHorzScroll := DrawDividers();
      horzPageSize := if horzPageSize > 1 then horzPageSize else 1;
      maxHorzScroll := maxHorzScroll + 32;
      maxHorzScroll := if maxHorzScroll > 0 then maxHorzScroll else 0;
      if offsetX > maxHorzScroll - horzPageSize {
        var newOffsetX := maxHorzScroll - horzPageSize;
        newOffsetX := if newOffsetX > 0 then newOffsetX else 0;
        if offsetX != newOffsetX {
          offsetX := newOffsetX;
          redraw := true;
        }
      }
    }

    /**
     * The drawing part of doPaint: the layout pass from the root (which has no header) at
     * the top, the vertical clamp, and the scroll to the current line.  The positions are
     * then up to date.
     */
    method LayOutList(m: Measure, client: Rect) returns (redraw: bool)
      requires Valid() && columnCount <= |widths|
      modifies this`updatePositions, root.Repr, this`offsetY, this`lastCurrentLineTop
      ensures Valid() && !updatePositions && root.Repr == old(root.Repr)
      ensures var l := LayNode(old(root.Model()), -1, Pass(0, old(updatePositions)), old(Layout(m, client)));
              root.Model() == l.tree &&
              var clamped := ClampOffset(old(offsetY), MaxScroll(l.pass.top), PageSize(Height(client)));
              Scrolled(offsetY, lastCurrentLineTop) ==
                AutoScroll(list.current, FindTop(l.tree, list.current), old(lastCurrentLineTop), clamped,
                           client.bottom - client.top, MaxScroll(l.pass.top), PageSize(Height(client))) &&
              (redraw <==> clamped != old(offsetY) || offsetY != clamped)
    {
      ghost var l := LayNode(root.Model(), -1, Pass(0, updatePositions), Layout(m, client));
      var top := LayOutRoot(m, client);
      ghost var laid := root.Model();
      assert laid == l.tree && top == l.pass.top;
      redraw := ScrollAfterLayout(top, client);
      assert root.Model() == laid;
    }

    /** The layout pass itself, from the root at the top, which keeps the component valid. */
    method LayOutRoot(m: Measure, client: Rect) returns (bottom: int)
      requires Valid() && columnCount <= |widths|
      modifies this`updatePositions, root.Repr
      ensures Valid() && root.Repr == old(root.Repr)
      ensures var l := LayNode(old(root.Model()), -1, Pass(0, old(updatePositions)), Layout(m, client));
              root.Model() == l.tree && bottom == l.pass.top && updatePositions == l.pass.update
    {
      var st := Layout(m, client);
      root.ExtentsMatch();
      LayExtents(root.Model(), -1, Pass(0, updatePositions), st);
      bottom := DrawNode(root, -1, 0, st);
      root.ExtentsMatch();
    }

    /**
     * After the layout pass ends at `bottom`: the vertical clamp, the positions marked up
     * to date, and the scroll to the current line.
     */
    method ScrollAfterLayout(bottom: int, client: Rect) returns (redraw: bool)
      requires Valid()
      modifies this`updatePositions, this`offsetY, this`lastCurrentLineTop
      ensures Valid() && !updatePositions
      ensures var clamped := ClampOffset(old(offsetY), MaxScroll(bottom), PageSize(Height(client)));
              Scrolled(offsetY, lastCurrentLineTop) ==
                AutoScroll(list.current, FindTop(root.Model(), list.current), old(lastCurrentLineTop), clamped,
                           client.bottom - client.top, MaxScroll(bottom), PageSize(Height(client))) &&
              (redraw <==> clamped != old(offsetY) || offsetY != clamped)
    {
      var r1 := ClampVertical(bottom, client);
      updatePositions := false;
      var r2 := ScrollToCurrent(bottom, client);
      redraw := r1 || r2;
      ValidKept();
    }

    /** The list part of doPaint: a rebuild when one is due, then the layout and the scrolling. */
    method PaintList(e: Engine, m: Measure, client: Rect) returns (redraw: bool)
      requires Valid() && columnCount <= |widths|
      modifies this`updatePositions, this`rebuildNodes, this`hit, root.Repr, list`current, this`offsetY, this`lastCurrentLineTop
      ensures Valid() && !rebuildNodes && !updatePositions && list.current == old(list.current)
      ensures var t := if old(rebuildNodes) then Rebuilt(old(root.Model()), |list.selected|, filter, Active(groupings, e), e) else old(root.Model());
              var l := LayNode(t, -1, Pass(0, old(rebuildNodes) || old(updatePositions)), old(Layout(m, client)));
              root.Model() == l.tree &&
              var clamped := ClampOffset(old(offsetY), MaxScroll(l.pass.top), PageSize(Height(client)));
              Scrolled(offsetY, lastCurrentLineTop) ==
                AutoScroll(list.current, FindTop(l.tree, list.current), old(lastCurrentLineTop), clamped,
                           client.bottom - client.top, MaxScroll(l.pass.top), PageSize(Height(client))) &&
              (redraw <==> clamped != old(offsetY) || offsetY != clamped)
      ensures hit == old(hit) || hit == NoHit
      ensures !old(rebuildNodes) || !(old(hit).above.NodeHit? || old(hit).above.RowHit?) ==> hit == old(hit)
    {
      ghost var st := Layout(m, client);
      RebuildIfMarked(e);
      assert Layout(m, client) == st;
      redraw := LayOutList(m, client);
    }

    /** The rebuild section of doPaint runs only when mRebuildNodes is set; either way the flag ends cleared. */
    method RebuildIfMarked(e: Engine)
      requires Valid()
      modifies this`updatePositions, this`rebuildNodes, this`hit, root.Repr, list`current
      ensures Valid() && !rebuildNodes && list.current == old(list.current)
      ensures updatePositions == (old(rebuildNodes) || old(updatePositions))
      ensures fresh(root.Repr - old(root.Repr))
      ensures root.Model() == if old(rebuildNodes) then Rebuilt(old(root.Model()), |list.selected|, filter, Active(groupings, e), e)
                              else old(root.Model())
      ensures hit == old(hit) || hit == NoHit
      ensures !old(rebuildNodes) || !(old(hit).above.NodeHit? || old(hit).above.RowHit?) ==> hit == old(hit)
      ensures !old(rebuildNodes) ==> root.Repr == old(root.Repr) && unchanged(old(root.Repr))
    {
      if rebuildNodes {
        Rebuild(e);
      }
    }

    /**
     * doPaint: the columns are checked; outside design mode and with a list, the list is
     * rebuilt, laid out and scrolled; then the horizontal range is clamped.  The repaint
     * the source starts when an offset changed is returned instead.
     */
    method Paint(design: bool, hasList: bool, e: Engine, m: Measure, client: Rect) returns (redraw: bool)
      requires Valid()
      modifies this`widths, this`aligns, this`columnCalcs, this`updatePositions, this`rebuildNodes, this`hit
      modifies root.Repr, list`current, this`offsetX, this`offsetY, this`lastCurrentLineTop
      ensures Valid() && columnCount <= |widths| && forall i :: 0 <= i < columnCount ==> widths[i] >= 10
      ensures widths == CheckedWidths(old(widths), columnCount)
      ensures aligns == Completed(old(aligns), columnCount, Left)
      ensures columnCalcs == Completed(old(columnCalcs), columnCount, "")
      ensures !design && hasList ==> !rebuildNodes && !updatePositions
      ensures offsetX == ClampOffset(old(offsetX), MaxScroll(Edge(widths, columnCount)), PageSize(Width(client)))
      ensures list.current == old(list.current)
      ensures design || !hasList ==> unchanged(this`hit, this`lastCurrentLineTop, this`offsetY) && root.Repr == old(root.Repr) && unchanged(old(root.Repr)) && root.Model() == old(root.Model())
      ensures hit == old(hit) || hit == NoHit
      ensures design || !hasList || !old(rebuildNodes) || !(old(hit).above.NodeHit? || old(hit).above.RowHit?) ==> hit == old(hit)
    {
      CheckColumns();
      CheckedWidthsMeaning(old(widths), columnCount);
      redraw := PaintShown(design, hasList, e, m, client);
      var r := ScrollHorizontal(client);
      redraw := redraw || r;
    }

    /** The list is drawn outside design mode and when there is one; otherwise nothing below the columns changes. */
    method PaintShown(design: bool, hasList: bool, e: Engine, m: Measure, client: Rect) returns (redraw: bool)
      requires Valid() && columnCount <= |widths|
      modifies this`updatePositions, this`rebuildNodes, this`hit, root.Repr, list`current, this`offsetY, this`lastCurrentLineTop
      ensures Valid() && list.current == old(list.current)
      ensures !design && hasList ==> !rebuildNodes && !updatePositions
      ensures design || !hasList ==> !redraw && unchanged(this`updatePositions, this`rebuildNodes, this`offsetY) && root.Repr == old(root.Repr)
      ensures design || !hasList ==> unchanged(this`hit, this`lastCurrentLineTop) && unchanged(old(root.Repr)) && root.Model() == old(root.Model())
      ensures hit == old(hit) || hit == NoHit
      ensures design || !hasList || !old(rebuildNodes) || !(old(hit).above.NodeHit? || old(hit).above.RowHit?) ==> hit == old(hit)
    {
      redraw := false;
      if !design && hasList {
        redraw := PaintList(e, m, client);
      }
    }

    // -------------------------------------------------------------------------
    // The hit test and the mouse
    // -------------------------------------------------------------------------

    /**
     * What doHitTest promises for the point `at` of the client area, moved by the scroll
     * offsets: a splitter first, at the first scanned column whose divider is within a
     * pixel; otherwise the node found below the root, on its tree icon, on one of its row
     * entries or on its own line, or as a header; otherwise a row entry of the root;
     * otherwise nothing.
     */
    ghost predicate HitAt(h: HitTest, at: Point)
      reads this`widths, this`columnCount, this`offsetX, this`offsetY, root`childNodes, root`rowNodes, root`Repr
      reads root.Repr`top, root.Repr`bottom, root.Repr`treeIcon, root.Repr`rowNodes, root.Repr`lineNo, root.childNodes`top, root.childNodes`bottom
    {
      var p := Point(at.h + offsetX, at.v + offsetY);
      SplitterHitAt(h, p) && NodeHitAt(h, p) && RootHitAt(h, p)
    }

    /** The splitter part: a splitter exactly when a scanned divider is within a pixel, and then the first one. */
    ghost predicate SplitterHitAt(h: HitTest, p: Point)
      reads this`widths, this`columnCount
    {
      var s := SplitterAt(widths, columnCount, p.h);
      (h.above.Splitter? <==> s >= 0) && (s >= 0 ==> h == HitTest(Splitter, s, null, 0)) && (s < 0 ==> h.colNo == 0)
    }

    /** The part about a node found below the root: it holds the point, and the kind of hit follows what lies under it. */
    ghost predicate NodeHitAt(h: HitTest, p: Point)
      reads root`Repr, root.Repr`top, root.Repr`bottom, root.Repr`treeIcon, root.Repr`rowNodes, root.Repr`lineNo
    {
      (h.above.TreeIcon? || h.above.NodeHit? || h.above.RowHit? ==> h.node != null && h.node in root.Repr) &&
      (h.node != null && h.node in root.Repr && h.node != root ==>
         h.node.top <= p.v <= h.node.bottom &&
         (h.above.TreeIcon? <==> Contains(h.node.treeIcon, p)) &&
         (h.above.RowHit? ==> RowAt(h.node.rowNodes, h.lineNo, p.v) || (NoRowAt(h.node.rowNodes, p.v) && h.lineNo == h.node.lineNo)) &&
         (h.above.NodeHit? ==> NoRowAt(h.node.rowNodes, p.v) && h.node.lineNo == 0))
    }

    /** The part about the root: its own rows are tried only when no child holds the point. */
    ghost predicate RootHitAt(h: HitTest, p: Point)
      reads root`childNodes, root`rowNodes, root.childNodes`top, root.childNodes`bottom
    {
      (h.above.RowHit? && h.node == root ==> RowAt(root.rowNodes, h.lineNo, p.v)) &&
      (h.above.Nothing? || (h.above.RowHit? && h.node == root) ==>
         forall i :: 0 <= i < |root.childNodes| ==> !(root.childNodes[i].top <= p.v <= root.childNodes[i].bottom)) &&
      (h.above.Nothing? ==> h == NoHit && NoRowAt(root.rowNodes, p.v))
    }

    /** doHitTest */
    method DoHitTest(at: Point) returns (h: HitTest)
      requires Valid()
      ensures HitAt(h, at)
      ensures h.node != null ==> h.node.Valid() && h.node.Repr <= root.Repr
      ensures WellHit(h)
    {
      var p := Point(at.h + offsetX, at.v + offsetY);
      var col := FindSplitter(widths, columnCount, p.h);
      if col >= 0 {
        SplitterAtMeaning(widths, columnCount, p.h);
        return HitTest(Splitter, col, null, 0);
      }
      h := HitBelow(p);
    }

    /** The rest of doHitTest once no splitter is under the mouse: a node below the root, else a row of the root. */
    method HitBelow(p: Point) returns (h: HitTest)
      requires root.Valid()
      ensures NodeHitAt(h, p) && RootHitAt(h, p) && !h.above.Splitter? && h.colNo == 0
      ensures h.node != null ==> h.node.Valid() && h.node.Repr <= root.Repr
      ensures (h.above.TreeIcon? || h.above.NodeHit? || h.above.RowHit? ==> h.node != null) && (h.above.RowHit? <==> h.lineNo != 0)
    {
      var node := root.FindChildByPoint(p);
      if node != null {
        if node.AboveTreeIcon(p) {
          return HitTest(TreeIcon, 0, node, 0);
        }
        var line := node.FindRowAtPoint(p);
        if line == 0 {
          line := node.lineNo;
        }
        return HitTest(if line == 0 then NodeHit else RowHit, 0, node, line);
      }
      var line := root.FindRowAtPoint(p);
      if line != 0 {
        return HitTest(RowHit, 0, root, line);
      }
      return NoHit;
    }

    /** evMouseLDown: the hit test where the button went down, and the point for the resize deltas. */
    method MouseLDown(at: Point)
      requires Valid()
      modifies this`hit, this`mouseLast
      ensures Valid() && HitAt(hit, at) && mouseLast == at
    {
      hit := DoHitTest(at);
      mouseLast := at;
      ValidWithHit();
    }

    /** evMouseLUp */
    method MouseLUp()
      requires Valid()
      modifies this`hit
      ensures Valid() && hit == NoHit
    {
      hit := NoHit;
    }

    /**
     * evMouseMoved: while a splitter is held, a horizontal move resizes its column by the
     * distance moved, never below 10 pixels, and asks for new positions.
     */
    method MouseMoved(to: Point)
      requires Valid() && (hit.above.Splitter? ==> hit.colNo < |widths|)
      modifies this`widths, this`updatePositions, this`mouseLast
      ensures Valid()
      ensures !hit.above.Splitter? ==> unchanged(this`widths, this`updatePositions, this`mouseLast)
      ensures hit.above.Splitter? ==> mouseLast == to
      ensures hit.above.Splitter? && to.h != old(mouseLast).h ==>
                widths == old(widths)[hit.colNo := Max(10, old(widths)[hit.colNo] + to.h - old(mouseLast).h)] && updatePositions
      ensures hit.above.Splitter? && to.h == old(mouseLast).h ==> unchanged(this`widths, this`updatePositions)
    {
      if hit.above.Splitter? {
        var deltaX := to.h - mouseLast.h;
        if deltaX != 0 {
          var newWidth := widths[hit.colNo] + deltaX;
          if newWidth < 10 {
            newWidth := 10;
          }
          widths := widths[hit.colNo := newWidth];
          updatePositions := true;
        }
        mouseLast := to;
      }
    }

    /** Toggles a node between expanded and collapsed and asks for new positions. */
    method ToggleNode(n: Node)
      requires n.Valid()
      modifies n`expanded, this`updatePositions
      ensures n.Valid() && n.Model() == old(n.Model()).(expanded := !old(n.expanded)) && updatePositions
    {
      var isExpanded := n.expanded;
      n.SetExpanded(!isExpanded);
      updatePositions := true;
    }

    // -------------------------------------------------------------------------
    // Selection
    // -------------------------------------------------------------------------

    /** The loops that select or deselect every line of the list. */
    method SelectAll(b: bool)
      modifies list`selected
      ensures list.selected == AllSet(|old(list.selected)|, b)
    {
      var rowCnt := list.RowCount();
      var row := 1;
      while row <= rowCnt
        invariant 1 <= row <= rowCnt + 1 && |list.selected| == rowCnt
        invariant forall i :: 0 <= i < rowCnt ==> list.selected[i] == if i < row - 1 then b else old(list.selected)[i]
      {
        list.SelectRow(row, b);
        row := row + 1;
      }
    }

    /** The shift-click walk: from the current line towards the clicked one, every line reached takes the current line's flag. */
    method ExtendSelection(from: int, to: int)
      modifies list`selected
      ensures list.selected == Extended(old(list.selected), from, to, Selected(old(list.selected), from))
    {
      var isSelected := list.IsRowSelected(from);
      var currentRow := from;
      while currentRow != to
        invariant (from <= currentRow <= to) || (to <= currentRow <= from)
        invariant list.selected == Extended(old(list.selected), from, currentRow, isSelected)
        decreases if currentRow < to then to - currentRow else currentRow - to
      {
        var next := if currentRow > to then currentRow - 1 else currentRow + 1;
        ExtendedStep(old(list.selected), from, currentRow, isSelected, next);
        currentRow := next;
        list.SelectRow(currentRow, isSelected);
      }
    }

    /**
     * The selection part of evClick on a row: shift extends from the current line,
     * control toggles the line, a plain click selects it alone; the line becomes current.
     */
    method RowClick(line: int, shift: bool, control: bool)
      modifies list`selected, list`current
      ensures list.selected == RowClicked(old(list.selected), old(list.current), line, shift, control, showSelected)
      ensures list.current == line
    {
      var currentRow := list.current;
      if shift && currentRow != 0 && showSelected {
        ExtendSelection(currentRow, line);
      } else {
        if control && showSelected {
          var isSelected := list.IsRowSelected(line);
          list.SelectRow(line, !isSelected);
        } else {
          SelectAll(false);
          list.SelectRow(line, true);
          assert list.selected == Only(|old(list.selected)|, line);
        }
      }
      list.SetCurrent(line);
    }

    /** The selection part of evClick on a node: every line, or only the current one, is deselected, and no line is current. */
    method NodeClick()
      modifies list`selected, list`current
      ensures list.selected == NodeClicked(old(list.selected), old(list.current), showSelected) && list.current == 0
    {
      if showSelected {
        SelectAll(false);
      } else {
        var row := list.current;
        if row != 0 {
          list.SelectRow(row, false);
        }
      }
      list.SetCurrent(0);
    }

    /** What evClick does once the hit test has been redone. */
    method ClickOnHit(hasList: bool, shift: bool, control: bool) returns (clicked: Option<int>)
      requires Valid() && (hit.above.TreeIcon? ==> hit.node != null && hit.node in root.Repr && hit.node.Valid())
      modifies this`updatePositions, root.Repr`expanded, list`selected, list`current
      ensures Valid()
      ensures hit.above.TreeIcon? ==> updatePositions && var n := hit.node; n.expanded == !old(n.expanded)
      ensures !hit.above.TreeIcon? ==> updatePositions == old(updatePositions) && unchanged(root.Repr`expanded)
      ensures forall m :: m in old(root.Repr) && m != hit.node ==> m.expanded == old(m.expanded)
      ensures clicked == if hit.above.NodeHit? then Some(0) else if hit.above.RowHit? then Some(hit.lineNo) else None
      ensures list.selected == if hit.above.NodeHit? && hasList && deselectOnNodeClick then NodeClicked(old(list.selected), old(list.current), showSelected)
                               else if hit.above.RowHit? && hasList then RowClicked(old(list.selected), old(list.current), hit.lineNo, shift, control, showSelected)
                               else old(list.selected)
      ensures list.current == if hit.above.NodeHit? && hasList && deselectOnNodeClick then 0
                              else if hit.above.RowHit? && hasList then hit.lineNo
                              else old(list.current)
    {
      clicked := None;
      match hit.above {
        case TreeIcon =>
          ToggleNode(hit.node);
        case NodeHit =>
          if hasList && deselectOnNodeClick {
            NodeClick();
          }
          clicked := Some(0);
        case RowHit =>
          if hasList {
            RowClick(hit.lineNo, shift, control);
          }
          clicked := Some(hit.lineNo);
        case _ =>
      }
    }

    /**
     * evClick: the hit test is redone; a tree icon toggles its node, a node deselects
     * (when asked to and the list is there), a row updates the selection (when the list is
     * there).  The line sent with the click event is returned: 0 for a node.
     */
    method Click(at: Point, hasList: bool, shift: bool, control: bool) returns (clicked: Option<int>)
      requires Valid()
      modifies this`hit, this`updatePositions, root.Repr`expanded, list`selected, list`current
      ensures Valid() && (hit.node != null ==> hit.node in old(root.Repr)) && var h := hit; old(HitAt(h, at))
      ensures hit.above.TreeIcon? ==> updatePositions && hit.node in old(root.Repr) && var n := hit.node; n.expanded == !old(n.expanded)
      ensures !hit.above.TreeIcon? ==> updatePositions == old(updatePositions) && unchanged(old(root.Repr)`expanded)
      ensures forall m :: m in old(root.Repr) && m != hit.node ==> m.expanded == old(m.expanded)
      ensures clicked == if hit.above.NodeHit? then Some(0) else if hit.above.RowHit? then Some(hit.lineNo) else None
      ensures list.selected == if hit.above.NodeHit? && hasList && deselectOnNodeClick then NodeClicked(old(list.selected), old(list.current), showSelected)
                               else if hit.above.RowHit? && hasList then RowClicked(old(list.selected), old(list.current), hit.lineNo, shift, control, showSelected)
                               else old(list.selected)
      ensures list.current == if hit.above.NodeHit? && hasList && deselectOnNodeClick then 0
                              else if hit.above.RowHit? && hasList then hit.lineNo
                              else old(list.current)
    {
      hit := DoHitTest(at);
      clicked := ClickOnHit(hasList, shift, control);
    }

    /** evDoubleClick: a double click on a node toggles it; one on a row sends the double-click event, which is returned. */
    method DoubleClick(at: Point) returns (doubleClicked: bool)
      requires Valid()
      modifies this`hit, this`updatePositions, root.Repr`expanded
      ensures Valid() && (hit.node != null ==> hit.node in old(root.Repr)) && var h := hit; old(HitAt(h, at))
      ensures hit.above.NodeHit? ==> updatePositions && hit.node in old(root.Repr) && var n := hit.node; n.expanded == !old(n.expanded)
      ensures !hit.above.NodeHit? ==> updatePositions == old(updatePositions) && unchanged(old(root.Repr)`expanded)
      ensures forall m :: m in old(root.Repr) && m != hit.node ==> m.expanded == old(m.expanded)
      ensures doubleClicked <==> hit.above.RowHit?
    {
      hit := DoHitTest(at);
      doubleClicked := DoubleClickOnHit();
    }

    /** What evDoubleClick does once the hit test has been redone. */
    method DoubleClickOnHit() returns (doubleClicked: bool)
      requires Valid() && (hit.above.NodeHit? ==> hit.node != null && hit.node in root.Repr && hit.node.Valid())
      modifies this`updatePositions, root.Repr`expanded
      ensures Valid()
      ensures hit.above.NodeHit? ==> updatePositions && var n := hit.node; n.expanded == !old(n.expanded)
      ensures !hit.above.NodeHit? ==> updatePositions == old(updatePositions) && unchanged(root.Repr`expanded)
      ensures forall m :: m in old(root.Repr) && m != hit.node ==> m.expanded == old(m.expanded)
      ensures doubleClicked <==> hit.above.RowHit?
    {
      if hit.above.NodeHit? {
        ToggleNode(hit.node);
      }
      doubleClicked := hit.above.RowHit?;
    }

    /** The loop of evMouseRDown: only `line` stays selected; the result tells whether any flag changed. */
    method SelectOnly(line: int) returns (changed: bool)
      modifies list`selected
      ensures list.selected == Only(|old(list.selected)|, line)
      ensures changed <==> list.selected != old(list.selected)
    {
      changed := false;
      var rowCnt := list.RowCount();
      var row := 1;
      while row <= rowCnt
        invariant 1 <= row <= rowCnt + 1 && |list.selected| == rowCnt
        invariant forall i :: 0 <= i < rowCnt ==> list.selected[i] == if i < row - 1 then i + 1 == line else old(list.selected)[i]
        invariant changed <==> exists j :: 0 <= j < row - 1 && list.selected[j] != old(list.selected)[j]
      {
        if row == line {
          if !list.IsRowSelected(row) {
            changed := true;
            list.SelectRow(row, true);
          }
        } else if list.IsRowSelected(row) {
          changed := true;
          list.SelectRow(row, false);
        }
        row := row + 1;
      }
      assert changed ==> list.selected != old(list.selected);
    }

    /**
     * evMouseRDown: a right click on a selected line keeps the selection, anything else
     * selects only the line under the mouse (or nothing); that line becomes current.  When
     * anything changed, the click event is sent with the line, which is returned.
     */
    method RightDown(at: Point) returns (clicked: Option<int>)
      requires Valid()
      modifies this`hit, list`selected, list`current
      ensures Valid() && (hit.node != null ==> hit.node in old(root.Repr)) && var h := hit; old(HitAt(h, at))
      ensures var line := if hit.above.RowHit? then hit.lineNo else 0;
              list.selected == RightClicked(old(list.selected), line) && list.current == line &&
              clicked == if list.selected != old(list.selected) || line != old(list.current) then Some(line) else None
    {
      hit := DoHitTest(at);
      ValidWithHit();
      label afterHitTest:
      var newCurrentLine := 0;
      if hit.above.RowHit? {
        newCurrentLine := hit.lineNo;
      }
      clicked := RightClickLine(newCurrentLine);
      ValidKept@afterHitTest();
    }

    /** The selection part of evMouseRDown for the line under the mouse (0 for none). */
    method RightClickLine(newCurrentLine: int) returns (clicked: Option<int>)
      modifies list`selected, list`current
      ensures list.selected == RightClicked(old(list.selected), newCurrentLine) && list.current == newCurrentLine
      ensures clicked == if list.selected != old(list.selected) || newCurrentLine != old(list.current) then Some(newCurrentLine) else None
    {
      var currentLine := list.current;
      var selectionChanged := false;
      if newCurrentLine > 0 && list.IsRowSelected(newCurrentLine) {
      } else {
        selectionChanged := SelectOnly(newCurrentLine);
      }
      if newCurrentLine != currentLine {
        selectionChanged := true;
        list.SetCurrent(newCurrentLine);
      }
      clicked := if selectionChanged then Some(newCurrentLine) else None;
    }

    /**
     * evKeyPressed: control-A, while the selection is shown and the component holds its
     * copy of the list (`hasCopy`), is handled; it selects every line when the Omnis list
     * can be fetched (`hasList`).  Any other key is left to the host.
     */
    method KeyPressed(key: char, control: bool, down: bool, hasCopy: bool, hasList: bool) returns (handled: bool)
      modifies list`selected
      ensures handled <==> key == 'a' && control && showSelected && down && hasCopy
      ensures list.selected == if handled && hasList then AllSet(|old(list.selected)|, true) else old(list.selected)
    {
      if key == 'a' && control && showSelected && down && hasCopy {
        if hasList {
          SelectAll(true);
        }
        handled := true;
      } else {
        handled := false;
      }
    }

    /** canDrag: a drag starts only from a row, which always names a line. */
    predicate CanDrag()
      reads this`hit
    {
      hit.above.RowHit?
    }

    /** A drag can start exactly when the last hit test found a line, and then it names the node holding it. */
    lemma CanDragMeaning()
      requires Valid()
      ensures CanDrag() <==> hit.lineNo != 0
      ensures CanDrag() ==> hit.node != null
    {
    }

    /**
     * $isVisible: the line has a top in the outline, which happens exactly when some header
     * or row entry of the outline is that line (the cached tops are never negative, so the
     * answer -1 cannot be a real top).  A line inside a collapsed group counts as visible.
     */
    method IsVisible(line: int) returns (r: bool)
      requires Valid()
      ensures r <==> FindTop(root.Model(), line) != -1
      ensures r <==> ShowsLine(root.Model(), line)
    {
      var at := root.FindTopForRow(line);
      r := at != -1;
      root.ExtentsMatch();
      ExtentsTops(root.Model());
      SentinelMeansAbsent(root.Model(), line);
    }
  }
}
