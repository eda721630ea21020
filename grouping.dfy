/**
 * The rebuild pass of the outline (the grouping part of oDataList::doPaint): which rows
 * of the data list are kept, which grouping levels take part, and where one row ends up
 * in the node tree.  The node class and the data list are proved against these definitions.
 */
module DLGrouping {
  import opened DLTree

  datatype Option<T> = None | Some(value: T)

  // ---------------------------------------------------------------------------
  // Group keys: "value|label" or a plain label
  // ---------------------------------------------------------------------------

  /** The position of the first c in s, or -1 when s holds none. */
  function IndexOf(s: string, c: char): (k: int)
    ensures -1 <= k < |s|
    ensures k >= 0 ==> s[k] == c && c !in s[..k]
    ensures k == -1 <==> c !in s
  {
    if s == [] then -1
    else if s[0] == c then 0
    else
      var k := IndexOf(s[1..], c);
      assert k >= 0 ==> s[..k + 1] == [s[0]] + s[1..][..k];
      if k == -1 then -1 else k + 1
  }

  /** The first c of v + [c] + d is the one just after v when v holds none. */
  lemma {:induction false} IndexOfAfter(v: string, c: char, d: string)
    requires c !in v
    ensures IndexOf(v + [c] + d, c) == |v|
    decreases |v|
  {
    if v != [] {
      assert (v + [c] + d)[1..] == v[1..] + [c] + d;
      IndexOfAfter(v[1..], c, d);
    }
  }

  /** A group string taken apart: the key the child is looked up by, and the value and label of a new child. */
  datatype Group = Group(key: Key, value: string, desc: string)

  /**
   * A group string holding '|' names a child by the value in front of the first '|' and
   * labels it with the text after it; otherwise the whole string is the label and the
   * child is looked up by label, with an empty value.
   */
  function ParseGroup(s: string): (g: Group)
    ensures '|' in s ==> g.key == ValueKey(g.value) && s == g.value + "|" + g.desc && '|' !in g.value
    ensures '|' !in s ==> g == Group(LabelKey(s), "", s)
  {
    var k := IndexOf(s, '|');
    if k >= 0 then
      assert s == s[..k] + "|" + s[k + 1..];
      Group(ValueKey(s[..k]), s[..k], s[k + 1..])
    else Group(LabelKey(s), "", s)
  }

  /** Composing a value and a label into a group string and taking it apart again gives both back. */
  lemma ParseJoin(v: string, d: string)
    requires '|' !in v
    ensures ParseGroup(v + "|" + d) == Group(ValueKey(v), v, d)
  {
    IndexOfAfter(v, '|', d);
    var s := v + "|" + d;
    assert s[..|v|] == v && s[|v| + 1..] == d;
  }

  // ---------------------------------------------------------------------------
  // Placing one row
  // ---------------------------------------------------------------------------

  /**
   * What one grouping level says about one row: the text of its group expression and
   * whether its parent expression holds (false when the level has none).
   */
  datatype Level = Level(group: string, parent: bool)

  /**
   * The row entering the child c under a group key: c is touched again and then either
   * becomes the row itself (the parent expression holds) or places the row further down.
   */
  function Enter(c: Tree, line: int, rest: seq<Level>, parent: bool): Tree
    decreases |rest|, 2
  {
    var c' := c.(touched := true);
    if parent then c'.(lineNo := line) else Place(c', line, rest)
  }

  /**
   * The row `line` walking the levels from node t: an empty group text leaves it at t;
   * otherwise the first child with the key is entered, or a new child is appended and
   * entered; a row that was not folded into a node is appended as a row entry of the
   * node the walk reached.
   */
  function Place(t: Tree, line: int, levels: seq<Level>): Tree
    decreases |levels|, 1
  {
    if levels == [] then t.(rows := t.rows + [Row(line, 0, 0)])
    else if levels[0].group == "" then Place(t, line, levels[1..])
    else
      var g := ParseGroup(levels[0].group);
      var k := FirstWithKey(t.children, g.key);
      if k >= 0 then t.(children := t.children[k := Enter(t.children[k], line, levels[1..], levels[0].parent)])
      else t.(children := t.children + [Enter(Fresh(g.value, g.desc, 0), line, levels[1..], levels[0].parent)])
  }

  /** The key of a parsed group is its value or its label. */
  lemma GroupKeyed(s: string)
    ensures ParseGroup(s).key == ValueKey(ParseGroup(s).value) || ParseGroup(s).key == LabelKey(ParseGroup(s).desc)
  {
  }

  /** A level with a group text whose key some child has: that child is entered. */
  lemma PlaceFound(t: Tree, line: int, levels: seq<Level>, k: int)
    requires levels != [] && levels[0].group != "" && k == FirstWithKey(t.children, ParseGroup(levels[0].group).key) && k >= 0
    ensures Place(t, line, levels) == t.(children := t.children[k := Enter(t.children[k], line, levels[1..], levels[0].parent)])
  {
  }

  /** A level with a group text whose key no child has: a new child is appended and entered. */
  lemma PlaceNew(t: Tree, line: int, levels: seq<Level>)
    requires levels != [] && levels[0].group != "" && FirstWithKey(t.children, ParseGroup(levels[0].group).key) < 0
    ensures var g := ParseGroup(levels[0].group);
            Place(t, line, levels) == t.(children := t.children + [Enter(Fresh(g.value, g.desc, 0), line, levels[1..], levels[0].parent)])
  {
  }

  /** The row is folded into a node: some level with a group text also has its parent expression hold. */
  predicate Folded(levels: seq<Level>)
  {
    levels != [] && (if levels[0].group == "" then Folded(levels[1..]) else levels[0].parent || Folded(levels[1..]))
  }

  /** Placing a row changes only the children and the row entries of the node it starts from. */
  lemma PlaceOwn(t: Tree, line: int, levels: seq<Level>)
    ensures Place(t, line, levels).(children := t.children, rows := t.rows) == t
    decreases |levels|
  {
    if levels != [] && levels[0].group == "" {
      PlaceOwn(t, line, levels[1..]);
    }
  }

  /**
   * What a rebuild keeps of a node it reuses: the value and the label (so the node is found
   * by the same key), the expanded state, the sort order and the cached geometry.
   */
  ghost predicate KeptState(a: Tree, b: Tree)
  {
    a.value == b.value && a.description == b.description && a.expanded == b.expanded &&
    a.sortOrder == b.sortOrder && a.top == b.top && a.bottom == b.bottom && a.treeIcon == b.treeIcon
  }

  /** Entering a child touches it and keeps its value, label, expanded state, sort order and cached geometry. */
  lemma EnterKeepsKey(c: Tree, line: int, rest: seq<Level>, parent: bool)
    ensures Enter(c, line, rest, parent).touched
    ensures KeptState(c, Enter(c, line, rest, parent))
  {
    if !parent {
      PlaceOwn(c.(touched := true), line, rest);
    }
  }

  /**
   * An existing child with the key is entered in place: touched, in the same state, and
   * still the first child with that key; no child is added and every other child is left
   * as it was.
   */
  lemma PlaceReuses(t: Tree, line: int, levels: seq<Level>)
    requires levels != [] && levels[0].group != ""
    requires FirstWithKey(t.children, ParseGroup(levels[0].group).key) >= 0
    ensures var k := FirstWithKey(t.children, ParseGroup(levels[0].group).key);
            var r := Place(t, line, levels);
            |r.children| == |t.children| && FirstWithKey(r.children, ParseGroup(levels[0].group).key) == k &&
            r.children[k].touched && KeptState(t.children[k], r.children[k]) &&
            forall j :: 0 <= j < |t.children| && j != k ==> r.children[j] == t.children[j]
  {
    var g := ParseGroup(levels[0].group);
    var k := FirstWithKey(t.children, g.key);
    var r := Place(t, line, levels);
    assert r.children == t.children[k := Enter(t.children[k], line, levels[1..], levels[0].parent)];
    EnterKeepsKey(t.children[k], line, levels[1..], levels[0].parent);
    assert HasKey(r.children[k], g.key);
    assert forall j :: 0 <= j < k ==> r.children[j] == t.children[j];
  }

  /**
   * When no child has the key, exactly one new child is appended: it carries the key,
   * it is touched, and the earlier children are left as they were.
   */
  lemma PlaceAdds(t: Tree, line: int, levels: seq<Level>)
    requires levels != [] && levels[0].group != ""
    requires FirstWithKey(t.children, ParseGroup(levels[0].group).key) == -1
    ensures var r := Place(t, line, levels);
            |r.children| == |t.children| + 1 && r.children[..|t.children|] == t.children &&
            FirstWithKey(r.children, ParseGroup(levels[0].group).key) == |t.children| &&
            r.children[|t.children|].touched
  {
    var g := ParseGroup(levels[0].group);
    var c := Fresh(g.value, g.desc, 0);
    var r := Place(t, line, levels);
    assert r.children == t.children + [Enter(c, line, levels[1..], levels[0].parent)];
    EnterKeepsKey(c, line, levels[1..], levels[0].parent);
    assert HasKey(r.children[|t.children|], g.key);
    assert forall j :: 0 <= j < |t.children| ==> r.children[j] == t.children[j];
  }

  // ---------------------------------------------------------------------------
  // Counting row entries
  // ---------------------------------------------------------------------------

  /** The number of row entries in the subtree. */
  function TotalRows(t: Tree): nat
    decreases t, 1
  {
    |t.rows| + RowsIn(t, |t.children|)
  }

  /** The number of row entries below the first k children. */
  function RowsIn(t: Tree, k: nat): nat
    requires k <= |t.children|
    decreases t, 0, k
  {
    if k == 0 then 0 else RowsIn(t, k - 1) + TotalRows(t.children[k - 1])
  }

  lemma {:induction false} RowsInSame(a: Tree, b: Tree, k: nat)
    requires k <= |a.children| && k <= |b.children| && a.children[..k] == b.children[..k]
    ensures RowsIn(a, k) == RowsIn(b, k)
    decreases k
  {
    if k > 0 {
      assert a.children[k - 1] == a.children[..k][k - 1];
      assert a.children[..k - 1] == a.children[..k][..k - 1];
      assert b.children[..k - 1] == b.children[..k][..k - 1];
      RowsInSame(a, b, k - 1);
    }
  }

  lemma {:induction false} RowsInReplace(t: Tree, j: nat, c: Tree, k: nat)
    requires j < k <= |t.children|
    ensures RowsIn(t.(children := t.children[j := c]), k) + TotalRows(t.children[j]) == RowsIn(t, k) + TotalRows(c)
    decreases k
  {
    var u := t.(children := t.children[j := c]);
    if k - 1 == j {
      assert u.children[..j] == t.children[..j];
      RowsInSame(u, t, j);
    } else {
      RowsInReplace(t, j, c, k - 1);
    }
  }

  lemma RowsInAppend(t: Tree, c: Tree)
    ensures RowsIn(t.(children := t.children + [c]), |t.children| + 1) == RowsIn(t, |t.children|) + TotalRows(c)
  {
    var u := t.(children := t.children + [c]);
    assert u.children[..|t.children|] == t.children[..|t.children|];
    RowsInSame(u, t, |t.children|);
  }

  lemma ReplaceCount(t: Tree, k: nat, c: Tree)
    requires k < |t.children|
    ensures TotalRows(t.(children := t.children[k := c])) + TotalRows(t.children[k]) == TotalRows(t) + TotalRows(c)
  {
    RowsInReplace(t, k, c, |t.children|);
  }

  lemma AppendCount(t: Tree, c: Tree)
    ensures TotalRows(t.(children := t.children + [c])) == TotalRows(t) + TotalRows(c)
  {
    RowsInAppend(t, c);
  }

  /** A row that is not folded adds exactly one row entry to the tree; a folded row adds none. */
  lemma {:induction false} PlaceCount(t: Tree, line: int, levels: seq<Level>)
    ensures TotalRows(Place(t, line, levels)) == TotalRows(t) + (if Folded(levels) then 0 else 1)
    decreases |levels|, 1
  {
    if levels == [] {
      RowsInSame(Place(t, line, levels), t, |t.children|);
    } else if levels[0].group == "" {
      PlaceCount(t, line, levels[1..]);
    } else {
      var g := ParseGroup(levels[0].group);
      var k := FirstWithKey(t.children, g.key);
      var r := Place(t, line, levels);
      if k >= 0 {
        var e := Enter(t.children[k], line, levels[1..], levels[0].parent);
        EnterCount(t.children[k], line, levels[1..], levels[0].parent);
        ReplaceCount(t, k, e);
      } else {
        var c := Fresh(g.value, g.desc, 0);
        EnterCount(c, line, levels[1..], levels[0].parent);
        AppendCount(t, Enter(c, line, levels[1..], levels[0].parent));
      }
    }
  }

  lemma {:induction false} EnterCount(c: Tree, line: int, rest: seq<Level>, parent: bool)
    ensures TotalRows(Enter(c, line, rest, parent)) == TotalRows(c) + (if parent || Folded(rest) then 0 else 1)
    decreases |rest|, 2
  {
    var c' := c.(touched := true);
    RowsInSame(c', c, |c.children|);
    if parent {
      RowsInSame(c'.(lineNo := line), c, |c.children|);
    } else {
      PlaceCount(c', line, rest);
    }
  }

  // ---------------------------------------------------------------------------
  // Finding the row again
  // ---------------------------------------------------------------------------

  /** Some row entry in the subtree shows the line. */
  ghost predicate RowAnywhere(t: Tree, line: int)
  {
    HasRowHere(t, line) || exists i :: 0 <= i < |t.children| && RowAnywhere(t.children[i], line)
  }

  /** After placing, the row is shown by the tree: as a row entry, or as the header it was folded into. */
  lemma {:induction false} PlaceShows(t: Tree, line: int, levels: seq<Level>)
    requires line != 0
    ensures ShowsLine(Place(t, line, levels), line)
    ensures !Folded(levels) ==> RowAnywhere(Place(t, line, levels), line)
    decreases |levels|, 1
  {
    var r := Place(t, line, levels);
    if levels == [] {
      assert r.rows[|t.rows|].lineNo == line;
    } else if levels[0].group == "" {
      PlaceShows(t, line, levels[1..]);
    } else {
      var g := ParseGroup(levels[0].group);
      var k := FirstWithKey(t.children, g.key);
      var i := if k >= 0 then k else |t.children|;
      var c := if k >= 0 then t.children[k] else Fresh(g.value, g.desc, 0);
      EnterShows(c, line, levels[1..], levels[0].parent);
      assert r.children[i] == Enter(c, line, levels[1..], levels[0].parent);
    }
  }

  lemma {:induction false} EnterShows(c: Tree, line: int, rest: seq<Level>, parent: bool)
    requires line != 0
    ensures ShowsLine(Enter(c, line, rest, parent), line)
    ensures !parent && !Folded(rest) ==> RowAnywhere(Enter(c, line, rest, parent), line)
    decreases |rest|, 2
  {
    if !parent {
      PlaceShows(c.(touched := true), line, rest);
    }
  }

  /** Placing a row never takes away a row entry that was already there. */
  lemma {:induction false} PlaceKeepsRows(t: Tree, line: int, levels: seq<Level>, other: int)
    requires RowAnywhere(t, other)
    ensures RowAnywhere(Place(t, line, levels), other)
    decreases |levels|, 1
  {
    var r := Place(t, line, levels);
    if levels == [] {
      if HasRowHere(t, other) {
        var i :| 0 <= i < |t.rows| && t.rows[i].lineNo == other;
        assert r.rows[i] == t.rows[i];
      } else {
        var i :| 0 <= i < |t.children| && RowAnywhere(t.children[i], other);
        assert r.children[i] == t.children[i];
      }
    } else if levels[0].group == "" {
      PlaceKeepsRows(t, line, levels[1..], other);
    } else {
      var g := ParseGroup(levels[0].group);
      var k := FirstWithKey(t.children, g.key);
      if HasRowHere(t, other) {
        assert r.rows == t.rows;
      } else {
        var i :| 0 <= i < |t.children| && RowAnywhere(t.children[i], other);
        if k == i {
          EnterKeepsRows(t.children[k], line, levels[1..], levels[0].parent, other);
        }
        assert RowAnywhere(r.children[i], other);
      }
    }
  }

  lemma {:induction false} EnterKeepsRows(c: Tree, line: int, rest: seq<Level>, parent: bool, other: int)
    requires RowAnywhere(c, other)
    ensures RowAnywhere(Enter(c, line, rest, parent), other)
    decreases |rest|, 2
  {
    var c' := c.(touched := true);
    if HasRowHere(c, other) {
      assert HasRowHere(c', other);
    } else {
      var i :| 0 <= i < |c.children| && RowAnywhere(c.children[i], other);
      assert c'.children[i] == c.children[i];
    }
    if !parent {
      PlaceKeepsRows(c', line, rest, other);
    } else {
      if HasRowHere(c, other) {
        assert HasRowHere(c'.(lineNo := line), other);
      } else {
        var i :| 0 <= i < |c.children| && RowAnywhere(c.children[i], other);
        assert c'.(lineNo := line).children[i] == c.children[i];
      }
    }
  }

  // ---------------------------------------------------------------------------
  // Order of row entries
  // ---------------------------------------------------------------------------

  /** Every node's row entries are in strictly increasing line order. */
  ghost predicate RowsSorted(t: Tree)
  {
    (forall i, j :: 0 <= i < j < |t.rows| ==> t.rows[i].lineNo < t.rows[j].lineNo) &&
    forall i :: 0 <= i < |t.children| ==> RowsSorted(t.children[i])
  }

  /** Every row entry of the subtree shows a line before n. */
  ghost predicate RowsBelow(t: Tree, n: int)
  {
    (forall i :: 0 <= i < |t.rows| ==> t.rows[i].lineNo < n) &&
    forall i :: 0 <= i < |t.children| ==> RowsBelow(t.children[i], n)
  }

  lemma {:induction false} BelowLater(t: Tree, n: int, m: int)
    requires RowsBelow(t, n) && n <= m
    ensures RowsBelow(t, m)
    decreases t
  {
    forall i | 0 <= i < |t.children|
      ensures RowsBelow(t.children[i], m)
    {
      BelowLater(t.children[i], n, m);
    }
  }

  /**
   * Rows placed in increasing line order keep every node's row entries in increasing
   * line order.
   */
  lemma {:induction false} PlaceSorted(t: Tree, line: int, levels: seq<Level>)
    requires RowsSorted(t) && RowsBelow(t, line)
    ensures RowsSorted(Place(t, line, levels)) && RowsBelow(Place(t, line, levels), line + 1)
    decreases |levels|, 1
  {
    var r := Place(t, line, levels);
    BelowLater(t, line, line + 1);
    if levels == [] {
    } else if levels[0].group == "" {
      PlaceSorted(t, line, levels[1..]);
    } else {
      var g := ParseGroup(levels[0].group);
      var k := FirstWithKey(t.children, g.key);
      var c := if k >= 0 then t.children[k] else Fresh(g.value, g.desc, 0);
      EnterSorted(c, line, levels[1..], levels[0].parent);
      var i := if k >= 0 then k else |t.children|;
      assert r.rows == t.rows;
      forall j | 0 <= j < |r.children|
        ensures RowsSorted(r.children[j]) && RowsBelow(r.children[j], line + 1)
      {
        if j != i {
          assert r.children[j] == t.children[j];
        }
      }
    }
  }

  lemma {:induction false} EnterSorted(c: Tree, line: int, rest: seq<Level>, parent: bool)
    requires RowsSorted(c) && RowsBelow(c, line)
    ensures RowsSorted(Enter(c, line, rest, parent)) && RowsBelow(Enter(c, line, rest, parent), line + 1)
    decreases |rest|, 2
  {
    var c' := c.(touched := true);
    BelowLater(c, line, line + 1);
    if !parent {
      PlaceSorted(c', line, rest);
    }
  }

  // ---------------------------------------------------------------------------
  // The whole pass
  // ---------------------------------------------------------------------------

  /**
   * A grouping level as configured: its group expression and, when one was given, its
   * parent expression (mGroupCalculations).
   */
  datatype Grouping = Grouping(groupCalc: string, parentCalc: Option<string>)

  /**
   * The calculation engine, which is not part of this model: whether an expression
   * compiles, the text an expression gives for a line, and whether it holds for a line.
   */
  datatype Engine = Engine(compiles: string -> bool, text: (string, int) -> string, holds: (string, int) -> bool)

  /** A level that takes part in the pass: its group expression, and its parent expression if that compiled. */
  datatype Compiled = Compiled(group: string, parent: Option<string>)

  /** The levels taking part: those whose group expression compiles, in order. */
  function Active(gs: seq<Grouping>, e: Engine): (cs: seq<Compiled>)
    ensures |cs| <= |gs|
  {
    if gs == [] then []
    else
      var g := gs[|gs| - 1];
      Active(gs[..|gs| - 1], e) +
        (if e.compiles(g.groupCalc)
         then [Compiled(g.groupCalc, if g.parentCalc.Some? && e.compiles(g.parentCalc.value) then g.parentCalc else None)]
         else [])
  }

  /** What each taking-part level says about one line. */
  function LevelsFor(cs: seq<Compiled>, e: Engine, line: int): (ls: seq<Level>)
    ensures |ls| == |cs|
    ensures forall i :: 0 <= i < |cs| ==>
      ls[i] == Level(e.text(cs[i].group, line), cs[i].parent.Some? && e.holds(cs[i].parent.value, line))
  {
    seq(|cs|, i requires 0 <= i < |cs| => Level(e.text(cs[i].group, line), cs[i].parent.Some? && e.holds(cs[i].parent.value, line)))
  }

  /** The filter keeps a line when there is no filter, when it does not compile, or when it holds for the line. */
  predicate Shown(filter: string, e: Engine, line: int)
  {
    filter == "" || !e.compiles(filter) || e.holds(filter, line)
  }

  /** The tree after lines 1 to n have been placed in order, each kept one walking its levels. */
  function Build(t: Tree, n: nat, filter: string, cs: seq<Compiled>, e: Engine): Tree
  {
    if n == 0 then t
    else
      var p := Build(t, n - 1, filter, cs, e);
      if Shown(filter, e, n) then Place(p, n, LevelsFor(cs, e, n)) else p
  }

  /** The number of lines among 1 to n that are kept and not folded into a node. */
  function Placed(n: nat, filter: string, cs: seq<Compiled>, e: Engine): (c: nat)
    ensures c <= n
  {
    if n == 0 then 0
    else Placed(n - 1, filter, cs, e) + (if Shown(filter, e, n) && !Folded(LevelsFor(cs, e, n)) then 1 else 0)
  }

  /**
   * Starting from a tree whose row entries all show lines before 1 (after the mark phase
   * it has none), every node ends up with its row entries in increasing line order.
   */
  lemma {:induction false} BuildSorted(t: Tree, n: nat, filter: string, cs: seq<Compiled>, e: Engine)
    requires RowsSorted(t) && RowsBelow(t, 1)
    ensures RowsSorted(Build(t, n, filter, cs, e)) && RowsBelow(Build(t, n, filter, cs, e), n + 1)
    decreases n
  {
    if n > 0 {
      BuildSorted(t, n - 1, filter, cs, e);
      var p := Build(t, n - 1, filter, cs, e);
      if Shown(filter, e, n) {
        PlaceSorted(p, n, LevelsFor(cs, e, n));
      } else {
        BelowLater(p, n, n + 1);
      }
    }
  }

  /** The pass adds one row entry per kept line that is not folded into a node, and no other. */
  lemma {:induction false} BuildCount(t: Tree, n: nat, filter: string, cs: seq<Compiled>, e: Engine)
    ensures TotalRows(Build(t, n, filter, cs, e)) == TotalRows(t) + Placed(n, filter, cs, e)
    decreases n
  {
    if n > 0 {
      BuildCount(t, n - 1, filter, cs, e);
      if Shown(filter, e, n) {
        PlaceCount(Build(t, n - 1, filter, cs, e), n, LevelsFor(cs, e, n));
      }
    }
  }

  /** Every kept line that is not folded into a node is found among the row entries afterwards. */
  lemma {:induction false} BuildShows(t: Tree, n: nat, filter: string, cs: seq<Compiled>, e: Engine, line: int)
    requires 1 <= line <= n && Shown(filter, e, line) && !Folded(LevelsFor(cs, e, line))
    ensures RowAnywhere(Build(t, n, filter, cs, e), line)
    decreases n
  {
    var p := Build(t, n - 1, filter, cs, e);
    var ls := LevelsFor(cs, e, n);
    if line == n {
      PlaceShows(p, n, ls);
      assert Build(t, n, filter, cs, e) == Place(p, n, ls);
    } else {
      BuildShows(t, n - 1, filter, cs, e, line);
      if Shown(filter, e, n) {
        PlaceKeepsRows(p, n, ls, line);
        assert Build(t, n, filter, cs, e) == Place(p, n, ls);
      } else {
        assert Build(t, n, filter, cs, e) == p;
      }
    }
  }

  /** Every level that takes part compiled, and when every group calculation compiles, every level takes part, in order. */
  lemma {:induction false} ActiveMeaning(gs: seq<Grouping>, e: Engine)
    ensures forall i :: 0 <= i < |Active(gs, e)| ==>
      e.compiles(Active(gs, e)[i].group) && (Active(gs, e)[i].parent.Some? ==> e.compiles(Active(gs, e)[i].parent.value))
    ensures (forall i :: 0 <= i < |gs| ==> e.compiles(gs[i].groupCalc)) ==>
      |Active(gs, e)| == |gs| && forall i :: 0 <= i < |gs| ==> Active(gs, e)[i].group == gs[i].groupCalc
    decreases |gs|
  {
    if gs != [] {
      ActiveMeaning(gs[..|gs| - 1], e);
    }
  }

  // ---------------------------------------------------------------------------
  // The whole rebuild: mark, place every line, sweep
  // ---------------------------------------------------------------------------

  /**
   * The outline after a rebuild over n lines: everything below the root is untouched and
   * loses its row entries; with no lines every child goes, otherwise the lines are placed
   * and what stayed untouched is swept away.
   */
  function Rebuilt(t: Tree, n: nat, filter: string, cs: seq<Compiled>, e: Engine): Tree
  {
    var marked := UnTouchBelow(t);
    if n == 0 then marked.(children := []) else Prune(Build(marked, n, filter, cs, e))
  }

  lemma {:induction false} NoRowsSorted(t: Tree)
    requires NoRowsAnywhere(t)
    ensures RowsSorted(t) && RowsBelow(t, 1)
    decreases t
  {
    forall i | 0 <= i < |t.children|
      ensures RowsSorted(t.children[i]) && RowsBelow(t.children[i], 1)
    {
      NoRowsSorted(t.children[i]);
    }
  }

  lemma {:induction false} PruneFirstSorted(t: Tree, k: nat)
    requires k <= |t.children| && RowsSorted(t)
    ensures forall i :: 0 <= i < |PruneFirst(t, k)| ==> RowsSorted(PruneFirst(t, k)[i])
    decreases t, 0, k
  {
    if k > 0 {
      PruneFirstSorted(t, k - 1);
      if t.children[k - 1].touched {
        PruneSorted(t.children[k - 1]);
      }
    }
  }

  /** Sweeping keeps every node's row entries as they are, so they stay in line order. */
  lemma {:induction false} PruneSorted(t: Tree)
    requires RowsSorted(t)
    ensures RowsSorted(Prune(t))
    decreases t, 1
  {
    PruneFirstSorted(t, |t.children|);
  }

  /**
   * After a rebuild every node still below the root is touched and every node holds its
   * row entries in increasing line order.
   */
  lemma RebuiltMeaning(t: Tree, n: nat, filter: string, cs: seq<Compiled>, e: Engine)
    ensures AllTouchedBelow(Rebuilt(t, n, filter, cs, e))
    ensures RowsSorted(Rebuilt(t, n, filter, cs, e))
  {
    var marked := UnTouchBelow(t);
    UnTouchBelowMeaning(t);
    NoRowsSorted(marked);
    if n > 0 {
      BuildSorted(marked, n, filter, cs, e);
      PruneAllTouched(Build(marked, n, filter, cs, e));
      PruneSorted(Build(marked, n, filter, cs, e));
    }
  }

  /** With no lines the rebuild leaves the root alone, without children and without row entries. */
  lemma RebuiltEmpty(t: Tree, filter: string, cs: seq<Compiled>, e: Engine)
    ensures Rebuilt(t, 0, filter, cs, e).children == [] && Rebuilt(t, 0, filter, cs, e).rows == []
    ensures Rebuilt(t, 0, filter, cs, e) == t.(children := [], rows := [])
  {
  }

  // ---------------------------------------------------------------------------
  // What a rebuild keeps of the nodes it reuses
  // ---------------------------------------------------------------------------

  /** The nodes of a, in the same places of b and in the same state. */
  ghost predicate SameStates(a: seq<Tree>, b: seq<Tree>)
  {
    |a| <= |b| && forall i :: 0 <= i < |a| ==> KeptState(a[i], b[i])
  }

  /** The nodes of a, in the same places of b and in the same state, each still touched if it was. */
  ghost predicate Grown(a: seq<Tree>, b: seq<Tree>)
  {
    SameStates(a, b) && forall i :: 0 <= i < |a| ==> a[i].touched ==> b[i].touched
  }

  /** Nodes in the same places with the same keys: the first node with a key stays the first. */
  lemma SameStatesFirst(a: seq<Tree>, b: seq<Tree>, key: Key)
    requires SameStates(a, b) && FirstWithKey(a, key) >= 0
    ensures FirstWithKey(b, key) == FirstWithKey(a, key)
  {
    var k := FirstWithKey(a, key);
    assert HasKey(b[k], key);
    FirstWithKeyAt(b, key, k);
  }

  /** Placing a row keeps every child of the start node in its place and state, and touched if it was. */
  lemma {:induction false} PlaceGrows(t: Tree, line: int, levels: seq<Level>)
    ensures Grown(t.children, Place(t, line, levels).children)
    decreases |levels|
  {
    if levels == [] {
    } else if levels[0].group == "" {
      PlaceGrows(t, line, levels[1..]);
    } else {
      var g := ParseGroup(levels[0].group);
      var k := FirstWithKey(t.children, g.key);
      if k >= 0 {
        EnterKeepsKey(t.children[k], line, levels[1..], levels[0].parent);
      }
    }
  }

  /** Placing line n keeps what placing the lines before it left behind. */
  lemma BuildStep(t: Tree, n: nat, filter: string, cs: seq<Compiled>, e: Engine)
    requires n > 0
    ensures Grown(Build(t, n - 1, filter, cs, e).children, Build(t, n, filter, cs, e).children)
  {
    if Shown(filter, e, n) {
      PlaceGrows(Build(t, n - 1, filter, cs, e), n, LevelsFor(cs, e, n));
    }
  }

  /** Later lines keep every child that earlier lines left behind: in its place, its state, and touched if it was. */
  lemma {:induction false} BuildGrows(t: Tree, j: nat, n: nat, filter: string, cs: seq<Compiled>, e: Engine)
    requires j <= n
    ensures Grown(Build(t, j, filter, cs, e).children, Build(t, n, filter, cs, e).children)
    decreases n
  {
    if j < n {
      BuildGrows(t, j, n - 1, filter, cs, e);
      BuildStep(t, n, filter, cs, e);
    }
  }

  /** The sweep keeps the first touched child with a key, in its state, as the first child with that key. */
  lemma PruneKeepsFirst(b: Tree, key: Key)
    requires FirstWithKey(b.children, key) >= 0 && b.children[FirstWithKey(b.children, key)].touched
    ensures var r := Prune(b);
            FirstWithKey(r.children, key) >= 0 &&
            r.children[FirstWithKey(r.children, key)].touched &&
            KeptState(b.children[FirstWithKey(b.children, key)], r.children[FirstWithKey(r.children, key)])
  {
    var k0 := FirstWithKey(b.children, key);
    var flags := TouchedFlags(b.children);
    KeepFirstWithKey(b.children, flags, key, k0);
    var ks := Keep(b.children, flags);
    PruneKeepsTouchedInOrder(b);
    var r := Prune(b);
    assert r.children == PruneEach(ks);
    assert SameStates(ks, r.children);
    SameStatesFirst(ks, r.children, key);
  }

  /** Building the lines of a freshly marked outline keeps a reused child's state up to line n. */
  lemma BuildKeepsNode(m: Tree, n: nat, filter: string, cs: seq<Compiled>, e: Engine, line: int)
    requires 1 <= line <= n && Shown(filter, e, line) && |cs| > 0
    requires LevelsFor(cs, e, line)[0].group != ""
    requires FirstWithKey(m.children, ParseGroup(LevelsFor(cs, e, line)[0].group).key) >= 0
    ensures var key := ParseGroup(LevelsFor(cs, e, line)[0].group).key;
            var k0 := FirstWithKey(m.children, key);
            var b := Build(m, n, filter, cs, e);
            FirstWithKey(b.children, key) == k0 && b.children[k0].touched && KeptState(m.children[k0], b.children[k0])
  {
    var key := ParseGroup(LevelsFor(cs, e, line)[0].group).key;
    LineKeepsNode(m, filter, cs, e, line);
    var q := Build(m, line, filter, cs, e);
    BuildGrows(m, line, n, filter, cs, e);
    SameStatesFirst(q.children, Build(m, n, filter, cs, e).children, key);
  }

  /** The step of BuildKeepsNode at the line itself: the child it enters is the one the outline started with. */
  lemma LineKeepsNode(m: Tree, filter: string, cs: seq<Compiled>, e: Engine, line: int)
    requires 1 <= line && Shown(filter, e, line) && |cs| > 0
    requires LevelsFor(cs, e, line)[0].group != ""
    requires FirstWithKey(m.children, ParseGroup(LevelsFor(cs, e, line)[0].group).key) >= 0
    ensures var key := ParseGroup(LevelsFor(cs, e, line)[0].group).key;
            var k0 := FirstWithKey(m.children, key);
            var q := Build(m, line, filter, cs, e);
            FirstWithKey(q.children, key) == k0 && q.children[k0].touched && KeptState(m.children[k0], q.children[k0])
  {
    var ls := LevelsFor(cs, e, line);
    var key := ParseGroup(ls[0].group).key;
    var p := Build(m, line - 1, filter, cs, e);
    BuildGrows(m, 0, line - 1, filter, cs, e);
    SameStatesFirst(m.children, p.children, key);
    assert Build(m, line, filter, cs, e) == Place(p, line, ls);
    PlaceReuses(p, line, ls);
  }

  /** Marking keeps every child in its place and state. */
  lemma UnTouchBelowStates(t: Tree)
    ensures SameStates(t.children, UnTouchBelow(t).children)
  {
    var m := UnTouchBelow(t);
    UnTouchBelowMeaning(t);
    forall i | 0 <= i < |t.children|
      ensures KeptState(t.children[i], m.children[i])
    {
      assert SameNodesBelow(t.children[i], m.children[i]);
    }
  }

  /**
   * Surviving nodes keep their state: when a line the filter keeps names, at its first
   * grouping level, the key of a child the outline already had, then after the rebuild the
   * first child with that key is touched and in the state that child was in before – the
   * same value and label, expanded state, sort order and cached geometry.
   */
  lemma RebuiltKeepsNode(t: Tree, n: nat, filter: string, cs: seq<Compiled>, e: Engine, line: int)
    requires 1 <= line <= n && Shown(filter, e, line) && |cs| > 0
    requires LevelsFor(cs, e, line)[0].group != ""
    requires FirstWithKey(t.children, ParseGroup(LevelsFor(cs, e, line)[0].group).key) >= 0
    ensures var key := ParseGroup(LevelsFor(cs, e, line)[0].group).key;
            var r := Rebuilt(t, n, filter, cs, e);
            FirstWithKey(r.children, key) >= 0 &&
            r.children[FirstWithKey(r.children, key)].touched &&
            KeptState(t.children[FirstWithKey(t.children, key)], r.children[FirstWithKey(r.children, key)])
  {
    var key := ParseGroup(LevelsFor(cs, e, line)[0].group).key;
    var m := UnTouchBelow(t);
    UnTouchBelowStates(t);
    SameStatesFirst(t.children, m.children, key);
    BuildKeepsNode(m, n, filter, cs, e, line);
    PruneKeepsFirst(Build(m, n, filter, cs, e), key);
  }

  // ---------------------------------------------------------------------------
  // Extents after a rebuild
  // ---------------------------------------------------------------------------

  /** A new child and a new row entry start with a zero extent, so non-negative extents stay so. */
  lemma {:induction false} PlaceExtents(t: Tree, line: int, levels: seq<Level>)
    requires ExtentsNonNegative(t)
    ensures ExtentsNonNegative(Place(t, line, levels))
    decreases |levels|, 1
  {
    var r := Place(t, line, levels);
    if levels == [] {
      assert r.rows == t.rows + [Row(line, 0, 0)];
    } else if levels[0].group == "" {
      PlaceExtents(t, line, levels[1..]);
    } else {
      var g := ParseGroup(levels[0].group);
      var k := FirstWithKey(t.children, g.key);
      var i := if k >= 0 then k else |t.children|;
      var c := if k >= 0 then t.children[k] else Fresh(g.value, g.desc, 0);
      EnterExtents(c, line, levels[1..], levels[0].parent);
      assert r.children[i] == Enter(c, line, levels[1..], levels[0].parent);
      forall j | 0 <= j < |r.children|
        ensures ExtentsNonNegative(r.children[j])
      {
        if j != i {
          assert r.children[j] == t.children[j];
        }
      }
    }
  }

  lemma {:induction false} EnterExtents(c: Tree, line: int, rest: seq<Level>, parent: bool)
    requires ExtentsNonNegative(c)
    ensures ExtentsNonNegative(Enter(c, line, rest, parent))
    decreases |rest|, 2
  {
    if !parent {
      PlaceExtents(c.(touched := true), line, rest);
    }
  }

  lemma {:induction false} BuildExtents(t: Tree, n: nat, filter: string, cs: seq<Compiled>, e: Engine)
    requires ExtentsNonNegative(t)
    ensures ExtentsNonNegative(Build(t, n, filter, cs, e))
    decreases n
  {
    if n > 0 {
      BuildExtents(t, n - 1, filter, cs, e);
      if Shown(filter, e, n) {
        PlaceExtents(Build(t, n - 1, filter, cs, e), n, LevelsFor(cs, e, n));
      }
    }
  }

  /** A rebuild never makes a stored extent negative. */
  lemma RebuiltExtents(t: Tree, n: nat, filter: string, cs: seq<Compiled>, e: Engine)
    requires ExtentsNonNegative(t)
    ensures ExtentsNonNegative(Rebuilt(t, n, filter, cs, e))
  {
    UnTouchBelowExtents(t);
    if n > 0 {
      BuildExtents(UnTouchBelow(t), n, filter, cs, e);
      PruneExtents(Build(UnTouchBelow(t), n, filter, cs, e));
    }
  }
}
