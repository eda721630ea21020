/**
 * The node object of the outline (oDLNode): a heap object owning an ordered vector of
 * child nodes and an ordered vector of row entries.  Every method is proved against the
 * value view `Model()` defined in module DLTree.
 */
module DLNodes {
  import opened Geometry
  import opened DLTree
  import opened DLGrouping

  class Node {
    var touched: bool
    var expanded: bool
    var lineNo: int
    var sortOrder: int
    var value: string
    var description: string
    var childNodes: seq<Node>
    var rowNodes: seq<Row>
    var top: int
    var bottom: int
    var treeIcon: Rect

    /** The node and everything it owns; it may also hold nodes that were detached from the tree. */
    ghost var Repr: set<Node>

    /**
     * Ownership: each child is owned by exactly one parent and the children's footprints
     * are disjoint.  Only the structural fields are read, so flags and geometry of any
     * node can change without disturbing the validity of its ancestors.
     */
    ghost predicate Valid()
      reads this`childNodes, this`Repr, Repr`childNodes, Repr`Repr
      decreases Repr
    {
      this in Repr &&
      (forall i :: 0 <= i < |childNodes| ==>
         childNodes[i] in Repr && childNodes[i].Repr <= Repr && this !in childNodes[i].Repr &&
         childNodes[i].Valid()) &&
      (forall i, j :: 0 <= i < j < |childNodes| ==> childNodes[i].Repr !! childNodes[j].Repr)
    }

    /** The value this node and its descendants stand for. */
    ghost function Model(): Tree
      reads this, Repr
      requires Valid()
      decreases Repr, 1
    {
      Tree(touched, expanded, lineNo, sortOrder, value, description,
           ChildModels(|childNodes|), rowNodes, top, bottom, treeIcon)
    }

    /** The values of the first k children. */
    ghost function ChildModels(k: nat): (r: seq<Tree>)
      reads this`childNodes, this`Repr, Repr`childNodes, Repr`Repr, Repr - {this}
      requires Valid() && k <= |childNodes|
      ensures |r| == k
      ensures forall i {:trigger childNodes[i].Model()} :: 0 <= i < k ==> r[i] == childNodes[i].Model()
      decreases Repr, 0, k
    {
      if k == 0 then [] else ChildModels(k - 1) + [childNodes[k - 1].Model()]
    }

    /** A change that leaves the structure and everything below alone keeps validity and the children's values. */
    twostate lemma ChildrenKept()
      requires old(Valid())
      requires unchanged(this`childNodes, this`Repr) && unchanged(old(Repr) - {this})
      ensures Valid() && ChildModels(|childNodes|) == old(ChildModels(|childNodes|))
    {
    }

    /** A change of the row entries alone keeps validity and changes only the rows of the value. */
    twostate lemma RowsChanged()
      requires old(Valid()) && unchanged(old(Repr) - {this})
      requires unchanged(this`touched, this`expanded, this`lineNo, this`sortOrder, this`value, this`description)
      requires unchanged(this`childNodes, this`top, this`bottom, this`treeIcon, this`Repr)
      ensures Valid() && Model() == old(Model()).(rows := rowNodes)
    {
      ChildrenKept();
    }

    /** A node none of whose footprint changed is still valid and stands for the same value. */
    twostate lemma Kept()
      requires old(Valid()) && unchanged(old(Repr))
      ensures Valid() && Repr == old(Repr) && Model() == old(Model())
    {
    }

    /**
     * Every cached extent in the subtree, of nodes and of row entries, is non-negative.  Only
     * the structure and the geometry are read, so the flags of any node can change freely.
     */
    ghost predicate ExtentsOk()
      reads this`childNodes, this`Repr, Repr`childNodes, Repr`Repr
      reads this`top, this`bottom, this`rowNodes, Repr`top, Repr`bottom, Repr`rowNodes
      requires Valid()
      decreases Repr
    {
      top >= 0 && bottom >= 0 &&
      (forall i :: 0 <= i < |rowNodes| ==> rowNodes[i].top >= 0 && rowNodes[i].bottom >= 0) &&
      forall i :: 0 <= i < |childNodes| ==> childNodes[i].ExtentsOk()
    }

    /** The heap view of non-negative extents is the value view. */
    lemma {:induction false} ExtentsMatch()
      requires Valid()
      ensures ExtentsOk() <==> ExtentsNonNegative(Model())
      decreases Repr
    {
      var m := Model();
      forall i | 0 <= i < |childNodes|
        ensures childNodes[i].ExtentsOk() <==> ExtentsNonNegative(m.children[i])
      {
        childNodes[i].ExtentsMatch();
      }
    }

    /** oDLNode(void): the root node, touched, expanded, no line and no geometry yet. */
    constructor Root()
      ensures Valid() && Repr == {this}
      ensures Model() == Fresh("", "", 0)
    {
      touched, expanded, lineNo, sortOrder := true, true, 0, 0;
      value, description := "", "";
      childNodes, rowNodes := [], [];
      top, bottom, treeIcon := 0, 0, EmptyRect;
      Repr := {this};
    }

    /** oDLNode(value, description, lineNo): a new grouping node, touched and expanded. */
    constructor (v: string, d: string, line: int)
      ensures Valid() && Repr == {this}
      ensures Model() == Fresh(v, d, line)
    {
      touched, expanded, lineNo, sortOrder := true, true, line, 0;
      value, description := v, d;
      childNodes, rowNodes := [], [];
      top, bottom, treeIcon := 0, 0, EmptyRect;
      Repr := {this};
    }

    // -------------------------------------------------------------------------
    // Properties
    // -------------------------------------------------------------------------

    method SetTouched(b: bool)
      requires Valid()
      modifies this`touched
      ensures Valid()
      ensures Model() == old(Model()).(touched := b)
    {
      touched := b;
      ChildrenKept();
    }

    method SetExpanded(b: bool)
      requires Valid()
      modifies this`expanded
      ensures Valid()
      ensures Model() == old(Model()).(expanded := b)
    {
      expanded := b;
      ChildrenKept();
    }

    method SetLineNo(line: int)
      requires Valid()
      modifies this`lineNo
      ensures Valid()
      ensures Model() == old(Model()).(lineNo := line)
    {
      lineNo := line;
      ChildrenKept();
    }

    method SetSortOrder(order: int)
      requires Valid()
      modifies this`sortOrder
      ensures Valid()
      ensures Model() == old(Model()).(sortOrder := order)
    {
      sortOrder := order;
      ChildrenKept();
    }

    /** setTop: the cached top of the node's extent. */
    method SetTop(t: int)
      requires Valid()
      modifies this`top
      ensures Valid()
      ensures Model() == old(Model()).(top := t)
    {
      top := t;
      ChildrenKept();
    }

    /** setBottom: the cached bottom of the node's extent. */
    method SetBottom(b: int)
      requires Valid()
      modifies this`bottom
      ensures Valid()
      ensures Model() == old(Model()).(bottom := b)
    {
      bottom := b;
      ChildrenKept();
    }

    /** setTreeIcon: where the expand/collapse icon was drawn. */
    method SetTreeIcon(r: Rect)
      requires Valid()
      modifies this`treeIcon
      ensures Valid()
      ensures Model() == old(Model()).(treeIcon := r)
    {
      treeIcon := r;
      ChildrenKept();
    }

    /** aboveTreeIcon: the point lies within the stored tree-icon rectangle, edges included. */
    function AboveTreeIcon(p: Point): (r: bool)
      reads this`treeIcon
      ensures r <==> treeIcon.left <= p.h <= treeIcon.right && treeIcon.top <= p.v <= treeIcon.bottom
    {
      Contains(treeIcon, p)
    }

    // -------------------------------------------------------------------------
    // Child nodes
    // -------------------------------------------------------------------------

    /** clearChildNodes: pops every child; the node is left with none. */
    method ClearChildNodes()
      requires Valid()
      modifies this`childNodes, this`Repr
      ensures Valid() && Repr == {this}
      ensures Model() == old(Model()).(children := [])
    {
      while |childNodes| > 0
        invariant childNodes == old(childNodes)[..|childNodes|]
        decreases |childNodes|
      {
        childNodes := childNodes[..|childNodes| - 1];
      }
      Repr := {this};
    }

    /** addNode: takes ownership of a node that is not yet part of this tree and appends it. */
    method AddNode(n: Node)
      requires Valid() && n.Valid() && n.Repr !! Repr
      modifies this`childNodes, this`Repr
      ensures Valid() && Repr == old(Repr) + n.Repr
      ensures childNodes == old(childNodes) + [n]
      ensures Model() == old(Model()).(children := old(Model()).children + [n.Model()])
    {
      childNodes := childNodes + [n];
      Repr := Repr + n.Repr;
      Appended(n);
    }

    /** addNode in two states: n, valid and disjoint from the node, became its last child. */
    twostate lemma Appended(n: Node)
      requires old(Valid()) && old(n.Valid()) && old(n.Repr) !! old(Repr)
      requires unchanged(old(Repr) - {this}) && unchanged(old(n.Repr))
      requires unchanged(this`touched, this`expanded, this`lineNo, this`sortOrder, this`value,
                         this`description, this`rowNodes, this`top, this`bottom, this`treeIcon)
      requires childNodes == old(childNodes) + [n] && Repr == old(Repr) + old(n.Repr)
      ensures Valid() && n.Valid() && n.Repr == old(n.Repr) && n.Model() == old(n.Model())
      ensures Model() == old(Model()).(children := old(Model()).children + [n.Model()])
    {
      var before := old(childNodes);
      var m0 := old(Model());
      n.Kept();
      forall i | 0 <= i < |before|
        ensures before[i].Valid() && before[i].Model() == m0.children[i] && before[i].Repr == old(before[i].Repr)
      {
        assert old(before[i].Repr) <= old(Repr) - {this};
        before[i].Kept();
      }
      ChildrenAfterAppend(before, m0.children, n);
    }

    /** The facts behind addNode, in the state after n was appended and its footprint joined. */
    lemma ChildrenAfterAppend(before: seq<Node>, ms: seq<Tree>, n: Node)
      requires |before| == |ms| && childNodes == before + [n]
      requires this in Repr && n in Repr && n.Repr <= Repr && this !in n.Repr && n.Valid()
      requires forall i :: 0 <= i < |before| ==>
        before[i] in Repr && before[i].Repr <= Repr && this !in before[i].Repr && before[i].Valid() &&
        before[i].Model() == ms[i] && before[i].Repr !! n.Repr
      requires forall i, j :: 0 <= i < j < |before| ==> before[i].Repr !! before[j].Repr
      ensures Valid()
      ensures Model() == Tree(touched, expanded, lineNo, sortOrder, value, description, ms + [n.Model()], rowNodes, top, bottom, treeIcon)
    {
      assert forall i :: 0 <= i < |before| ==> childNodes[i] == before[i];
      Assembled(ms + [n.Model()]);
    }


    /**
     * The node is valid and stands for its own fields over the child values ms when every
     * child is owned, valid and stands for its entry of ms, and the children own disjoint parts.
     */
    lemma Assembled(ms: seq<Tree>)
      requires this in Repr && |ms| == |childNodes|
      requires forall i :: 0 <= i < |childNodes| ==>
        childNodes[i] in Repr && childNodes[i].Repr <= Repr && this !in childNodes[i].Repr &&
        childNodes[i].Valid() && childNodes[i].Model() == ms[i]
      requires forall i, j :: 0 <= i < j < |childNodes| ==> childNodes[i].Repr !! childNodes[j].Repr
      ensures Valid()
      ensures Model() == Tree(touched, expanded, lineNo, sortOrder, value, description, ms, rowNodes, top, bottom, treeIcon)
    {
      assert Valid();
      assert ChildModels(|childNodes|) == ms;
    }

    /** childNodeCount: the number of children of the node's value. */
    function ChildNodeCount(): (r: nat)
      reads this, Repr
      requires Valid()
      ensures r == |Model().children|
    {
      |childNodes|
    }

    /** getChildByIndex: the child at that index, or null past the end. */
    function GetChildByIndex(i: nat): (r: Node?)
      reads this`childNodes, this`Repr, Repr`childNodes, Repr`Repr
      requires Valid()
      ensures i < |childNodes| ==> r != null && r == childNodes[i] && r.Valid() && r.Repr < Repr
      ensures i >= |childNodes| ==> r == null
    {
      if i < |childNodes| then childNodes[i] else null
    }

    /** findChildByDescription: the first child, in index order, whose description is d, else null. */
    method FindChildByDescription(d: string) returns (r: Node?)
      requires Valid()
      ensures FirstWithKey(Model().children, LabelKey(d)) == -1 ==> r == null
      ensures FirstWithKey(Model().children, LabelKey(d)) >= 0 ==>
                r == childNodes[FirstWithKey(Model().children, LabelKey(d))]
    {
      ghost var kids := Model().children;
      var index := 0;
      while index < |childNodes|
        invariant 0 <= index <= |childNodes|
        invariant forall j :: 0 <= j < index ==> !HasKey(kids[j], LabelKey(d))
      {
        var child := childNodes[index];
        assert kids[index] == child.Model();
        if d == child.description {
          return child;
        }
        index := index + 1;
      }
      return null;
    }

    /** findChildByValue: the first child, in index order, whose value is v, else null. */
    method FindChildByValue(v: string) returns (r: Node?)
      requires Valid()
      ensures FirstWithKey(Model().children, ValueKey(v)) == -1 ==> r == null
      ensures FirstWithKey(Model().children, ValueKey(v)) >= 0 ==>
                r == childNodes[FirstWithKey(Model().children, ValueKey(v))]
    {
      ghost var kids := Model().children;
      var index := 0;
      while index < |childNodes|
        invariant 0 <= index <= |childNodes|
        invariant forall j :: 0 <= j < index ==> !HasKey(kids[j], ValueKey(v))
      {
        var child := childNodes[index];
        assert kids[index] == child.Model();
        if v == child.value {
          return child;
        }
        index := index + 1;
      }
      return null;
    }

    // -------------------------------------------------------------------------
    // Row entries
    // -------------------------------------------------------------------------

    method AddRow(row: Row)
      requires Valid()
      modifies this`rowNodes
      ensures Valid()
      ensures Model() == old(Model()).(rows := old(Model()).rows + [row])
    {
      rowNodes := rowNodes + [row];
      ChildrenKept();
    }

    /** rowCount: the number of row entries of the node's value. */
    function RowCount(): (r: nat)
      reads this, Repr
      requires Valid()
      ensures r == |Model().rows|
    {
      |rowNodes|
    }

    /** getRowAtIndex: the entry at that index, or the empty row {0, 0, 0} past the end. */
    function GetRowAtIndex(i: nat): (r: Row)
      reads this`rowNodes
      ensures i < |rowNodes| ==> r == rowNodes[i]
      ensures i >= |rowNodes| ==> r == NoRow
    {
      if i < |rowNodes| then rowNodes[i] else NoRow
    }

    /** setRowAtIndex: replaces the entry at that index; past the end nothing changes. */
    method SetRowAtIndex(i: nat, row: Row)
      requires Valid()
      modifies this`rowNodes
      ensures Valid()
      ensures i < |old(rowNodes)| ==> rowNodes == old(rowNodes)[i := row] && GetRowAtIndex(i) == row
      ensures i >= |old(rowNodes)| ==> rowNodes == old(rowNodes)
      ensures Model() == old(Model()).(rows := rowNodes)
    {
      if i < |rowNodes| {
        rowNodes := rowNodes[i := row];
      }
      ChildrenKept();
    }

    /** hasRow: some row entry of this node (its children are not searched) shows the line. */
    method HasRow(line: int) returns (r: bool)
      ensures r <==> exists i :: 0 <= i < |rowNodes| && rowNodes[i].lineNo == line
      ensures Valid() ==> (r <==> HasRowHere(Model(), line))
    {
      var index := 0;
      while index < |rowNodes|
        invariant 0 <= index <= |rowNodes|
        invariant forall j :: 0 <= j < index ==> rowNodes[j].lineNo != line
      {
        if rowNodes[index].lineNo == line {
          return true;
        }
        index := index + 1;
      }
      return false;
    }

    /**
     * findRowAtPoint: the line of a row entry whose stored extent contains the point
     * vertically, or 0 when there is none.
     */
    method FindRowAtPoint(p: Point) returns (r: int)
      ensures r != 0 ==> exists i :: 0 <= i < |rowNodes| && rowNodes[i].lineNo == r &&
                                      rowNodes[i].top <= p.v <= rowNodes[i].bottom
      ensures r == 0 ==> forall i :: 0 <= i < |rowNodes| && rowNodes[i].top <= p.v <= rowNodes[i].bottom ==>
                                       rowNodes[i].lineNo == 0
    {
      var index := 0;
      while index < |rowNodes|
        invariant 0 <= index <= |rowNodes|
        invariant forall j :: 0 <= j < index && rowNodes[j].top <= p.v <= rowNodes[j].bottom ==> rowNodes[j].lineNo == 0
      {
        var row := rowNodes[index];
        if row.top <= p.v <= row.bottom && row.lineNo != 0 {
          return row.lineNo;
        }
        index := index + 1;
      }
      return 0;
    }

    /**
     * findChildByPoint: the deepest node below this one whose stored extent contains the
     * point vertically, descending only into expanded nodes; null when no child contains it.
     */
    method FindChildByPoint(p: Point) returns (r: Node?)
      requires Valid()
      ensures r != null ==> r in Repr && r.Repr <= Repr && r != this && r.Valid() && r.top <= p.v <= r.bottom
      ensures r == null <==> forall i :: 0 <= i < |childNodes| ==> !(childNodes[i].top <= p.v <= childNodes[i].bottom)
      decreases Repr
    {
      var index := 0;
      while index < |childNodes|
        invariant 0 <= index <= |childNodes|
        invariant forall j :: 0 <= j < index ==> !(childNodes[j].top <= p.v <= childNodes[j].bottom)
      {
        var child := childNodes[index];
        if child.top <= p.v <= child.bottom {
          if child.expanded {
            var below := child.FindChildByPoint(p);
            if below != null {
              return below;
            }
          }
          return child;
        }
        index := index + 1;
      }
      return null;
    }

    // -------------------------------------------------------------------------
    // Placing one row (the body of the rebuild loop)
    // -------------------------------------------------------------------------

    /**
     * The row `line` walks the grouping levels from this node: an empty group text stays at
     * this node; otherwise the child with the group's key is touched again, or a new child is
     * made and appended, and the walk goes on there; at the end the row becomes a row entry.
     */
    method PlaceRow(line: int, levels: seq<Level>)
      requires Valid()
      modifies Repr
      ensures Valid() && old(Repr) <= Repr && fresh(Repr - old(Repr))
      ensures Model() == Place(old(Model()), line, levels)
      ensures |childNodes| >= |old(childNodes)| && childNodes[..|old(childNodes)|] == old(childNodes)
      decreases |levels|, 1
    {
      if levels == [] {
        AddRow(Row(line, 0, 0));
      } else if levels[0].group == "" {
        PlaceRow(line, levels[1..]);
      } else {
        PlaceGrouped(line, levels);
      }
    }

    /** A level with a group text: the child with the group's key is entered, or a new one is added. */
    method PlaceGrouped(line: int, levels: seq<Level>)
      requires Valid() && levels != [] && levels[0].group != ""
      modifies Repr
      ensures Valid() && old(Repr) <= Repr && fresh(Repr - old(Repr))
      ensures Model() == Place(old(Model()), line, levels)
      ensures |childNodes| >= |old(childNodes)| && childNodes[..|old(childNodes)|] == old(childNodes)
      decreases |levels|, 0
    {
      var g := ParseGroup(levels[0].group);
      ghost var m0 := Model();
      ghost var k := FirstWithKey(m0.children, g.key);
      GroupKeyed(levels[0].group);
      var child := FindByKey(g);
      Kept();
      if child != null {
        EnterAt(child, k, line, levels[1..], levels[0].parent);
        PlaceFound(m0, line, levels, k);
      } else {
        AddGroup(g.value, g.desc, line, levels[1..], levels[0].parent);
        PlaceNew(m0, line, levels);
      }
    }

    /** The child a group is looked up by: by value when the group text named one, by label otherwise. */
    method FindByKey(g: Group) returns (r: Node?)
      requires Valid() && (g.key == ValueKey(g.value) || g.key == LabelKey(g.desc))
      ensures FirstWithKey(Model().children, g.key) == -1 ==> r == null
      ensures FirstWithKey(Model().children, g.key) >= 0 ==> r == childNodes[FirstWithKey(Model().children, g.key)]
    {
      if g.key.ValueKey? {
        r := FindChildByValue(g.value);
      } else {
        r := FindChildByDescription(g.desc);
      }
    }

    /** A new child for a group key not seen yet below this node: made, appended, then entered by the row. */
    method AddGroup(v: string, d: string, line: int, rest: seq<Level>, parent: bool)
      requires Valid()
      modifies Repr
      ensures Valid() && old(Repr) <= Repr && fresh(Repr - old(Repr))
      ensures Model() == old(Model()).(children := old(Model()).children + [Enter(Fresh(v, d, 0), line, rest, parent)])
      ensures |childNodes| >= |old(childNodes)| && childNodes[..|old(childNodes)|] == old(childNodes)
      decreases |rest|, 4
    {
      ghost var m0 := Model();
      var n := new Node(v, d, 0);
      Kept();
      AddNode(n);
      ghost var m1 := Model();
      assert m1.children == m0.children + [Fresh(v, d, 0)];
      EnterAt(n, |childNodes| - 1, line, rest, parent);
      assert m1.children[|m0.children| := Enter(Fresh(v, d, 0), line, rest, parent)]
          == m0.children + [Enter(Fresh(v, d, 0), line, rest, parent)];
    }

    /** The row enters this node as the child of its group: touched again, then made the row or walked further. */
    method EnterRow(line: int, rest: seq<Level>, parent: bool)
      requires Valid()
      modifies Repr
      ensures Valid() && old(Repr) <= Repr && fresh(Repr - old(Repr))
      ensures Model() == Enter(old(Model()), line, rest, parent)
      ensures |childNodes| >= |old(childNodes)| && childNodes[..|old(childNodes)|] == old(childNodes)
      decreases |rest|, 2
    {
      SetTouched(true);
      if parent {
        SetLineNo(line);
      } else {
        PlaceRow(line, rest);
      }
    }

    /** The row enters the existing child found by its key, the one at index. */
    method EnterAt(child: Node, ghost index: nat, line: int, rest: seq<Level>, parent: bool)
      requires Valid() && index < |childNodes| && child == childNodes[index]
      modifies Repr
      ensures Valid() && old(Repr) <= Repr && fresh(Repr - old(Repr))
      ensures Model() == old(Model()).(children := old(Model().children)[index := Enter(old(Model().children[index]), line, rest, parent)])
      ensures childNodes == old(childNodes)
      decreases |rest|, 3
    {
      assert old(Model().children[index]) == child.Model();
      child.EnterRow(line, rest, parent);
      Repr := Repr + child.Repr;
      ChildrenAfterGrow(index);
    }

    /**
     * A change confined to one child, whose footprint only grew by new objects, keeps
     * validity and the values of the other children.
     */
    twostate lemma ChildrenAfterGrow(index: nat)
      requires old(Valid()) && index < |old(childNodes)|
      requires unchanged(old(Repr) - old(childNodes[index].Repr) - {this})
      requires unchanged(this`childNodes, this`touched, this`expanded, this`lineNo, this`sortOrder, this`value,
                         this`description, this`rowNodes, this`top, this`bottom, this`treeIcon)
      requires childNodes[index].Valid() && old(childNodes[index].Repr) <= childNodes[index].Repr
      requires fresh(childNodes[index].Repr - old(childNodes[index].Repr))
      requires Repr == old(Repr) + childNodes[index].Repr
      ensures Valid()
      ensures Model() == old(Model()).(children := old(Model().children)[index := childNodes[index].Model()])
    {
      var oc := old(childNodes);
      var ms := old(Model().children);
      forall i | 0 <= i < |oc| && i != index
        ensures oc[i].Valid() && oc[i].Model() == ms[i] && oc[i].Repr == old(oc[i].Repr)
      {
        assert old(oc[i].Repr) !! old(oc[index].Repr);
        assert old(oc[i].Repr) <= old(Repr) - old(oc[index].Repr) - {this};
        oc[i].Kept();
      }
      Assembled(ms[index := oc[index].Model()]);
    }

    // -------------------------------------------------------------------------
    // Mark and sweep
    // -------------------------------------------------------------------------

    /**
     * unTouchChildren: every child is marked untouched and then treated the same way;
     * finally the node's own row entries are dropped.  The node's own flag stays as it was.
     */
    method UnTouchChildren()
      requires Valid()
      modifies Repr
      ensures Valid() && Repr == old(Repr) && childNodes == old(childNodes)
      ensures Model() == UnTouchBelow(old(Model()))
      decreases Repr, 1
    {
      ghost var m0 := Model();
      UnTouchEach();
      ghost var m1 := Model();
      assert m1 == UnTouchBelow(m0).(rows := m0.rows);
      ClearRows();
    }

    /** mRowNodes.clear(): the node keeps its children and loses its row entries. */
    method ClearRows()
      requires Valid()
      modifies this`rowNodes
      ensures Valid()
      ensures Model() == old(Model()).(rows := [])
    {
      rowNodes := [];
      ChildrenKept();
    }

    /** The loop of unTouchChildren: each child in turn is marked untouched and swept below. */
    method UnTouchEach()
      requires Valid()
      modifies Repr - {this}
      ensures Valid() && Repr == old(Repr) && childNodes == old(childNodes)
      ensures Model().children == UnTouchBelow(old(Model())).children
      decreases Repr, 0
    {
      ghost var m0 := Model();
      ghost var u := UnTouchBelow(m0);
      var index := 0;
      while index < |childNodes|
        invariant 0 <= index <= |childNodes|
        invariant childNodes == old(childNodes) && Repr == old(Repr)
        invariant Valid() && |Model().children| == |m0.children|
        invariant forall i :: 0 <= i < index ==> Model().children[i] == u.children[i]
        invariant forall i :: index <= i < |m0.children| ==> Model().children[i] == m0.children[i]
      {
        UnTouchAt(index);
        index := index + 1;
      }
    }

    /** One turn of the unTouchChildren loop: child index is marked untouched and swept below. */
    method UnTouchAt(index: nat)
      requires Valid() && index < |childNodes|
      modifies childNodes[index].Repr
      ensures Valid() && Repr == old(Repr) && childNodes == old(childNodes)
      ensures Model().children == old(Model().children)[index := UnTouchBelow(old(Model().children[index])).(touched := false)]
      decreases childNodes[index].Repr, 3
    {
      var child := childNodes[index];
      child.UnTouch();
      ChildrenAfterUpdate(index);
    }

    /** A change confined to the footprint of one child keeps validity and the values of the other children. */
    twostate lemma ChildrenAfterUpdate(index: nat)
      requires old(Valid()) && index < |old(childNodes)|
      requires unchanged(old(Repr) - old(childNodes[index].Repr))
      requires childNodes[index].Valid() && childNodes[index].Repr == old(childNodes[index].Repr)
      ensures Valid()
      ensures Model() == old(Model()).(children := old(Model().children)[index := childNodes[index].Model()])
    {
      var ms := old(Model().children);
      forall i | 0 <= i < |childNodes| && i != index
        ensures childNodes[i].Valid() && childNodes[i].Model() == ms[i]
      {
        assert old(childNodes[i].Repr) !! old(childNodes[index].Repr);
      }
      Assembled(ms[index := childNodes[index].Model()]);
    }

    /** The body of unTouchChildren's loop for this node as the child: setTouched(false), then unTouchChildren. */
    method UnTouch()
      requires Valid()
      modifies Repr
      ensures Valid() && Repr == old(Repr) && childNodes == old(childNodes)
      ensures Model() == UnTouchBelow(old(Model())).(touched := false)
      decreases Repr, 2
    {
      SetTouched(false);
      UnTouchChildren();
    }

    /**
     * removeUntouched: walks the children once; a touched child is swept in turn and kept,
     * an untouched one is detached together with its subtree.
     */
    method RemoveUntouched()
      requires Valid()
      modifies Repr
      ensures Valid() && Repr == old(Repr)
      ensures childNodes == Keep(old(childNodes), TouchedFlags(old(Model()).children))
      ensures Model() == Prune(old(Model()))
      decreases Repr, 2
    {
      ghost var m0 := Model();
      RemoveEach();
      ghost var p := Prune(m0);
      assert Model().children == p.children;
      assert p.touched == touched && p.expanded == expanded && p.lineNo == lineNo && p.sortOrder == sortOrder;
      assert p.value == value && p.description == description && p.rows == rowNodes;
      assert p.top == top && p.bottom == bottom && p.treeIcon == treeIcon;
    }

    /** The loop of removeUntouched, over the children as they were when it started. */
    method RemoveEach()
      requires Valid()
      modifies Repr - {this}, this`childNodes
      ensures Valid() && Repr == old(Repr)
      ensures childNodes == Keep(old(childNodes), TouchedFlags(old(Model()).children))
      ensures Model().children == PruneFirst(old(Model()), |old(childNodes)|)
      decreases Repr, 1
    {
      ghost var m0 := Model();
      ghost var flags := TouchedFlags(m0.children);
      ghost var oc := childNodes;
      ghost var k := 0;
      ghost var kept: seq<Node> := [];
      ghost var pm: seq<Tree> := [];
      var index := 0;
      SweptStart();
      while index < |childNodes|
        invariant Repr == old(Repr)
        invariant Swept(oc, flags, m0, k, kept, pm, index)
        decreases |oc| - k
      {
        index, kept, pm := SweepAt(index, oc, flags, m0, k, kept, pm);
        k := k + 1;
      }
      SweptEnd(oc, flags, m0, k, kept, pm, index);
    }

    lemma SweptStart()
      requires Valid()
      ensures Swept(childNodes, TouchedFlags(Model().children), Model(), 0, [], [], 0)
    {
      assert childNodes[0..] == childNodes && Model().children[0..] == Model().children;
    }

    lemma SweptEnd(oc: seq<Node>, flags: seq<bool>, m0: Tree, k: int, kept: seq<Node>, pm: seq<Tree>, index: int)
      requires Swept(oc, flags, m0, k, kept, pm, index) && index >= |childNodes|
      ensures Valid() && childNodes == Keep(oc, flags) && Model().children == PruneFirst(m0, |oc|)
    {
      assert k == |oc| by {
        assert |childNodes| == |kept| + |oc[k..]|;
      }
      assert oc[..k] == oc && flags[..k] == flags;
    }

    /**
     * The state of removeUntouched's loop after the first k of the original children oc:
     * the touched ones among them, swept, make up the first index children; the rest is untouched.
     */
    ghost predicate Swept(oc: seq<Node>, flags: seq<bool>, m0: Tree, k: int, kept: seq<Node>, pm: seq<Tree>, index: int)
      reads this, Repr
    {
      Valid() && 0 <= k <= |oc| == |flags| == |m0.children| &&
      kept == Keep(oc[..k], flags[..k]) && pm == PruneFirst(m0, k) &&
      childNodes == kept + oc[k..] && index == |kept| == |pm| &&
      Model().children == pm + m0.children[k..]
    }

    /** One turn of removeUntouched's loop, on the child at index (the original child k). */
    method SweepAt(index: int, ghost oc: seq<Node>, ghost flags: seq<bool>, ghost m0: Tree, ghost k: int,
                   ghost kept: seq<Node>, ghost pm: seq<Tree>)
      returns (index': int, ghost kept': seq<Node>, ghost pm': seq<Tree>)
      requires Swept(oc, flags, m0, k, kept, pm, index) && index < |childNodes|
      requires flags == TouchedFlags(m0.children)
      modifies Repr - {this}, this`childNodes
      ensures Repr == old(Repr) && Swept(oc, flags, m0, k + 1, kept', pm', index')
      decreases Repr, 0
    {
      var child := childNodes[index];
      assert child == oc[k] && child.Model() == m0.children[k] by {
        assert childNodes[index] == (kept + oc[k..])[|kept|];
        assert Model().children[index] == (pm + m0.children[k..])[|pm|];
      }
      if child.touched {
        KeepAt(index);
        index', kept', pm' := index + 1, kept + [child], pm + [Prune(m0.children[k])];
        SweptAfterKeep(oc, flags, m0, k, kept, pm, index);
      } else {
        DropAt(index);
        index', kept', pm' := index, kept, pm;
        SweptAfterDrop(oc, flags, m0, k, kept, pm, index);
      }
    }

    /** After a touched child was swept in place, the loop state covers one more original child. */
    lemma SweptAfterKeep(oc: seq<Node>, flags: seq<bool>, m0: Tree, k: int, kept: seq<Node>, pm: seq<Tree>, index: int)
      requires Valid() && 0 <= k < |oc| == |flags| == |m0.children| && flags == TouchedFlags(m0.children)
      requires flags[k] && kept == Keep(oc[..k], flags[..k]) && pm == PruneFirst(m0, k)
      requires childNodes == kept + oc[k..] && index == |kept| == |pm|
      requires Model().children == (pm + m0.children[k..])[index := Prune(m0.children[k])]
      ensures Swept(oc, flags, m0, k + 1, kept + [oc[k]], pm + [Prune(m0.children[k])], index + 1)
    {
      KeepStep(oc, flags, k);
      SplitHead(kept, oc[k..]);
      SplitHead(pm, m0.children[k..]);
      assert oc[k..][1..] == oc[k + 1..] && m0.children[k..][1..] == m0.children[k + 1..];
    }

    /** After an untouched child was dropped, the loop state covers one more original child. */
    lemma SweptAfterDrop(oc: seq<Node>, flags: seq<bool>, m0: Tree, k: int, kept: seq<Node>, pm: seq<Tree>, index: int)
      requires Valid() && 0 <= k < |oc| == |flags| == |m0.children| && flags == TouchedFlags(m0.children)
      requires !flags[k] && kept == Keep(oc[..k], flags[..k]) && pm == PruneFirst(m0, k)
      requires index == |kept| == |pm| < |kept + oc[k..]|
      requires childNodes == (kept + oc[k..])[..index] + (kept + oc[k..])[index + 1..]
      requires Model().children == (pm + m0.children[k..])[..index] + (pm + m0.children[k..])[index + 1..]
      ensures Swept(oc, flags, m0, k + 1, kept, pm, index)
    {
      KeepStep(oc, flags, k);
      SplitHead(kept, oc[k..]);
      SplitHead(pm, m0.children[k..]);
      assert oc[k..][1..] == oc[k + 1..] && m0.children[k..][1..] == m0.children[k + 1..];
    }

    /** A touched child of removeUntouched's loop: it is swept in turn and stays where it is. */
    method KeepAt(index: nat)
      requires Valid() && index < |childNodes|
      modifies childNodes[index].Repr
      ensures Valid() && Repr == old(Repr) && childNodes == old(childNodes)
      ensures Model().children == old(Model().children)[index := Prune(old(Model().children[index]))]
      decreases childNodes[index].Repr, 3
    {
      var child := childNodes[index];
      child.RemoveUntouched();
      ChildrenAfterUpdate(index);
    }

    /** An untouched child of removeUntouched's loop: it is taken out of the child list. */
    method DropAt(index: nat)
      requires Valid() && index < |childNodes|
      modifies this`childNodes
      ensures Valid() && Repr == old(Repr)
      ensures childNodes == old(childNodes)[..index] + old(childNodes)[index + 1..]
      ensures Model().children == old(Model().children)[..index] + old(Model().children)[index + 1..]
    {
      ghost var ms := Model().children;
      ghost var before := childNodes;
      childNodes := childNodes[..index] + childNodes[index + 1..];
      ChildrenAfterDrop(before, ms, index);
    }

    /** The facts behind dropAt, in the state after the child list lost its element at index. */
    lemma ChildrenAfterDrop(before: seq<Node>, ms: seq<Tree>, index: nat)
      requires index < |before| == |ms| && childNodes == before[..index] + before[index + 1..]
      requires this in Repr
      requires forall i :: 0 <= i < |before| ==>
        before[i] in Repr && before[i].Repr <= Repr && this !in before[i].Repr && before[i].Valid() && before[i].Model() == ms[i]
      requires forall i, j :: 0 <= i < j < |before| ==> before[i].Repr !! before[j].Repr
      ensures Valid() && Model().children == ms[..index] + ms[index + 1..]
    {
      assert forall i :: 0 <= i < index ==> childNodes[i] == before[i];
      assert forall i :: index <= i < |childNodes| ==> childNodes[i] == before[i + 1];
      Assembled(ms[..index] + ms[index + 1..]);
    }

    /** order(A, B): A sorts strictly before B. */
    static predicate Order(a: Node, b: Node)
      reads a`sortOrder, b`sortOrder
    {
      a.sortOrder < b.sortOrder
    }

    /**
     * sortChildren: reorders the children so that no child sorts strictly before an earlier
     * sibling; the children themselves, and the values they stand for, stay the same.
     */
    method SortChildren()
      requires Valid()
      modifies this`childNodes
      ensures Valid()
      ensures multiset(childNodes) == multiset(old(childNodes))
      ensures multiset(Model().children) == multiset(old(Model()).children)
      ensures SortedChildren(Model().children)
      ensures Model() == old(Model()).(children := Model().children)
    {
      ghost var m0 := Model();
      SortKeys();
      var cs, ms, perm := InsertionSorted(childNodes, m0.children);
      Rearrange(cs, ms, perm);
    }

    /** Each child's value carries the child's sort order. */
    lemma SortKeys()
      requires Valid()
      ensures forall a :: 0 <= a < |childNodes| ==> Model().children[a].sortOrder == childNodes[a].sortOrder
    {
      forall a | 0 <= a < |childNodes|
        ensures Model().children[a].sortOrder == childNodes[a].sortOrder
      {
        assert Model().children[a] == childNodes[a].Model();
      }
    }

    /**
     * Puts the children in the order given by perm: child a becomes the old child perm[a].
     * The values of the children move with them.
     */
    method Rearrange(cs: seq<Node>, ghost ms: seq<Tree>, ghost perm: seq<int>)
      requires Valid()
      requires Arranged(cs, ms, perm, childNodes, Model().children)
      modifies this`childNodes
      ensures Valid() && childNodes == cs
      ensures Model() == old(Model()).(children := ms)
    {
      RearrangedOwned(cs, ms, perm);
      ghost var m0 := Model();
      assert m0.rows == rowNodes && m0.touched == touched && m0.expanded == expanded && m0.lineNo == lineNo;
      childNodes := cs;
      Assembled(ms);
    }

    /** The children of a valid node, rearranged, are still owned, valid, disjoint and stand for ms. */
    lemma RearrangedOwned(cs: seq<Node>, ms: seq<Tree>, perm: seq<int>)
      requires Valid()
      requires Arranged(cs, ms, perm, childNodes, Model().children)
      ensures forall a :: 0 <= a < |cs| ==>
        cs[a] in Repr && cs[a].Repr <= Repr && this !in cs[a].Repr && cs[a].Valid() && cs[a].Model() == ms[a]
      ensures forall a, b :: 0 <= a < b < |cs| ==> cs[a].Repr !! cs[b].Repr
    {
      var oc := childNodes;
      forall a | 0 <= a < |cs|
        ensures cs[a] in Repr && cs[a].Repr <= Repr && this !in cs[a].Repr && cs[a].Valid() && cs[a].Model() == ms[a]
      {
        assert cs[a] == oc[perm[a]];
      }
      DisjointRearranged(cs, perm, oc);
    }

    /**
     * findTopForRow: the stored top of the line within this subtree, -1 when it is absent.
     * Only the declaration exists; the search order of FindTop (the header, the own row
     * entries, then the children depth first, collapsed ones included) is this model's reading.
     */
    method FindTopForRow(line: int) returns (r: int)
      requires Valid()
      ensures r == FindTop(Model(), line)
      decreases Repr, 1
    {
      ghost var m := Model();
      if line != 0 && lineNo == line {
        return top;
      }
      var index := 0;
      while index < |rowNodes|
        invariant 0 <= index <= |rowNodes|
        invariant forall j :: 0 <= j < index ==> rowNodes[j].lineNo != line
      {
        if rowNodes[index].lineNo == line {
          assert FirstRow(m.rows, line) == index;
          return rowNodes[index].top;
        }
        index := index + 1;
      }
      r := FindTopInChildren(line);
    }

    /** The second half of findTopForRow: the children, in order, until one of them knows the line. */
    method FindTopInChildren(line: int) returns (r: int)
      requires Valid()
      ensures r == FindTopFrom(Model(), 0, line)
      decreases Repr, 0
    {
      ghost var m := Model();
      var index := 0;
      while index < |childNodes|
        invariant 0 <= index <= |childNodes|
        invariant FindTopFrom(m, index, line) == FindTopFrom(m, 0, line)
      {
        assert m.children[index] == childNodes[index].Model();
        var t := childNodes[index].FindTopForRow(line);
        Kept();
        if t != -1 {
          return t;
        }
        index := index + 1;
      }
      return -1;
    }
  }

  /** Replacing or removing the element just after a prefix p. */
  lemma SplitHead<T>(p: seq<T>, rest: seq<T>)
    requires |rest| > 0
    ensures forall x :: (p + rest)[|p| := x] == (p + [x]) + rest[1..]
    ensures (p + rest)[..|p|] + (p + rest)[|p| + 1..] == p + rest[1..]
    ensures (p + rest)[|p|] == rest[0] && p + rest == (p + [rest[0]]) + rest[1..]
  {
    forall x ensures (p + rest)[|p| := x] == (p + [x]) + rest[1..] {
      assert forall i :: 0 <= i < |p + rest| ==> (p + rest)[|p| := x][i] == ((p + [x]) + rest[1..])[i];
    }
    assert (p + rest)[..|p|] == p;
    assert (p + rest)[|p| + 1..] == rest[1..];
  }

  /** The sequence with the elements at a and b exchanged. */
  function Swap<T>(s: seq<T>, a: nat, b: nat): (r: seq<T>)
    requires a < b < |s|
    ensures |r| == |s|
    ensures forall i :: 0 <= i < |s| ==> r[i] == s[if i == a then b else if i == b then a else i]
    ensures multiset(r) == multiset(s)
  {
    SwapKeepsMultiset(s, a, b);
    s[a := s[b]][b := s[a]]
  }

  /**
   * cs and ms are oc and mc rearranged by the same permutation perm; sortChildren keeps this
   * while it moves nodes around.
   */
  ghost predicate Arranged(cs: seq<Node>, ms: seq<Tree>, perm: seq<int>, oc: seq<Node>, mc: seq<Tree>)
  {
    |cs| == |ms| == |perm| == |oc| == |mc| &&
    (forall a :: 0 <= a < |perm| ==> 0 <= perm[a] < |oc| && cs[a] == oc[perm[a]] && ms[a] == mc[perm[a]]) &&
    (forall a, b :: 0 <= a < b < |perm| ==> perm[a] != perm[b]) &&
    multiset(cs) == multiset(oc) && multiset(ms) == multiset(mc)
  }

  lemma SwapArranged(cs: seq<Node>, ms: seq<Tree>, perm: seq<int>, oc: seq<Node>, mc: seq<Tree>, a: nat, b: nat)
    requires Arranged(cs, ms, perm, oc, mc) && a < b < |cs|
    ensures Arranged(Swap(cs, a, b), Swap(ms, a, b), Swap(perm, a, b), oc, mc)
  {
  }

  /** The first i nodes are in ascending sort order. */
  ghost predicate SortedPrefix(cs: seq<Node>, i: int)
    reads set a | 0 <= a < |cs| :: cs[a]
  {
    forall a, b :: 0 <= a < b < i && b < |cs| ==> cs[a].sortOrder <= cs[b].sortOrder
  }

  /** One pass of insertion: moves cs[i] down past every earlier node that sorts after it. */
  method InsertLast(cs: seq<Node>, ghost ms: seq<Tree>, ghost perm: seq<int>, ghost oc: seq<Node>, ghost mc: seq<Tree>, i: nat)
    returns (cs': seq<Node>, ghost ms': seq<Tree>, ghost perm': seq<int>)
    requires Arranged(cs, ms, perm, oc, mc) && i < |cs| && SortedPrefix(cs, i)
    ensures Arranged(cs', ms', perm', oc, mc) && SortedPrefix(cs', i + 1)
  {
    cs', ms', perm' := cs, ms, perm;
    var j := i;
    while j > 0 && Node.Order(cs'[j], cs'[j - 1])
      invariant 0 <= j <= i < |cs'|
      invariant Arranged(cs', ms', perm', oc, mc)
      invariant Travelling(cs', i, j)
    {
      SwapArranged(cs', ms', perm', oc, mc, j - 1, j);
      ghost var prev := cs';
      cs', ms', perm' := Swap(cs', j - 1, j), Swap(ms', j - 1, j), Swap(perm', j - 1, j);
      InsertStep(prev, cs', i, j);
      j := j - 1;
    }
    InsertDone(cs', i, j);
  }

  /**
   * The state of one insertion pass: cs[j] is the travelling node, which sorts before
   * everything after it up to i; the others among the first i + 1 are in order.
   */
  ghost predicate Travelling(cs: seq<Node>, i: int, j: int)
    requires 0 <= j <= i < |cs|
    reads set a | 0 <= a < |cs| :: cs[a]
  {
    (forall a, b :: 0 <= a < b <= i && a != j && b != j ==> cs[a].sortOrder <= cs[b].sortOrder) &&
    (forall b :: j < b <= i ==> cs[j].sortOrder < cs[b].sortOrder)
  }

  /** Moving the travelling node one place down keeps everything else in order. */
  lemma InsertStep(cs: seq<Node>, s: seq<Node>, i: nat, j: nat)
    requires 0 < j <= i < |cs| && cs[j].sortOrder < cs[j - 1].sortOrder && s == Swap(cs, j - 1, j)
    requires Travelling(cs, i, j)
    ensures Travelling(s, i, j - 1)
  {
    assert s[j - 1] == cs[j] && s[j] == cs[j - 1];
    forall a, b | 0 <= a < b <= i && a != j - 1 && b != j - 1
      ensures s[a].sortOrder <= s[b].sortOrder
    {
      assert s[a] == (if a == j then cs[j - 1] else cs[a]);
      assert s[b] == (if b == j then cs[j - 1] else cs[b]);
    }
    forall b | j - 1 < b <= i
      ensures s[j - 1].sortOrder < s[b].sortOrder
    {
      assert s[b] == (if b == j then cs[j - 1] else cs[b]);
    }
  }

  /** Once the travelling node is in place, the first i + 1 nodes are in order. */
  lemma InsertDone(cs: seq<Node>, i: nat, j: nat)
    requires j <= i < |cs| && (j == 0 || cs[j - 1].sortOrder <= cs[j].sortOrder)
    requires Travelling(cs, i, j)
    ensures SortedPrefix(cs, i + 1)
  {
    forall a, b | 0 <= a < b < i + 1
      ensures cs[a].sortOrder <= cs[b].sortOrder
    {
      if a == j || b == j || a == j - 1 {
      } else if b == j - 1 {
      } else {
      }
    }
  }

  /**
   * Insertion sort of the nodes oc by sort order; ms and perm record where the values mc of the
   * nodes and the original positions went.
   */
  method InsertionSorted(oc: seq<Node>, ghost mc: seq<Tree>) returns (cs: seq<Node>, ghost ms: seq<Tree>, ghost perm: seq<int>)
    requires |oc| == |mc| && forall a :: 0 <= a < |oc| ==> mc[a].sortOrder == oc[a].sortOrder
    ensures Arranged(cs, ms, perm, oc, mc)
    ensures forall a, b :: 0 <= a < b < |cs| ==> cs[a].sortOrder <= cs[b].sortOrder
    ensures SortedChildren(ms)
  {
    cs, ms, perm := oc, mc, seq(|oc|, a => a);
    if |cs| == 0 {
      return;
    }
    var i := 1;
    while i < |cs|
      invariant 1 <= i <= |cs|
      invariant Arranged(cs, ms, perm, oc, mc)
      invariant SortedPrefix(cs, i)
    {
      cs, ms, perm := InsertLast(cs, ms, perm, oc, mc, i);
      i := i + 1;
    }
    assert forall a :: 0 <= a < |ms| ==> ms[a].sortOrder == cs[a].sortOrder by {
      forall a | 0 <= a < |ms|
        ensures ms[a].sortOrder == cs[a].sortOrder
      {
        assert ms[a] == mc[perm[a]] && cs[a] == oc[perm[a]];
      }
    }
  }

  /** Rearranging nodes with pairwise disjoint footprints keeps them pairwise disjoint. */
  lemma DisjointRearranged(cs: seq<Node>, perm: seq<int>, oc: seq<Node>)
    requires |cs| == |perm| == |oc|
    requires forall a :: 0 <= a < |perm| ==> 0 <= perm[a] < |oc| && cs[a] == oc[perm[a]]
    requires forall a, b :: 0 <= a < b < |perm| ==> perm[a] != perm[b]
    requires forall a, b :: 0 <= a < b < |oc| ==> oc[a].Repr !! oc[b].Repr
    ensures forall a, b :: 0 <= a < b < |cs| ==> cs[a].Repr !! cs[b].Repr
  {
    forall a, b | 0 <= a < b < |cs|
      ensures cs[a].Repr !! cs[b].Repr
    {
      if perm[a] < perm[b] {
        assert oc[perm[a]].Repr !! oc[perm[b]].Repr;
      } else {
        assert oc[perm[b]].Repr !! oc[perm[a]].Repr;
      }
    }
  }
}
