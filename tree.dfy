/**
 * The value view of the outline's node tree (oDLNode): what one node and everything
 * below it hold, and the meaning of the tree operations on that value.  The class in
 * module DLNodes is proved against these definitions.
 */
module DLTree {
  import opened Geometry

  /** A row entry of a node (sDLRow): the line of the data list it shows and its cached extent. */
  datatype Row = Row(lineNo: int, top: int, bottom: int)

  /** What getRowAtIndex answers for an index past the end. */
  const NoRow := Row(0, 0, 0)

  /**
   * A node and its subtree.  `touched` marks the node as still part of the data list,
   * `lineNo == 0` marks a pure grouping header, otherwise the header is itself that line.
   * `top`, `bottom` and `treeIcon` are the geometry cached by the last layout.
   */
  datatype Tree = Tree(touched: bool, expanded: bool, lineNo: int, sortOrder: int,
                       value: string, description: string,
                       children: seq<Tree>, rows: seq<Row>,
                       top: int, bottom: int, treeIcon: Rect)

  /** A node as the constructor leaves it. */
  function Fresh(value: string, description: string, lineNo: int): Tree
  {
    Tree(true, true, lineNo, 0, value, description, [], [], 0, 0, EmptyRect)
  }

  // ---------------------------------------------------------------------------
  // Mark: unTouchChildren
  // ---------------------------------------------------------------------------

  /** unTouchChildren: every node strictly below t becomes untouched and every row entry is dropped. */
  function UnTouchBelow(t: Tree): Tree
  {
    t.(children := seq(|t.children|, i requires 0 <= i < |t.children| => UnTouchBelow(t.children[i]).(touched := false)),
       rows := [])
  }

  /** No node strictly below t is touched. */
  ghost predicate NoneTouchedBelow(t: Tree)
  {
    forall i :: 0 <= i < |t.children| ==> !t.children[i].touched && NoneTouchedBelow(t.children[i])
  }

  /** Neither t nor any node below it holds a row entry. */
  ghost predicate NoRowsAnywhere(t: Tree)
  {
    t.rows == [] && forall i :: 0 <= i < |t.children| ==> NoRowsAnywhere(t.children[i])
  }

  /**
   * a and b are the same nodes, in the same places, with the same keys, flags and
   * geometry, apart from the touched flags strictly below the top and the row entries.
   */
  ghost predicate SameNodes(a: Tree, b: Tree)
  {
    a.touched == b.touched && SameNodesBelow(a, b)
  }

  ghost predicate SameNodesBelow(a: Tree, b: Tree)
  {
    a.expanded == b.expanded && a.lineNo == b.lineNo && a.sortOrder == b.sortOrder &&
    a.value == b.value && a.description == b.description &&
    a.top == b.top && a.bottom == b.bottom && a.treeIcon == b.treeIcon &&
    |a.children| == |b.children| &&
    forall i :: 0 <= i < |a.children| ==> SameNodesBelow(a.children[i], b.children[i])
  }

  /**
   * After unTouchChildren the node keeps its own touched flag, every descendant is untouched,
   * no row entry is left anywhere, and every node stays where it was with its expanded state,
   * line, keys and cached geometry.
   */
  lemma {:induction false} UnTouchBelowMeaning(t: Tree)
    ensures SameNodes(t, UnTouchBelow(t))
    ensures NoneTouchedBelow(UnTouchBelow(t))
    ensures NoRowsAnywhere(UnTouchBelow(t))
    decreases t
  {
    var u := UnTouchBelow(t);
    forall i | 0 <= i < |t.children|
      ensures SameNodesBelow(t.children[i], u.children[i])
      ensures !u.children[i].touched && NoneTouchedBelow(u.children[i])
      ensures NoRowsAnywhere(u.children[i])
    {
      UnTouchBelowMeaning(t.children[i]);
    }
  }

  // ---------------------------------------------------------------------------
  // Sweep: removeUntouched
  // ---------------------------------------------------------------------------

  /** The elements of xs whose flag is set, in their original order. */
  function Keep<T>(xs: seq<T>, keep: seq<bool>): (r: seq<T>)
    requires |xs| == |keep|
    ensures |r| <= |xs|
  {
    if xs == [] then []
    else Keep(xs[..|xs| - 1], keep[..|keep| - 1]) + (if keep[|keep| - 1] then [xs[|xs| - 1]] else [])
  }

  /** Extending the filtered prefix by one element appends that element exactly when it is kept. */
  lemma KeepStep<T>(xs: seq<T>, keep: seq<bool>, k: nat)
    requires |xs| == |keep| && k < |xs|
    ensures Keep(xs[..k + 1], keep[..k + 1]) == Keep(xs[..k], keep[..k]) + (if keep[k] then [xs[k]] else [])
  {
    assert xs[..k + 1][..k] == xs[..k];
    assert keep[..k + 1][..k] == keep[..k];
  }

  /** Filtering a concatenation filters each part with its own flags. */
  lemma {:induction false} KeepAppend<T>(xs: seq<T>, ys: seq<T>, keep: seq<bool>)
    requires |xs| + |ys| == |keep|
    ensures Keep(xs + ys, keep) == Keep(xs, keep[..|xs|]) + Keep(ys, keep[|xs|..])
    decreases |ys|
  {
    if ys == [] {
      assert xs + ys == xs;
      assert keep[..|xs|] == keep;
    } else {
      var n := |keep|;
      var ys', last := ys[..|ys| - 1], ys[|ys| - 1];
      var tail := if keep[n - 1] then [last] else [];
      var rest := keep[|xs|..];
      assert (xs + ys)[..n - 1] == xs + ys' && (xs + ys)[n - 1] == last;
      assert Keep(xs + ys, keep) == Keep(xs + ys', keep[..n - 1]) + tail;
      KeepAppend(xs, ys', keep[..n - 1]);
      assert keep[..n - 1][..|xs|] == keep[..|xs|];
      assert keep[..n - 1][|xs|..] == rest[..|ys| - 1] && rest[|ys| - 1] == keep[n - 1];
      assert Keep(ys, rest) == Keep(ys', rest[..|ys| - 1]) + tail;
    }
  }

  /** Every element that is kept comes from the original sequence. */
  lemma {:induction false} KeepFrom<T>(xs: seq<T>, keep: seq<bool>)
    requires |xs| == |keep|
    ensures forall i :: 0 <= i < |Keep(xs, keep)| ==> Keep(xs, keep)[i] in xs
    decreases |xs|
  {
    if xs != [] {
      var xs' := xs[..|xs| - 1];
      KeepFrom(xs', keep[..|keep| - 1]);
      assert forall x :: x in xs' ==> x in xs;
    }
  }

  /** The touched flags of a sequence of nodes. */
  function TouchedFlags(ts: seq<Tree>): (r: seq<bool>)
    ensures |r| == |ts|
  {
    seq(|ts|, i requires 0 <= i < |ts| => ts[i].touched)
  }

  /** removeUntouched: every untouched child is dropped with its subtree; the touched ones are swept in turn. */
  function Prune(t: Tree): Tree
    decreases t, 1
  {
    t.(children := PruneFirst(t, |t.children|))
  }

  /** The swept survivors among the first k children of t, in order. */
  function PruneFirst(t: Tree, k: nat): seq<Tree>
    requires k <= |t.children|
    decreases t, 0, k
  {
    if k == 0 then []
    else
      PruneFirst(t, k - 1) + (if t.children[k - 1].touched then [Prune(t.children[k - 1])] else [])
  }

  /** Every node strictly below t is touched. */
  ghost predicate AllTouchedBelow(t: Tree)
  {
    forall i :: 0 <= i < |t.children| ==> t.children[i].touched && AllTouchedBelow(t.children[i])
  }

  /** Prune applied to each element. */
  function PruneEach(ts: seq<Tree>): (r: seq<Tree>)
    ensures |r| == |ts|
  {
    seq(|ts|, i requires 0 <= i < |ts| => Prune(ts[i]))
  }

  lemma {:induction false} PruneFirstIsKeep(t: Tree, k: nat)
    requires k <= |t.children|
    ensures PruneFirst(t, k) == PruneEach(Keep(t.children[..k], TouchedFlags(t.children[..k])))
    decreases k
  {
    if k > 0 {
      PruneFirstIsKeep(t, k - 1);
      var xs := t.children[..k];
      assert xs[..k - 1] == t.children[..k - 1];
      assert TouchedFlags(xs)[..k - 1] == TouchedFlags(t.children[..k - 1]);
    }
  }

  /**
   * removeUntouched keeps exactly the touched children, in their original relative order,
   * each swept in turn, and changes nothing else about the node.
   */
  lemma PruneKeepsTouchedInOrder(t: Tree)
    ensures Prune(t) == t.(children := PruneEach(Keep(t.children, TouchedFlags(t.children))))
  {
    PruneFirstIsKeep(t, |t.children|);
    assert t.children[..|t.children|] == t.children;
  }

  lemma {:induction false} PruneFirstTouched(t: Tree, k: nat)
    requires k <= |t.children|
    ensures forall i :: 0 <= i < |PruneFirst(t, k)| ==> PruneFirst(t, k)[i].touched && AllTouchedBelow(PruneFirst(t, k)[i])
    decreases t, 0, k
  {
    if k > 0 {
      PruneFirstTouched(t, k - 1);
      if t.children[k - 1].touched {
        PruneAllTouched(t.children[k - 1]);
      }
    }
  }

  /** After removeUntouched every node that can still be reached below t is touched. */
  lemma {:induction false} PruneAllTouched(t: Tree)
    ensures AllTouchedBelow(Prune(t))
    decreases t, 1
  {
    PruneFirstTouched(t, |t.children|);
  }

  lemma {:induction false} PruneFirstOfLive(t: Tree, k: nat)
    requires k <= |t.children|
    requires AllTouchedBelow(t)
    ensures PruneFirst(t, k) == t.children[..k]
    decreases t, 0, k
  {
    if k > 0 {
      PruneFirstOfLive(t, k - 1);
      PruneOfLive(t.children[k - 1]);
      assert t.children[..k] == t.children[..k - 1] + [t.children[k - 1]];
    }
  }

  /** Sweeping a tree in which everything is touched changes nothing. */
  lemma {:induction false} PruneOfLive(t: Tree)
    requires AllTouchedBelow(t)
    ensures Prune(t) == t
    decreases t, 1
  {
    PruneFirstOfLive(t, |t.children|);
    assert t.children[..|t.children|] == t.children;
  }

  lemma {:induction false} PruneFirstOfDead(t: Tree, k: nat)
    requires k <= |t.children|
    requires forall i :: 0 <= i < |t.children| ==> !t.children[i].touched
    ensures PruneFirst(t, k) == []
    decreases k
  {
    if k > 0 {
      PruneFirstOfDead(t, k - 1);
    }
  }

  /** The mark keeps every stored extent and drops the row entries, so non-negative extents stay so. */
  lemma {:induction false} UnTouchBelowExtents(t: Tree)
    requires ExtentsNonNegative(t)
    ensures ExtentsNonNegative(UnTouchBelow(t))
    decreases t
  {
    var u := UnTouchBelow(t);
    forall i | 0 <= i < |u.children|
      ensures ExtentsNonNegative(u.children[i])
    {
      UnTouchBelowExtents(t.children[i]);
      assert u.children[i] == UnTouchBelow(t.children[i]).(touched := false);
    }
  }

  lemma {:induction false} PruneFirstExtents(t: Tree, k: nat)
    requires k <= |t.children| && ExtentsNonNegative(t)
    ensures forall i :: 0 <= i < |PruneFirst(t, k)| ==> ExtentsNonNegative(PruneFirst(t, k)[i])
    decreases t, 0, k
  {
    if k > 0 {
      PruneFirstExtents(t, k - 1);
      if t.children[k - 1].touched {
        PruneExtents(t.children[k - 1]);
      }
    }
  }

  /** The sweep only drops subtrees, so non-negative extents stay so. */
  lemma {:induction false} PruneExtents(t: Tree)
    requires ExtentsNonNegative(t)
    ensures ExtentsNonNegative(Prune(t))
    decreases t, 1
  {
    PruneFirstExtents(t, |t.children|);
  }

  /** Marking and then sweeping with nothing touched in between removes every child. */
  lemma MarkThenSweepEmpties(t: Tree)
    ensures Prune(UnTouchBelow(t)).children == []
    ensures Prune(UnTouchBelow(t)).rows == []
  {
    PruneFirstOfDead(UnTouchBelow(t), |t.children|);
  }

  // ---------------------------------------------------------------------------
  // Child lookup: findChildByValue and findChildByDescription
  // ---------------------------------------------------------------------------

  /** What a child is looked up by: its value, or its description. */
  datatype Key = ValueKey(value: string) | LabelKey(desc: string)

  predicate HasKey(t: Tree, key: Key)
  {
    match key
    case ValueKey(v) => t.value == v
    case LabelKey(d) => t.description == d
  }

  /** The index of the first node carrying the key, or -1 when there is none. */
  function FirstWithKey(ts: seq<Tree>, key: Key): (k: int)
    ensures -1 <= k < |ts|
    ensures k >= 0 ==> HasKey(ts[k], key) && forall j :: 0 <= j < k ==> !HasKey(ts[j], key)
    ensures k == -1 <==> forall j :: 0 <= j < |ts| ==> !HasKey(ts[j], key)
  {
    if ts == [] then -1
    else if HasKey(ts[0], key) then 0
    else
      var k := FirstWithKey(ts[1..], key);
      assert forall j :: 1 <= j < |ts| ==> ts[j] == ts[1..][j - 1];
      if k == -1 then -1 else k + 1
  }

  /** The first node carrying the key is identified by carrying it with none before it. */
  lemma FirstWithKeyAt(ts: seq<Tree>, key: Key, k: nat)
    requires k < |ts| && HasKey(ts[k], key)
    requires forall j :: 0 <= j < k ==> !HasKey(ts[j], key)
    ensures FirstWithKey(ts, key) == k
  {
  }

  /**
   * A kept node that is the first one carrying its key is, among the kept nodes, still the
   * first one carrying it.
   */
  lemma {:induction false} KeepFirstWithKey(ts: seq<Tree>, keep: seq<bool>, key: Key, k0: nat)
    requires |ts| == |keep| && k0 < |ts| && keep[k0] && FirstWithKey(ts, key) == k0
    ensures var ks := Keep(ts, keep);
            FirstWithKey(ks, key) >= 0 && ks[FirstWithKey(ks, key)] == ts[k0]
    decreases |ts|
  {
    var n := |ts|;
    var ts' := ts[..n - 1];
    var keep' := keep[..n - 1];
    var ks' := Keep(ts', keep');
    var ks := Keep(ts, keep);
    assert ks == ks' + (if keep[n - 1] then [ts[n - 1]] else []);
    if k0 == n - 1 {
      KeepFrom(ts', keep');
      forall j | 0 <= j < |ks'|
        ensures !HasKey(ks[j], key)
      {
        var x := ks'[j];
        assert x in ts';
        var i :| 0 <= i < |ts'| && ts'[i] == x;
        assert ts[i] == x;
      }
      assert ks[|ks'|] == ts[k0];
      FirstWithKeyAt(ks, key, |ks'|);
    } else {
      FirstWithKeyAt(ts', key, k0);
      KeepFirstWithKey(ts', keep', key, k0);
      var p := FirstWithKey(ks', key);
      assert forall j :: 0 <= j < |ks'| ==> ks[j] == ks'[j];
      FirstWithKeyAt(ks, key, p);
    }
  }

  // ---------------------------------------------------------------------------
  // Queries: hasRow and findTopForRow
  // ---------------------------------------------------------------------------

  /** The index of the first row entry showing the line, or -1 when there is none. */
  function FirstRow(rows: seq<Row>, line: int): (k: int)
    ensures -1 <= k < |rows|
    ensures k >= 0 ==> rows[k].lineNo == line && forall j :: 0 <= j < k ==> rows[j].lineNo != line
    ensures k == -1 <==> forall j :: 0 <= j < |rows| ==> rows[j].lineNo != line
  {
    if rows == [] then -1
    else if rows[0].lineNo == line then 0
    else
      var k := FirstRow(rows[1..], line);
      assert forall j :: 1 <= j < |rows| ==> rows[j] == rows[1..][j - 1];
      if k == -1 then -1 else k + 1
  }

  /** hasRow: some row entry of this node (not of its children) shows the line. */
  ghost predicate HasRowHere(t: Tree, line: int)
  {
    exists i :: 0 <= i < |t.rows| && t.rows[i].lineNo == line
  }

  /** The line is shown somewhere in the subtree: by a header that is that line, or by a row entry. */
  ghost predicate ShowsLine(t: Tree, line: int)
  {
    (line != 0 && t.lineNo == line) || HasRowHere(t, line) ||
    exists i :: 0 <= i < |t.children| && ShowsLine(t.children[i], line)
  }

  /**
   * findTopForRow: the header itself when it is that line, otherwise the node's own row
   * entries, otherwise its children in order, depth first; -1 when nothing answers.
   */
  function FindTop(t: Tree, line: int): int
    decreases t, 1
  {
    if line != 0 && t.lineNo == line then t.top
    else if FirstRow(t.rows, line) >= 0 then t.rows[FirstRow(t.rows, line)].top
    else FindTopFrom(t, 0, line)
  }

  /** The first answer other than -1 among the children of t from index k on. */
  function FindTopFrom(t: Tree, k: nat, line: int): int
    requires k <= |t.children|
    decreases t, 0, |t.children| - k
  {
    if k == |t.children| then -1
    else if FindTop(t.children[k], line) != -1 then FindTop(t.children[k], line)
    else FindTopFrom(t, k + 1, line)
  }

  lemma {:induction false} FindTopFromSound(t: Tree, k: nat, line: int)
    requires k <= |t.children|
    ensures FindTopFrom(t, k, line) != -1 ==> exists i :: k <= i < |t.children| && ShowsLine(t.children[i], line)
    decreases t, 0, |t.children| - k
  {
    if k < |t.children| {
      FindTopSound(t.children[k], line);
      FindTopFromSound(t, k + 1, line);
    }
  }

  /** An answer other than -1 always comes from a header or row entry that shows the line. */
  lemma {:induction false} FindTopSound(t: Tree, line: int)
    ensures FindTop(t, line) != -1 ==> ShowsLine(t, line)
    decreases t, 1
  {
    FindTopFromSound(t, 0, line);
  }

  /** Every stored top in the subtree, of headers and of row entries, is non-negative. */
  ghost predicate TopsNonNegative(t: Tree)
  {
    t.top >= 0 && (forall i :: 0 <= i < |t.rows| ==> t.rows[i].top >= 0) &&
    forall i :: 0 <= i < |t.children| ==> TopsNonNegative(t.children[i])
  }

  /**
   * Every stored extent in the subtree, of nodes and of row entries, lies at or below the
   * top of the content (coordinate 0): what the layout keeps, since it starts at 0.
   */
  ghost predicate ExtentsNonNegative(t: Tree)
  {
    t.top >= 0 && t.bottom >= 0 &&
    (forall i :: 0 <= i < |t.rows| ==> t.rows[i].top >= 0 && t.rows[i].bottom >= 0) &&
    forall i :: 0 <= i < |t.children| ==> ExtentsNonNegative(t.children[i])
  }

  lemma {:induction false} ExtentsTops(t: Tree)
    requires ExtentsNonNegative(t)
    ensures TopsNonNegative(t)
    decreases t
  {
    forall i | 0 <= i < |t.children|
      ensures TopsNonNegative(t.children[i])
    {
      ExtentsTops(t.children[i]);
    }
  }

  lemma {:induction false} FindTopFromComplete(t: Tree, k: nat, line: int)
    requires k <= |t.children|
    requires TopsNonNegative(t)
    ensures FindTopFrom(t, k, line) >= -1
    ensures (exists i :: k <= i < |t.children| && ShowsLine(t.children[i], line)) ==> FindTopFrom(t, k, line) >= 0
    decreases t, 0, |t.children| - k
  {
    if k < |t.children| {
      FindTopComplete(t.children[k], line);
      FindTopFromComplete(t, k + 1, line);
      if exists i :: k <= i < |t.children| && ShowsLine(t.children[i], line) {
        var i :| k <= i < |t.children| && ShowsLine(t.children[i], line);
        if i > k {
          assert k + 1 <= i < |t.children| && ShowsLine(t.children[i], line);
        }
      }
    }
  }

  /** Once the stored tops are valid, every line shown in the subtree is found, at a non-negative top. */
  lemma {:induction false} FindTopComplete(t: Tree, line: int)
    requires TopsNonNegative(t)
    ensures FindTop(t, line) >= -1
    ensures ShowsLine(t, line) ==> FindTop(t, line) >= 0
    decreases t, 1
  {
    FindTopFromComplete(t, 0, line);
  }

  /**
   * Once the stored tops are valid (non-negative), the -1 answer of findTopForRow means
   * exactly that the line is not in the tree.
   */
  lemma SentinelMeansAbsent(t: Tree, line: int)
    requires TopsNonNegative(t)
    ensures FindTop(t, line) == -1 <==> !ShowsLine(t, line)
  {
    FindTopSound(t, line);
    FindTopComplete(t, line);
  }

  // ---------------------------------------------------------------------------
  // order and sortChildren
  // ---------------------------------------------------------------------------

  /** order(A, B): A sorts strictly before B. */
  predicate Order(a: Tree, b: Tree)
  {
    a.sortOrder < b.sortOrder
  }

  /** Exchanging two elements keeps the multiset of the sequence. */
  lemma SwapKeepsMultiset<T>(s: seq<T>, a: nat, b: nat)
    requires a < b < |s|
    ensures multiset(s[a := s[b]][b := s[a]]) == multiset(s)
  {
    var s1 := s[a := s[b]];
    assert multiset(s1) == multiset(s) - multiset{s[a]} + multiset{s[b]};
    assert multiset(s1[b := s[a]]) == multiset(s1) - multiset{s1[b]} + multiset{s[a]};
  }

  /** No child sorts strictly before an earlier sibling. */
  ghost predicate SortedChildren(ts: seq<Tree>)
  {
    forall i, j :: 0 <= i < j < |ts| ==> !Order(ts[j], ts[i])
  }
}
