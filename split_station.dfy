/**
 * The SplitDockStation itself: the Root's child, the list of displayers
 * (one per child Dockable, in the order they were added), their
 * visibility, the fullscreen displayer and the three size settings.
 *
 * A displayer is named by the Dockable it shows. Leaf.setDockable is not
 * part of this model; it is taken to remove the displayer of the leaf's old
 * dockable and to add one for its new dockable, which is how the station's
 * own code uses it.
 */
module SplitStation {
  import opened Wrappers
  import opened SplitTree
  import opened SplitPlacement

  /** How a call ends: normally, or with the exception it throws
      (IllegalArgumentException, or the one a null argument raises). */
  datatype Outcome = Success | IllegalArgument | MissingArgument

  /** `s` without its `i`-th element (List.remove(int)). */
  function RemoveAt(s: seq<Dockable>, i: nat): (r: seq<Dockable>)
    requires i < |s|
    ensures |r| == |s| - 1
    ensures forall j | 0 <= j < i :: r[j] == s[j]
    ensures forall j | i <= j < |r| :: r[j] == s[j + 1]
  {
    s[..i] + s[i + 1..]
  }

  /** The first index of `d` in `ds`, or -1 (List.indexOf). */
  function IndexOf(ds: seq<Dockable>, d: Dockable): (i: int)
    ensures -1 <= i < |ds|
    ensures i == -1 <==> d !in ds
    ensures i >= 0 ==> ds[i] == d && d !in ds[..i]
  {
    if |ds| == 0 then -1
    else if ds[0] == d then 0
    else
      var k := IndexOf(ds[1..], d);
      assert k >= 0 ==> ds[..k + 1] == [ds[0]] + ds[1..][..k];
      if k == -1 then -1 else k + 1
  }

  /** The fullscreen dockable after setNextFullScreen: the first child when
      none is fullscreen, else the child after the fullscreen one, wrapping
      around; nothing changes without children. */
  function NextFullScreen(ds: seq<Dockable>, fs: Option<Dockable>): Option<Dockable>
    requires fs.Some? ==> fs.value in ds
  {
    if |ds| == 0 then fs
    else if fs.None? then Some(ds[0])
    else Some(ds[(IndexOf(ds, fs.value) + 1) % |ds|])
  }

  /** The fullscreen dockable once the `i`-th displayer is removed: when it
      was the fullscreen one, fullscreen passes to the next child, or ends
      when it was the only child. */
  function HandOff(ds: seq<Dockable>, fs: Option<Dockable>, i: nat): Option<Dockable>
    requires i < |ds|
  {
    if fs == Some(ds[i]) then (if |ds| > 1 then Some(ds[(i + 1) % |ds|]) else None)
    else fs
  }

  /** setNextFullScreen cycles through the children in list order. */
  lemma NextFullScreenCycles(ds: seq<Dockable>, i: nat)
    requires Distinct(ds) && i < |ds|
    ensures NextFullScreen(ds, Some(ds[i])) == Some(ds[(i + 1) % |ds|])
  {
    IndexOfFirst(ds, i, ds[i]);
  }

  /** The first occurrence of `d` is where IndexOf finds it. */
  lemma {:induction false} IndexOfFirst(ds: seq<Dockable>, i: nat, d: Dockable)
    requires i < |ds| && ds[i] == d && d !in ds[..i]
    ensures IndexOf(ds, d) == i
  {
    if i > 0 {
      assert ds[0] == ds[..i][0];
      assert ds[1..][..i - 1] == ds[..i][1..];
      IndexOfFirst(ds[1..], i - 1, d);
    }
  }

  /** After the hand-off, fullscreen is off or held by a remaining child;
      it is off only when it was off already or the only child left. */
  lemma HandOffStaysDisplayed(ds: seq<Dockable>, fs: Option<Dockable>, i: nat)
    requires Distinct(ds) && i < |ds| && (fs.Some? ==> fs.value in ds)
    ensures var r := HandOff(ds, fs, i);
      && (r.Some? ==> r.value in RemoveAt(ds, i))
      && (r.None? <==> fs.None? || (fs == Some(ds[i]) && |ds| == 1))
  {
    var r := HandOff(ds, fs, i);
    if fs == Some(ds[i]) && |ds| > 1 {
      var j := (i + 1) % |ds|;
      assert ds[j] != ds[i];
      if j < i {
        assert RemoveAt(ds, i)[j] == ds[j];
      } else {
        assert j == i + 1;
        assert RemoveAt(ds, i)[i] == ds[j];
      }
    } else if r.Some? {
      var j :| 0 <= j < |ds| && ds[j] == fs.value;
      assert j != i;
      if j < i {
        assert RemoveAt(ds, i)[j] == ds[j];
      } else {
        assert RemoveAt(ds, i)[j - 1] == ds[j];
      }
    }
  }

  lemma RemoveAtMultiset(s: seq<Dockable>, i: nat)
    requires i < |s|
    ensures multiset(RemoveAt(s, i)) == multiset(s) - multiset{s[i]}
    ensures Distinct(s) ==> Distinct(RemoveAt(s, i)) && s[i] !in RemoveAt(s, i)
  {
    assert s == s[..i] + [s[i]] + s[i + 1..];
    if Distinct(s) {
      var r := RemoveAt(s, i);
      forall a, b | 0 <= a < b < |r|
        ensures r[a] != r[b]
      {
        var a' := if a < i then a else a + 1;
        var b' := if b < i then b else b + 1;
        assert r[a] == s[a'] && r[b] == s[b'];
      }
      forall j | 0 <= j < |r|
        ensures r[j] != s[i]
      {
        assert r[j] == s[if j < i then j else j + 1];
      }
    }
  }

  lemma AppendDistinct(s: seq<Dockable>, d: Dockable)
    requires Distinct(s) && d !in s
    ensures Distinct(s + [d])
  {
  }

  /** A sequence has no repetitions exactly when every element occurs
      once in its multiset. */
  lemma DistinctCounts(s: seq<Dockable>)
    ensures Distinct(s) <==> forall x | x in multiset(s) :: multiset(s)[x] == 1
  {
    if Distinct(s) {
      DistinctOnce(s);
    } else {
      var i, j :| 0 <= i < j < |s| && s[i] == s[j];
      RepeatTwice(s, i, j);
    }
  }

  lemma {:induction false} DistinctOnce(s: seq<Dockable>)
    requires Distinct(s)
    ensures forall x | x in multiset(s) :: multiset(s)[x] == 1
  {
    if s != [] {
      var h, t := s[0], s[1..];
      assert s == [h] + t;
      assert Distinct(t) by {
        forall i, j | 0 <= i < j < |t| ensures t[i] != t[j] {
          assert t[i] == s[i + 1] && t[j] == s[j + 1];
        }
      }
      assert h !in t by {
        forall j | 0 <= j < |t| ensures t[j] != h {
          assert t[j] == s[j + 1];
        }
      }
      DistinctOnce(t);
    }
  }

  lemma RepeatTwice(s: seq<Dockable>, i: nat, j: nat)
    requires i < j < |s| && s[i] == s[j]
    ensures multiset(s)[s[i]] >= 2
  {
    assert s == s[..j] + [s[j]] + s[j + 1..];
    assert s[..j][i] == s[i];
  }

  /** Two sequences with the same elements either both repeat one or
      neither does. */
  lemma DistinctTransfer(a: seq<Dockable>, b: seq<Dockable>)
    requires multiset(a) == multiset(b) && Distinct(a)
    ensures Distinct(b)
  {
    DistinctCounts(a);
    DistinctCounts(b);
  }

  /** Sequences with the same multiset have the same elements. */
  lemma SameElements(a: seq<Dockable>, b: seq<Dockable>)
    requires multiset(a) == multiset(b)
    ensures forall x :: x in a <==> x in b
  {
    forall x ensures x in a <==> x in b {
      assert x in a <==> x in multiset(a);
      assert x in b <==> x in multiset(b);
    }
  }

  /** Every displayed dockable is in a tree with the same dockables. */
  lemma AllIn(ds: seq<Dockable>, L: seq<Dockable>)
    requires multiset(ds) == multiset(L)
    ensures forall j | 0 <= j < |ds| :: ds[j] in L
    ensures forall x | x in L :: x in ds
  {
    SameElements(ds, L);
  }

  /** The displayers and the leaves of the tree show the same dockables,
      each once. */
  predicate Balanced(root: Option<Tree>, ds: seq<Dockable>) {
    multiset(ds) == multiset(RootLeaves(root)) && Distinct(RootLeaves(root))
  }

  /** Trading the `i`-th displayer for `c` while the tree trades the same
      dockable for `c` keeps the displayers and the leaves in step. */
  lemma TradeBalance(ds: seq<Dockable>, L: seq<Dockable>, i: nat, c: Dockable, L2: seq<Dockable>)
    requires Distinct(ds) && multiset(ds) == multiset(L) && i < |ds| && c !in ds
    requires multiset(L2) == multiset(L) - multiset{ds[i]} + multiset{c}
    ensures c !in RemoveAt(ds, i)
    ensures Distinct(RemoveAt(ds, i) + [c]) && Distinct(L2)
    ensures multiset(RemoveAt(ds, i) + [c]) == multiset(L2)
  {
    RemoveAtMultiset(ds, i);
    var r := RemoveAt(ds, i);
    SameElements(r, ds[..i] + ds[i + 1..]);
    DistinctTransfer(r + [c], L2);
  }

  /** Taking the `i`-th displayer away while the tree loses the same
      dockable keeps the two in step. */
  lemma DropBalance(ds: seq<Dockable>, L: seq<Dockable>, i: nat, L2: seq<Dockable>)
    requires Distinct(ds) && multiset(ds) == multiset(L) && i < |ds|
    requires multiset(L2) == multiset(L) - multiset{ds[i]}
    ensures Distinct(RemoveAt(ds, i)) && Distinct(L2)
    ensures multiset(RemoveAt(ds, i)) == multiset(L2)
    ensures forall j | 0 <= j < |ds| && j != i :: ds[j] in L2
  {
    RemoveAtMultiset(ds, i);
    DistinctTransfer(RemoveAt(ds, i), L2);
    forall j | 0 <= j < |ds| && j != i
      ensures ds[j] in L2
    {
      var r := RemoveAt(ds, i);
      assert ds[j] == r[if j < i then j else j - 1];
      assert ds[j] in multiset(r);
    }
  }

  /** Replacing one element replaces it in the multiset. */
  lemma UpdateMultiset(s: seq<Dockable>, o: nat, c: Dockable)
    requires o < |s|
    ensures multiset(s[o := c]) == multiset(s) - multiset{s[o]} + multiset{c}
  {
    assert s == s[..o] + [s[o]] + s[o + 1..];
    assert s[o := c] == s[..o] + [c] + s[o + 1..];
  }

  /** The result of drop: a new Node above the old child when the station
      had no node to aim at, the combination in place of a target leaf for
      CENTER and TITLE, otherwise a new Node beside the target (a Node
      target of CENTER or TITLE is treated as TOP). */
  function DropTree(root: Option<Tree>, info: PutInfo, divider: real, c: Dockable, o: Orientation, nodeDivider: real): Option<Tree>
    requires info.node.At? ==> root.Some? && ValidPath(root.value, info.node.path)
  {
    match info.node
    case NoNode => Some(AddedRoot(root, info.dockable, o, nodeDivider))
    case RootNode => root
    case At(q) =>
      if DropsOver(root, info) then Some(ReplaceLeaf(root.value, q, c))
      else Some(DropAsideTree(root.value, q, AsideOf(info.put), info.dockable, divider))
  }

  /** drop and move combine when CENTER or TITLE aims at a leaf. */
  predicate DropsOver(root: Option<Tree>, info: PutInfo)
    requires info.node.At? ==> root.Some? && ValidPath(root.value, info.node.path)
  {
    info.node.At? && (info.put == Center || info.put == Title) && Subtree(root.value, info.node.path).Leaf?
  }

  /** The side dropAside uses: CENTER and TITLE on a Node become TOP. */
  function AsideOf(put: Put): Put {
    if put == Center || put == Title then Top else put
  }

  /** The tree after move: the leaf at `lp` is deleted, and its dockable
      either combined with the target leaf at `q` or put beside the
      target, the target being found again by Rebase. */
  function MoveTree(t: Tree, lp: Path, q: Path, put: Put, divider: real, c: Dockable): Tree
    requires ValidPath(t, lp) && Subtree(t, lp).Leaf? && |lp| > 0
    requires ValidPath(t, q) && q != lp && q != ParentPath(lp)
  {
    if (put == Center || put == Title) && Subtree(t, q).Leaf? then MoveOverTree(t, lp, q, c)
    else MoveAsideTree(t, lp, q, AsideOf(put), divider)
  }

  /** move over a target leaf: the leaf at `lp` is deleted and the
      combination `c` replaces the target, found again by Rebase. */
  function MoveOverTree(t: Tree, lp: Path, q: Path, c: Dockable): Tree
    requires ValidPath(t, lp) && Subtree(t, lp).Leaf? && |lp| > 0
    requires ValidPath(t, q) && q != lp && q != ParentPath(lp) && Subtree(t, q).Leaf?
  {
    RebaseFollows(t, lp, q);
    LeafNotAncestor(t, q, lp);
    ReplaceLeaf(DeleteLeaf(t, lp).value, Rebase(lp, q), c)
  }

  /** The node move drops beside or over: a target that is the moved
      leaf's parent is replaced by the leaf's sibling, since the parent
      disappears with Leaf.delete. A target other than the moved leaf
      itself means the leaf is not the whole tree. */
  function MoveTarget(t: Tree, lp: Path, node: Target): (q: Path)
    requires ValidPath(t, lp) && Subtree(t, lp).Leaf?
    requires node.At? && ValidPath(t, node.path) && Subtree(t, node.path) != Subtree(t, lp)
    ensures |lp| > 0 && ValidPath(t, q) && q != lp && q != ParentPath(lp)
    ensures Retarget(lp, node) == Some(At(q))
  {
    if node.path == ParentPath(lp) then
      SiblingValid(t, lp);
      assert SiblingPath(lp)[|lp| - 1] != lp[|lp| - 1];
      SiblingPath(lp)
    else node.path
  }

  /** A leaf is an ancestor of no other node. */
  lemma LeafNotAncestor(t: Tree, q: Path, p: Path)
    requires ValidPath(t, q) && Subtree(t, q).Leaf? && ValidPath(t, p) && p != q
    ensures !IsPrefix(q, p)
  {
    if IsPrefix(q, p) {
      assert p == q + p[|q|..];
      BelowLeaf(t, q, p[|q|..]);
      assert false;
    }
  }

  /** Combining over a leaf trades its dockable for the combination. */
  lemma ReplaceLeafMultiset(t: Tree, q: Path, c: Dockable)
    requires ValidPath(t, q) && Subtree(t, q).Leaf?
    ensures multiset(Leaves(ReplaceLeaf(t, q, c))) == multiset(Leaves(t)) - multiset{Subtree(t, q).dockable} + multiset{c}
  {
    ReplaceLeafShape(t, q, c);
    LeafAtOffset(t, q);
    UpdateMultiset(Leaves(t), LeafOffset(t, q), c);
  }

  /** dropAside adds exactly the dropped dockable. */
  lemma DropAsideMultiset(t: Tree, q: Path, put: Put, d: Dockable, divider: real)
    requires ValidPath(t, q)
    ensures multiset(Leaves(DropAsideTree(t, q, put, d, divider))) == multiset(Leaves(t)) + multiset{d}
  {
    DropAsideLeaves(t, q, put, d, divider);
    InsertMultiset(Leaves(t), AsideOffset(t, q, put), d);
  }

  lemma InsertMultiset(L: seq<Dockable>, k: nat, d: Dockable)
    requires k <= |L|
    ensures multiset(L[..k] + [d] + L[k..]) == multiset(L) + multiset{d}
  {
    assert L == L[..k] + L[k..];
  }

  /** Leaf.delete removes exactly the leaf's dockable. */
  lemma DeleteLeafMultiset(t: Tree, p: Path)
    requires ValidPath(t, p) && Subtree(t, p).Leaf?
    ensures multiset(RootLeaves(DeleteLeaf(t, p))) == multiset(Leaves(t)) - multiset{Subtree(t, p).dockable}
  {
    DeleteLeafLeaves(t, p);
    LeafAtOffset(t, p);
    RemoveAtMultiset(Leaves(t), LeafOffset(t, p));
  }

  /** Trading a leaf's dockable for `c`, and its displayer for one of `c`,
      keeps the displayers and the leaves in step. */
  lemma TradeLeaf(t: Tree, q: Path, c: Dockable, ds: seq<Dockable>)
    requires ValidPath(t, q) && Subtree(t, q).Leaf?
    requires Distinct(ds) && multiset(ds) == multiset(Leaves(t)) && c !in ds
    ensures var i := IndexOf(ds, Subtree(t, q).dockable);
      && 0 <= i < |ds|
      && c !in RemoveAt(ds, i)
      && Balanced(Some(ReplaceLeaf(t, q, c)), RemoveAt(ds, i) + [c])
      && forall j | 0 <= j < |ds| && j != i :: ds[j] in Leaves(t)
  {
    LeafAtOffset(t, q);
    AllIn(ds, Leaves(t));
    var i := IndexOf(ds, Subtree(t, q).dockable);
    ReplaceLeafMultiset(t, q, c);
    TradeBalance(ds, Leaves(t), i, c, Leaves(ReplaceLeaf(t, q, c)));
  }

  /** Deleting a leaf and removing its dockable's displayer keeps the
      displayers and the leaves in step; every other displayer stays in
      the tree. */
  lemma DeleteBalance(t: Tree, lp: Path, ds: seq<Dockable>)
    requires ValidPath(t, lp) && Subtree(t, lp).Leaf? && |lp| > 0
    requires Distinct(ds) && multiset(ds) == multiset(Leaves(t))
    ensures var i := IndexOf(ds, Subtree(t, lp).dockable);
      && 0 <= i < |ds|
      && Balanced(DeleteLeaf(t, lp), RemoveAt(ds, i))
      && forall j | 0 <= j < |ds| && j != i :: ds[j] in RootLeaves(DeleteLeaf(t, lp))
  {
    var d := Subtree(t, lp).dockable;
    LeafAtOffset(t, lp);
    DeleteLeafMultiset(t, lp);
    AllIn(ds, Leaves(t));
    assert d in Leaves(t);
    var i := IndexOf(ds, d);
    DropBalance(ds, Leaves(t), i, RootLeaves(DeleteLeaf(t, lp)));
  }

  /** drop keeps every dockable of the tree, adds the dropped one, or
      trades the target leaf's dockable for the combination. */
  lemma DropTreeLeaves(root: Option<Tree>, info: PutInfo, divider: real, c: Dockable, o: Orientation, nodeDivider: real)
    requires info.node.At? ==> root.Some? && ValidPath(root.value, info.node.path)
    requires info.node != RootNode
    ensures var r := RootLeaves(DropTree(root, info, divider, c, o, nodeDivider));
      if DropsOver(root, info) then
        multiset(r) == multiset(RootLeaves(root)) - multiset{Subtree(root.value, info.node.path).dockable} + multiset{c}
      else multiset(r) == multiset(RootLeaves(root)) + multiset{info.dockable}
  {
    if info.node.At? {
      if DropsOver(root, info) {
        ReplaceLeafMultiset(root.value, info.node.path, c);
      } else {
        DropAsideMultiset(root.value, info.node.path, AsideOf(info.put), info.dockable, divider);
      }
    }
  }

  /** move takes no dockable out of the tree and adds none, except that a
      combination replaces the moved dockable and the target's. */
  lemma MoveTreeLeaves(t: Tree, lp: Path, q: Path, put: Put, divider: real, c: Dockable)
    requires ValidPath(t, lp) && Subtree(t, lp).Leaf? && |lp| > 0
    requires ValidPath(t, q) && q != lp && q != ParentPath(lp)
    ensures var r := Leaves(MoveTree(t, lp, q, put, divider, c));
      if (put == Center || put == Title) && Subtree(t, q).Leaf? then
        multiset(r) == multiset(Leaves(t)) - multiset{Subtree(t, lp).dockable} - multiset{Subtree(t, q).dockable} + multiset{c}
      else multiset(r) == multiset(Leaves(t))
  {
    if (put == Center || put == Title) && Subtree(t, q).Leaf? {
      RebaseFollows(t, lp, q);
      LeafNotAncestor(t, q, lp);
      DeleteLeafMultiset(t, lp);
      ReplaceLeafMultiset(DeleteLeaf(t, lp).value, Rebase(lp, q), c);
    } else {
      MoveAsidePermutes(t, lp, q, AsideOf(put), divider);
    }
  }

  class SplitDockStation {
    /** The Root's child, or nothing when the station is empty. */
    var root: Option<Tree>
    /** The displayers, named by their dockables. */
    var dockables: seq<Dockable>
    /** Whether each displayer's component is visible. */
    var visible: seq<bool>
    /** The fullscreen displayer, or nothing. */
    var fullScreen: Option<Dockable>
    /** Pixels between two children. */
    var dividerSize: int
    /** Relative size of the border in which a drop snaps to a side. */
    var sideSnapSize: real
    /** Pixels of the border around the station in which a drop snaps. */
    var borderSideSnapSize: int

    /** The displayers are distinct, the fullscreen one is among them, and
        exactly the fullscreen displayer is visible, or all are when none is
        fullscreen. */
    predicate DisplayersValid()
      reads this
    {
      && |visible| == |dockables|
      && Distinct(dockables)
      && (fullScreen.Some? ==> fullScreen.value in dockables)
      && forall i | 0 <= i < |dockables| :: visible[i] == (fullScreen.None? || dockables[i] == fullScreen.value)
    }

    /** The station's invariant: the displayers and the leaves of the tree
        show the same dockables, each once, and no size setting is
        negative. */
    predicate Valid()
      reads this
    {
      && DisplayersValid()
      && Balanced(root, dockables)
      && dividerSize >= 0 && sideSnapSize >= 0.0 && borderSideSnapSize >= 0
    }

    /** The three size settings, which only their setters change. */
    function Settings(): (int, real, int)
      reads this
    {
      (dividerSize, sideSnapSize, borderSideSnapSize)
    }

    constructor()
      ensures Valid()
      ensures root == None && dockables == [] && fullScreen == None
      ensures dividerSize == 4 && sideSnapSize == 0.25 && borderSideSnapSize == 25
    {
      root := None;
      dockables := [];
      visible := [];
      fullScreen := None;
      dividerSize := 4;
      sideSnapSize := 0.25;
      borderSideSnapSize := 25;
    }

    // -------------------------------------------------------------------
    // Displayers and fullscreen

    /** indexOfDockable: the index of the displayer of `d`, or -1. */
    method IndexOfDockable(d: Dockable) returns (index: int)
      ensures index == IndexOf(dockables, d)
    {
      var i := 0;
      while i < |dockables|
        invariant 0 <= i <= |dockables|
        invariant d !in dockables[..i]
      {
        if dockables[i] == d {
          IndexOfFirst(dockables, i, d);
          return i;
        }
        i := i + 1;
      }
      assert dockables[..i] == dockables;
      return -1;
    }

    /** isVisible: the station is visible (a parameter; it depends on the
        parent station or on Swing) and either nothing or `d` itself is
        fullscreen. */
    function IsVisible(stationVisible: bool, d: Dockable): bool
      reads this
    {
      stationVisible && (fullScreen.None? || fullScreen.value == d)
    }

    /** isVisible agrees with the visibility of the dockable's displayer
        component whenever the station itself is visible. */
    lemma IsVisibleAgrees(stationVisible: bool, i: nat)
      requires DisplayersValid() && i < |dockables|
      ensures IsVisible(stationVisible, dockables[i]) == (stationVisible && visible[i])
    {
    }

    /** addDisplayer: a new displayer goes to the end of the list, visible
        unless some child is fullscreen. */
    method AddDisplayer(d: Dockable)
      requires DisplayersValid() && d !in dockables
      modifies this
      ensures DisplayersValid()
      ensures dockables == old(dockables) + [d] && visible == old(visible) + [old(fullScreen).None?]
      ensures root == old(root) && fullScreen == old(fullScreen)
      ensures Settings() == old(Settings())
    {
      AppendDistinct(dockables, d);
      visible := visible + [fullScreen.None?];
      dockables := dockables + [d];
    }

    /** setFullScreen: a dockable that is not in the tree is refused; on
        any change exactly the new fullscreen displayer is visible, or all
        displayers when fullscreen ends. The layout manager's
        willMakeFullscreen is taken to agree. */
    method SetFullScreen(d: Option<Dockable>) returns (outcome: Outcome)
      requires DisplayersValid()
      requires d.Some? && d.value in RootLeaves(root) ==> d.value in dockables
      modifies this
      ensures outcome == (if d != old(fullScreen) && d.Some? && d.value !in RootLeaves(root) then IllegalArgument else Success)
      ensures outcome != Success || d == old(fullScreen) ==> unchanged(this)
      ensures outcome == Success ==> fullScreen == d
      ensures DisplayersValid()
      ensures dockables == old(dockables) && root == old(root)
      ensures Settings() == old(Settings())
    {
      if d == fullScreen {
        return Success;
      }
      if d.Some? && d.value !in RootLeaves(root) {
        return IllegalArgument;
      }
      fullScreen := d;
      var i := 0;
      while i < |dockables|
        invariant 0 <= i <= |dockables| && |visible| == |dockables|
        invariant dockables == old(dockables) && root == old(root) && fullScreen == d
        invariant Settings() == old(Settings())
        invariant forall j | 0 <= j < i :: visible[j] == (d.None? || dockables[j] == d.value)
      {
        visible := visible[i := d.None? || dockables[i] == d.value];
        i := i + 1;
      }
      return Success;
    }

    /** setNextFullScreen: fullscreen moves on to the next child in list
        order (see NextFullScreen). Every child it may pick is in the
        tree. */
    method SetNextFullScreen()
      requires DisplayersValid()
      requires forall x | x in dockables && Some(x) != fullScreen :: x in RootLeaves(root)
      modifies this
      ensures fullScreen == NextFullScreen(old(dockables), old(fullScreen))
      ensures DisplayersValid()
      ensures dockables == old(dockables) && root == old(root)
      ensures Settings() == old(Settings())
    {
      if |dockables| > 0 {
        if fullScreen.None? {
          var outcome := SetFullScreen(Some(dockables[0]));
        } else {
          var index := IndexOfDockable(fullScreen.value);
          index := index + 1;
          index := index % |dockables|;
          var outcome := SetFullScreen(Some(dockables[index]));
        }
      }
    }

    /** removeDisplayer(index): the displayer leaves the list; when it was
        fullscreen, fullscreen is first handed to the next child, or ended
        when there is none (see HandOff). Every other displayed dockable
        must be in the tree, since the hand-off looks it up there. */
    method RemoveDisplayer(index: nat)
      requires DisplayersValid() && index < |dockables|
      requires forall j | 0 <= j < |dockables| && j != index :: dockables[j] in RootLeaves(root)
      modifies this
      ensures dockables == RemoveAt(old(dockables), index)
      ensures fullScreen == HandOff(old(dockables), old(fullScreen), index)
      ensures DisplayersValid()
      ensures root == old(root)
      ensures Settings() == old(Settings())
    {
      var display := dockables[index];
      ghost var ds := dockables;
      if Some(display) == fullScreen {
        NextFullScreenCycles(dockables, index);
        SetNextFullScreen();
        if Some(display) == fullScreen {
          var outcome := SetFullScreen(None);
        }
      }
      assert dockables == ds;
      RemoveAtMultiset(dockables, index);
      HandOffStaysDisplayed(ds, old(fullScreen), index);
      ghost var v := visible;
      dockables := RemoveAt(dockables, index);
      visible := visible[..index] + visible[index + 1..];
      forall j | 0 <= j < |dockables|
        ensures visible[j] == (fullScreen.None? || dockables[j] == fullScreen.value)
      {
        var j' := if j < index then j else j + 1;
        assert visible[j] == v[j'] && dockables[j] == ds[j'];
      }
    }

    /** removeAllDockables: the displayers are removed from the last to the
        first, then the Root loses its child. */
    method RemoveAllDockables()
      requires Valid()
      modifies this
      ensures Valid()
      ensures root == None && dockables == [] && fullScreen == None
      ensures Settings() == old(Settings())
    {
      var i := |dockables| - 1;
      while i >= 0
        invariant -1 <= i < |dockables| && dockables == old(dockables)[..i + 1]
        invariant DisplayersValid() && root == old(root)
        invariant Settings() == old(Settings())
      {
        forall j | 0 <= j < |dockables|
          ensures dockables[j] in RootLeaves(root)
        {
          assert dockables[j] == old(dockables)[j];
          assert old(dockables)[j] in multiset(old(dockables));
        }
        RemoveDisplayer(i);
        i := i - 1;
      }
      root := None;
    }

    // -------------------------------------------------------------------
    // Tree edits

    /** addDockable: the new dockable's displayer is added, then its leaf
        becomes the Root's child, or the first child of a new Node above
        the old one. */
    method AddDockable(d: Dockable, o: Orientation, divider: real)
      requires Valid() && d !in dockables
      modifies this
      ensures Valid()
      ensures root == Some(AddedRoot(old(root), d, o, divider))
      ensures dockables == old(dockables) + [d] && fullScreen == old(fullScreen)
      ensures Settings() == old(Settings())
    {
      AddDisplayer(d);
      root := Some(AddedRoot(root, d, o, divider));
      DistinctTransfer(dockables, RootLeaves(root));
    }

    /** dropOver: the target leaf's displayer is removed, the combination
        `c` of its dockable and the dropped one (the combiner's answer)
        gets a displayer, and a new leaf holding `c` takes the target's
        place. */
    method DropOver(q: Path, c: Dockable)
      requires Valid() && root.Some? && ValidPath(root.value, q) && Subtree(root.value, q).Leaf?
      requires c !in dockables
      modifies this
      ensures Valid()
      ensures root == Some(ReplaceLeaf(old(root).value, q, c))
      ensures var i := IndexOf(old(dockables), Subtree(old(root).value, q).dockable);
        && 0 <= i < |old(dockables)|
        && dockables == RemoveAt(old(dockables), i) + [c]
        && fullScreen == HandOff(old(dockables), old(fullScreen), i)
      ensures Settings() == old(Settings())
    {
      var t := root.value;
      TradeLeaf(t, q, c, dockables);
      var index := IndexOfDockable(Subtree(t, q).dockable);
      RemoveDisplayer(index);
      AddDisplayer(c);
      root := Some(ReplaceLeaf(t, q, c));
    }

    /** dropAside: the dropped dockable gets a displayer and a new Node
        takes the neighbour's place, holding a new leaf for the dockable on
        the put side and the neighbour on the other. */
    method DropAside(q: Path, put: Put, d: Dockable, divider: real)
      requires Valid() && root.Some? && ValidPath(root.value, q) && d !in dockables
      modifies this
      ensures Valid()
      ensures root == Some(DropAsideTree(old(root).value, q, put, d, divider))
      ensures dockables == old(dockables) + [d] && fullScreen == old(fullScreen)
      ensures Settings() == old(Settings())
    {
      AddDisplayer(d);
      DropAsideMultiset(root.value, q, put, d, divider);
      root := Some(DropAsideTree(root.value, q, put, d, divider));
      DistinctTransfer(dockables, RootLeaves(root));
    }

    /** drop(PutInfo): without a node the dockable is added as by
        addDockable; CENTER and TITLE over a leaf combine with it through
        dropOver; everything else goes through dropAside. The divider that
        calculateDivider computed, the combiner's answer `c` and the
        orientation and divider a new Node gets from its constructor are
        parameters. */
    method Drop(info: PutInfo, divider: real, c: Dockable, o: Orientation, nodeDivider: real)
      requires Valid() && info.dockable !in dockables && c !in dockables
      requires info.node != RootNode
      requires info.node.At? ==> root.Some? && ValidPath(root.value, info.node.path)
      modifies this
      ensures Valid()
      ensures root == DropTree(old(root), info, divider, c, o, nodeDivider)
      ensures DropsOver(old(root), info) ==>
        var i := IndexOf(old(dockables), Subtree(old(root).value, info.node.path).dockable);
        && 0 <= i < |old(dockables)|
        && dockables == RemoveAt(old(dockables), i) + [c]
        && fullScreen == HandOff(old(dockables), old(fullScreen), i)
      ensures !DropsOver(old(root), info) ==>
        dockables == old(dockables) + [info.dockable] && fullScreen == old(fullScreen)
      ensures Settings() == old(Settings())
    {
      if info.node.NoNode? {
        AddDockable(info.dockable, o, nodeDivider);
      } else if DropsOver(root, info) {
        DropOver(info.node.path, c);
      } else {
        DropAside(info.node.path, AsideOf(info.put), info.dockable, divider);
      }
    }

    /** move: the moved dockable's leaf is deleted, keeping its displayer,
        and the dockable is dropped again: over a target leaf for CENTER
        and TITLE (its displayer then goes, and the combination `c` comes),
        beside the target otherwise. A leaf that is the Root's only child
        aimed at the Root does not move. */
    method Move(info: PutInfo, divider: real, c: Dockable)
      requires Valid() && info.dockable in RootLeaves(root) && c !in dockables
      requires info.node != NoNode
      requires info.node == RootNode ==> root == Some(Leaf(info.dockable))
      requires info.node.At? ==>
        ValidPath(root.value, info.node.path) && Subtree(root.value, info.node.path) != Leaf(info.dockable)
      modifies this
      ensures Valid()
      ensures Settings() == old(Settings())
      ensures info.node == RootNode ==> root == old(root) && dockables == old(dockables) && fullScreen == old(fullScreen)
      ensures info.node.At? ==>
        var t := old(root).value;
        var lp := FindLeaf(t, info.dockable).value;
        var q := MoveTarget(t, lp, info.node);
        root == Some(MoveTree(t, lp, q, info.put, divider, c))
      ensures info.node.At? ==>
        var t := old(root).value;
        var lp := FindLeaf(t, info.dockable).value;
        var q := MoveTarget(t, lp, info.node);
        if (info.put == Center || info.put == Title) && Subtree(t, q).Leaf? then
          var i := IndexOf(old(dockables), info.dockable);
          && 0 <= i < |old(dockables)|
          && var ds := RemoveAt(old(dockables), i);
          var j := IndexOf(ds, Subtree(t, q).dockable);
          && 0 <= j < |ds|
          && dockables == RemoveAt(ds, j) + [c]
          && fullScreen == HandOff(ds, HandOff(old(dockables), old(fullScreen), i), j)
        else dockables == old(dockables) && fullScreen == old(fullScreen)
    {
      var t := root.value;
      var d := info.dockable;
      var lp := FindLeaf(t, d).value;
      if info.node == RootNode {
        return;
      }
      var q := MoveTarget(t, lp, info.node);
      if (info.put == Center || info.put == Title) && Subtree(t, q).Leaf? {
        MoveOver(lp, q, c);
      } else {
        MoveAside(lp, q, AsideOf(info.put), divider);
      }
    }

    /** The half of move that puts the dockable beside the target: the tree
        is rebuilt and the displayers stay as they are. */
    method MoveAside(lp: Path, q: Path, put: Put, divider: real)
      requires Valid() && root.Some? && ValidPath(root.value, lp) && Subtree(root.value, lp).Leaf? && |lp| > 0
      requires ValidPath(root.value, q) && q != lp && q != ParentPath(lp)
      modifies this
      ensures Valid() && Settings() == old(Settings())
      ensures root == Some(MoveAsideTree(old(root).value, lp, q, put, divider))
      ensures dockables == old(dockables) && fullScreen == old(fullScreen)
    {
      var n := MoveAsideTree(root.value, lp, q, put, divider);
      MoveAsidePermutes(root.value, lp, q, put, divider);
      assert multiset(dockables) == multiset(Leaves(n));
      DistinctTransfer(dockables, Leaves(n));
      root := Some(n);
      assert RootLeaves(root) == Leaves(n);
    }

    /** The CENTER and TITLE half of move: the moved leaf is deleted, its
        displayer removed (Leaf.setDockable(null)), and the dockable
        combined with the target leaf as by dropOver. */
    method MoveOver(lp: Path, q: Path, c: Dockable)
      requires Valid() && root.Some? && ValidPath(root.value, lp) && Subtree(root.value, lp).Leaf? && |lp| > 0
      requires ValidPath(root.value, q) && q != lp && q != ParentPath(lp) && Subtree(root.value, q).Leaf?
      requires c !in dockables
      modifies this
      ensures Valid() && Settings() == old(Settings())
      ensures root == Some(MoveOverTree(old(root).value, lp, q, c))
      ensures var i := IndexOf(old(dockables), Subtree(old(root).value, lp).dockable);
        && 0 <= i < |old(dockables)|
        && var ds := RemoveAt(old(dockables), i);
        var j := IndexOf(ds, Subtree(old(root).value, q).dockable);
        && 0 <= j < |ds|
        && dockables == RemoveAt(ds, j) + [c]
        && fullScreen == HandOff(ds, HandOff(old(dockables), old(fullScreen), i), j)
    {
      var t := root.value;
      RebaseFollows(t, lp, q);
      LeafNotAncestor(t, q, lp);
      DeleteMoved(lp);
      ghost var ds1, fs1 := dockables, fullScreen;
      assert Subtree(root.value, Rebase(lp, q)) == Subtree(t, q);
      DropOver(Rebase(lp, q), c);
      assert fullScreen == HandOff(ds1, fs1, IndexOf(ds1, Subtree(t, q).dockable));
    }

    /** The moved leaf is deleted and its displayer removed. */
    method DeleteMoved(lp: Path)
      requires Valid() && root.Some? && ValidPath(root.value, lp) && Subtree(root.value, lp).Leaf? && |lp| > 0
      modifies this
      ensures Valid() && Settings() == old(Settings())
      ensures root == DeleteLeaf(old(root).value, lp) && root.Some?
      ensures var i := IndexOf(old(dockables), Subtree(old(root).value, lp).dockable);
        && 0 <= i < |old(dockables)|
        && dockables == RemoveAt(old(dockables), i)
        && fullScreen == HandOff(old(dockables), old(fullScreen), i)
    {
      var t := root.value;
      var d := Subtree(t, lp).dockable;
      DeleteBalance(t, lp, dockables);
      var index := IndexOfDockable(d);
      root := DeleteLeaf(t, lp);
      RemoveDisplayer(index);
    }

    /** replace: a missing argument throws, replacing a dockable by itself
        does nothing, and a dockable that is not a child throws; otherwise
        its leaf shows `next` instead, which keeps fullscreen if `previous`
        had it. */
    method Replace(previous: Option<Dockable>, next: Option<Dockable>) returns (outcome: Outcome)
      requires Valid()
      requires previous.Some? && next.Some? && previous != next ==> next.value !in dockables
      modifies this
      ensures Valid() && Settings() == old(Settings())
      ensures outcome ==
        if previous.None? || next.None? then MissingArgument
        else if previous != next && previous.value !in RootLeaves(old(root)) then IllegalArgument
        else Success
      ensures outcome != Success || previous == next ==> unchanged(this)
      ensures outcome == Success && previous != next ==>
        var t := old(root).value;
        var i := IndexOf(old(dockables), previous.value);
        && root == Some(ReplaceLeaf(t, FindLeaf(t, previous.value).value, next.value))
        && 0 <= i < |old(dockables)|
        && dockables == RemoveAt(old(dockables), i) + [next.value]
        && fullScreen == if old(fullScreen) == previous then next else old(fullScreen)
    {
      if previous.None? || next.None? {
        return MissingArgument;
      }
      if previous == next {
        return Success;
      }
      if previous.value !in RootLeaves(root) {
        return IllegalArgument;
      }
      var t := root.value;
      var q := FindLeaf(t, previous.value).value;
      var wasFullScreen := fullScreen == previous;
      // Leaf.setDockable: the old displayer goes (handing fullscreen on),
      // the leaf shows `next`, and `next` gets a displayer, which is what
      // dropOver does to its target leaf
      DropOver(q, next.value);
      if wasFullScreen {
        ReplaceLeafShape(t, q, next.value);
        SameElements(dockables, RootLeaves(root));
        outcome := SetFullScreen(next);
      }
      return Success;
    }

    // -------------------------------------------------------------------
    // Size settings

    /** setSideSnapSize: a negative size is refused. */
    method SetSideSnapSize(size: real) returns (outcome: Outcome)
      modifies this
      ensures outcome == (if size < 0.0 then IllegalArgument else Success)
      ensures outcome == Success ==> sideSnapSize == size
      ensures outcome != Success ==> sideSnapSize == old(sideSnapSize)
      ensures root == old(root) && dockables == old(dockables) && visible == old(visible)
      ensures fullScreen == old(fullScreen)
      ensures dividerSize == old(dividerSize) && borderSideSnapSize == old(borderSideSnapSize)
    {
      if size < 0.0 {
        return IllegalArgument;
      }
      sideSnapSize := size;
      return Success;
    }

    /** setBorderSideSnapSize: a negative size is refused. */
    method SetBorderSideSnapSize(size: int) returns (outcome: Outcome)
      modifies this
      ensures outcome == (if size < 0 then IllegalArgument else Success)
      ensures outcome == Success ==> borderSideSnapSize == size
      ensures outcome != Success ==> borderSideSnapSize == old(borderSideSnapSize)
      ensures root == old(root) && dockables == old(dockables) && visible == old(visible)
      ensures fullScreen == old(fullScreen)
      ensures dividerSize == old(dividerSize) && sideSnapSize == old(sideSnapSize)
    {
      if size < 0 {
        return IllegalArgument;
      }
      borderSideSnapSize := size;
      return Success;
    }

    /** setDividerSize: a negative size is refused. */
    method SetDividerSize(size: int) returns (outcome: Outcome)
      modifies this
      ensures outcome == (if size < 0 then IllegalArgument else Success)
      ensures outcome == Success ==> dividerSize == size
      ensures outcome != Success ==> dividerSize == old(dividerSize)
      ensures root == old(root) && dockables == old(dockables) && visible == old(visible)
      ensures fullScreen == old(fullScreen)
      ensures sideSnapSize == old(sideSnapSize) && borderSideSnapSize == old(borderSideSnapSize)
    {
      if size < 0 {
        return IllegalArgument;
      }
      dividerSize := size;
      return Success;
    }
  }
}
