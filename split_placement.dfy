/**
 * Where a dropped or moved Dockable goes in the tree of a SplitDockStation,
 * and the edits of the tree that put it there: addDockable's new top Node,
 * dropAside's new Node around a neighbour, dropOver's combined leaf, the
 * retargeting of move, and the side snap used when the mouse is outside
 * every child.
 */
module SplitPlacement {
  import opened Wrappers
  import opened SplitTree

  /** PutInfo.Put: where the dropped dockable goes relative to the target. */
  datatype Put = Top | Bottom | Left | Right | Center | Title

  /** PutInfo.getNode: no node (the station is empty), the Root, or the node
      of the tree at a path. */
  datatype Target = NoNode | RootNode | At(path: Path)

  /** The part of a PutInfo that decides the edit of the tree; the divider
      it carries is passed beside it. */
  datatype PutInfo = PutInfo(node: Target, put: Put, dockable: Dockable)

  /** The side of the new Node that dropAside gives the dropped leaf. */
  function NewSide(put: Put): Side {
    if put == Top || put == Left then First else Second
  }

  /** The orientation of the new Node that dropAside builds. */
  function PutOrientation(put: Put): Orientation {
    if put == Top || put == Bottom then Vertical else Horizontal
  }

  // ---------------------------------------------------------------------
  // addDockable

  /** The Root's new child after addDockable: the new leaf alone, or a Node
      with the new leaf first and the old child second. The Node(access,
      leaf, child) constructor chooses orientation and divider; they are
      parameters here. */
  function AddedRoot(root: Option<Tree>, d: Dockable, o: Orientation, divider: real): (r: Tree)
    ensures Leaves(r) == [d] + RootLeaves(root)
    ensures root.None? ==> r == Leaf(d)
    ensures root.Some? ==> r.Node? && ValidPath(r, [Second]) && Subtree(r, [Second]) == root.value
  {
    match root
    case None => Leaf(d)
    case Some(child) =>
      var r := Node(Leaf(d), child, o, divider);
      assert ValidPath(r, [Second]) && [Second][1..] == [];
      r
  }

  // ---------------------------------------------------------------------
  // dropAside

  /** The Node dropAside builds from the dropped leaf and the neighbour. */
  function AsideNode(put: Put, leaf: Tree, neighbor: Tree, divider: real): (r: Tree)
    ensures r.Node? && Child(r, NewSide(put)) == leaf && Child(r, Other(NewSide(put))) == neighbor
    ensures r.orientation == PutOrientation(put) && r.divider == divider
  {
    match put
    case Top => Node(leaf, neighbor, Vertical, divider)
    case Bottom => Node(neighbor, leaf, Vertical, divider)
    case Left => Node(leaf, neighbor, Horizontal, divider)
    case _ => Node(neighbor, leaf, Horizontal, divider)
  }

  /** dropAside on the tree: the new Node takes the neighbour's slot. */
  function DropAsideTree(t: Tree, q: Path, put: Put, d: Dockable, divider: real): Tree
    requires ValidPath(t, q)
  {
    ReplaceAt(t, q, AsideNode(put, Leaf(d), Subtree(t, q), divider))
  }

  /** Where dropAside inserts the new dockable among the leaves. */
  function AsideOffset(t: Tree, q: Path, put: Put): nat
    requires ValidPath(t, q)
  {
    LeafOffset(t, q) + (if NewSide(put) == First then 0 else |Leaves(Subtree(t, q))|)
  }

  /** After dropAside the new Node sits where the neighbour was, holds the
      new leaf on the put side and the neighbour on the other; every node
      beside the neighbour keeps its subtree, and the dockable is inserted
      into the leaves right before or right after the neighbour's. */
  lemma DropAsideShape(t: Tree, q: Path, put: Put, d: Dockable, divider: real)
    requires ValidPath(t, q)
    ensures var r := DropAsideTree(t, q, put, d, divider);
      && ValidPath(r, q) && Subtree(r, q) == AsideNode(put, Leaf(d), Subtree(t, q), divider)
      && ValidPath(r, q + [NewSide(put)]) && Subtree(r, q + [NewSide(put)]) == Leaf(d)
      && ValidPath(r, q + [Other(NewSide(put))]) && Subtree(r, q + [Other(NewSide(put))]) == Subtree(t, q)
    ensures var r := DropAsideTree(t, q, put, d, divider);
      forall p | ValidPath(t, p) && Diverge(p, q) :: ValidPath(r, p) && Subtree(r, p) == Subtree(t, p)
    ensures AsideOffset(t, q, put) <= |Leaves(t)|
    ensures var k := AsideOffset(t, q, put);
      Leaves(DropAsideTree(t, q, put, d, divider)) == Leaves(t)[..k] + [d] + Leaves(t)[k..]
  {
    DropAsideAt(t, q, put, d, divider);
    DropAsideElsewhere(t, q, put, d, divider);
    DropAsideLeaves(t, q, put, d, divider);
  }

  lemma DropAsideAt(t: Tree, q: Path, put: Put, d: Dockable, divider: real)
    requires ValidPath(t, q)
    ensures var r := DropAsideTree(t, q, put, d, divider);
      && ValidPath(r, q) && Subtree(r, q) == AsideNode(put, Leaf(d), Subtree(t, q), divider)
      && ValidPath(r, q + [NewSide(put)]) && Subtree(r, q + [NewSide(put)]) == Leaf(d)
      && ValidPath(r, q + [Other(NewSide(put))]) && Subtree(r, q + [Other(NewSide(put))]) == Subtree(t, q)
  {
    var n := AsideNode(put, Leaf(d), Subtree(t, q), divider);
    ReplaceAtSubtree(t, q, n);
    assert ValidPath(n, [NewSide(put)]) && [NewSide(put)][1..] == [];
    assert ValidPath(n, [Other(NewSide(put))]) && [Other(NewSide(put))][1..] == [];
    ReplaceAtBelow(t, q, n, [NewSide(put)]);
    ReplaceAtBelow(t, q, n, [Other(NewSide(put))]);
  }

  lemma DropAsideElsewhere(t: Tree, q: Path, put: Put, d: Dockable, divider: real)
    requires ValidPath(t, q)
    ensures var r := DropAsideTree(t, q, put, d, divider);
      forall p | ValidPath(t, p) && Diverge(p, q) :: ValidPath(r, p) && Subtree(r, p) == Subtree(t, p)
  {
    var n := AsideNode(put, Leaf(d), Subtree(t, q), divider);
    forall p | ValidPath(t, p) && Diverge(p, q)
      ensures ValidPath(DropAsideTree(t, q, put, d, divider), p)
      ensures Subtree(DropAsideTree(t, q, put, d, divider), p) == Subtree(t, p)
    {
      DivergeSymmetric(p, q);
      ReplaceAtElsewhere(t, q, n, p);
    }
  }

  lemma DropAsideLeaves(t: Tree, q: Path, put: Put, d: Dockable, divider: real)
    requires ValidPath(t, q)
    ensures AsideOffset(t, q, put) <= |Leaves(t)|
    ensures var k := AsideOffset(t, q, put);
      Leaves(DropAsideTree(t, q, put, d, divider)) == Leaves(t)[..k] + [d] + Leaves(t)[k..]
  {
    var n := AsideNode(put, Leaf(d), Subtree(t, q), divider);
    var L := Leaves(t);
    var o := LeafOffset(t, q);
    var N := Leaves(Subtree(t, q));
    var before := NewSide(put) == First;
    AsideLeaves(put, Leaf(d), Subtree(t, q), divider);
    assert Leaves(n) == (if before then [d] + N else N + [d]);
    ReplaceAtLeaves(t, q, n);
    assert L == L[..o] + N + L[o + |N|..] by {
      ReplaceAtSame(t, q);
      ReplaceAtLeaves(t, q, Subtree(t, q));
    }
    InsertBeside(L, o, N, d, before);
  }

  /** The leaves of the new Node: the leaf's before the neighbour's when
      it goes first, after them otherwise. */
  lemma AsideLeaves(put: Put, leaf: Tree, neighbor: Tree, divider: real)
    ensures Leaves(AsideNode(put, leaf, neighbor, divider)) ==
      if NewSide(put) == First then Leaves(leaf) + Leaves(neighbor) else Leaves(neighbor) + Leaves(leaf)
  {
  }

  lemma {:induction false} DivergeSymmetric(p: Path, q: Path)
    requires Diverge(p, q)
    ensures Diverge(q, p)
    decreases |p|
  {
    if p[0] == q[0] {
      DivergeSymmetric(p[1..], q[1..]);
    }
  }

  /** Sequence step of DropAsideShape: putting `d` before or after the
      block `N` of `L` inserts it at the block's start or end. */
  lemma InsertBeside(L: seq<Dockable>, o: nat, N: seq<Dockable>, d: Dockable, before: bool)
    requires o + |N| <= |L| && L == L[..o] + N + L[o + |N|..]
    ensures var k := o + (if before then 0 else |N|);
      L[..o] + (if before then [d] + N else N + [d]) + L[o + |N|..] == L[..k] + [d] + L[k..]
  {
    if before {
      assert L[o..] == N + L[o + |N|..];
    } else {
      assert L[..o + |N|] == L[..o] + N;
    }
  }

  // ---------------------------------------------------------------------
  // dropOver

  /** Two trees with the same Nodes, orientations and dividers; only the
      dockables of their leaves may differ. */
  predicate SameShape(a: Tree, b: Tree) {
    match a
    case Leaf(_) => b.Leaf?
    case Node(l, r, o, div) =>
      b.Node? && SameShape(l, b.left) && SameShape(r, b.right) && o == b.orientation && div == b.divider
  }

  /** The leaf at `q` now holds `c`: dropOver's new leaf holding the
      combination in the target's slot, and replace's Leaf.setDockable, give
      the same tree. */
  function ReplaceLeaf(t: Tree, q: Path, c: Dockable): Tree
    requires ValidPath(t, q) && Subtree(t, q).Leaf?
  {
    ReplaceAt(t, q, Leaf(c))
  }

  /** After the replacement the tree has the same shape, `c` sits at the
      target's path, every other node beside it is unchanged, and among the
      leaves exactly the target's dockable is replaced. */
  lemma ReplaceLeafShape(t: Tree, q: Path, c: Dockable)
    requires ValidPath(t, q) && Subtree(t, q).Leaf?
    ensures SameShape(ReplaceLeaf(t, q, c), t)
    ensures ValidPath(ReplaceLeaf(t, q, c), q) && Subtree(ReplaceLeaf(t, q, c), q) == Leaf(c)
    ensures forall p | ValidPath(t, p) && Diverge(p, q) ::
      ValidPath(ReplaceLeaf(t, q, c), p) && Subtree(ReplaceLeaf(t, q, c), p) == Subtree(t, p)
    ensures LeafOffset(t, q) < |Leaves(t)|
    ensures Leaves(ReplaceLeaf(t, q, c)) == Leaves(t)[LeafOffset(t, q) := c]
  {
    SameShapeReplace(t, q, c);
    ReplaceAtSubtree(t, q, Leaf(c));
    forall p | ValidPath(t, p) && Diverge(p, q)
      ensures ValidPath(ReplaceLeaf(t, q, c), p) && Subtree(ReplaceLeaf(t, q, c), p) == Subtree(t, p)
    {
      DivergeSymmetric(p, q);
      ReplaceAtElsewhere(t, q, Leaf(c), p);
    }
    ReplaceAtLeaves(t, q, Leaf(c));
    LeafAtOffset(t, q);
    var L := Leaves(t);
    var o := LeafOffset(t, q);
    assert |Leaves(Subtree(t, q))| == 1;
    assert L[..o] + [c] + L[o + 1..] == L[o := c];
  }

  lemma {:induction false} SameShapeReplace(t: Tree, q: Path, c: Dockable)
    requires ValidPath(t, q) && Subtree(t, q).Leaf?
    ensures SameShape(ReplaceAt(t, q, Leaf(c)), t)
    decreases q
  {
    if q != [] {
      SameShapeReplace(Child(t, q[0]), q[1..], c);
      SameShapeRefl(Child(t, Other(q[0])));
    }
  }

  lemma {:induction false} SameShapeRefl(t: Tree)
    ensures SameShape(t, t)
  {
    if t.Node? {
      SameShapeRefl(t.left);
      SameShapeRefl(t.right);
    }
  }

  // ---------------------------------------------------------------------
  // move

  /** The target of move once the dragged leaf at `lp` is known: None when
      the leaf's parent is the Root and the Root is the target (nothing can
      move); the leaf's sibling when the target is the leaf's own parent
      Node; the target itself otherwise. */
  function Retarget(lp: Path, node: Target): (r: Option<Target>)
    ensures r.None? <==> lp == [] && node == RootNode
    ensures r.Some? && lp != [] && node == At(ParentPath(lp)) ==> r.value == At(SiblingPath(lp))
    ensures r.Some? && (lp == [] || node != At(ParentPath(lp))) ==> r.value == node
  {
    if lp == [] && node == RootNode then None
    else if lp != [] && node == At(ParentPath(lp)) then Some(At(SiblingPath(lp)))
    else Some(node)
  }

  /** The path of a node after Leaf.delete has removed the leaf at `lp`:
      the nodes of the sibling's subtree move up one level into the parent's
      slot, every other node keeps its path. */
  function Rebase(lp: Path, q: Path): Path
    requires |lp| > 0
  {
    var sp := SiblingPath(lp);
    if IsPrefix(sp, q) then ParentPath(lp) + q[|sp|..] else q
  }

  /** A node other than the deleted leaf and its parent survives the
      deletion at its rebased path: with its whole subtree when it is not an
      ancestor of the leaf, and with the leaf deleted from its subtree when
      it is. */
  lemma RebaseFollows(t: Tree, lp: Path, q: Path)
    requires ValidPath(t, lp) && Subtree(t, lp).Leaf? && |lp| > 0
    requires ValidPath(t, q) && q != lp && q != ParentPath(lp)
    ensures ValidPath(DeleteLeaf(t, lp).value, Rebase(lp, q))
    ensures !IsPrefix(q, lp) ==> Subtree(DeleteLeaf(t, lp).value, Rebase(lp, q)) == Subtree(t, q)
    ensures IsPrefix(q, lp) ==>
      && Rebase(lp, q) == q
      && ValidPath(Subtree(t, q), lp[|q|..]) && Subtree(Subtree(t, q), lp[|q|..]).Leaf?
      && DeleteLeaf(Subtree(t, q), lp[|q|..]) == Some(Subtree(DeleteLeaf(t, lp).value, q))
  {
    assert !IsPrefix(lp, q) by {
      if IsPrefix(lp, q) {
        assert q == lp + q[|lp|..];
        BelowLeaf(t, lp, q[|lp|..]);
      }
    }
    Classify(lp, q);
    var sp := SiblingPath(lp);
    if IsPrefix(sp, q) {
      assert q == sp + q[|sp|..];
      RebaseInSibling(t, lp, q[|sp|..]);
    } else if IsPrefix(q, ParentPath(lp)) {
      AncestorAfterDelete(t, lp, q);
    } else {
      RebaseDiverging(t, lp, q);
    }
  }

  /** Where a path can lie relative to a leaf's path, its parent's and its
      sibling's. */
  lemma Classify(lp: Path, q: Path)
    requires |lp| > 0 && q != lp && q != ParentPath(lp) && !IsPrefix(lp, q)
    ensures var pp := ParentPath(lp);
      var sp := SiblingPath(lp);
      || (IsPrefix(sp, q) && !IsPrefix(q, lp))
      || (IsPrefix(q, pp) && !IsPrefix(sp, q) && IsPrefix(q, lp))
      || (Diverge(q, pp) && !IsPrefix(q, lp) && !IsPrefix(sp, q))
  {
    var pp := ParentPath(lp);
    var sp := SiblingPath(lp);
    PathCases(q, pp);
    if IsPrefix(pp, q) && q != pp {
      var x := q[|pp|];
      assert q[..|pp| + 1] == pp + [x];
      if x == lp[|lp| - 1] {
        assert false;
      }
      assert pp + [x] == sp;
      assert IsPrefix(sp, q);
    } else if IsPrefix(q, pp) {
      assert lp[..|q|] == pp[..|q|];
    } else {
      DivergePrefix(q, pp, lp);
      DivergePrefix(q, pp, sp);
    }
  }

  /** A path parted from `a` is parted from everything below `a`. */
  lemma {:induction false} DivergePrefix(q: Path, a: Path, b: Path)
    requires Diverge(q, a) && IsPrefix(a, b)
    ensures Diverge(q, b) && !IsPrefix(q, b) && !IsPrefix(b, q)
    decreases |q|
  {
    assert b[0] == a[0];
    if q[0] == a[0] {
      DivergePrefix(q[1..], a[1..], b[1..]);
    }
  }

  /** The sibling case of RebaseFollows. */
  lemma RebaseInSibling(t: Tree, lp: Path, rest: Path)
    requires ValidPath(t, lp) && Subtree(t, lp).Leaf? && |lp| > 0
    requires ValidPath(t, SiblingPath(lp) + rest)
    ensures ValidPath(DeleteLeaf(t, lp).value, ParentPath(lp) + rest)
    ensures Subtree(DeleteLeaf(t, lp).value, ParentPath(lp) + rest) == Subtree(t, SiblingPath(lp) + rest)
  {
    SiblingValid(t, lp);
    var s := Subtree(t, SiblingPath(lp));
    SubtreeAppend(t, SiblingPath(lp), rest);
    ReplaceAtBelow(t, ParentPath(lp), s, rest);
  }

  /** The parted case of RebaseFollows. */
  lemma RebaseDiverging(t: Tree, lp: Path, q: Path)
    requires ValidPath(t, lp) && Subtree(t, lp).Leaf? && |lp| > 0
    requires ValidPath(t, q) && Diverge(q, ParentPath(lp))
    ensures ValidPath(DeleteLeaf(t, lp).value, q)
    ensures Subtree(DeleteLeaf(t, lp).value, q) == Subtree(t, q)
  {
    SiblingValid(t, lp);
    DivergeSymmetric(q, ParentPath(lp));
    ReplaceAtElsewhere(t, ParentPath(lp), Subtree(t, SiblingPath(lp)), q);
  }

  /** The ancestor case of RebaseFollows. */
  lemma AncestorAfterDelete(t: Tree, lp: Path, q: Path)
    requires ValidPath(t, lp) && Subtree(t, lp).Leaf? && |lp| > 0
    requires IsPrefix(q, ParentPath(lp))
    ensures ValidPath(DeleteLeaf(t, lp).value, q)
    ensures ValidPath(t, q) && ValidPath(Subtree(t, q), lp[|q|..]) && Subtree(Subtree(t, q), lp[|q|..]).Leaf?
    ensures DeleteLeaf(Subtree(t, q), lp[|q|..]) == Some(Subtree(DeleteLeaf(t, lp).value, q))
  {
    var pp := ParentPath(lp);
    var sp := SiblingPath(lp);
    var k := |q|;
    SiblingValid(t, lp);
    var s := Subtree(t, sp);
    ReplaceAtAbove(t, pp, s, k);
    assert pp[..k] == q;
    PrefixValid(t, lp, k);
    assert lp[..k] == q;
    var u := Subtree(t, q);
    var lr := lp[k..];
    assert |lr| > 0;
    assert ParentPath(lr) == pp[k..];
    assert SiblingPath(lr) == sp[k..];
    PrefixValid(t, sp, k);
    assert sp[..k] == q;
  }

  /** The tree after a move whose target is not a leaf or whose put is a
      side: Leaf.delete removes the dragged leaf, then dropAside puts it
      beside the rebased target. */
  function MoveAsideTree(t: Tree, lp: Path, q: Path, put: Put, divider: real): Tree
    requires ValidPath(t, lp) && Subtree(t, lp).Leaf? && |lp| > 0
    requires ValidPath(t, q) && q != lp && q != ParentPath(lp)
  {
    RebaseFollows(t, lp, q);
    DropAsideTree(DeleteLeaf(t, lp).value, Rebase(lp, q), put, Subtree(t, lp).dockable, divider)
  }

  /** Moving a leaf aside only reorders the dockables. */
  lemma MoveAsidePermutes(t: Tree, lp: Path, q: Path, put: Put, divider: real)
    requires ValidPath(t, lp) && Subtree(t, lp).Leaf? && |lp| > 0
    requires ValidPath(t, q) && q != lp && q != ParentPath(lp)
    ensures multiset(Leaves(MoveAsideTree(t, lp, q, put, divider))) == multiset(Leaves(t))
  {
    RebaseFollows(t, lp, q);
    var t2 := DeleteLeaf(t, lp).value;
    var q2 := Rebase(lp, q);
    var d := Subtree(t, lp).dockable;
    DropAsideLeaves(t2, q2, put, d, divider);
    DeleteLeafLeaves(t, lp);
    LeafAtOffset(t, lp);
    ReinsertPermutes(Leaves(t), LeafOffset(t, lp), Leaves(t2), AsideOffset(t2, q2, put));
  }

  /** Sequence step of MoveAsidePermutes: taking an element out and putting
      it back elsewhere keeps the multiset. */
  lemma ReinsertPermutes(L: seq<Dockable>, o: nat, L2: seq<Dockable>, k: nat)
    requires o < |L| && L2 == L[..o] + L[o + 1..] && k <= |L2|
    ensures multiset(L2[..k] + [L[o]] + L2[k..]) == multiset(L)
  {
    calc {
      multiset(L2[..k] + [L[o]] + L2[k..]);
      multiset(L2[..k]) + multiset{L[o]} + multiset(L2[k..]);
      { assert L2[..k] + L2[k..] == L2; }
      multiset(L2) + multiset{L[o]};
      multiset(L[..o]) + multiset(L[o + 1..]) + multiset{L[o]};
      { assert L == L[..o] + [L[o]] + L[o + 1..]; }
      multiset(L);
    }
  }

  /** The moved dockable ends up directly beside the rebased target, on the
      put side. */
  lemma MoveAsidePlaces(t: Tree, lp: Path, q: Path, put: Put, divider: real)
    requires ValidPath(t, lp) && Subtree(t, lp).Leaf? && |lp| > 0
    requires ValidPath(t, q) && q != lp && q != ParentPath(lp)
    ensures var r := MoveAsideTree(t, lp, q, put, divider);
      var q2 := Rebase(lp, q);
      && ValidPath(r, q2 + [NewSide(put)]) && Subtree(r, q2 + [NewSide(put)]) == Subtree(t, lp)
  {
    RebaseFollows(t, lp, q);
    DropAsideAt(DeleteLeaf(t, lp).value, Rebase(lp, q), put, Subtree(t, lp).dockable, divider);
  }

  // ---------------------------------------------------------------------
  // calculateSideSnap

  /** The whole-station side picked by the two SplitNode.above tests (the
      mouse above the main and above the anti diagonal of the station). */
  function SnapPut(aboveMain: bool, aboveAnti: bool): Put {
    if aboveMain then (if aboveAnti then Top else Right)
    else (if aboveAnti then Left else Bottom)
  }

  /** calculateSideSnap as written: the snap goes to the Root's child; it
      is refused when the dragged leaf is the first child of a top Node of
      the matching orientation, whatever the side. */
  function CalculateSideSnapAsWritten(aboveMain: bool, aboveAnti: bool, child: Tree, leaf: Option<Path>, drop: Dockable): (r: Option<PutInfo>)
    ensures r.Some? ==> r.value == PutInfo(At([]), SnapPut(aboveMain, aboveAnti), drop)
  {
    var put := SnapPut(aboveMain, aboveAnti);
    if leaf.Some? && child.Node? && child.orientation == PutOrientation(put) && leaf.value == [First] then None
    else Some(PutInfo(At([]), put, drop))
  }

  /** calculateSideSnap with the BOTTOM and RIGHT tests looking at the
      second child: the snap is refused exactly when the dragged leaf is
      already the top Node's child on that side. */
  function CalculateSideSnap(aboveMain: bool, aboveAnti: bool, child: Tree, leaf: Option<Path>, drop: Dockable): (r: Option<PutInfo>)
    ensures r.Some? ==> r.value == PutInfo(At([]), SnapPut(aboveMain, aboveAnti), drop)
  {
    var put := SnapPut(aboveMain, aboveAnti);
    if leaf.Some? && child.Node? && child.orientation == PutOrientation(put) && leaf.value == [NewSide(put)] then None
    else Some(PutInfo(At([]), put, drop))
  }

  /** The snap is refused exactly when the dragged leaf is the top Node's
      child on the snapped side and the orientation matches. */
  lemma SideSnapRefusal(aboveMain: bool, aboveAnti: bool, child: Tree, leaf: Option<Path>, drop: Dockable)
    ensures var put := SnapPut(aboveMain, aboveAnti);
      CalculateSideSnap(aboveMain, aboveAnti, child, leaf, drop).None? <==>
        leaf == Some([NewSide(put)]) && child.Node? && child.orientation == PutOrientation(put)
  {
  }

  /** Every snap the corrected rule refuses would have rebuilt the top Node
      unchanged apart from its divider: the move is a no-op. */
  lemma RefusedSnapIsNoOp(aboveMain: bool, aboveAnti: bool, child: Tree, lp: Path, drop: Dockable, divider: real)
    requires ValidPath(child, lp) && Subtree(child, lp).Leaf?
    requires CalculateSideSnap(aboveMain, aboveAnti, child, Some(lp), drop).None?
    ensures var put := SnapPut(aboveMain, aboveAnti);
      && Retarget(lp, At([])) == Some(At(SiblingPath(lp)))
      && MoveAsideTree(child, lp, SiblingPath(lp), put, divider) == child.(divider := divider)
  {
    var put := SnapPut(aboveMain, aboveAnti);
    SiblingValid(child, lp);
    var sp := SiblingPath(lp);
    assert Rebase(lp, sp) == [] by {
      assert IsPrefix(sp, sp);
      assert sp[|sp|..] == [];
    }
    var t2 := DeleteLeaf(child, lp).value;
    assert t2 == Subtree(child, sp);
    if NewSide(put) == First {
      assert t2 == child.right;
    } else {
      assert t2 == child.left;
    }
  }

  /** The code as written refuses a BOTTOM snap of the top child of a
      vertical top Node, a real move that would swap the two children. */
  lemma SideSnapAsWrittenRefusesMove(l: Dockable, right: Tree, drop: Dockable, divider: real, newDivider: real)
    requires right != Leaf(l)
    ensures var child := Node(Leaf(l), right, Vertical, divider);
      && CalculateSideSnapAsWritten(false, false, child, Some([First]), drop).None?
      && CalculateSideSnap(false, false, child, Some([First]), drop).Some?
      && MoveAsideTree(child, [First], [Second], Bottom, newDivider) == Node(right, Leaf(l), Vertical, newDivider)
      && MoveAsideTree(child, [First], [Second], Bottom, newDivider) != child.(divider := newDivider)
  {
    var child := Node(Leaf(l), right, Vertical, divider);
    assert ValidPath(child, [First]) && [First][1..] == [];
    assert ValidPath(child, [Second]) && [Second][1..] == [];
    assert SiblingPath([First]) == [Second];
    assert Rebase([First], [Second]) == [] by {
      assert IsPrefix([Second], [Second]);
    }
  }

  /** ... and accepts the BOTTOM snap of the bottom child, which rebuilds
      the same Node. */
  lemma SideSnapAsWrittenAcceptsNoOp(left: Tree, l: Dockable, drop: Dockable, divider: real, newDivider: real)
    ensures var child := Node(left, Leaf(l), Vertical, divider);
      && CalculateSideSnapAsWritten(false, false, child, Some([Second]), drop).Some?
      && MoveAsideTree(child, [Second], [First], Bottom, newDivider) == child.(divider := newDivider)
  {
    var child := Node(left, Leaf(l), Vertical, divider);
    assert ValidPath(child, [First]) && [First][1..] == [];
    assert ValidPath(child, [Second]) && [Second][1..] == [];
    assert SiblingPath([Second]) == [First];
    assert Rebase([Second], [First]) == [] by {
      assert IsPrefix([First], [First]);
    }
  }

  // ---------------------------------------------------------------------
  // prepareMove and prepareDrop

  /** The PutInfo targets the leaf that already holds `d`. */
  predicate OwnLeaf(t: Option<Tree>, info: PutInfo, d: Dockable) {
    t.Some? && info.node.At? && ValidPath(t.value, info.node.path) && Subtree(t.value, info.node.path) == Leaf(d)
  }

  /** calculateSideSnap on the station's tree, with the corrected refusal
      rule: an empty station aims the snap at no node. */
  function SideSnap(t: Option<Tree>, aboveMain: bool, aboveAnti: bool, leaf: Option<Path>, drop: Dockable): Option<PutInfo> {
    if t.None? then Some(PutInfo(NoNode, SnapPut(aboveMain, aboveAnti), drop))
    else CalculateSideSnap(aboveMain, aboveAnti, t.value, leaf, drop)
  }

  /** The candidate of prepareMove and prepareDrop: Root.getPut's answer,
      else, when side snapping is allowed, the side snap if the station's
      accept test takes it (checkPutInfo). A side snap is never CENTER or
      TITLE, so that test asks only whether `d` may be put on the station. */
  function Candidate(fromTree: Option<PutInfo>, allowSideSnap: bool, sideSnap: Option<PutInfo>, accepted: bool): Option<PutInfo> {
    if fromTree.Some? then fromTree else if allowSideSnap && accepted then sideSnap else None
  }

  /** prepareMove's candidate: the side snap knows the dragged leaf
      (root.getLeaf(dockable)). */
  function MoveCandidate(t: Option<Tree>, fromTree: Option<PutInfo>, allowSideSnap: bool, aboveMain: bool, aboveAnti: bool,
                         accepted: bool, d: Dockable): Option<PutInfo> {
    var leaf := if t.Some? then FindLeaf(t.value, d) else None;
    Candidate(fromTree, allowSideSnap, SideSnap(t, aboveMain, aboveAnti, leaf, d), accepted)
  }

  /** prepareDrop's candidate: the side snap is computed without a leaf. */
  function DropCandidate(t: Option<Tree>, fromTree: Option<PutInfo>, allowSideSnap: bool, aboveMain: bool, aboveAnti: bool,
                         accepted: bool, d: Dockable): Option<PutInfo> {
    Candidate(fromTree, allowSideSnap, SideSnap(t, aboveMain, aboveAnti, None, d), accepted)
  }

  /** prepareMove: refused while a child is fullscreen, when there is no
      candidate, when the candidate is the dragged dockable's own leaf, and
      for a CENTER put inside the parent's override zone. Root.getPut's
      answer, the two diagonal tests of the mouse, the station's accept
      test and the override-zone test are parameters. */
  function PrepareMove(t: Option<Tree>, fullScreen: bool, fromTree: Option<PutInfo>, allowSideSnap: bool,
                       aboveMain: bool, aboveAnti: bool, accepted: bool, d: Dockable, inOverrideZone: bool): (r: Option<PutInfo>)
    ensures var info := MoveCandidate(t, fromTree, allowSideSnap, aboveMain, aboveAnti, accepted, d);
      r.Some? <==>
        && !fullScreen
        && info.Some?
        && !OwnLeaf(t, info.value, d)
        && !(inOverrideZone && info.value.put == Center)
    ensures r.Some? ==> r.value == MoveCandidate(t, fromTree, allowSideSnap, aboveMain, aboveAnti, accepted, d).value.(dockable := d)
  {
    if fullScreen then None
    else
      var info := MoveCandidate(t, fromTree, allowSideSnap, aboveMain, aboveAnti, accepted, d);
      if info.None? || OwnLeaf(t, info.value, d) then None
      else if inOverrideZone && info.value.put == Center then None
      else Some(info.value.(dockable := d))
  }

  /** prepareDrop: refused while a child is fullscreen; on an empty station
      the drop goes to no node with CENTER unless the mouse is in the
      parent's override zone or the station's accept test refuses; otherwise as
      in prepareMove but without the own-leaf rule. */
  function PrepareDrop(t: Option<Tree>, count: nat, fullScreen: bool, fromTree: Option<PutInfo>, allowSideSnap: bool,
                       aboveMain: bool, aboveAnti: bool, accepted: bool, d: Dockable, inOverrideZone: bool): (r: Option<PutInfo>)
    ensures fullScreen ==> r.None?
    ensures count == 0 ==> (r.Some? <==> !fullScreen && !inOverrideZone && accepted)
    ensures count == 0 && r.Some? ==> r.value == PutInfo(NoNode, Center, d)
    ensures var info := DropCandidate(t, fromTree, allowSideSnap, aboveMain, aboveAnti, accepted, d);
      count > 0 ==> (r.Some? <==>
        && !fullScreen
        && info.Some?
        && !(inOverrideZone && info.value.put == Center))
    ensures count > 0 && r.Some? ==> r.value == DropCandidate(t, fromTree, allowSideSnap, aboveMain, aboveAnti, accepted, d).value.(dockable := d)
  {
    if fullScreen then None
    else if count == 0 then
      if inOverrideZone || !accepted then None else Some(PutInfo(NoNode, Center, d))
    else
      var info := DropCandidate(t, fromTree, allowSideSnap, aboveMain, aboveAnti, accepted, d);
      if info.None? then None
      else if inOverrideZone && info.value.put == Center then None
      else Some(info.value.(dockable := d))
  }

  /** When the tree has no answer, a move snaps to the side of the
      station unless a child is fullscreen, the dragged leaf is the whole
      tree, or the corrected rule refuses the snap. */
  lemma PrepareMoveSnaps(t: Tree, fullScreen: bool, aboveMain: bool, aboveAnti: bool, d: Dockable, inOverrideZone: bool)
    requires d in Leaves(t)
    ensures var r := PrepareMove(Some(t), fullScreen, None, true, aboveMain, aboveAnti, true, d, inOverrideZone);
      var put := SnapPut(aboveMain, aboveAnti);
      && (r.Some? <==>
            && !fullScreen
            && t != Leaf(d)
            && !(FindLeaf(t, d) == Some([NewSide(put)]) && t.Node? && t.orientation == PutOrientation(put)))
      && (r.Some? ==> r.value == PutInfo(At([]), put, d))
  {
    SideSnapRefusal(aboveMain, aboveAnti, t, FindLeaf(t, d), d);
  }

  /** A drop from outside is never refused by the snap rule: when the tree
      has no answer, it snaps to the side of the station unless a child is
      fullscreen or the accept test refuses. */
  lemma PrepareDropSnaps(t: Tree, count: nat, fullScreen: bool, aboveMain: bool, aboveAnti: bool, accepted: bool, d: Dockable, inOverrideZone: bool)
    requires count > 0
    ensures var r := PrepareDrop(Some(t), count, fullScreen, None, true, aboveMain, aboveAnti, accepted, d, inOverrideZone);
      && (r.Some? <==> !fullScreen && accepted)
      && (r.Some? ==> r.value == PutInfo(At([]), SnapPut(aboveMain, aboveAnti), d))
  {
  }
}
