/**
 * The layout tree of a SplitDockStation.
 *
 * In the original a Root owns at most one child, every Node owns a left
 * (or top) and a right (or bottom) child, an Orientation and a divider, and
 * every Leaf holds one Dockable; the nodes are objects linked to their
 * parents and edited in place with Root.setChild, Node.setLeft and
 * Node.setRight. Here a subtree is a value, the Root is the optional tree
 * `Option<Tree>` (its one child or nothing), and a node is named by the path
 * of child locations that leads to it from the Root's child.
 *
 * The station's invariant "every Node has two children and every Leaf has a
 * Dockable" is built into the datatype; what is left to state is that no
 * dockable sits in two leaves (`Distinct(Leaves(t))`).
 */
module SplitTree {
  import opened Wrappers

  /** The identity of a Dockable (an object reference in the original). */
  type Dockable = nat

  /** SplitDockStation.Orientation: HORIZONTAL puts the children side by side,
      VERTICAL puts one above the other. */
  datatype Orientation = Horizontal | Vertical

  /** The location of a child inside its Node (Node.getChildLocation):
      First is the left or top child, Second the right or bottom one. */
  datatype Side = First | Second

  type Path = seq<Side>

  datatype Tree =
    | Leaf(dockable: Dockable)
    | Node(left: Tree, right: Tree, orientation: Orientation, divider: real)

  function Other(s: Side): Side {
    if s == First then Second else First
  }

  /** Node.getLeft / Node.getRight. */
  function Child(t: Tree, s: Side): Tree
    requires t.Node?
  {
    if s == First then t.left else t.right
  }

  /** Node.setLeft / Node.setRight: only the named child changes. */
  function WithChild(t: Tree, s: Side, c: Tree): (r: Tree)
    requires t.Node?
    ensures r.Node? && Child(r, s) == c && Child(r, Other(s)) == Child(t, Other(s))
    ensures r.orientation == t.orientation && r.divider == t.divider
  {
    if s == First then t.(left := c) else t.(right := c)
  }

  /** The dockables of a subtree, left (top) to right (bottom). */
  function Leaves(t: Tree): seq<Dockable> {
    match t
    case Leaf(d) => [d]
    case Node(l, r, _, _) => Leaves(l) + Leaves(r)
  }

  /** The dockables below the Root. */
  function RootLeaves(root: Option<Tree>): seq<Dockable> {
    if root.Some? then Leaves(root.value) else []
  }

  predicate Distinct(s: seq<Dockable>) {
    forall i, j | 0 <= i < j < |s| :: s[i] != s[j]
  }

  /** `p` leads from the top of `t` to a node of `t`. */
  predicate ValidPath(t: Tree, p: Path)
    decreases p
  {
    p == [] || (t.Node? && ValidPath(Child(t, p[0]), p[1..]))
  }

  /** The node reached by following `p`. */
  function Subtree(t: Tree, p: Path): Tree
    requires ValidPath(t, p)
    decreases p
  {
    if p == [] then t else Subtree(Child(t, p[0]), p[1..])
  }

  /** `parent.setChild(s, location)` for the node at `p`: the subtree at `p`
      is replaced by `s`; for `p == []` this is Root.setChild. */
  function ReplaceAt(t: Tree, p: Path, s: Tree): Tree
    requires ValidPath(t, p)
    decreases p
  {
    if p == [] then s else WithChild(t, p[0], ReplaceAt(Child(t, p[0]), p[1..], s))
  }

  /** How many leaves of `t` come before the node at `p`. */
  function LeafOffset(t: Tree, p: Path): nat
    requires ValidPath(t, p)
    decreases p
  {
    if p == [] then 0
    else if p[0] == First then LeafOffset(t.left, p[1..])
    else |Leaves(t.left)| + LeafOffset(t.right, p[1..])
  }

  /** Root.getLeaf(dockable): the leaf that holds `d`, searched left first. */
  function FindLeaf(t: Tree, d: Dockable): (r: Option<Path>)
    ensures r.Some? ==> ValidPath(t, r.value) && Subtree(t, r.value) == Leaf(d)
    ensures r.None? <==> d !in Leaves(t)
  {
    match t
    case Leaf(x) => if x == d then Some([]) else None
    case Node(l, r, _, _) =>
      var a := FindLeaf(l, d);
      if a.Some? then
        assert ([First] + a.value)[1..] == a.value;
        Some([First] + a.value)
      else
        var b := FindLeaf(r, d);
        if b.Some? then
          assert ([Second] + b.value)[1..] == b.value;
          Some([Second] + b.value)
        else None
  }

  /** Two paths that part somewhere: neither node lies below the other. */
  predicate Diverge(p: Path, q: Path)
    decreases |p|
  {
    |p| > 0 && |q| > 0 && (p[0] != q[0] || Diverge(p[1..], q[1..]))
  }

  /** `a` leads to `b` or to one of its ancestors. */
  predicate IsPrefix(a: Path, b: Path) {
    |a| <= |b| && b[..|a|] == a
  }

  function ParentPath(p: Path): Path
    requires |p| > 0
  {
    p[..|p| - 1]
  }

  function SiblingPath(p: Path): Path
    requires |p| > 0
  {
    ParentPath(p) + [Other(p[|p| - 1])]
  }

  /** Leaf.delete: the leaf's parent Node disappears and the leaf's sibling
      takes the parent's place; a leaf that is the Root's child leaves the
      Root empty. */
  function DeleteLeaf(t: Tree, p: Path): Option<Tree>
    requires ValidPath(t, p) && Subtree(t, p).Leaf?
  {
    if p == [] then None
    else
      SiblingValid(t, p);
      Some(ReplaceAt(t, ParentPath(p), Subtree(t, SiblingPath(p))))
  }

  // ---------------------------------------------------------------------
  // Paths

  /** Following `a` and then `b` is following `a + b`. */
  lemma {:induction false} SubtreeAppend(t: Tree, a: Path, b: Path)
    requires ValidPath(t, a)
    ensures ValidPath(t, a + b) <==> ValidPath(Subtree(t, a), b)
    ensures ValidPath(t, a + b) ==> Subtree(t, a + b) == Subtree(Subtree(t, a), b)
    decreases a
  {
    if a == [] {
      assert a + b == b;
    } else {
      assert (a + b)[0] == a[0];
      assert (a + b)[1..] == a[1..] + b;
      SubtreeAppend(Child(t, a[0]), a[1..], b);
    }
  }

  /** Every prefix of a valid path is valid, and the rest of the path is
      valid from there. */
  lemma {:induction false} PrefixValid(t: Tree, p: Path, k: nat)
    requires ValidPath(t, p) && k <= |p|
    ensures ValidPath(t, p[..k]) && ValidPath(Subtree(t, p[..k]), p[k..])
    ensures Subtree(Subtree(t, p[..k]), p[k..]) == Subtree(t, p)
    decreases p
  {
    if k > 0 {
      PrefixValid(Child(t, p[0]), p[1..], k - 1);
      assert p[..k][0] == p[0];
      assert p[..k][1..] == p[1..][..k - 1];
      assert p[k..] == p[1..][k - 1..];
    }
  }

  /** The parent of a non-root node is a Node, and its sibling is reachable. */
  lemma SiblingValid(t: Tree, p: Path)
    requires ValidPath(t, p) && |p| > 0
    ensures ValidPath(t, ParentPath(p)) && Subtree(t, ParentPath(p)).Node?
    ensures ValidPath(t, SiblingPath(p))
    ensures Subtree(t, p) == Child(Subtree(t, ParentPath(p)), p[|p| - 1])
    ensures Subtree(t, SiblingPath(p)) == Child(Subtree(t, ParentPath(p)), Other(p[|p| - 1]))
  {
    var pp := ParentPath(p);
    PrefixValid(t, p, |p| - 1);
    assert p[..|p| - 1] == pp;
    var n := Subtree(t, pp);
    assert p[|p| - 1..] == [p[|p| - 1]];
    assert ValidPath(n, [p[|p| - 1]]);
    assert ValidPath(n, [Other(p[|p| - 1])]);
    SubtreeAppend(t, pp, [Other(p[|p| - 1])]);
  }

  // ---------------------------------------------------------------------
  // What ReplaceAt changes and what it leaves alone

  /** After the replacement the new subtree sits at `p`. */
  lemma {:induction false} ReplaceAtSubtree(t: Tree, p: Path, s: Tree)
    requires ValidPath(t, p)
    ensures ValidPath(ReplaceAt(t, p, s), p) && Subtree(ReplaceAt(t, p, s), p) == s
    decreases p
  {
    if p != [] {
      ReplaceAtSubtree(Child(t, p[0]), p[1..], s);
    }
  }

  /** Nodes inside the new subtree are reached through `p`. */
  lemma {:induction false} ReplaceAtBelow(t: Tree, p: Path, s: Tree, r: Path)
    requires ValidPath(t, p) && ValidPath(s, r)
    ensures ValidPath(ReplaceAt(t, p, s), p + r)
    ensures Subtree(ReplaceAt(t, p, s), p + r) == Subtree(s, r)
    decreases p
  {
    if p == [] {
      assert p + r == r;
    } else {
      assert (p + r)[0] == p[0];
      assert (p + r)[1..] == p[1..] + r;
      ReplaceAtBelow(Child(t, p[0]), p[1..], s, r);
    }
  }

  /** A node that is not above or below `p` keeps its whole subtree. */
  lemma {:induction false} ReplaceAtElsewhere(t: Tree, p: Path, s: Tree, q: Path)
    requires ValidPath(t, p) && ValidPath(t, q) && Diverge(p, q)
    ensures ValidPath(ReplaceAt(t, p, s), q)
    ensures Subtree(ReplaceAt(t, p, s), q) == Subtree(t, q)
    decreases p
  {
    if p[0] == q[0] {
      ReplaceAtElsewhere(Child(t, p[0]), p[1..], s, q[1..]);
    } else {
      assert q[0] == Other(p[0]);
    }
  }

  /** An ancestor `p[..k]` of the replaced node stays where it is; below it
      the same replacement has happened. */
  lemma {:induction false} ReplaceAtAbove(t: Tree, p: Path, s: Tree, k: nat)
    requires ValidPath(t, p) && k <= |p|
    ensures ValidPath(t, p[..k]) && ValidPath(Subtree(t, p[..k]), p[k..])
    ensures ValidPath(ReplaceAt(t, p, s), p[..k])
    ensures Subtree(ReplaceAt(t, p, s), p[..k]) == ReplaceAt(Subtree(t, p[..k]), p[k..], s)
    decreases p
  {
    PrefixValid(t, p, k);
    if k > 0 {
      ReplaceAtAbove(Child(t, p[0]), p[1..], s, k - 1);
      assert p[..k][0] == p[0];
      assert p[..k][1..] == p[1..][..k - 1];
      assert p[k..] == p[1..][k - 1..];
    }
  }

  /** Replacing a subtree by itself changes nothing. */
  lemma {:induction false} ReplaceAtSame(t: Tree, p: Path)
    requires ValidPath(t, p)
    ensures ReplaceAt(t, p, Subtree(t, p)) == t
    decreases p
  {
    if p != [] {
      ReplaceAtSame(Child(t, p[0]), p[1..]);
    }
  }

  /** The leaves of the result: those before the node at `p`, then those of
      `s`, then those after it. */
  lemma {:induction false} ReplaceAtLeaves(t: Tree, p: Path, s: Tree)
    requires ValidPath(t, p)
    ensures LeafOffset(t, p) + |Leaves(Subtree(t, p))| <= |Leaves(t)|
    ensures Leaves(ReplaceAt(t, p, s)) ==
      Leaves(t)[..LeafOffset(t, p)] + Leaves(s) + Leaves(t)[LeafOffset(t, p) + |Leaves(Subtree(t, p))|..]
    decreases p
  {
    if p != [] {
      var c := Child(t, p[0]);
      ReplaceAtLeaves(c, p[1..], s);
      var o := LeafOffset(c, p[1..]);
      var k := |Leaves(Subtree(c, p[1..]))|;
      assert Subtree(t, p) == Subtree(c, p[1..]);
      var A := Leaves(ReplaceAt(c, p[1..], s));
      var L, R := Leaves(t.left), Leaves(t.right);
      assert Leaves(t) == L + R;
      if p[0] == First {
        assert LeafOffset(t, p) == o;
        assert Leaves(ReplaceAt(t, p, s)) == (L[..o] + Leaves(s) + L[o + k..]) + R;
        SpliceLeft(L, R, Leaves(s), o, k);
      } else {
        assert LeafOffset(t, p) == |L| + o;
        assert Leaves(ReplaceAt(t, p, s)) == L + (R[..o] + Leaves(s) + R[o + k..]);
        SpliceRight(L, R, Leaves(s), o, k);
      }
    }
  }

  lemma SpliceLeft(L: seq<Dockable>, R: seq<Dockable>, S: seq<Dockable>, o: nat, k: nat)
    requires o + k <= |L|
    ensures (L[..o] + S + L[o + k..]) + R == (L + R)[..o] + S + (L + R)[o + k..]
  {
    assert (L + R)[..o] == L[..o];
    assert (L + R)[o + k..] == L[o + k..] + R;
  }

  lemma SpliceRight(L: seq<Dockable>, R: seq<Dockable>, S: seq<Dockable>, o: nat, k: nat)
    requires o + k <= |R|
    ensures L + (R[..o] + S + R[o + k..]) == (L + R)[..|L| + o] + S + (L + R)[|L| + o + k..]
  {
    assert (L + R)[..|L| + o] == L + R[..o];
    assert (L + R)[|L| + o + k..] == R[o + k..];
  }

  /** The leaf at `p` is the `LeafOffset(t, p)`-th dockable of `t`. */
  lemma LeafAtOffset(t: Tree, p: Path)
    requires ValidPath(t, p) && Subtree(t, p).Leaf?
    ensures LeafOffset(t, p) < |Leaves(t)|
    ensures Leaves(t)[LeafOffset(t, p)] == Subtree(t, p).dockable
  {
    ReplaceAtSame(t, p);
    ReplaceAtLeaves(t, p, Subtree(t, p));
  }

  // ---------------------------------------------------------------------
  // Leaf.delete

  /** Deleting a leaf removes exactly its dockable from the sequence of
      leaves; the order of the others is kept. */
  lemma DeleteLeafLeaves(t: Tree, p: Path)
    requires ValidPath(t, p) && Subtree(t, p).Leaf?
    ensures LeafOffset(t, p) < |Leaves(t)|
    ensures RootLeaves(DeleteLeaf(t, p)) ==
      Leaves(t)[..LeafOffset(t, p)] + Leaves(t)[LeafOffset(t, p) + 1..]
  {
    LeafAtOffset(t, p);
    if p != [] {
      var pp := ParentPath(p);
      SiblingValid(t, p);
      var n := Subtree(t, pp);
      var S := Leaves(Subtree(t, SiblingPath(p)));
      ParentSplit(t, p);
      ParentChildren(t, p);
      DeleteSplice(Leaves(t), LeafOffset(t, pp), Leaves(n), S,
        Subtree(t, p).dockable, LeafOffset(t, p), p[|p| - 1] == First);
    }
  }

  /** Where the leaves of a leaf's parent sit among the leaves of the
      tree, and what takes their place when the leaf is deleted. */
  lemma ParentSplit(t: Tree, p: Path)
    requires ValidPath(t, p) && Subtree(t, p).Leaf? && p != []
    ensures ValidPath(t, ParentPath(p)) && ValidPath(t, SiblingPath(p))
    ensures var L := Leaves(t);
      var o := LeafOffset(t, ParentPath(p));
      var N := Leaves(Subtree(t, ParentPath(p)));
      var S := Leaves(Subtree(t, SiblingPath(p)));
      && o + |N| <= |L| && L == L[..o] + N + L[o + |N|..]
      && RootLeaves(DeleteLeaf(t, p)) == L[..o] + S + L[o + |N|..]
  {
    var pp := ParentPath(p);
    SiblingValid(t, p);
    ReplaceAtSame(t, pp);
    ReplaceAtLeaves(t, pp, Subtree(t, pp));
    ReplaceAtLeaves(t, pp, Subtree(t, SiblingPath(p)));
  }

  /** The leaves of a leaf's parent are the leaf's dockable and its
      sibling's leaves, in the order of the two children. */
  lemma ParentChildren(t: Tree, p: Path)
    requires ValidPath(t, p) && Subtree(t, p).Leaf? && p != []
    ensures ValidPath(t, ParentPath(p)) && ValidPath(t, SiblingPath(p))
    ensures var o := LeafOffset(t, ParentPath(p));
      var N := Leaves(Subtree(t, ParentPath(p)));
      var S := Leaves(Subtree(t, SiblingPath(p)));
      var d := Subtree(t, p).dockable;
      && (p[|p| - 1] == First ==> N == [d] + S && LeafOffset(t, p) == o)
      && (p[|p| - 1] != First ==> N == S + [d] && LeafOffset(t, p) == o + |S|)
  {
    var pp := ParentPath(p);
    SiblingValid(t, p);
    var last := p[|p| - 1];
    assert p == pp + [last];
    OffsetAppend(t, pp, last);
  }

  lemma DeleteSplice(L: seq<Dockable>, o: nat, N: seq<Dockable>, S: seq<Dockable>, d: Dockable, off: nat, first: bool)
    requires o + |N| <= |L| && L == L[..o] + N + L[o + |N|..]
    requires first ==> N == [d] + S && off == o
    requires !first ==> N == S + [d] && off == o + |S|
    ensures L[..o] + S + L[o + |N|..] == L[..off] + L[off + 1..]
  {
    if first {
      assert L[..off] == L[..o];
      assert L[off + 1..] == S + L[o + |N|..];
    } else {
      assert L[..off] == L[..o] + S;
      assert L[off + 1..] == L[o + |N|..];
    }
  }

  /** Two nodes either lie on one line from the top or on parted branches. */
  lemma {:induction false} PathCases(p: Path, q: Path)
    ensures IsPrefix(p, q) || IsPrefix(q, p) || Diverge(p, q)
    decreases |p|
  {
    if |p| > 0 && |q| > 0 && p[0] == q[0] {
      PathCases(p[1..], q[1..]);
      if IsPrefix(p[1..], q[1..]) {
        HeadPrefix(q, |p|);
        assert p == [p[0]] + p[1..];
      } else if IsPrefix(q[1..], p[1..]) {
        HeadPrefix(p, |q|);
        assert q == [q[0]] + q[1..];
      }
    }
  }

  lemma HeadPrefix(q: Path, n: nat)
    requires 0 < n <= |q|
    ensures q[..n] == [q[0]] + q[1..][..n - 1]
  {
    assert forall i | 0 <= i < n :: q[..n][i] == ([q[0]] + q[1..][..n - 1])[i];
  }

  /** Nothing lies below a leaf. */
  lemma BelowLeaf(t: Tree, p: Path, r: Path)
    requires ValidPath(t, p) && Subtree(t, p).Leaf? && ValidPath(t, p + r)
    ensures r == []
  {
    SubtreeAppend(t, p, r);
  }

  /** The offset of a child is the parent's offset, plus the left child's
      leaves when the child is the right one. */
  lemma {:induction false} OffsetAppend(t: Tree, p: Path, s: Side)
    requires ValidPath(t, p) && Subtree(t, p).Node?
    ensures ValidPath(t, p + [s])
    ensures LeafOffset(t, p + [s]) ==
      LeafOffset(t, p) + (if s == First then 0 else |Leaves(Subtree(t, p).left)|)
    decreases p
  {
    SubtreeAppend(t, p, [s]);
    if p != [] {
      assert (p + [s])[0] == p[0];
      assert (p + [s])[1..] == p[1..] + [s];
      OffsetAppend(Child(t, p[0]), p[1..], s);
    }
  }
}
