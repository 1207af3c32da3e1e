/**
 * getDockablePathProperty: the location of a dockable written as the steps
 * from the Root down to its leaf, each step a side (LEFT or RIGHT of a
 * horizontal Node, TOP or BOTTOM of a vertical one) and the share of the
 * Node that side gets.
 */
module SplitPathProperty {
  import opened Wrappers
  import opened SplitTree

  /** SplitDockPathProperty.Location. */
  datatype Location = OnLeft | OnRight | OnTop | OnBottom

  /** One entry of a SplitDockPathProperty. */
  datatype Step = Step(location: Location, size: real)

  /** The entry a Node of orientation `o` and divider `divider` contributes
      when the dockable lies on side `s`. */
  function StepFor(o: Orientation, s: Side, divider: real): Step {
    if o == Horizontal then
      (if s == First then Step(OnLeft, divider) else Step(OnRight, 1.0 - divider))
    else
      (if s == First then Step(OnTop, divider) else Step(OnBottom, 1.0 - divider))
  }

  /** The entries the submit of `t` inserts, in their final order. The
      factory sees the children's answers bottom up and every Node whose
      left or right answer is non-null inserts its entry at the front of
      the one shared path; the left answer wins. */
  function Steps(t: Tree, d: Dockable): seq<Step> {
    match t
    case Leaf(_) => []
    case Node(l, r, o, divider) =>
      var below := Steps(r, d) + Steps(l, d);
      if d in Leaves(l) then [StepFor(o, First, divider)] + below
      else if d in Leaves(r) then [StepFor(o, Second, divider)] + below
      else below
  }

  /** getDockablePathProperty(dockable); an empty Root gives the empty path. */
  function PathProperty(root: Option<Tree>, d: Dockable): seq<Step> {
    if root.None? then [] else Steps(root.value, d)
  }

  /** Reading a path back from the top: every entry must name a side of a
      Node of the matching orientation with the matching share, and leads
      into that child. */
  function Follow(t: Tree, steps: seq<Step>): Option<Tree>
    decreases |steps|
  {
    if steps == [] then Some(t)
    else if t.Leaf? then None
    else if steps[0] == StepFor(t.orientation, First, t.divider) then Follow(t.left, steps[1..])
    else if steps[0] == StepFor(t.orientation, Second, t.divider) then Follow(t.right, steps[1..])
    else None
  }

  /** A dockable that is not in the tree has the empty path. */
  lemma {:induction false} StepsAbsent(t: Tree, d: Dockable)
    requires d !in Leaves(t)
    ensures Steps(t, d) == []
  {
    if t.Node? {
      StepsAbsent(t.left, d);
      StepsAbsent(t.right, d);
    }
  }

  /** In a tree whose leaves hold distinct dockables, the path of a
      dockable leads from the top back to its leaf, and it has one entry
      per Node on the way, the sides being those of Root.getLeaf's search. */
  lemma {:induction false} PathLeadsToLeaf(t: Tree, d: Dockable)
    requires Distinct(Leaves(t)) && d in Leaves(t)
    ensures Follow(t, Steps(t, d)) == Some(Leaf(d))
    ensures |Steps(t, d)| == |FindLeaf(t, d).value|
  {
    if t.Node? {
      DistinctParts(Leaves(t.left), Leaves(t.right));
      var rest := Steps(t, d)[1..];
      if d in Leaves(t.left) {
        StepsAbsent(t.right, d);
        PathLeadsToLeaf(t.left, d);
        assert rest == Steps(t.left, d);
      } else {
        StepsAbsent(t.left, d);
        PathLeadsToLeaf(t.right, d);
        assert rest == Steps(t.right, d);
        assert StepFor(t.orientation, Second, t.divider) != StepFor(t.orientation, First, t.divider);
      }
    }
  }

  /** The two halves of a sequence without repetitions have none and share
      nothing. */
  lemma DistinctParts(a: seq<Dockable>, b: seq<Dockable>)
    requires Distinct(a + b)
    ensures Distinct(a) && Distinct(b)
    ensures forall x | x in a :: x !in b
  {
    forall i, j | 0 <= i < j < |a|
      ensures a[i] != a[j]
    {
      assert a[i] == (a + b)[i] && a[j] == (a + b)[j];
    }
    forall i, j | 0 <= i < j < |b|
      ensures b[i] != b[j]
    {
      assert b[i] == (a + b)[|a| + i] && b[j] == (a + b)[|a| + j];
    }
    forall x | x in a
      ensures x !in b
    {
      var i :| 0 <= i < |a| && a[i] == x;
      forall j | 0 <= j < |b|
        ensures b[j] != x
      {
        assert (a + b)[i] == a[i] && (a + b)[|a| + j] == b[j];
      }
    }
  }

  /** The path property of a dockable held by the Root's tree, for a Root
      whose leaves are distinct, reads back to its leaf; any other dockable
      gets the empty path. */
  lemma PathPropertyRoundTrip(root: Option<Tree>, d: Dockable)
    requires Distinct(RootLeaves(root))
    ensures d in RootLeaves(root) ==> Follow(root.value, PathProperty(root, d)) == Some(Leaf(d))
    ensures d !in RootLeaves(root) ==> PathProperty(root, d) == []
  {
    if root.Some? {
      if d in Leaves(root.value) {
        PathLeadsToLeaf(root.value, d);
      } else {
        StepsAbsent(root.value, d);
      }
    }
  }
}
