# SplitDockStation and the toolbar column handler, in Dafny

This project models the core of DockingFrames' `SplitDockStation`. The
station lays out its children in a binary tree below a Root: every Node
splits its area between a left (top) and a right (bottom) child at a divider
ratio, and every Leaf shows one Dockable through a displayer. The project
also models `ToolbarGroupExpander.ColumnHandler`, which keeps the items of
one toolbar column in the same expanded state.

Modules:

- `Wrappers`: the `Option` type.
- `SplitTree`: the Root's child as a `Tree` datatype (`Leaf` or `Node`).
  - A node is named by the path of sides that leads to it.
  - The module defines the leaves in order, `Root.getLeaf` (`FindLeaf`) and
    `Leaf.delete` (`DeleteLeaf`).
  - It also holds the lemmas on where a replaced subtree's leaves go.
- `SplitPlacement`: the tree edits behind `addDockable`, `dropAside` and
  `dropOver`, plus:
  - how `move` finds its target again after the dragged leaf is deleted
    (`Retarget`, `Rebase`);
  - `calculateSideSnap`;
  - `prepareMove` and `prepareDrop`.
- `SplitDivider`: both `validateDivider` overloads and `calculateDivider`,
  over explicit sizes and with exact reals.
- `SplitPathProperty`: `getDockablePathProperty`, and reading a path back.
- `SplitStation`: the station as a class.
  - Fields: the Root's child, the displayer list, each displayer's
    visibility, the fullscreen dockable and the three size settings.
  - Its methods are `addDockable`, `drop`, `dropOver`, `dropAside`, `move`,
    `replace`, the fullscreen operations, `removeDisplayer`,
    `removeAllDockables`, `indexOfDockable` and the setters.
  - Each method is proved against a function of the old state.
  - Each keeps the invariant `Valid()`: the displayers and the leaves show
    the same dockables, each once; exactly the fullscreen displayer is
    visible, or all of them are; and no setting is negative.
- `ToolbarExpander`: the strategy's states as a class, and `ColumnHandler`'s
  `set`, `validate`, `inserted` and `validateAll` as methods.
  - Each method is proved against a function (`SetOne`, `ValidatedStates`,
    `InsertedStates`, `AllValidated`).
  - Lemmas state what those functions promise.

Dockables are identified by `nat` (object identity in the original).
Geometry, the combiner, the layout manager and Swing are outside the model;
their answers are parameters.

## Model

| member | source | states |
|---|---|---|
| SplitTree.FindLeaf | dockingFrames/src/bibliothek/gui/dock/SplitDockStation.java:1839-1842 | `Root.getLeaf`: a found path leads to a leaf holding the dockable; nothing is found exactly when no leaf holds it |
| SplitTree.Leaves | dockingFrames/src/bibliothek/gui/dock/SplitDockStation.java:1608-1610 | defines the dockables of the tree's leaves, the first (left or top) child's before the second's; the lemmas state the station's invariants over this order |
| SplitTree.DeleteLeaf | dockingFrames/src/bibliothek/gui/dock/SplitDockStation.java:1399-1400 | defines `Leaf.delete`: a leaf that is the whole tree leaves the Root empty; otherwise the leaf's sibling subtree takes its parent's slot |
| SplitTree.ReplaceAtLeaves | dockingFrames/src/bibliothek/gui/dock/SplitDockStation.java:1273-1282 | replacing the node at a path splices the new subtree's dockables in place of the old subtree's, keeping those before and after in order |
| SplitTree.DeleteLeafLeaves | dockingFrames/src/bibliothek/gui/dock/SplitDockStation.java:1399-1400 | `Leaf.delete` removes exactly that leaf's dockable from the ordered dockables, keeping the others in order |
| SplitTree.ParentSplit | dockingFrames/src/bibliothek/gui/dock/SplitDockStation.java:1399-1400 | after `Leaf.delete`, the deleted leaf's sibling's dockables take the place of its parent's |
| SplitTree.ParentChildren | dockingFrames/src/bibliothek/gui/dock/SplitDockStation.java:1399-1400 | a leaf's parent holds the leaf's dockable and then its sibling's, or the other way round, by the leaf's side |
| SplitTree.ReplaceAtSubtree | dockingFrames/src/bibliothek/gui/dock/SplitDockStation.java:1273-1282 | after `setChild`/`setLeft`/`setRight` the new subtree sits at the path |
| SplitTree.ReplaceAtElsewhere | dockingFrames/src/bibliothek/gui/dock/SplitDockStation.java:1273-1282 | a replacement leaves every node on a parted branch unchanged |
| SplitPlacement.AddedRoot | dockingFrames/src/bibliothek/gui/dock/SplitDockStation.java:1805-1827 | `addDockable`: the new leaf is the Root's only child, or the first child of a new Node whose second child is the old tree; the new dockable comes first in the leaf order |
| SplitPlacement.AsideNode | dockingFrames/src/bibliothek/gui/dock/SplitDockStation.java:1304-1342 | the new Node holds the dropped leaf on the put side and the neighbour on the other, with the put's orientation and the given divider |
| SplitPlacement.DropAsideTree | dockingFrames/src/bibliothek/gui/dock/SplitDockStation.java:1304-1342 | defines `dropAside` on the tree: the Node built by `AsideNode` from the new leaf and the neighbour replaces the neighbour at its path |
| SplitPlacement.DropAsideAt | dockingFrames/src/bibliothek/gui/dock/SplitDockStation.java:1304-1342 | after `dropAside` the new Node sits where the neighbour was, with the new leaf on the put side and the neighbour beside it |
| SplitPlacement.DropAsideElsewhere | dockingFrames/src/bibliothek/gui/dock/SplitDockStation.java:1315-1336 | `dropAside` leaves every node on a parted branch unchanged |
| SplitPlacement.DropAsideLeaves | dockingFrames/src/bibliothek/gui/dock/SplitDockStation.java:1304-1342 | `dropAside` inserts the dropped dockable directly before or after the neighbour's dockables and changes nothing else in the order |
| SplitPlacement.DropAsideShape | dockingFrames/src/bibliothek/gui/dock/SplitDockStation.java:1304-1342 | the three facts above together |
| SplitPlacement.ReplaceLeaf | dockingFrames/src/bibliothek/gui/dock/SplitDockStation.java:1255-1287 | defines `dropOver` on the tree: a new leaf holding the combination replaces the target leaf at its path |
| SplitPlacement.ReplaceLeafShape | dockingFrames/src/bibliothek/gui/dock/SplitDockStation.java:1255-1287 | `dropOver`: the tree keeps its Nodes, orientations and dividers; the new leaf holds the combination; the target's slot in the order now holds it; every parted node is unchanged |
| SplitPlacement.Retarget | dockingFrames/src/bibliothek/gui/dock/SplitDockStation.java:1382-1402 | `move`: nothing happens when the Root's only child is aimed at the Root; a target that is the leaf's parent becomes the leaf's sibling; any other target is kept |
| SplitPlacement.Rebase | dockingFrames/src/bibliothek/gui/dock/SplitDockStation.java:1399-1401 | defines where a node is found after `Leaf.delete`: a node in the deleted leaf's sibling subtree moves up one level into the parent's slot; every other node keeps its path |
| SplitPlacement.RebaseFollows | dockingFrames/src/bibliothek/gui/dock/SplitDockStation.java:1382-1402 | after `Leaf.delete`, the rebased path reaches the same node as the target, or the target with the leaf taken out when the target is an ancestor of the leaf |
| SplitPlacement.MoveAsideTree | dockingFrames/src/bibliothek/gui/dock/SplitDockStation.java:1382-1402 | defines `move` beside a node: `Leaf.delete` removes the dragged leaf, then `dropAside` puts its dockable beside the target at its rebased path |
| SplitPlacement.MoveAsidePermutes | dockingFrames/src/bibliothek/gui/dock/SplitDockStation.java:1382-1402 | moving a leaf beside another node only reorders the dockables |
| SplitPlacement.MoveAsidePlaces | dockingFrames/src/bibliothek/gui/dock/SplitDockStation.java:1382-1402 | the moved dockable ends up directly beside the rebased target, on the put side |
| SplitPlacement.SnapPut | dockingFrames/src/bibliothek/gui/dock/SplitDockStation.java:1506-1523 | defines the side the two diagonal tests pick: TOP above both, RIGHT above the main diagonal only, LEFT above the anti diagonal only, BOTTOM below both |
| SplitPlacement.CalculateSideSnapAsWritten | dockingFrames/src/bibliothek/gui/dock/SplitDockStation.java:1503-1543 | as written: a snap goes to the Root's child on the diagonal-picked side |
| SplitPlacement.CalculateSideSnap | dockingFrames/src/bibliothek/gui/dock/SplitDockStation.java:1503-1543 | corrected rule: a snap goes to the Root's child on the diagonal-picked side |
| SplitPlacement.SideSnapRefusal | dockingFrames/src/bibliothek/gui/dock/SplitDockStation.java:1527-1540 | corrected rule: a snap is refused exactly when the dragged leaf is the top Node's child on the snapped side and the orientation matches |
| SplitPlacement.RefusedSnapIsNoOp | dockingFrames/src/bibliothek/gui/dock/SplitDockStation.java:1527-1540 | every refused snap would only have rebuilt the top Node with a new divider |
| SplitPlacement.SideSnapAsWrittenRefusesMove | dockingFrames/src/bibliothek/gui/dock/SplitDockStation.java:1532-1533 | as written, a BOTTOM snap of a vertical top Node's first child is refused, though it would swap the two children |
| SplitPlacement.SideSnapAsWrittenAcceptsNoOp | dockingFrames/src/bibliothek/gui/dock/SplitDockStation.java:1532-1533 | as written, a BOTTOM snap of the second child is accepted, though it rebuilds the same Node |
| SplitPlacement.SideSnap | dockingFrames/src/bibliothek/gui/dock/SplitDockStation.java:1503-1543 | defines `calculateSideSnap` on the station: the corrected rule on the Root's child, or a snap at no node when the Root is empty |
| SplitPlacement.MoveCandidate | dockingFrames/src/bibliothek/gui/dock/SplitDockStation.java:1351-1358 | defines `prepareMove`'s candidate: `Root.getPut`'s answer, else, with side snapping allowed, the side snap computed with the dragged dockable's leaf (`FindLeaf`) if `checkPutInfo` accepts it |
| SplitPlacement.DropCandidate | dockingFrames/src/bibliothek/gui/dock/SplitDockStation.java:949-955 | defines `prepareDrop`'s candidate: as `MoveCandidate`, but the side snap is computed with no leaf |
| SplitPlacement.PrepareMove | dockingFrames/src/bibliothek/gui/dock/SplitDockStation.java:1344-1380 | accepted exactly when nothing is fullscreen, `MoveCandidate` has an answer, it is not the dragged dockable's own leaf, and it is not CENTER inside the override zone; the answer is that candidate, naming the dragged dockable |
| SplitPlacement.PrepareDrop | dockingFrames/src/bibliothek/gui/dock/SplitDockStation.java:931-975 | refused while fullscreen; an empty station takes the drop at no node with CENTER unless it is in the override zone or the accept test refuses; otherwise accepted exactly when `DropCandidate` has an answer that is not CENTER inside the override zone, and the answer is that candidate |
| SplitPlacement.PrepareMoveSnaps | dockingFrames/src/bibliothek/gui/dock/SplitDockStation.java:1344-1380 | with no answer from the tree, a move is offered the side snap exactly when nothing is fullscreen, the dragged leaf is not the whole tree, and the dragged leaf is not already the top Node's child on the snapped side of the matching orientation |
| SplitPlacement.PrepareDropSnaps | dockingFrames/src/bibliothek/gui/dock/SplitDockStation.java:931-975 | with no answer from the tree, a drop onto a non-empty station is offered the side snap exactly when nothing is fullscreen and the accept test takes it; the snap rule never refuses a drop |
| SplitDivider.Clamp | dockingFrames/src/bibliothek/gui/dock/SplitDockStation.java:1987 | the result lies in the bounds, equals the input inside them, and equals the nearer bound outside |
| SplitDivider.Settle | dockingFrames/src/bibliothek/gui/dock/SplitDockStation.java:2048-2055 | defines `validateDivider`'s decision from the needs in relative units: the sides share by need when the needs do not fit; otherwise a ratio that starves a side moves to the edge of the band; with no needs and no size the divider is kept (corrected, see "## Findings") |
| SplitDivider.ValidateDivider | dockingFrames/src/bibliothek/gui/dock/SplitDockStation.java:2019-2056 | defines `validateDivider(double, Dimension, Dimension, Orientation, double, double)`: a factor that is not positive keeps the divider; otherwise the minimum sizes and the divider size along the axis, divided by the factor, go to `Settle` (corrected, see "## Findings") |
| SplitDivider.SettleInfeasible | dockingFrames/src/bibliothek/gui/dock/SplitDockStation.java:2048-2049 | when the needs do not fit, the ratio is the left side's share of the needs |
| SplitDivider.SettleBand | dockingFrames/src/bibliothek/gui/dock/SplitDockStation.java:2050-2053 | when the needs fit, each side keeps at least its minimum plus half the divider |
| SplitDivider.SettleKeeps | dockingFrames/src/bibliothek/gui/dock/SplitDockStation.java:2048-2055 | a ratio that already respects both minimums is returned unchanged |
| SplitDivider.SettleIsClamp | dockingFrames/src/bibliothek/gui/dock/SplitDockStation.java:2048-2055 | when the needs fit, the result is the input clamped into the band the minimums allow |
| SplitDivider.SettleUnit | dockingFrames/src/bibliothek/gui/dock/SplitDockStation.java:2048-2055 | the decision lies in [0, 1] unless all needs are zero on a node of no size |
| SplitDivider.SettleIdempotent | dockingFrames/src/bibliothek/gui/dock/SplitDockStation.java:2048-2055 | validating a validated ratio again changes nothing |
| SplitDivider.ValidateDividerAxis | dockingFrames/src/bibliothek/gui/dock/SplitDockStation.java:2028-2047 | a non-positive factor returns the divider untouched; otherwise the needs are the minimum sizes along the orientation's axis divided by the factor |
| SplitDivider.ValidateDividerUnit | dockingFrames/src/bibliothek/gui/dock/SplitDockStation.java:2019-2056 | with a positive factor and something positive to divide by, the result is a ratio in [0, 1] |
| SplitDivider.SettleAsWritten | dockingFrames/src/bibliothek/gui/dock/SplitDockStation.java:2048-2055 | defines the decision as written: as `Settle`, but 0/0 gives NaN when there are no needs and no size |
| SplitDivider.ValidateDividerAsWritten | dockingFrames/src/bibliothek/gui/dock/SplitDockStation.java:2019-2056 | defines `validateDivider` as written: as `ValidateDivider`, with `SettleAsWritten` deciding |
| SplitDivider.AsWrittenAgrees | dockingFrames/src/bibliothek/gui/dock/SplitDockStation.java:2048-2055 | the code as written agrees with the model except when all needs are zero on a node of no size |
| SplitDivider.ValidateDividerNaN | dockingFrames/src/bibliothek/gui/dock/SplitDockStation.java:2048-2049 | as written, zero minimums, a zero divider size and a node of no size give 0/0, which is NaN; the model returns the divider |
| SplitDivider.ValidateNodeDivider | dockingFrames/src/bibliothek/gui/dock/SplitDockStation.java:1986-2003 | defines `validateDivider(double, Node)`: the divider is clamped into [0, 1], a missing child counts as minimum size (0, 0), and the general overload decides |
| SplitDivider.NodeDividerUnit | dockingFrames/src/bibliothek/gui/dock/SplitDockStation.java:1986-2003 | the Node overload always answers a ratio in [0, 1]; a missing child counts as a zero minimum size |
| SplitDivider.OldSize | dockingFrames/src/bibliothek/gui/dock/SplitDockStation.java:1417-1444 | the old size is the stored one for a fresh dockable, the extent along the axis when the origin's parent has the put's orientation, else the smaller of width and height |
| SplitDivider.RawDivider | dockingFrames/src/bibliothek/gui/dock/SplitDockStation.java:1446-1480 | defines the ratio before validation: 0.5 when the put is not a side or the old size is 0; otherwise the old size plus half the divider over the node's extent, counted from the dropped side |
| SplitDivider.CalculateDivider | dockingFrames/src/bibliothek/gui/dock/SplitDockStation.java:1414-1491 | stores the old size; a put that is not a side keeps the ratio 0.5 |
| SplitDivider.CalculateDividerValidates | dockingFrames/src/bibliothek/gui/dock/SplitDockStation.java:1446-1487 | on a side, the stored ratio is the raw ratio validated with the dropped side's and the target's minimum sizes in put order |
| SplitDivider.RawDividerShare | dockingFrames/src/bibliothek/gui/dock/SplitDockStation.java:1448-1480 | the raw ratio gives the dropped side its old size plus half the divider |
| SplitDivider.CalculateDividerKeepsSize | dockingFrames/src/bibliothek/gui/dock/SplitDockStation.java:1414-1491 | when validation has nothing to correct, the dropped side of the new Node gets its old size plus half the divider |
| SplitDivider.CalculateDividerUnit | dockingFrames/src/bibliothek/gui/dock/SplitDockStation.java:1414-1491 | the stored ratio lies in [0, 1] whenever some minimum or the divider size is positive along the axis |
| SplitPathProperty.StepsAbsent | dockingFrames/src/bibliothek/gui/dock/SplitDockStation.java:783-821 | a dockable that is not in the tree has the empty path |
| SplitPathProperty.Steps | dockingFrames/src/bibliothek/gui/dock/SplitDockStation.java:783-821 | defines the entries the factory inserts at index 0 as it returns up the tree: one per Node whose subtree holds the dockable, naming the side and that side's share of the Node |
| SplitPathProperty.PathProperty | dockingFrames/src/bibliothek/gui/dock/SplitDockStation.java:783-821 | defines `getDockablePathProperty`: the empty path for an empty Root, else `Steps` of the Root's child |
| SplitPathProperty.Follow | dockingFrames/src/bibliothek/gui/dock/SplitDockStation.java:1159-1166 | defines an independent reader of a path from the top: each entry must match a Node's orientation and share and leads into that child (`Root.insert` itself is not part of this model) |
| SplitPathProperty.PathLeadsToLeaf | dockingFrames/src/bibliothek/gui/dock/SplitDockStation.java:783-821 | following the entries from the top reaches the dockable's leaf; there is one entry per Node on the way |
| SplitPathProperty.PathPropertyRoundTrip | dockingFrames/src/bibliothek/gui/dock/SplitDockStation.java:783-821 | for the Root, following the path property of a held dockable leads back to its leaf; any other dockable gets the empty path |
| SplitStation.RemoveAt | dockingFrames/src/bibliothek/gui/dock/SplitDockStation.java:1959 | the list loses the element at the index; the others keep their order |
| SplitStation.IndexOf | dockingFrames/src/bibliothek/gui/dock/SplitDockStation.java:1895-1901 | the first index holding the dockable, or -1 exactly when none does |
| SplitStation.NextFullScreen | dockingFrames/src/bibliothek/gui/dock/SplitDockStation.java:914-925 | defines the fullscreen after `setNextFullScreen`: nothing changes without children; the first child when none is fullscreen; else the next child in list order, wrapping around |
| SplitStation.HandOff | dockingFrames/src/bibliothek/gui/dock/SplitDockStation.java:1946-1953 | defines the fullscreen after removing the i-th displayer: when it was fullscreen, the next child takes over, or fullscreen ends when it was the only child |
| SplitStation.NextFullScreenCycles | dockingFrames/src/bibliothek/gui/dock/SplitDockStation.java:914-925 | `setNextFullScreen` passes fullscreen to the next displayer in list order, wrapping around |
| SplitStation.HandOffStaysDisplayed | dockingFrames/src/bibliothek/gui/dock/SplitDockStation.java:1945-1978 | after removing a displayer, fullscreen is off or held by a remaining one; it is off only when it was off already or the removed one was the only child |
| SplitStation.IndexOfFirst | dockingFrames/src/bibliothek/gui/dock/SplitDockStation.java:1895-1901 | the first occurrence of a dockable is where `indexOfDockable` finds it |
| SplitStation.MoveTarget | dockingFrames/src/bibliothek/gui/dock/SplitDockStation.java:1382-1402 | the node `move` drops at is a valid node other than the leaf and its parent, as `Retarget` picks it |
| SplitStation.ReplaceLeafMultiset | dockingFrames/src/bibliothek/gui/dock/SplitDockStation.java:1255-1287 | `dropOver` trades the target's dockable for the combination |
| SplitStation.DropAsideMultiset | dockingFrames/src/bibliothek/gui/dock/SplitDockStation.java:1304-1342 | `dropAside` adds exactly the dropped dockable |
| SplitStation.DeleteLeafMultiset | dockingFrames/src/bibliothek/gui/dock/SplitDockStation.java:1399-1400 | `Leaf.delete` removes exactly the leaf's dockable |
| SplitStation.TradeLeaf | dockingFrames/src/bibliothek/gui/dock/SplitDockStation.java:1255-1287 | trading a leaf's dockable and its displayer for the combination keeps displayers and leaves in step, without repetition |
| SplitStation.DeleteBalance | dockingFrames/src/bibliothek/gui/dock/SplitDockStation.java:1382-1402 | deleting the dragged leaf and its displayer keeps displayers and leaves in step; every other displayer stays in the tree |
| SplitStation.DropTree | dockingFrames/src/bibliothek/gui/dock/SplitDockStation.java:1189-1227 | defines the tree after `drop`: `AddedRoot` for no node, `ReplaceLeaf` with the combination for CENTER or TITLE on a leaf, else `DropAsideTree` with CENTER and TITLE on a Node turned into TOP |
| SplitStation.MoveTree | dockingFrames/src/bibliothek/gui/dock/SplitDockStation.java:1382-1402 | defines the tree after `move`: `MoveOverTree` for CENTER or TITLE on a leaf, else `MoveAsideTree` with CENTER and TITLE turned into TOP |
| SplitStation.DropTreeLeaves | dockingFrames/src/bibliothek/gui/dock/SplitDockStation.java:1189-1227 | `drop` adds the dropped dockable, or trades the target's for the combination over a leaf |
| SplitStation.MoveTreeLeaves | dockingFrames/src/bibliothek/gui/dock/SplitDockStation.java:1382-1402 | `move` beside a node keeps the same dockables; `move` over a leaf trades the moved and the target dockables for the combination |
| SplitStation.SplitDockStation.constructor | dockingFrames/src/bibliothek/gui/dock/SplitDockStation.java:193-206 | an empty station with divider size 4, side snap size 0.25 and border side snap size 25 |
| SplitStation.SplitDockStation.IndexOfDockable | dockingFrames/src/bibliothek/gui/dock/SplitDockStation.java:1895-1901 | the loop returns the first index holding the dockable, or -1 |
| SplitStation.SplitDockStation.IsVisible | dockingFrames/src/bibliothek/gui/dock/SplitDockStation.java:754-756 | defines `isVisible(dockable)`: the station is visible and nothing is fullscreen or the dockable is the fullscreen one |
| SplitStation.SplitDockStation.IsVisibleAgrees | dockingFrames/src/bibliothek/gui/dock/SplitDockStation.java:754-756 | `isVisible` agrees with the visibility of the dockable's displayer when the station is visible |
| SplitStation.SplitDockStation.AddDisplayer | dockingFrames/src/bibliothek/gui/dock/SplitDockStation.java:1864-1888 | the displayer goes to the end of the list, visible unless something is fullscreen |
| SplitStation.SplitDockStation.SetFullScreen | dockingFrames/src/bibliothek/gui/dock/SplitDockStation.java:881-907 | a dockable not in the tree is refused; setting the current value changes nothing; otherwise exactly the new fullscreen displayer is visible, or all are |
| SplitStation.SplitDockStation.SetNextFullScreen | dockingFrames/src/bibliothek/gui/dock/SplitDockStation.java:914-925 | fullscreen goes to the first child when off, else to the next one in list order |
| SplitStation.SplitDockStation.RemoveDisplayer | dockingFrames/src/bibliothek/gui/dock/SplitDockStation.java:1945-1978 | the displayer leaves the list, and fullscreen is handed to the next child or ended (`HandOff`) |
| SplitStation.SplitDockStation.RemoveAllDockables | dockingFrames/src/bibliothek/gui/dock/SplitDockStation.java:1906-1911 | no displayers, no tree and no fullscreen remain |
| SplitStation.SplitDockStation.AddDockable | dockingFrames/src/bibliothek/gui/dock/SplitDockStation.java:1805-1827 | the tree becomes `AddedRoot`, and the dockable's displayer is appended |
| SplitStation.SplitDockStation.DropOver | dockingFrames/src/bibliothek/gui/dock/SplitDockStation.java:1255-1287 | the target's displayer is removed with its fullscreen handed on, the combination's is appended, and its leaf replaces the target |
| SplitStation.SplitDockStation.DropAside | dockingFrames/src/bibliothek/gui/dock/SplitDockStation.java:1304-1342 | the tree becomes `DropAsideTree`, the displayer is appended, and fullscreen is kept |
| SplitStation.SplitDockStation.Drop | dockingFrames/src/bibliothek/gui/dock/SplitDockStation.java:1189-1227 | the tree becomes `DropTree`; the displayers change as in `dropOver` over a leaf with CENTER or TITLE, else as in `addDockable`/`dropAside` |
| SplitStation.SplitDockStation.Move | dockingFrames/src/bibliothek/gui/dock/SplitDockStation.java:1382-1402 | the tree becomes `MoveTree` at the retargeted node. Over a leaf, the displayers lose the moved and the target dockables (fullscreen handed on twice) and gain the combination; otherwise they are unchanged |
| SplitStation.SplitDockStation.MoveAside | dockingFrames/src/bibliothek/gui/dock/SplitDockStation.java:1399-1401 | the tree becomes `MoveAsideTree`; displayers and fullscreen are unchanged |
| SplitStation.SplitDockStation.MoveOver | dockingFrames/src/bibliothek/gui/dock/SplitDockStation.java:1399-1401 | the tree becomes `MoveOverTree`; the displayers lose the moved and the target dockables and gain the combination |
| SplitStation.SplitDockStation.DeleteMoved | dockingFrames/src/bibliothek/gui/dock/SplitDockStation.java:1399-1400 | the moved leaf is deleted and its displayer removed, with fullscreen handed on |
| SplitStation.SplitDockStation.Replace | dockingFrames/src/bibliothek/gui/dock/SplitDockStation.java:1833-1856 | a missing argument throws; equal arguments change nothing; a `previous` not in the tree throws. Otherwise its leaf holds `next`, the displayers trade `previous` for `next`, and `next` is fullscreen exactly when `previous` was |
| SplitStation.SplitDockStation.SetSideSnapSize | dockingFrames/src/bibliothek/gui/dock/SplitDockStation.java:551-556 | a negative size throws and changes nothing; otherwise it is stored |
| SplitStation.SplitDockStation.SetBorderSideSnapSize | dockingFrames/src/bibliothek/gui/dock/SplitDockStation.java:575-580 | a negative size throws and changes nothing; otherwise it is stored |
| SplitStation.SplitDockStation.SetDividerSize | dockingFrames/src/bibliothek/gui/dock/SplitDockStation.java:596-602 | a negative size throws and changes nothing; otherwise it is stored |
| ToolbarExpander.Smaller | docking-frames-ext-toolbar/src/bibliothek/gui/dock/station/toolbar/group/ToolbarGroupExpander.java:192-193 | `smaller()` moves one state down or stays at the smallest |
| ToolbarExpander.Larger | docking-frames-ext-toolbar/src/bibliothek/gui/dock/station/toolbar/group/ToolbarGroupExpander.java:200-201 | `larger()` moves one state up or stays at the largest |
| ToolbarExpander.FirstEnabled | docking-frames-ext-toolbar/src/bibliothek/gui/dock/station/toolbar/group/ToolbarGroupExpander.java:186-207 | a found state is in the walk and enabled; none is found exactly when no state of the walk is enabled |
| ToolbarExpander.Choice | docking-frames-ext-toolbar/src/bibliothek/gui/dock/station/toolbar/group/ToolbarGroupExpander.java:186-207 | defines the state `set` gives an item: the first enabled state of the requested one, the walk down, then the walk up |
| ToolbarExpander.SetOne | docking-frames-ext-toolbar/src/bibliothek/gui/dock/station/toolbar/group/ToolbarGroupExpander.java:186-207 | defines the states after `set`: the item gets its `Choice`, or the map is unchanged when there is none |
| ToolbarExpander.ChoiceEnabled | docking-frames-ext-toolbar/src/bibliothek/gui/dock/station/toolbar/group/ToolbarGroupExpander.java:187-190 | an enabled requested state is set as asked |
| ToolbarExpander.ChoiceNone | docking-frames-ext-toolbar/src/bibliothek/gui/dock/station/toolbar/group/ToolbarGroupExpander.java:186-207 | `set` leaves the item alone exactly when no state at all is enabled for it; otherwise it sets an enabled state |
| ToolbarExpander.ChoiceNearest | docking-frames-ext-toolbar/src/bibliothek/gui/dock/station/toolbar/group/ToolbarGroupExpander.java:186-207 | `set` picks the largest enabled state not above the requested one, else the smallest enabled state |
| ToolbarExpander.FirstEnabledAppend | docking-frames-ext-toolbar/src/bibliothek/gui/dock/station/toolbar/group/ToolbarGroupExpander.java:191-206 | the walk down is searched before the walk up |
| ToolbarExpander.SetOneFrame | docking-frames-ext-toolbar/src/bibliothek/gui/dock/station/toolbar/group/ToolbarGroupExpander.java:186-207 | `set` changes no item but its own |
| ToolbarExpander.SetAllFrame | docking-frames-ext-toolbar/src/bibliothek/gui/dock/station/toolbar/group/ToolbarGroupExpander.java:179-182 | setting a run of items changes only those items |
| ToolbarExpander.SetAllEach | docking-frames-ext-toolbar/src/bibliothek/gui/dock/station/toolbar/group/ToolbarGroupExpander.java:179-182 | each item of a run without repetitions ends with what `set` gives it |
| ToolbarExpander.RefFrom | docking-frames-ext-toolbar/src/bibliothek/gui/dock/station/toolbar/group/ToolbarGroupExpander.java:176-178 | the reference found is an item of the column holding that state |
| ToolbarExpander.RefFromSkips | docking-frames-ext-toolbar/src/bibliothek/gui/dock/station/toolbar/group/ToolbarGroupExpander.java:176-178 | the items before the reference hold no state |
| ToolbarExpander.ValidatedStates | docking-frames-ext-toolbar/src/bibliothek/gui/dock/station/toolbar/group/ToolbarGroupExpander.java:170-184 | defines the states after `validate`: unchanged when no item holds a state, else every item after the first stated one is set, in order, to that item's state |
| ToolbarExpander.ValidatedFrame | docking-frames-ext-toolbar/src/bibliothek/gui/dock/station/toolbar/group/ToolbarGroupExpander.java:170-184 | `validate` leaves items outside the column alone |
| ToolbarExpander.ValidateEffect | docking-frames-ext-toolbar/src/bibliothek/gui/dock/station/toolbar/group/ToolbarGroupExpander.java:170-184 | with no stated item nothing changes; otherwise items up to the reference keep their state and every later item gets what `set` gives it for the reference state |
| ToolbarExpander.ValidateAligns | docking-frames-ext-toolbar/src/bibliothek/gui/dock/station/toolbar/group/ToolbarGroupExpander.java:166-184 | when every later item is enabled for the reference state, all items from the reference on hold it, and the earlier ones hold none |
| ToolbarExpander.ReferenceAfter | docking-frames-ext-toolbar/src/bibliothek/gui/dock/station/toolbar/group/ToolbarGroupExpander.java:176-178 | a map with no state before position r and state s at r has reference (r, s) |
| ToolbarExpander.ValidateIdempotent | docking-frames-ext-toolbar/src/bibliothek/gui/dock/station/toolbar/group/ToolbarGroupExpander.java:166-184 | on any column without repetitions, validating again changes no item of the column, including items for which `set` fell back to another state or found none |
| ToolbarExpander.FirstOther | docking-frames-ext-toolbar/src/bibliothek/gui/dock/station/toolbar/group/ToolbarGroupExpander.java:136-145 | defines the state `inserted` copies: the first state held by an item other than the one at the index |
| ToolbarExpander.InsertedStates | docking-frames-ext-toolbar/src/bibliothek/gui/dock/station/toolbar/group/ToolbarGroupExpander.java:133-151 | defines the states after `inserted`: the inserted dockable is set to the copied state, or nothing changes when there is none |
| ToolbarExpander.FirstOtherSpec | docking-frames-ext-toolbar/src/bibliothek/gui/dock/station/toolbar/group/ToolbarGroupExpander.java:136-145 | the copied state is that of the first item other than the inserted one that has a state; there is none exactly when no other item has one |
| ToolbarExpander.InsertedEffect | docking-frames-ext-toolbar/src/bibliothek/gui/dock/station/toolbar/group/ToolbarGroupExpander.java:133-151 | `inserted` changes only the inserted dockable; it gets the copied state when enabled for it; nothing changes when no other item has a state |
| ToolbarExpander.SetAllLocal | docking-frames-ext-toolbar/src/bibliothek/gui/dock/station/toolbar/group/ToolbarGroupExpander.java:179-182 | setting the same items from two maps that agree on some items keeps them agreeing there |
| ToolbarExpander.RefFromLocal | docking-frames-ext-toolbar/src/bibliothek/gui/dock/station/toolbar/group/ToolbarGroupExpander.java:176-178 | a column's reference depends only on its own items |
| ToolbarExpander.ValidatedLocal | docking-frames-ext-toolbar/src/bibliothek/gui/dock/station/toolbar/group/ToolbarGroupExpander.java:170-184 | `validate` of a column depends only on that column's items |
| ToolbarExpander.AllValidated | docking-frames-ext-toolbar/src/bibliothek/gui/dock/station/toolbar/group/ToolbarGroupExpander.java:158-163 | defines the states after `validateAll`: each column validated in turn, in order |
| ToolbarExpander.AllValidatedFrame | docking-frames-ext-toolbar/src/bibliothek/gui/dock/station/toolbar/group/ToolbarGroupExpander.java:158-163 | `validateAll` leaves items of no column alone |
| ToolbarExpander.ValidateAllColumnwise | docking-frames-ext-toolbar/src/bibliothek/gui/dock/station/toolbar/group/ToolbarGroupExpander.java:158-163 | over columns sharing no item, `validateAll` leaves each column as validating that column alone would |
| ToolbarExpander.ExpandableToolbarItemStrategy.SetState | docking-frames-ext-toolbar/src/bibliothek/gui/dock/station/toolbar/group/ToolbarGroupExpander.java:188 | only the item's state changes |
| ToolbarExpander.ColumnHandler.Set | docking-frames-ext-toolbar/src/bibliothek/gui/dock/station/toolbar/group/ToolbarGroupExpander.java:186-207 | the three stages leave the strategy's states as `SetOne` says |
| ToolbarExpander.ColumnHandler.Validate | docking-frames-ext-toolbar/src/bibliothek/gui/dock/station/toolbar/group/ToolbarGroupExpander.java:170-184 | with a strategy, the states become `ValidatedStates`; without one nothing changes |
| ToolbarExpander.ColumnHandler.SetFrom | docking-frames-ext-toolbar/src/bibliothek/gui/dock/station/toolbar/group/ToolbarGroupExpander.java:179-182 | the second loop sets every item from the index on, in order |
| ToolbarExpander.ColumnHandler.Inserted | docking-frames-ext-toolbar/src/bibliothek/gui/dock/station/toolbar/group/ToolbarGroupExpander.java:133-151 | with a strategy, the states become `InsertedStates`; without one nothing changes |
| ToolbarExpander.ColumnHandler.ValidateAll | docking-frames-ext-toolbar/src/bibliothek/gui/dock/station/toolbar/group/ToolbarGroupExpander.java:158-163 | with a strategy, the states become `AllValidated` over the columns in order |

## Left out

- Swing, painting, listeners, the `DockStationListener` events, the DockController, the combiner and the layout manager are not modelled. Their answers (the combination, the computed divider, the mouse tests) are parameters.
- `DockUtilities.ensureTreeValidity` is not modelled: dropped, added and replacing dockables are required not to be children of the station already.
- `Leaf.setDockable` is not part of this model. It is taken to remove the old dockable's displayer (handing fullscreen on) and to add the new one's at the end of the list.
- `Node`'s constructor is not part of this model: the orientation and divider a new Node gets in `addDockable` are parameters.
- `frontDockable`, `removeDockable`, the best-fit drop of `drop(Dockable)` and `Root.getPut` are not modelled. `PrepareMove` and `PrepareDrop` take as parameters `Root.getPut`'s answer, the two `SplitNode.above` tests of the mouse, the override-zone test and the station's accept test (`checkPutInfo`; for a side snap or an empty station it asks only whether the dockable may be put on the station). The divider they compute is `CalculateDivider`'s.
- The ExpandedState enumeration is not part of this model; it is taken to be SHRUNK < EXPANDED < STRETCHED, with `smaller()` and `larger()` moving one step.
- The strategy's `setState` may notify listeners that re-enter the handler; the model's `SetState` only updates the map.
- The toolbar group's column model is a parameter of `ValidateAll`: a sequence of columns, each a sequence of dockables.
- SplitStation.SplitDockStation.SetFullScreen: `willMakeFullscreen` of the layout manager is taken to return its argument.
- SplitStation.SplitDockStation.Drop: `Root.getPut`'s answer is a parameter, and a PutInfo naming the Root itself is excluded by the precondition; the code would fail on it in `dropAside`.
- SplitStation.SplitDockStation.Move: a PutInfo naming the Root is accepted only when the dragged leaf is the Root's only child (the no-op case of the code); other Root targets are excluded for the same reason as in `Drop`.
- SplitDivider.ValidateDivider: real arithmetic replaces `double` and `float`. Negative minimum sizes and a negative divider size are excluded, since Swing never reports them. A NaN factor is not representable; the code returns the divider for it, as for a non-positive factor.
- SplitDivider.CalculateDivider: the target node's extent along the axis must not be zero when the old size is not zero, since the code would divide by it and the model has no infinity.

## Findings

| source | as written | input that shows it | evidently intended | confidence | as-written member | corrected member |
|---|---|---|---|---|---|---|
| dockingFrames/src/bibliothek/gui/dock/SplitDockStation.java:2048-2049 | with all needs zero the `>=` test is taken whenever the size is 0 or less, and the result divides 0 by 0 | minimum sizes 0 and 0, divider size 0, a node of width 0, positive factor: `ValidateDividerNaN` | keep the divider when there is nothing to divide, as the code does for a bad factor | medium, not executed | SplitDivider.ValidateDividerAsWritten (ValidateDividerNaN) | SplitDivider.ValidateDivider (ValidateDividerUnit, SettleUnit) |
| dockingFrames/src/bibliothek/gui/dock/SplitDockStation.java:1532-1539 | the BOTTOM and RIGHT refusals test `node.getLeft() == leaf`, as TOP and LEFT do | a vertical top Node whose first child is the dragged leaf, snapped to BOTTOM: refused, though it is a real move (`SideSnapAsWrittenRefusesMove`); the second child snapped to BOTTOM is accepted, though it changes nothing (`SideSnapAsWrittenAcceptsNoOp`) | refuse exactly the snaps that would put the leaf where it already is, i.e. test `getRight()` for BOTTOM and RIGHT | medium, not executed | SplitPlacement.CalculateSideSnapAsWritten (SideSnapAsWrittenRefusesMove) | SplitPlacement.CalculateSideSnap (SideSnapRefusal, RefusedSnapIsNoOp) |
