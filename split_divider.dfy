/**
 * The divider arithmetic of SplitDockStation: validateDivider keeps a
 * divider ratio where both sides of a Node get their minimum size, and
 * calculateDivider derives the ratio for a new Node from the old size of
 * the dropped dockable. Java's `double` becomes `real`; the NaN and
 * division-by-zero cases are written out where the code can reach them.
 */
module SplitDivider {
  import opened Wrappers
  import opened SplitTree
  import opened SplitPlacement

  /** java.awt.Dimension: a size in pixels. */
  datatype Dimension = Dimension(width: int, height: int)

  predicate NonNegative(d: Dimension) {
    d.width >= 0 && d.height >= 0
  }

  /** Root.getWidthFactor and Root.getHeightFactor: how many pixels make one
      unit of the relative sizes the tree works in. */
  datatype Factors = Factors(widthFactor: real, heightFactor: real)

  /** A `double` as the code as written can produce it: a finite value or
      NaN. */
  datatype Double = Finite(value: real) | NaN

  /** The pixels of `d` along the divider's axis. */
  function Along(d: Dimension, o: Orientation): int {
    if o == Horizontal then d.width else d.height
  }

  function FactorAlong(f: Factors, o: Orientation): real {
    if o == Horizontal then f.widthFactor else f.heightFactor
  }

  function ExtentAlong(width: real, height: real, o: Orientation): real {
    if o == Horizontal then width else height
  }

  function Min(a: real, b: real): real {
    if a <= b then a else b
  }

  function Max(a: real, b: real): real {
    if a <= b then b else a
  }

  /** `x` clamped into [lo, hi]. */
  function Clamp(x: real, lo: real, hi: real): (r: real)
    requires lo <= hi
    ensures lo <= r <= hi
    ensures lo <= x <= hi ==> r == x
    ensures x < lo ==> r == lo
    ensures x > hi ==> r == hi
  {
    Min(hi, Max(lo, x))
  }

  // ---------------------------------------------------------------------
  // validateDivider

  /** The decision of validateDivider once the needs of the left side, the
      right side and the divider are known in relative units: when the
      needs do not fit into `size` the sides share by need; otherwise a
      ratio that starves a side is moved to the edge of the band. When all
      needs are zero and `size` is not positive the divider is kept (the
      code as written divides 0 by 0 there, see SettleAsWritten). */
  function Settle(divider: real, leftNeed: real, rightNeed: real, dividerNeed: real, size: real): real
    requires leftNeed >= 0.0 && rightNeed >= 0.0 && dividerNeed >= 0.0
  {
    var total := leftNeed + rightNeed + dividerNeed;
    if total >= size then
      if total == 0.0 then divider
      else (leftNeed + dividerNeed / 2.0) / total
    else if divider * size < leftNeed + dividerNeed / 2.0 then (leftNeed + dividerNeed / 2.0) / size
    else if divider * size > size - rightNeed - dividerNeed / 2.0 then (size - rightNeed - dividerNeed / 2.0) / size
    else divider
  }

  /** validateDivider(divider, minimumLeft, minimumRight, orientation, width,
      height): the minimum sizes and the divider size are pixels, turned
      into relative units by the Root's factor along the divider's axis; a
      factor that is not positive leaves the divider as it is. */
  function ValidateDivider(divider: real, minimumLeft: Dimension, minimumRight: Dimension, o: Orientation,
                           width: real, height: real, f: Factors, dividerSize: int): real
    requires NonNegative(minimumLeft) && NonNegative(minimumRight) && dividerSize >= 0
  {
    var factor := FactorAlong(f, o);
    if factor <= 0.0 then divider
    else
      Settle(divider, Along(minimumLeft, o) as real / factor, Along(minimumRight, o) as real / factor,
             dividerSize as real / factor, ExtentAlong(width, height, o))
  }

  /** When the needs do not fit, the result is the share of the left side
      and half the divider in the total need, whatever the input ratio. */
  lemma SettleInfeasible(divider: real, leftNeed: real, rightNeed: real, dividerNeed: real, size: real)
    requires leftNeed >= 0.0 && rightNeed >= 0.0 && dividerNeed >= 0.0
    requires leftNeed + rightNeed + dividerNeed >= size && leftNeed + rightNeed + dividerNeed > 0.0
    ensures Settle(divider, leftNeed, rightNeed, dividerNeed, size) ==
      (leftNeed + dividerNeed / 2.0) / (leftNeed + rightNeed + dividerNeed)
  {
  }

  /** When the needs fit, the result leaves each side at least its need and
      the divider half of its own on either side. */
  lemma SettleBand(divider: real, leftNeed: real, rightNeed: real, dividerNeed: real, size: real)
    requires leftNeed >= 0.0 && rightNeed >= 0.0 && dividerNeed >= 0.0
    requires leftNeed + rightNeed + dividerNeed < size
    ensures var r := Settle(divider, leftNeed, rightNeed, dividerNeed, size);
      leftNeed + dividerNeed / 2.0 <= r * size <= size - rightNeed - dividerNeed / 2.0
  {
    var lo := leftNeed + dividerNeed / 2.0;
    var hi := size - rightNeed - dividerNeed / 2.0;
    assert (lo / size) * size == lo;
    assert (hi / size) * size == hi;
  }

  /** A ratio already inside the band comes back unchanged. */
  lemma SettleKeeps(divider: real, leftNeed: real, rightNeed: real, dividerNeed: real, size: real)
    requires leftNeed >= 0.0 && rightNeed >= 0.0 && dividerNeed >= 0.0
    requires leftNeed + rightNeed + dividerNeed < size
    requires leftNeed + dividerNeed / 2.0 <= divider * size <= size - rightNeed - dividerNeed / 2.0
    ensures Settle(divider, leftNeed, rightNeed, dividerNeed, size) == divider
  {
  }

  /** When the needs fit, the result is the input clamped into the band of
      ratios [lo / size, hi / size]. */
  lemma SettleIsClamp(divider: real, leftNeed: real, rightNeed: real, dividerNeed: real, size: real)
    requires leftNeed >= 0.0 && rightNeed >= 0.0 && dividerNeed >= 0.0
    requires leftNeed + rightNeed + dividerNeed < size
    ensures (leftNeed + dividerNeed / 2.0) / size <= (size - rightNeed - dividerNeed / 2.0) / size
    ensures Settle(divider, leftNeed, rightNeed, dividerNeed, size) ==
      Clamp(divider, (leftNeed + dividerNeed / 2.0) / size, (size - rightNeed - dividerNeed / 2.0) / size)
  {
    var lo := leftNeed + dividerNeed / 2.0;
    var hi := size - rightNeed - dividerNeed / 2.0;
    DivideMonotone(lo, hi, size);
    DivideMonotone(divider * size, lo, size);
    DivideMonotone(lo, divider * size, size);
    DivideMonotone(divider * size, hi, size);
    DivideMonotone(hi, divider * size, size);
    assert (divider * size) / size == divider;
  }

  lemma DivideMonotone(a: real, b: real, size: real)
    requires size > 0.0
    ensures a <= b <==> a / size <= b / size
    ensures a < b <==> a / size < b / size
  {
    assert a / size * size == a;
    assert b / size * size == b;
    if a / size <= b / size {
      MultiplyMonotone(a / size, b / size, size);
    }
    if a / size < b / size {
      assert (b / size - a / size) * size > 0.0;
    }
  }

  lemma MultiplyMonotone(x: real, y: real, size: real)
    requires size > 0.0 && x <= y
    ensures x * size <= y * size
  {
    assert (y - x) * size >= 0.0;
  }

  /** Unless the needs are all zero on a node of no size, the result is a
      ratio between 0 and 1. */
  lemma SettleUnit(divider: real, leftNeed: real, rightNeed: real, dividerNeed: real, size: real)
    requires leftNeed >= 0.0 && rightNeed >= 0.0 && dividerNeed >= 0.0
    requires leftNeed + rightNeed + dividerNeed > 0.0 || size > 0.0
    ensures 0.0 <= Settle(divider, leftNeed, rightNeed, dividerNeed, size) <= 1.0
  {
    var total := leftNeed + rightNeed + dividerNeed;
    var lo := leftNeed + dividerNeed / 2.0;
    if total >= size {
      RatioUnit(lo, total);
    } else {
      var hi := size - rightNeed - dividerNeed / 2.0;
      SettleIsClamp(divider, leftNeed, rightNeed, dividerNeed, size);
      RatioUnit(lo, size);
      RatioUnit(hi, size);
    }
  }

  lemma RatioUnit(a: real, b: real)
    requires 0.0 <= a <= b && b > 0.0
    ensures 0.0 <= a / b <= 1.0
  {
    DivideMonotone(0.0, a, b);
    DivideMonotone(a, b, b);
  }

  /** Validating twice is validating once. */
  lemma SettleIdempotent(divider: real, leftNeed: real, rightNeed: real, dividerNeed: real, size: real)
    requires leftNeed >= 0.0 && rightNeed >= 0.0 && dividerNeed >= 0.0
    ensures var r := Settle(divider, leftNeed, rightNeed, dividerNeed, size);
      Settle(r, leftNeed, rightNeed, dividerNeed, size) == r
  {
    var total := leftNeed + rightNeed + dividerNeed;
    if total < size {
      SettleBand(divider, leftNeed, rightNeed, dividerNeed, size);
    }
  }

  /** A factor that is not positive (the code's guard also catches a NaN
      factor) returns the divider untouched; otherwise the minimum sizes and
      the divider size are divided by the factor of the divider's axis. */
  lemma ValidateDividerAxis(divider: real, minimumLeft: Dimension, minimumRight: Dimension, o: Orientation,
                            width: real, height: real, f: Factors, dividerSize: int)
    requires NonNegative(minimumLeft) && NonNegative(minimumRight) && dividerSize >= 0
    ensures FactorAlong(f, o) <= 0.0 ==>
      ValidateDivider(divider, minimumLeft, minimumRight, o, width, height, f, dividerSize) == divider
    ensures var factor := FactorAlong(f, o);
      factor > 0.0 ==>
        && Along(minimumLeft, o) as real / factor >= 0.0
        && Along(minimumRight, o) as real / factor >= 0.0
        && dividerSize as real / factor >= 0.0
        && ValidateDivider(divider, minimumLeft, minimumRight, o, width, height, f, dividerSize) ==
             Settle(divider, Along(minimumLeft, o) as real / factor, Along(minimumRight, o) as real / factor,
                    dividerSize as real / factor, ExtentAlong(width, height, o))
  {
  }

  /** With a positive factor and something positive to divide by,
      validateDivider answers a ratio in [0, 1]. */
  lemma ValidateDividerUnit(divider: real, minimumLeft: Dimension, minimumRight: Dimension, o: Orientation,
                            width: real, height: real, f: Factors, dividerSize: int)
    requires NonNegative(minimumLeft) && NonNegative(minimumRight) && dividerSize >= 0
    requires FactorAlong(f, o) > 0.0
    requires Along(minimumLeft, o) + Along(minimumRight, o) + dividerSize > 0 || ExtentAlong(width, height, o) > 0.0
    ensures 0.0 <= ValidateDivider(divider, minimumLeft, minimumRight, o, width, height, f, dividerSize) <= 1.0
  {
    var factor := FactorAlong(f, o);
    ValidateDividerAxis(divider, minimumLeft, minimumRight, o, width, height, f, dividerSize);
    var a, b, c := Along(minimumLeft, o) as real, Along(minimumRight, o) as real, dividerSize as real;
    DivideSum(a, b, c, factor);
    if a + b + c > 0.0 {
      DivideMonotone(0.0, a + b + c, factor);
    }
    SettleUnit(divider, a / factor, b / factor, c / factor, ExtentAlong(width, height, o));
  }

  lemma DivideSum(a: real, b: real, c: real, f: real)
    requires f != 0.0
    ensures a / f + b / f + c / f == (a + b + c) / f
  {
  }

  // ---------------------------------------------------------------------
  // The code as written

  /** validateDivider's decision as written: with all needs zero and a size
      that is not positive the infeasible branch divides 0 by 0. */
  function SettleAsWritten(divider: real, leftNeed: real, rightNeed: real, dividerNeed: real, size: real): Double
    requires leftNeed >= 0.0 && rightNeed >= 0.0 && dividerNeed >= 0.0
  {
    var total := leftNeed + rightNeed + dividerNeed;
    if total >= size then
      if total == 0.0 then NaN
      else Finite((leftNeed + dividerNeed / 2.0) / total)
    else if divider * size < leftNeed + dividerNeed / 2.0 then Finite((leftNeed + dividerNeed / 2.0) / size)
    else if divider * size > size - rightNeed - dividerNeed / 2.0 then Finite((size - rightNeed - dividerNeed / 2.0) / size)
    else Finite(divider)
  }

  /** validateDivider as written. */
  function ValidateDividerAsWritten(divider: real, minimumLeft: Dimension, minimumRight: Dimension, o: Orientation,
                                    width: real, height: real, f: Factors, dividerSize: int): Double
    requires NonNegative(minimumLeft) && NonNegative(minimumRight) && dividerSize >= 0
  {
    var factor := FactorAlong(f, o);
    if factor <= 0.0 then Finite(divider)
    else
      SettleAsWritten(divider, Along(minimumLeft, o) as real / factor, Along(minimumRight, o) as real / factor,
                      dividerSize as real / factor, ExtentAlong(width, height, o))
  }

  /** The code as written agrees with the model everywhere except on zero
      needs and a size that is not positive ... */
  lemma AsWrittenAgrees(divider: real, leftNeed: real, rightNeed: real, dividerNeed: real, size: real)
    requires leftNeed >= 0.0 && rightNeed >= 0.0 && dividerNeed >= 0.0
    requires leftNeed + rightNeed + dividerNeed > 0.0 || size > 0.0
    ensures SettleAsWritten(divider, leftNeed, rightNeed, dividerNeed, size) ==
      Finite(Settle(divider, leftNeed, rightNeed, dividerNeed, size))
  {
  }

  /** ... where, with no minimum sizes and a divider of size 0 on a node of
      no width or height, it returns NaN for every input ratio. */
  lemma ValidateDividerNaN(divider: real, o: Orientation, width: real, height: real, f: Factors)
    requires FactorAlong(f, o) > 0.0 && ExtentAlong(width, height, o) <= 0.0
    ensures ValidateDividerAsWritten(divider, Dimension(0, 0), Dimension(0, 0), o, width, height, f, 0) == NaN
    ensures ValidateDivider(divider, Dimension(0, 0), Dimension(0, 0), o, width, height, f, 0) == divider
  {
  }

  // ---------------------------------------------------------------------
  // validateDivider(double, Node)

  /** validateDivider(divider, node): the divider is first clamped into
      [0, 1], a missing child counts as having no minimum size, and the
      Node's orientation and relative size decide the rest. The minimum
      sizes of the children come from the SplitNodes and are parameters. */
  function ValidateNodeDivider(divider: real, leftMin: Option<Dimension>, rightMin: Option<Dimension>,
                               o: Orientation, width: real, height: real, f: Factors, dividerSize: int): real
    requires leftMin.Some? ==> NonNegative(leftMin.value)
    requires rightMin.Some? ==> NonNegative(rightMin.value)
    requires dividerSize >= 0
  {
    ValidateDivider(Clamp(divider, 0.0, 1.0),
                    if leftMin.Some? then leftMin.value else Dimension(0, 0),
                    if rightMin.Some? then rightMin.value else Dimension(0, 0),
                    o, width, height, f, dividerSize)
  }

  /** The Node overload always answers a ratio in [0, 1]; a ratio already in
      [0, 1] is validated as the general overload would; a missing child is
      the same as a child with no minimum size. */
  lemma NodeDividerUnit(divider: real, leftMin: Option<Dimension>, rightMin: Option<Dimension>,
                        o: Orientation, width: real, height: real, f: Factors, dividerSize: int)
    requires leftMin.Some? ==> NonNegative(leftMin.value)
    requires rightMin.Some? ==> NonNegative(rightMin.value)
    requires dividerSize >= 0
    ensures 0.0 <= ValidateNodeDivider(divider, leftMin, rightMin, o, width, height, f, dividerSize) <= 1.0
    ensures 0.0 <= divider <= 1.0 && leftMin.Some? && rightMin.Some? ==>
      ValidateNodeDivider(divider, leftMin, rightMin, o, width, height, f, dividerSize) ==
        ValidateDivider(divider, leftMin.value, rightMin.value, o, width, height, f, dividerSize)
    ensures leftMin.None? ==>
      ValidateNodeDivider(divider, leftMin, rightMin, o, width, height, f, dividerSize) ==
        ValidateNodeDivider(divider, Some(Dimension(0, 0)), rightMin, o, width, height, f, dividerSize)
    ensures rightMin.None? ==>
      ValidateNodeDivider(divider, leftMin, rightMin, o, width, height, f, dividerSize) ==
        ValidateNodeDivider(divider, leftMin, Some(Dimension(0, 0)), o, width, height, f, dividerSize)
  {
    var c := Clamp(divider, 0.0, 1.0);
    var l := if leftMin.Some? then leftMin.value else Dimension(0, 0);
    var r := if rightMin.Some? then rightMin.value else Dimension(0, 0);
    var factor := FactorAlong(f, o);
    if factor > 0.0 {
      var ln := Along(l, o) as real / factor;
      var rn := Along(r, o) as real / factor;
      var dn := dividerSize as real / factor;
      ValidateDividerAxis(c, l, r, o, width, height, f, dividerSize);
      if ln + rn + dn > 0.0 || ExtentAlong(width, height, o) > 0.0 {
        SettleUnit(c, ln, rn, dn, ExtentAlong(width, height, o));
      }
    }
  }

  // ---------------------------------------------------------------------
  // calculateDivider

  /** Where calculateDivider takes the old size from: the leaf the dockable
      is moved from (its pixel size and, when its parent is a Node, that
      Node's orientation), or no leaf (the dropped component's size and the
      old size stored in the PutInfo). */
  datatype Origin =
    | Fresh(componentSize: Dimension, storedOldSize: int)
    | FromLeaf(leafSize: Dimension, parentOrientation: Option<Orientation>)

  predicate IsSide(put: Put) {
    put == Top || put == Bottom || put == Left || put == Right
  }

  /** The old size: the smaller of width and height, or the extent along the
      put's axis when the origin's parent Node has that orientation, or the
      stored old size when there is no origin and it is not zero. */
  function OldSize(put: Put, origin: Origin): (size: int)
    ensures origin.Fresh? && origin.storedOldSize != 0 ==> size == origin.storedOldSize
    ensures origin.FromLeaf? && IsSide(put) && origin.parentOrientation == Some(PutOrientation(put)) ==>
      size == Along(origin.leafSize, PutOrientation(put))
  {
    var oldSize := if origin.Fresh? then origin.componentSize else origin.leafSize;
    var size := if oldSize.width <= oldSize.height then oldSize.width else oldSize.height;
    match origin
    case FromLeaf(_, parent) =>
      if parent.Some? && IsSide(put) && parent.value == PutOrientation(put) then Along(oldSize, parent.value)
      else size
    case Fresh(_, stored) =>
      if stored != 0 then stored else size
  }

  /** The ratio before validation: the old size plus half the divider, as a
      share of the target node's pixel extent, counted from the dropped
      side. */
  function RawDivider(put: Put, size: int, nodeSize: Dimension, dividerSize: int): real
    requires IsSide(put) && size != 0 ==> Along(nodeSize, PutOrientation(put)) != 0
  {
    if !IsSide(put) || size == 0 then 0.5
    else
      var share := (size as real + dividerSize as real / 2.0) / Along(nodeSize, PutOrientation(put)) as real;
      if NewSide(put) == First then share else 1.0 - share
  }

  /** What calculateDivider stores into the PutInfo. */
  datatype Calculated = Calculated(divider: real, oldSize: int)

  /** calculateDivider(putInfo, origin): the target node's pixel size,
      minimum size and relative size, and the dropped dockable's minimum
      size are parameters. The minimum sizes are passed to validateDivider
      in the order of the new Node's children. */
  function CalculateDivider(put: Put, origin: Origin, nodeSize: Dimension, dropMin: Dimension, nodeMin: Dimension,
                            width: real, height: real, f: Factors, dividerSize: int): (r: Calculated)
    requires NonNegative(dropMin) && NonNegative(nodeMin) && dividerSize >= 0
    requires IsSide(put) && OldSize(put, origin) != 0 ==> Along(nodeSize, PutOrientation(put)) != 0
    ensures r.oldSize == OldSize(put, origin)
    ensures !IsSide(put) ==> r.divider == 0.5
  {
    var size := OldSize(put, origin);
    var raw := RawDivider(put, size, nodeSize, dividerSize);
    if !IsSide(put) then Calculated(raw, size)
    else
      var (l, rt) := if NewSide(put) == First then (dropMin, nodeMin) else (nodeMin, dropMin);
      Calculated(ValidateDivider(raw, l, rt, PutOrientation(put), width, height, f, dividerSize), size)
  }

  /** When validation has nothing to correct, the dropped side of the new
      Node gets exactly its old size plus half the divider, measured in the
      target node's pixels. */
  lemma CalculateDividerKeepsSize(put: Put, origin: Origin, nodeSize: Dimension, dropMin: Dimension, nodeMin: Dimension,
                                  width: real, height: real, f: Factors, dividerSize: int)
    requires NonNegative(dropMin) && NonNegative(nodeMin) && dividerSize >= 0
    requires IsSide(put) && OldSize(put, origin) != 0
    requires Along(nodeSize, PutOrientation(put)) != 0
    requires var raw := RawDivider(put, OldSize(put, origin), nodeSize, dividerSize);
      var l := if NewSide(put) == First then dropMin else nodeMin;
      var rt := if NewSide(put) == First then nodeMin else dropMin;
      ValidateDivider(raw, l, rt, PutOrientation(put), width, height, f, dividerSize) == raw
    ensures var r := CalculateDivider(put, origin, nodeSize, dropMin, nodeMin, width, height, f, dividerSize);
      Share(put, r.divider) * Along(nodeSize, PutOrientation(put)) as real == OldSize(put, origin) as real + dividerSize as real / 2.0
  {
    var raw := RawDivider(put, OldSize(put, origin), nodeSize, dividerSize);
    CalculateDividerValidates(put, origin, nodeSize, dropMin, nodeMin, width, height, f, dividerSize);
    RawDividerShare(put, OldSize(put, origin), nodeSize, dividerSize);
    var r := CalculateDivider(put, origin, nodeSize, dropMin, nodeMin, width, height, f, dividerSize);
    assert r.divider == raw;
  }

  /** The share of the new Node's extent the dropped side gets. */
  function Share(put: Put, divider: real): real {
    if NewSide(put) == First then divider else 1.0 - divider
  }

  /** On a side, calculateDivider stores the validated raw ratio. */
  lemma CalculateDividerValidates(put: Put, origin: Origin, nodeSize: Dimension, dropMin: Dimension, nodeMin: Dimension,
                                  width: real, height: real, f: Factors, dividerSize: int)
    requires NonNegative(dropMin) && NonNegative(nodeMin) && dividerSize >= 0
    requires IsSide(put) && OldSize(put, origin) != 0 ==> Along(nodeSize, PutOrientation(put)) != 0
    requires IsSide(put)
    ensures var raw := RawDivider(put, OldSize(put, origin), nodeSize, dividerSize);
      var l := if NewSide(put) == First then dropMin else nodeMin;
      var rt := if NewSide(put) == First then nodeMin else dropMin;
      CalculateDivider(put, origin, nodeSize, dropMin, nodeMin, width, height, f, dividerSize).divider
        == ValidateDivider(raw, l, rt, PutOrientation(put), width, height, f, dividerSize)
  {
  }

  /** The raw ratio gives the dropped side its old size plus half the
      divider, in the target node's pixels. */
  lemma RawDividerShare(put: Put, size: int, nodeSize: Dimension, dividerSize: int)
    requires IsSide(put) && size != 0 && Along(nodeSize, PutOrientation(put)) != 0
    ensures Share(put, RawDivider(put, size, nodeSize, dividerSize)) * Along(nodeSize, PutOrientation(put)) as real
      == size as real + dividerSize as real / 2.0
  {
    var e := Along(nodeSize, PutOrientation(put)) as real;
    var x := size as real + dividerSize as real / 2.0;
    var raw := RawDivider(put, size, nodeSize, dividerSize);
    assert Share(put, raw) == x / e;
    DivideTimes(x, e);
  }

  lemma DivideTimes(x: real, e: real)
    requires e != 0.0
    ensures (x / e) * e == x
  {
  }

  /** Whenever some minimum size or the divider size is positive along the
      put's axis and the factor is positive, the stored divider is a ratio
      in [0, 1]. */
  lemma CalculateDividerUnit(put: Put, origin: Origin, nodeSize: Dimension, dropMin: Dimension, nodeMin: Dimension,
                             width: real, height: real, f: Factors, dividerSize: int)
    requires NonNegative(dropMin) && NonNegative(nodeMin) && dividerSize >= 0
    requires IsSide(put) && OldSize(put, origin) != 0 ==> Along(nodeSize, PutOrientation(put)) != 0
    requires IsSide(put) ==> FactorAlong(f, PutOrientation(put)) > 0.0
    requires IsSide(put) ==>
      Along(dropMin, PutOrientation(put)) + Along(nodeMin, PutOrientation(put)) + dividerSize > 0
        || ExtentAlong(width, height, PutOrientation(put)) > 0.0
    ensures 0.0 <= CalculateDivider(put, origin, nodeSize, dropMin, nodeMin, width, height, f, dividerSize).divider <= 1.0
  {
    if IsSide(put) {
      var o := PutOrientation(put);
      var raw := RawDivider(put, OldSize(put, origin), nodeSize, dividerSize);
      var l := if NewSide(put) == First then dropMin else nodeMin;
      var rt := if NewSide(put) == First then nodeMin else dropMin;
      CalculateDividerValidates(put, origin, nodeSize, dropMin, nodeMin, width, height, f, dividerSize);
      ValidateDividerUnit(raw, l, rt, o, width, height, f, dividerSize);
    }
  }

}
