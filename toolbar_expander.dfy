/**
 * ToolbarGroupExpander.ColumnHandler: keeping the items of a column of a
 * toolbar group in the same expanded state.
 *
 * The expandable-toolbar-item strategy is an object of its own; it is
 * modelled by the state it answers with (getState, isEnabled) and the one
 * update ColumnHandler makes (setState). The ExpandedState enumeration is
 * not part of this model; it is taken to be the three states SHRUNK <
 * EXPANDED < STRETCHED, with smaller() and larger() moving one step and
 * stopping at the ends.
 */
module ToolbarExpander {
  import opened Wrappers

  type Dockable = nat

  datatype ExpandedState = Shrunk | Expanded | Stretched

  /** The position of a state from the smallest to the largest. */
  function Rank(s: ExpandedState): nat {
    match s
    case Shrunk => 0
    case Expanded => 1
    case Stretched => 2
  }

  /** ExpandedState.smaller(): one step down, the smallest state stays. */
  function Smaller(s: ExpandedState): (r: ExpandedState)
    ensures r == s || Rank(r) == Rank(s) - 1
  {
    match s
    case Shrunk => Shrunk
    case Expanded => Shrunk
    case Stretched => Expanded
  }

  /** ExpandedState.larger(): one step up, the largest state stays. */
  function Larger(s: ExpandedState): (r: ExpandedState)
    ensures r == s || Rank(r) == Rank(s) + 1
  {
    match s
    case Shrunk => Expanded
    case Expanded => Stretched
    case Stretched => Stretched
  }

  /** The states repeated smaller() reaches from `s` before its fixed point. */
  function Downward(s: ExpandedState): seq<ExpandedState>
    decreases Rank(s)
  {
    if Smaller(s) == s then [] else [Smaller(s)] + Downward(Smaller(s))
  }

  /** The states repeated larger() reaches from `s` before its fixed point. */
  function Upward(s: ExpandedState): seq<ExpandedState>
    decreases 2 - Rank(s)
  {
    if Larger(s) == s then [] else [Larger(s)] + Upward(Larger(s))
  }

  /** Which (item, state) pairs the strategy enables. */
  type Enablement = set<(Dockable, ExpandedState)>

  /** The first state of `ss` enabled for `item`. */
  function FirstEnabled(e: Enablement, item: Dockable, ss: seq<ExpandedState>): (r: Option<ExpandedState>)
    ensures r.Some? ==> r.value in ss && (item, r.value) in e
    ensures r.None? <==> forall x | x in ss :: (item, x) !in e
  {
    if ss == [] then None
    else if (item, ss[0]) in e then Some(ss[0])
    else FirstEnabled(e, item, ss[1..])
  }

  /** The state set gives `item` when asked for `s`: `s` itself, else the
      first enabled state going down, else the first going up; nothing
      when no state on the way is enabled. */
  function Choice(e: Enablement, item: Dockable, s: ExpandedState): Option<ExpandedState> {
    FirstEnabled(e, item, [s] + Downward(s) + Upward(s))
  }

  /** The states after set(strategy, item, s). */
  function SetOne(states: map<Dockable, ExpandedState>, e: Enablement, item: Dockable, s: ExpandedState): map<Dockable, ExpandedState> {
    match Choice(e, item, s)
    case None => states
    case Some(c) => states[item := c]
  }

  /** The states after setting each of `items` in turn. */
  function SetAll(states: map<Dockable, ExpandedState>, e: Enablement, items: seq<Dockable>, s: ExpandedState): map<Dockable, ExpandedState>
    decreases |items|
  {
    if items == [] then states
    else SetOne(SetAll(states, e, items[..|items| - 1], s), e, items[|items| - 1], s)
  }

  /** The first index from `from` on whose item has a state, with that
      state. */
  function RefFrom(states: map<Dockable, ExpandedState>, column: seq<Dockable>, from: nat): (r: Option<(nat, ExpandedState)>)
    requires from <= |column|
    ensures r.Some? ==>
      from <= r.value.0 < |column| && column[r.value.0] in states && states[column[r.value.0]] == r.value.1
    decreases |column| - from
  {
    if from == |column| then None
    else if column[from] in states then Some((from, states[column[from]]))
    else RefFrom(states, column, from + 1)
  }

  /** validate's reference: the first item of the column with a state. */
  function Reference(states: map<Dockable, ExpandedState>, column: seq<Dockable>): Option<(nat, ExpandedState)> {
    RefFrom(states, column, 0)
  }

  /** The states after validate(column): every item after the reference
      is set to the reference state. */
  function ValidatedStates(states: map<Dockable, ExpandedState>, e: Enablement, column: seq<Dockable>): map<Dockable, ExpandedState> {
    match Reference(states, column)
    case None => states
    case Some((r, s)) => SetAll(states, e, column[r + 1..], s)
  }

  /** The states after validating each column in turn. */
  function AllValidated(states: map<Dockable, ExpandedState>, e: Enablement, columns: seq<seq<Dockable>>): map<Dockable, ExpandedState>
    decreases |columns|
  {
    if columns == [] then states
    else ValidatedStates(AllValidated(states, e, columns[..|columns| - 1]), e, columns[|columns| - 1])
  }

  /** The first state held by an item other than the one at `skip`, from
      `from` on. */
  function FirstOther(states: map<Dockable, ExpandedState>, column: seq<Dockable>, skip: int, from: nat): Option<ExpandedState>
    requires from <= |column|
    decreases |column| - from
  {
    if from == |column| then None
    else if from != skip && column[from] in states then Some(states[column[from]])
    else FirstOther(states, column, skip, from + 1)
  }

  /** The states after inserted(column, dockable, index). */
  function InsertedStates(states: map<Dockable, ExpandedState>, e: Enablement, column: seq<Dockable>, d: Dockable, index: int): map<Dockable, ExpandedState> {
    match FirstOther(states, column, index, 0)
    case None => states
    case Some(s) => SetOne(states, e, d, s)
  }

  // ---------------------------------------------------------------------
  // Properties of set

  /** A state the item is enabled for is set as asked. */
  lemma ChoiceEnabled(e: Enablement, item: Dockable, s: ExpandedState)
    requires (item, s) in e
    ensures Choice(e, item, s) == Some(s)
  {
  }

  /** Walking down, then up, from any state reaches every state. */
  lemma WalkCovers(s: ExpandedState, x: ExpandedState)
    ensures x in [s] + Downward(s) + Upward(s)
  {
    match s
    case Shrunk =>
      assert Upward(s) == [Expanded, Stretched];
    case Expanded =>
      assert Downward(s) == [Shrunk] && Upward(s) == [Stretched];
    case Stretched =>
      assert Downward(s) == [Expanded, Shrunk];
  }

  /** set leaves the item alone exactly when no state at all is enabled
      for it, and otherwise picks an enabled one. */
  lemma ChoiceNone(e: Enablement, item: Dockable, s: ExpandedState)
    ensures Choice(e, item, s).None? <==> forall x: ExpandedState :: (item, x) !in e
    ensures Choice(e, item, s).Some? ==> (item, Choice(e, item, s).value) in e
  {
    forall x: ExpandedState
      ensures x in [s] + Downward(s) + Upward(s)
    {
      WalkCovers(s, x);
    }
  }

  /** set picks the nearest enabled state: the largest enabled state not
      above the requested one, or, when there is none, the smallest
      enabled state. */
  lemma ChoiceNearest(e: Enablement, item: Dockable, s: ExpandedState)
    requires Choice(e, item, s).Some?
    ensures var c := Choice(e, item, s).value;
      && (item, c) in e
      && (Rank(c) <= Rank(s) ==> forall x | (item, x) in e && Rank(x) <= Rank(s) :: Rank(x) <= Rank(c))
      && (Rank(c) > Rank(s) ==> forall x | (item, x) in e :: Rank(c) <= Rank(x))
  {
    var walk := match s
      case Shrunk => [Shrunk, Expanded, Stretched]
      case Expanded => [Expanded, Shrunk, Stretched]
      case Stretched => [Stretched, Expanded, Shrunk];
    assert [s] + Downward(s) + Upward(s) == walk;
    FirstOfThree(e, item, walk);
    var c := Choice(e, item, s).value;
    forall x | (item, x) in e
      ensures Rank(x) <= Rank(s) ==> Rank(x) <= Rank(c)
      ensures Rank(c) > Rank(s) ==> Rank(c) <= Rank(x)
    {
      assert x == Shrunk || x == Expanded || x == Stretched;
    }
  }

  lemma FirstOfThree(e: Enablement, item: Dockable, walk: seq<ExpandedState>)
    requires |walk| == 3
    ensures FirstEnabled(e, item, walk) ==
      if (item, walk[0]) in e then Some(walk[0])
      else if (item, walk[1]) in e then Some(walk[1])
      else if (item, walk[2]) in e then Some(walk[2])
      else None
  {
    assert walk[1..][1..][1..] == [];
  }

  /** Searching a concatenation searches the first part first. */
  lemma {:induction false} FirstEnabledAppend(e: Enablement, item: Dockable, a: seq<ExpandedState>, b: seq<ExpandedState>)
    ensures FirstEnabled(e, item, a + b) ==
      if FirstEnabled(e, item, a).Some? then FirstEnabled(e, item, a) else FirstEnabled(e, item, b)
    decreases |a|
  {
    if a != [] {
      assert (a + b)[0] == a[0] && (a + b)[1..] == a[1..] + b;
      FirstEnabledAppend(e, item, a[1..], b);
    } else {
      assert a + b == b;
    }
  }

  /** set changes no item but its own. */
  lemma SetOneFrame(states: map<Dockable, ExpandedState>, e: Enablement, item: Dockable, s: ExpandedState, x: Dockable)
    requires x != item
    ensures (x in SetOne(states, e, item, s) <==> x in states)
    ensures x in states ==> SetOne(states, e, item, s)[x] == states[x]
  {
  }

  // ---------------------------------------------------------------------
  // Properties of validate

  /** Two maps agree on the items of `k`. */
  predicate AgreeOn(m1: map<Dockable, ExpandedState>, m2: map<Dockable, ExpandedState>, k: set<Dockable>) {
    forall x | x in k :: (x in m1 <==> x in m2) && (x in m1 ==> m1[x] == m2[x])
  }

  /** Setting items changes only those items. */
  lemma {:induction false} SetAllFrame(states: map<Dockable, ExpandedState>, e: Enablement, items: seq<Dockable>, s: ExpandedState, x: Dockable)
    requires x !in items
    ensures (x in SetAll(states, e, items, s) <==> x in states)
    ensures x in states ==> SetAll(states, e, items, s)[x] == states[x]
    decreases |items|
  {
    if items != [] {
      var init := items[..|items| - 1];
      assert x !in init;
      SetAllFrame(states, e, init, s, x);
      SetOneFrame(SetAll(states, e, init, s), e, items[|items| - 1], s, x);
    }
  }

  /** Items that appear nowhere in the column keep their state. */
  lemma ValidatedFrame(states: map<Dockable, ExpandedState>, e: Enablement, column: seq<Dockable>, x: Dockable)
    requires x !in column
    ensures (x in ValidatedStates(states, e, column) <==> x in states)
    ensures x in states ==> ValidatedStates(states, e, column)[x] == states[x]
  {
    var ref := Reference(states, column);
    if ref.Some? {
      var r := ref.value.0;
      assert x !in column[r + 1..];
      SetAllFrame(states, e, column[r + 1..], ref.value.1, x);
    }
  }

  /** The items of a column without repetitions, taken in order, end up
      with the state set gives each of them. */
  lemma {:induction false} SetAllEach(states: map<Dockable, ExpandedState>, e: Enablement, items: seq<Dockable>, s: ExpandedState, i: nat)
    requires i < |items| && forall a, b | 0 <= a < b < |items| :: items[a] != items[b]
    ensures var m := SetAll(states, e, items, s);
      var c := Choice(e, items[i], s);
      && (c.Some? ==> items[i] in m && m[items[i]] == c.value)
      && (c.None? ==> (items[i] in m <==> items[i] in states) && (items[i] in states ==> m[items[i]] == states[items[i]]))
    decreases |items|
  {
    var last := |items| - 1;
    var init := items[..last];
    if i == last {
      assert items[i] !in init;
      SetAllFrame(states, e, init, s, items[i]);
    } else {
      SetAllEach(states, e, init, s, i);
      SetOneFrame(SetAll(states, e, init, s), e, items[last], s, items[i]);
    }
  }

  /** validate as promised: with no item holding a state nothing changes;
      otherwise the items up to and including the first one with a state
      keep theirs, and every later item gets what set gives it for that
      reference state. */
  lemma ValidateEffect(states: map<Dockable, ExpandedState>, e: Enablement, column: seq<Dockable>, i: nat)
    requires i < |column| && forall a, b | 0 <= a < b < |column| :: column[a] != column[b]
    ensures var m := ValidatedStates(states, e, column);
      Reference(states, column).None? ==> m == states
    ensures var m := ValidatedStates(states, e, column);
      var ref := Reference(states, column);
      ref.Some? && i <= ref.value.0 ==>
        (column[i] in m <==> column[i] in states) && (column[i] in states ==> m[column[i]] == states[column[i]])
    ensures var m := ValidatedStates(states, e, column);
      var ref := Reference(states, column);
      ref.Some? && i > ref.value.0 && Choice(e, column[i], ref.value.1).Some? ==>
        column[i] in m && m[column[i]] == Choice(e, column[i], ref.value.1).value
  {
    var ref := Reference(states, column);
    if ref.Some? {
      var r, s := ref.value.0, ref.value.1;
      var tail := column[r + 1..];
      if i <= r {
        assert column[i] !in tail;
        SetAllFrame(states, e, tail, s, column[i]);
      } else {
        assert tail[i - r - 1] == column[i];
        SetAllEach(states, e, tail, s, i - r - 1);
      }
    }
  }

  /** The items before the reference hold no state, so validate leaves
      them without one. */
  lemma {:induction false} RefFromSkips(states: map<Dockable, ExpandedState>, column: seq<Dockable>, from: nat, i: nat)
    requires from <= i < |column| && RefFrom(states, column, from).Some? && i < RefFrom(states, column, from).value.0
    ensures column[i] !in states
    decreases i - from
  {
    if i > from {
      RefFromSkips(states, column, from + 1, i);
    }
  }

  /** What validate aims at: when every later item is enabled for the
      reference state, the whole column from the reference on holds it,
      and the items before hold none. */
  lemma ValidateAligns(states: map<Dockable, ExpandedState>, e: Enablement, column: seq<Dockable>)
    requires forall a, b | 0 <= a < b < |column| :: column[a] != column[b]
    requires Reference(states, column).Some?
    requires forall i | Reference(states, column).value.0 < i < |column| :: (column[i], Reference(states, column).value.1) in e
    ensures var m := ValidatedStates(states, e, column);
      var (r, s) := Reference(states, column).value;
      && (forall i | r <= i < |column| :: column[i] in m && m[column[i]] == s)
      && (forall i | 0 <= i < r :: column[i] !in m)
  {
    var m := ValidatedStates(states, e, column);
    var (r, s) := Reference(states, column).value;
    forall i | r <= i < |column|
      ensures column[i] in m && m[column[i]] == s
    {
      ValidateEffect(states, e, column, i);
      if i > r {
        ChoiceEnabled(e, column[i], s);
      }
    }
    forall i | 0 <= i < r
      ensures column[i] !in m
    {
      RefFromSkips(states, column, 0, i);
      ValidateEffect(states, e, column, i);
    }
  }

  /** validate on a second pass changes no item of the column: the
      reference stays where it was, and every later item already holds what
      set gives it for the reference state, or was left alone by the first
      pass and is left alone again. */
  lemma ValidateIdempotent(states: map<Dockable, ExpandedState>, e: Enablement, column: seq<Dockable>)
    requires forall a, b | 0 <= a < b < |column| :: column[a] != column[b]
    ensures AgreeOn(ValidatedStates(ValidatedStates(states, e, column), e, column), ValidatedStates(states, e, column), set x | x in column)
  {
    var m := ValidatedStates(states, e, column);
    var ref := Reference(states, column);
    if ref.Some? {
      var (r, s) := ref.value;
      ValidateEffect(states, e, column, r);
      forall i | 0 <= i < r
        ensures column[i] !in m
      {
        RefFromSkips(states, column, 0, i);
        ValidateEffect(states, e, column, i);
      }
      ReferenceAfter(states, m, column, r, s);
      forall x | x in column
        ensures AgreeOn(ValidatedStates(m, e, column), m, {x})
      {
        var i :| 0 <= i < |column| && column[i] == x;
        RevalidateItem(states, e, column, i);
      }
    }
  }

  /** One item of the column under the second pass of validate, once the
      reference is known to stay put. */
  lemma RevalidateItem(states: map<Dockable, ExpandedState>, e: Enablement, column: seq<Dockable>, i: nat)
    requires i < |column| && forall a, b | 0 <= a < b < |column| :: column[a] != column[b]
    requires Reference(states, column).Some?
    requires Reference(ValidatedStates(states, e, column), column) == Reference(states, column)
    ensures AgreeOn(ValidatedStates(ValidatedStates(states, e, column), e, column), ValidatedStates(states, e, column), {column[i]})
  {
    var m := ValidatedStates(states, e, column);
    var (r, s) := Reference(states, column).value;
    if i <= r {
      ValidateEffect(m, e, column, i);
    } else {
      var tail := column[r + 1..];
      assert tail[i - r - 1] == column[i];
      SetAllEach(states, e, tail, s, i - r - 1);
      SetAllEach(m, e, tail, s, i - r - 1);
    }
  }

  /** A map that holds no state for the items before `r` and `s` at `r`
      has its reference at `r`. */
  lemma {:induction false} ReferenceAfter(states: map<Dockable, ExpandedState>, m: map<Dockable, ExpandedState>, column: seq<Dockable>, r: nat, s: ExpandedState)
    requires r < |column| && column[r] in m && m[column[r]] == s
    requires forall i | 0 <= i < r :: column[i] !in m
    ensures Reference(m, column) == Some((r, s))
  {
    var from := 0;
    while from < r
      invariant from <= r && RefFrom(m, column, 0) == RefFrom(m, column, from)
    {
      from := from + 1;
    }
  }

  // ---------------------------------------------------------------------
  // Properties of inserted

  /** The state inserted copies is the one of the first other item that
      has one; there is none exactly when no other item has a state. */
  lemma {:induction false} FirstOtherSpec(states: map<Dockable, ExpandedState>, column: seq<Dockable>, skip: int, from: nat)
    requires from <= |column|
    ensures FirstOther(states, column, skip, from).None? <==>
      forall i | from <= i < |column| && i != skip :: column[i] !in states
    ensures FirstOther(states, column, skip, from).Some? ==>
      exists i | from <= i < |column| && i != skip && column[i] in states ::
        && states[column[i]] == FirstOther(states, column, skip, from).value
        && forall j | from <= j < i && j != skip :: column[j] !in states
    decreases |column| - from
  {
    if from < |column| && !(from != skip && column[from] in states) {
      FirstOtherSpec(states, column, skip, from + 1);
    }
  }

  /** inserted changes the inserted dockable's state and nothing else,
      and gives it the copied state whenever it is enabled for it. */
  lemma InsertedEffect(states: map<Dockable, ExpandedState>, e: Enablement, column: seq<Dockable>, d: Dockable, index: int, x: Dockable)
    ensures var m := InsertedStates(states, e, column, d, index);
      x != d ==> (x in m <==> x in states) && (x in states ==> m[x] == states[x])
    ensures var m := InsertedStates(states, e, column, d, index);
      var s := FirstOther(states, column, index, 0);
      s.Some? && (d, s.value) in e ==> d in m && m[d] == s.value
    ensures FirstOther(states, column, index, 0).None? ==> InsertedStates(states, e, column, d, index) == states
  {
    var s := FirstOther(states, column, index, 0);
    if s.Some? {
      if x != d {
        SetOneFrame(states, e, d, s.value, x);
      }
      if (d, s.value) in e {
        ChoiceEnabled(e, d, s.value);
      }
    }
  }

  // ---------------------------------------------------------------------
  // Properties of validateAll

  /** No item lies in two columns. */
  predicate Disjoint(columns: seq<seq<Dockable>>) {
    forall a, b, x | 0 <= a < b < |columns| && x in columns[a] :: x !in columns[b]
  }

  lemma AgreeTrans(m1: map<Dockable, ExpandedState>, m2: map<Dockable, ExpandedState>, m3: map<Dockable, ExpandedState>, k: set<Dockable>)
    requires AgreeOn(m1, m2, k) && AgreeOn(m2, m3, k)
    ensures AgreeOn(m1, m3, k)
  {
  }

  /** Setting the same items from two maps that agree on `k` gives maps
      that agree on `k`. */
  lemma {:induction false} SetAllLocal(m1: map<Dockable, ExpandedState>, m2: map<Dockable, ExpandedState>, e: Enablement, items: seq<Dockable>, s: ExpandedState, k: set<Dockable>)
    requires AgreeOn(m1, m2, k)
    ensures AgreeOn(SetAll(m1, e, items, s), SetAll(m2, e, items, s), k)
    decreases |items|
  {
    if items != [] {
      SetAllLocal(m1, m2, e, items[..|items| - 1], s, k);
    }
  }

  /** The reference of a column depends only on its own items. */
  lemma {:induction false} RefFromLocal(m1: map<Dockable, ExpandedState>, m2: map<Dockable, ExpandedState>, column: seq<Dockable>, from: nat)
    requires from <= |column| && AgreeOn(m1, m2, set x | x in column)
    ensures RefFrom(m1, column, from) == RefFrom(m2, column, from)
    decreases |column| - from
  {
    if from < |column| {
      assert column[from] in set x | x in column;
      RefFromLocal(m1, m2, column, from + 1);
    }
  }

  /** validate of a column depends only on that column's items. */
  lemma ValidatedLocal(m1: map<Dockable, ExpandedState>, m2: map<Dockable, ExpandedState>, e: Enablement, column: seq<Dockable>)
    requires AgreeOn(m1, m2, set x | x in column)
    ensures AgreeOn(ValidatedStates(m1, e, column), ValidatedStates(m2, e, column), set x | x in column)
  {
    RefFromLocal(m1, m2, column, 0);
    var ref := Reference(m1, column);
    if ref.Some? {
      SetAllLocal(m1, m2, e, column[ref.value.0 + 1..], ref.value.1, set x | x in column);
    }
  }

  /** validateAll leaves alone the items of no column. */
  lemma {:induction false} AllValidatedFrame(states: map<Dockable, ExpandedState>, e: Enablement, columns: seq<seq<Dockable>>, x: Dockable)
    requires forall c | 0 <= c < |columns| :: x !in columns[c]
    ensures (x in AllValidated(states, e, columns) <==> x in states)
    ensures x in states ==> AllValidated(states, e, columns)[x] == states[x]
    decreases |columns|
  {
    if columns != [] {
      var n := |columns| - 1;
      AllValidatedFrame(states, e, columns[..n], x);
      ValidatedFrame(AllValidated(states, e, columns[..n]), e, columns[n], x);
    }
  }

  /** validateAll over columns that share no item validates each column as
      if it were alone. */
  lemma {:induction false} ValidateAllColumnwise(states: map<Dockable, ExpandedState>, e: Enablement, columns: seq<seq<Dockable>>, k: nat)
    requires Disjoint(columns) && k < |columns|
    ensures AgreeOn(AllValidated(states, e, columns), ValidatedStates(states, e, columns[k]), set x | x in columns[k])
    decreases |columns|
  {
    var n := |columns| - 1;
    var init := columns[..n];
    var a := AllValidated(states, e, init);
    var own := set x | x in columns[k];
    if k == n {
      forall x | x in own
        ensures (x in a <==> x in states) && (x in a ==> a[x] == states[x])
      {
        forall c | 0 <= c < |init|
          ensures x !in init[c]
        {
          assert init[c] == columns[c];
        }
        AllValidatedFrame(states, e, init, x);
      }
      ValidatedLocal(a, states, e, columns[n]);
    } else {
      assert init[k] == columns[k];
      ValidateAllColumnwise(states, e, init, k);
      forall x | x in own
        ensures (x in ValidatedStates(a, e, columns[n]) <==> x in a)
        ensures x in a ==> ValidatedStates(a, e, columns[n])[x] == a[x]
      {
        ValidatedFrame(a, e, columns[n], x);
      }
      AgreeTrans(ValidatedStates(a, e, columns[n]), a, ValidatedStates(states, e, columns[k]), own);
    }
  }

  // ---------------------------------------------------------------------
  // The strategy and the handler

  /** The expandable-toolbar-item strategy, as far as the handler uses it:
      the state of each item (an item without one answers null) and the
      pairs of item and state it enables. */
  class ExpandableToolbarItemStrategy {
    var states: map<Dockable, ExpandedState>
    var enabled: Enablement

    constructor(states0: map<Dockable, ExpandedState>, enabled0: Enablement)
      ensures states == states0 && enabled == enabled0
    {
      states := states0;
      enabled := enabled0;
    }

    function GetState(item: Dockable): Option<ExpandedState>
      reads this
    {
      if item in states then Some(states[item]) else None
    }

    predicate IsEnabled(item: Dockable, state: ExpandedState)
      reads this
    {
      (item, state) in enabled
    }

    method SetState(item: Dockable, state: ExpandedState)
      modifies this
      ensures states == old(states)[item := state] && enabled == old(enabled)
    {
      states := states[item := state];
    }
  }

  /** Setting one more item of a run of the column. */
  lemma SetAllStep(m: map<Dockable, ExpandedState>, e: Enablement, column: seq<Dockable>, from: nat, index: nat, s: ExpandedState)
    requires from <= index < |column|
    ensures SetAll(m, e, column[from..index + 1], s) == SetOne(SetAll(m, e, column[from..index], s), e, column[index], s)
  {
    var items := column[from..index + 1];
    assert items != [] && items[|items| - 1] == column[index];
    assert items[..|items| - 1] == column[from..index];
  }

  /** ColumnHandler, with the strategy property's current value. */
  class ColumnHandler {
    var strategy: ExpandableToolbarItemStrategy?

    constructor(strategy0: ExpandableToolbarItemStrategy?)
      ensures strategy == strategy0
    {
      strategy := strategy0;
    }

    /** set: the requested state if enabled, else the first enabled state
        smaller() reaches, else the first larger() reaches, else no
        change (see Choice and its lemmas). */
    method Set(strategy: ExpandableToolbarItemStrategy, item: Dockable, state: ExpandedState)
      modifies strategy
      ensures strategy.states == SetOne(old(strategy.states), old(strategy.enabled), item, state)
      ensures strategy.enabled == old(strategy.enabled)
    {
      ghost var e := strategy.enabled;
      FirstEnabledAppend(e, item, [state] + Downward(state), Upward(state));
      if strategy.IsEnabled(item, state) {
        strategy.SetState(item, state);
        return;
      }
      assert ([state] + Downward(state))[0] == state && ([state] + Downward(state))[1..] == Downward(state);
      var smaller := state;
      while smaller != Smaller(smaller)
        invariant FirstEnabled(e, item, [state] + Downward(state)) == FirstEnabled(e, item, Downward(smaller))
        invariant strategy.states == old(strategy.states) && strategy.enabled == e
        decreases Rank(smaller)
      {
        smaller := Smaller(smaller);
        if strategy.IsEnabled(item, smaller) {
          strategy.SetState(item, smaller);
          return;
        }
      }
      var larger := state;
      while larger != Larger(larger)
        invariant FirstEnabled(e, item, Upward(state)) == FirstEnabled(e, item, Upward(larger))
        invariant strategy.states == old(strategy.states) && strategy.enabled == e
        decreases 2 - Rank(larger)
      {
        larger := Larger(larger);
        if strategy.IsEnabled(item, larger) {
          strategy.SetState(item, larger);
          return;
        }
      }
    }

    /** validate: without a strategy nothing changes; otherwise every item
        after the first one with a state is set to that state. */
    method Validate(column: seq<Dockable>)
      modifies strategy
      ensures strategy != null ==>
        strategy.states == ValidatedStates(old(strategy.states), old(strategy.enabled), column)
        && strategy.enabled == old(strategy.enabled)
    {
      var strategy := this.strategy;
      if strategy != null {
        ghost var m, e := strategy.states, strategy.enabled;
        var index := 0;
        var length := |column|;
        var state: Option<ExpandedState> := None;
        while index < length && state.None?
          invariant 0 <= index <= length && strategy.states == m
          invariant state.None? ==> Reference(m, column) == RefFrom(m, column, index)
          invariant state.Some? ==> index > 0 && Reference(m, column) == Some((index - 1, state.value))
        {
          state := strategy.GetState(column[index]);
          index := index + 1;
        }
        if state.Some? {
          SetFrom(strategy, column, index, state.value);
        }
      }
    }

    /** validate's second loop: every item from `from` on is set to
        `state`, in column order. */
    method SetFrom(strategy: ExpandableToolbarItemStrategy, column: seq<Dockable>, from: nat, state: ExpandedState)
      requires from <= |column|
      modifies strategy
      ensures strategy.states == SetAll(old(strategy.states), old(strategy.enabled), column[from..], state)
      ensures strategy.enabled == old(strategy.enabled)
    {
      ghost var m, e := strategy.states, strategy.enabled;
      var index := from;
      while index < |column|
        invariant from <= index <= |column| && strategy.enabled == e
        invariant strategy.states == SetAll(m, e, column[from..index], state)
      {
        var item := column[index];
        SetAllStep(m, e, column, from, index, state);
        index := index + 1;
        Set(strategy, item, state);
      }
      assert column[from..index] == column[from..];
    }

    /** inserted: without a strategy nothing changes; otherwise the new
        item is set to the state of the first other item that has one. */
    method Inserted(column: seq<Dockable>, dockable: Dockable, index: int)
      modifies strategy
      ensures strategy != null ==>
        strategy.states == InsertedStates(old(strategy.states), old(strategy.enabled), column, dockable, index)
        && strategy.enabled == old(strategy.enabled)
    {
      var strategy := this.strategy;
      if strategy != null {
        ghost var m := strategy.states;
        var count := 0;
        var length := |column|;
        var state: Option<ExpandedState> := None;
        while count < length && state.None?
          invariant 0 <= count <= length && strategy.states == m
          invariant state.None? ==> FirstOther(m, column, index, 0) == FirstOther(m, column, index, count)
          invariant state.Some? ==> FirstOther(m, column, index, 0) == state
        {
          if count != index {
            state := strategy.GetState(column[count]);
            count := count + 1;
          } else {
            count := count + 1;
          }
        }
        if state.Some? {
          Set(strategy, dockable, state.value);
        }
      }
    }

    /** validateAll: every column of the model is validated once, in
        order. */
    method ValidateAll(columns: seq<seq<Dockable>>)
      modifies strategy
      ensures strategy != null ==>
        strategy.states == AllValidated(old(strategy.states), old(strategy.enabled), columns)
        && strategy.enabled == old(strategy.enabled)
    {
      var i := 0;
      while i < |columns|
        invariant 0 <= i <= |columns|
        invariant strategy != null ==>
          strategy.states == AllValidated(old(strategy.states), old(strategy.enabled), columns[..i])
          && strategy.enabled == old(strategy.enabled)
      {
        assert columns[..i + 1][..i] == columns[..i];
        Validate(columns[i]);
        i := i + 1;
      }
      assert columns[..i] == columns;
    }
  }
}
