/** A column of windows: what each edit does to its windows, height weights and active tab.
    Weights are `real`; rounding is not modelled. */
module Columns {
  import opened Prelude

  type WindowId = nat

  const MIN_COLUMN_WIDTH := 100

  datatype Mode = Vertical | Tabbed(active: nat)

  datatype ColumnState = ColumnState(width: int, windows: seq<WindowId>, weights: seq<real>, mode: Mode)

  datatype Edit =
    | Add(w: WindowId)
    | InsertAt(index: nat, w: WindowId)
    | Remove(w: WindowId)
    | RemoveAt(index: nat)
    | Swap(a: nat, b: nat)
    | SetTabbed(index: nat)
    | SetVertical
    | SetActiveTab(index: nat)
    | SetHeightWeight(index: nat, weight: real)

  function Max(a: int, b: int): int { if a < b then b else a }

  function Min(a: nat, b: nat): nat { if a < b then a else b }

  function NewColumn(w: WindowId, width: int): ColumnState {
    ColumnState(Max(width, MIN_COLUMN_WIDTH), [w], [1.0], Vertical)
  }

  function EmptyColumn(width: int): ColumnState {
    ColumnState(Max(width, MIN_COLUMN_WIDTH), [], [], Vertical)
  }

  // ------------------------------------------------------------------- parts

  function Position(ws: seq<WindowId>, w: WindowId): (r: Option<nat>)
    ensures match r
            case Some(i) => i < |ws| && ws[i] == w && w !in ws[..i]
            case None => w !in ws
  {
    if ws == [] then None
    else if ws[0] == w then Some(0)
    else
      match Position(ws[1..], w)
      case None => None
      case Some(i) => Some(i + 1)
  }

  function Without<T>(s: seq<T>, i: nat): seq<T> { if i < |s| then s[..i] + s[i + 1..] else s }

  function Swapped<T>(s: seq<T>, a: nat, b: nat): seq<T> {
    if a < |s| && b < |s| then s[a := s[b]][b := s[a]] else s
  }

  function Equal(n: nat): seq<real> { seq(n, _ => if n == 0 then 0.0 else 1.0 / n as real) }

  function Sum(s: seq<real>): real {
    if s == [] then 0.0 else Sum(s[..|s| - 1]) + s[|s| - 1]
  }

  function Abs(x: real): real { if x < 0.0 then -x else x }

  const TOLERANCE := 0.000000001

  function Scaled(s: seq<real>, total: real): seq<real>
    requires total != 0.0
  {
    seq(|s|, i requires 0 <= i < |s| => s[i] / total)
  }

  function Normalized(s: seq<real>): seq<real> {
    var total := Sum(s);
    if total > 0.0 && Abs(total - 1.0) > TOLERANCE then Scaled(s, total) else s
  }

  function Maintained(c: ColumnState): ColumnState {
    if c.mode.Tabbed? && |c.windows| <= 1 then c.(mode := Vertical)
    else if c.mode.Tabbed? && c.mode.active >= |c.windows| then c.(mode := Tabbed(|c.windows| - 1))
    else c
  }

  /** `c` with the active tab adjusted after the window at `i` was removed. */
  function AfterRemoval(c: ColumnState, i: nat): ColumnState {
    if c.mode.Tabbed? && c.windows == [] then c.(mode := Vertical)
    else if c.mode.Tabbed? then
      var a := c.mode.active;
      Maintained(c.(mode := Tabbed(if a > i then a - 1 else if a == i then Min(a, |c.windows| - 1) else a)))
    else c
  }

  function AfterInsertion(c: ColumnState, i: nat): ColumnState {
    if c.mode.Tabbed? then
      var a := c.mode.active;
      Maintained(c.(mode := Tabbed(if i <= a then Min(a + 1, Max(|c.windows| - 1, 0)) else a)))
    else c
  }

  function AfterSwap(c: ColumnState, a: nat, b: nat): ColumnState {
    if c.mode.Tabbed? then
      var t := c.mode.active;
      Maintained(c.(mode := Tabbed(if t == a then b else if t == b then a else t)))
    else c
  }

  function RMin(a: real, b: real): real { if a < b then a else b }

  function RMax(a: real, b: real): real { if a < b then b else a }

  /** The least share of any window when one of `n` weights is set. */
  function MinShare(n: nat): real
    requires n > 0
  {
    RMin(0.05, 1.0 / n as real)
  }

  function Share(n: nat, weight: real): real
    requires n > 1
  {
    var least := MinShare(n);
    RMin(RMax(weight, least), RMax(1.0 - (n - 1) as real * least, least))
  }

  /** One weight set, the rest of the height split evenly. */
  function Shared(n: nat, index: nat, weight: real): seq<real>
    requires n > 1
  {
    var share := Share(n, weight);
    seq(n, i => if i == index then share else (1.0 - share) / (n - 1) as real)
  }

  // ------------------------------------------------------------------- edits

  function Apply(c: ColumnState, e: Edit): ColumnState {
    var n := |c.windows|;
    match e
    case Add(w) => Maintained(c.(windows := c.windows + [w], weights := Equal(n + 1)))
    case InsertAt(index, w) =>
      var i := Min(index, n);
      AfterInsertion(c.(windows := c.windows[..i] + [w] + c.windows[i..], weights := Equal(n + 1)), i)
    case Remove(w) =>
      (match Position(c.windows, w)
       case None => c
       case Some(i) =>
         AfterRemoval(c.(windows := Without(c.windows, i), weights := Normalized(Without(c.weights, i))), i))
    case RemoveAt(index) =>
      if index >= n then c
      else AfterRemoval(c.(windows := Without(c.windows, index), weights := Equal(n - 1)), index)
    case Swap(a, b) =>
      if a >= n || b >= n then c
      else AfterSwap(c.(windows := Swapped(c.windows, a, b), weights := Swapped(c.weights, a, b)), a, b)
    case SetTabbed(index) => if n == 0 then c else c.(mode := Tabbed(Min(index, n - 1)))
    case SetVertical => c.(mode := Vertical)
    case SetActiveTab(index) =>
      if n == 0 || c.mode.Vertical? then c else c.(mode := Tabbed(Min(index, n - 1)))
    case SetHeightWeight(index, weight) =>
      if n <= 1 || index >= n then c else c.(weights := Shared(n, index, weight))
  }

  function ApplyAll(c: ColumnState, edits: seq<Edit>): ColumnState
    decreases |edits|
  {
    if edits == [] then c else ApplyAll(Apply(c, edits[0]), edits[1..])
  }

  /** The share and what is left for each sibling, computed step by step. */
  lemma SharedAs(n: nat, index: nat, weight: real, share: real, perSibling: real)
    requires n > 1
    requires
      var least := RMin(0.05, 1.0 / n as real);
      share == RMin(RMax(weight, least), RMax(1.0 - (n - 1) as real * least, least))
    requires perSibling == (1.0 - share) / (n - 1) as real
    ensures Shared(n, index, weight) == seq(n, i => if i == index then share else perSibling)
  {
    assert share == Share(n, weight);
  }

  // ------------------------------------------------------- the cursor it refines

  /** A list with a cursor on one of its windows, or on none. */
  datatype Cursor = Cursor(windows: seq<WindowId>, active: Option<WindowId>)

  function Settle(ws: seq<WindowId>, active: Option<WindowId>): Cursor {
    Cursor(ws, if |ws| <= 1 then None else active)
  }

  function Filter(ws: seq<WindowId>, w: WindowId): seq<WindowId> {
    if ws == [] then []
    else (if ws[0] == w then [] else [ws[0]]) + Filter(ws[1..], w)
  }

  /** The window below `w`, or above it when `w` is the last. */
  function Neighbour(ws: seq<WindowId>, w: WindowId): WindowId
    requires |ws| > 1
  {
    match Position(ws, w)
    case Some(i) => if i + 1 < |ws| then ws[i + 1] else ws[|ws| - 2]
    case None => w
  }

  /** Each edit in terms of the windows alone: no index is kept. */
  function Move(c: Cursor, e: Edit): Cursor {
    var ws := c.windows;
    match e
    case Add(w) => Settle(ws + [w], c.active)
    case InsertAt(index, w) => Settle(ws[..Min(index, |ws|)] + [w] + ws[Min(index, |ws|)..], c.active)
    case Remove(w) => TakeOut(c, w)
    case RemoveAt(index) => if index < |ws| then TakeOut(c, ws[index]) else c
    case Swap(a, b) => if a < |ws| && b < |ws| then Settle(Swapped(ws, a, b), c.active) else c
    case SetTabbed(index) => if ws == [] then c else Cursor(ws, Some(ws[Min(index, |ws| - 1)]))
    case SetVertical => Cursor(ws, None)
    case SetActiveTab(index) =>
      if ws == [] || c.active.None? then c else Cursor(ws, Some(ws[Min(index, |ws| - 1)]))
    case SetHeightWeight(_, _) => c
  }

  function TakeOut(c: Cursor, w: WindowId): Cursor {
    if w !in c.windows then c
    else Settle(Filter(c.windows, w),
                if c.active == Some(w) && |c.windows| > 1 then Some(Neighbour(c.windows, w)) else c.active)
  }

  function MoveAll(c: Cursor, edits: seq<Edit>): Cursor
    decreases |edits|
  {
    if edits == [] then c else MoveAll(Move(c, edits[0]), edits[1..])
  }

  ghost predicate Distinct(ws: seq<WindowId>) {
    forall i, j :: 0 <= i < j < |ws| ==> ws[i] != ws[j]
  }

  ghost predicate WellFormed(c: ColumnState) {
    && Distinct(c.windows)
    && (c.mode.Tabbed? ==> c.mode.active < |c.windows|)
  }

  /** Edits insert only windows the column does not hold. */
  predicate Fresh(c: ColumnState, e: Edit) {
    (e.Add? || e.InsertAt?) ==> e.w !in c.windows
  }

  predicate FreshRun(c: ColumnState, edits: seq<Edit>)
    decreases |edits|
  {
    edits == [] || (Fresh(c, edits[0]) && FreshRun(Apply(c, edits[0]), edits[1..]))
  }

  function View(c: ColumnState): Cursor
    requires c.mode.Tabbed? ==> c.mode.active < |c.windows|
  {
    Cursor(c.windows, if c.mode.Tabbed? then Some(c.windows[c.mode.active]) else None)
  }

  lemma {:induction false} FilterAbsent(ws: seq<WindowId>, w: WindowId)
    requires w !in ws
    ensures Filter(ws, w) == ws
  {
    if ws != [] { FilterAbsent(ws[1..], w); }
  }

  lemma WithoutTail(ws: seq<WindowId>, i: nat)
    requires i < |ws|
    ensures Without(ws, i) == if i == 0 then ws[1..] else [ws[0]] + Without(ws[1..], i - 1)
  {
    if i > 0 {
      assert ws[..i] == [ws[0]] + ws[1..][..i - 1];
      assert ws[i + 1..] == ws[1..][i..];
    }
  }

  lemma {:induction false} FilterDrops(ws: seq<WindowId>, i: nat)
    requires Distinct(ws) && i < |ws|
    ensures Filter(ws, ws[i]) == Without(ws, i)
  {
    hide Without;
    var rest := ws[1..];
    WithoutTail(ws, i);
    if i == 0 {
      FilterAbsent(rest, ws[0]);
    } else {
      assert rest[i - 1] == ws[i];
      FilterDrops(rest, i - 1);
    }
  }

  lemma WithoutDistinct(ws: seq<WindowId>, i: nat)
    requires Distinct(ws) && i < |ws|
    ensures Distinct(Without(ws, i)) && |Without(ws, i)| == |ws| - 1
    ensures forall k :: 0 <= k < |ws| - 1 ==> Without(ws, i)[k] == ws[if k < i then k else k + 1]
    ensures Filter(ws, ws[i]) == Without(ws, i) && Position(ws, ws[i]) == Some(i)
  {
    FilterDrops(ws, i);
  }

  lemma TakeOutAt(c: Cursor, i: nat)
    requires Distinct(c.windows) && i < |c.windows|
    ensures
      var ws := c.windows;
      TakeOut(c, ws[i]) ==
        Settle(Without(ws, i),
               if c.active == Some(ws[i]) && |ws| > 1
               then Some(if i + 1 < |ws| then ws[i + 1] else ws[|ws| - 2]) else c.active)
  {
    WithoutDistinct(c.windows, i);
  }

  lemma RemovalRefines(c: ColumnState, weights: seq<real>, i: nat)
    requires WellFormed(c) && i < |c.windows|
    ensures
      var c' := AfterRemoval(c.(windows := Without(c.windows, i), weights := weights), i);
      WellFormed(c') && View(c') == TakeOut(View(c), c.windows[i])
  {
    TakeOutAt(View(c), i);
    var ws, ws' := c.windows, Without(c.windows, i);
    assert Distinct(ws') && |ws'| == |ws| - 1 by { WithoutDistinct(ws, i); }
    if c.mode.Tabbed? && ws' != [] {
      var a := c.mode.active;
      var a' := if a > i then a - 1 else if a == i then Min(a, |ws'| - 1) else a;
      assert a' < |ws'| && ws'[a'] == ws[if a' < i then a' else a' + 1];
      assert a != i ==> ws[a] != ws[i];
    }
  }

  lemma InsertionRefines(c: ColumnState, index: nat, w: WindowId)
    requires WellFormed(c) && w !in c.windows
    ensures
      var c' := Apply(c, InsertAt(index, w));
      WellFormed(c') && View(c') == Move(View(c), InsertAt(index, w))
  {
    var i := Min(index, |c.windows|);
    InsertedAt(c.windows, i, w);
    CursorAfterInsertion(c, i, c.windows[..i] + [w] + c.windows[i..], Equal(|c.windows| + 1));
    hide AfterInsertion, WellFormed, View, Equal;
  }

  /** The active tab moves down with its window when another is inserted at or above it. */
  lemma CursorAfterInsertion(c: ColumnState, i: nat, ws: seq<WindowId>, weights: seq<real>)
    requires WellFormed(c) && Distinct(ws) && i < |ws| == |c.windows| + 1
    requires forall k :: 0 <= k < |c.windows| ==> ws[if k < i then k else k + 1] == c.windows[k]
    ensures
      var c' := AfterInsertion(c.(windows := ws, weights := weights), i);
      WellFormed(c') && View(c') == Settle(ws, View(c).active)
  {
    hide Distinct;
    if c.mode.Tabbed? {
      var a := c.mode.active;
      assert ws[if a < i then a else a + 1] == c.windows[a];
    }
  }

  lemma InsertedAt(ws: seq<WindowId>, i: nat, w: WindowId)
    requires Distinct(ws) && w !in ws && i <= |ws|
    ensures
      var ws' := ws[..i] + [w] + ws[i..];
      && |ws'| == |ws| + 1 && Distinct(ws')
      && forall k :: 0 <= k < |ws| ==> ws'[if k < i then k else k + 1] == ws[k]
  {
    var ws' := ws[..i] + [w] + ws[i..];
    assert forall k :: 0 <= k < |ws'| ==> ws'[k] == if k < i then ws[k] else if k == i then w else ws[k - 1];
  }

  lemma SwapRefines(c: ColumnState, a: nat, b: nat)
    requires WellFormed(c)
    ensures
      var c' := Apply(c, Swap(a, b));
      WellFormed(c') && View(c') == Move(View(c), Swap(a, b))
  {
    if a < |c.windows| && b < |c.windows| {
      var ws' := Swapped(c.windows, a, b);
      assert forall k :: 0 <= k < |ws'| ==>
        ws'[k] == c.windows[if k == a then b else if k == b then a else k];
      assert Distinct(ws');
    }
  }

  lemma TakingRefines(c: ColumnState, e: Edit)
    requires WellFormed(c) && (e.Remove? || e.RemoveAt?)
    ensures WellFormed(Apply(c, e)) && View(Apply(c, e)) == Move(View(c), e)
  {
    if e.Remove? && e.w in c.windows {
      var i := Position(c.windows, e.w).value;
      RemovalRefines(c, Normalized(Without(c.weights, i)), i);
    } else if e.RemoveAt? && e.index < |c.windows| {
      RemovalRefines(c, Equal(|c.windows| - 1), e.index);
    }
  }

  lemma StepRefines(c: ColumnState, e: Edit)
    requires WellFormed(c) && Fresh(c, e)
    ensures WellFormed(Apply(c, e)) && View(Apply(c, e)) == Move(View(c), e)
  {
    match e
    case Remove(_) => TakingRefines(c, e);
    case RemoveAt(_) => TakingRefines(c, e);
    case InsertAt(index, w) => InsertionRefines(c, index, w);
    case Swap(a, b) => SwapRefines(c, a, b);
    case Add(w) => AdditionRefines(c, w);
    case _ =>
  }

  lemma AdditionRefines(c: ColumnState, w: WindowId)
    requires WellFormed(c) && w !in c.windows
    ensures WellFormed(Apply(c, Add(w))) && View(Apply(c, Add(w))) == Move(View(c), Add(w))
  {
    assert Distinct(c.windows + [w]);
  }

  /** Over any run of edits, the stored index follows its window exactly as a cursor on the
      window would. */
  lemma {:induction false} IndexRefinesCursor(c: ColumnState, edits: seq<Edit>)
    requires WellFormed(c) && FreshRun(c, edits)
    ensures WellFormed(ApplyAll(c, edits)) && View(ApplyAll(c, edits)) == MoveAll(View(c), edits)
    decreases |edits|
  {
    if edits != [] {
      StepRefines(c, edits[0]);
      IndexRefinesCursor(Apply(c, edits[0]), edits[1..]);
    }
  }

  // ---------------------------------------------------------- the active tab

  predicate Takes(c: Cursor, e: Edit, w: WindowId) {
    e == Remove(w) || (e.RemoveAt? && e.index < |c.windows| && c.windows[e.index] == w)
  }

  /** No edit of the run names a tab, turns tabs off, takes `w` out or leaves fewer than two windows. */
  predicate Keeps(c: Cursor, edits: seq<Edit>, w: WindowId)
    decreases |edits|
  {
    edits == [] ||
    (var e := edits[0];
     && !e.SetTabbed? && !e.SetVertical? && !e.SetActiveTab? && !Takes(c, e, w)
     && |Move(c, e).windows| >= 2
     && Keeps(Move(c, e), edits[1..], w))
  }

  lemma {:induction false} CursorStays(c: Cursor, edits: seq<Edit>, w: WindowId)
    requires c.active == Some(w) && Keeps(c, edits, w)
    ensures MoveAll(c, edits).active == Some(w)
    decreases |edits|
  {
    if edits != [] { CursorStays(Move(c, edits[0]), edits[1..], w); }
  }

  /** The same window stays on top while it is not removed and two windows remain. */
  lemma ActiveTabFollowsWindow(c: ColumnState, edits: seq<Edit>)
    requires WellFormed(c) && c.mode.Tabbed? && FreshRun(c, edits)
    requires Keeps(View(c), edits, c.windows[c.mode.active])
    ensures
      var c' := ApplyAll(c, edits);
      && c'.mode.Tabbed? && c'.mode.active < |c'.windows|
      && c'.windows[c'.mode.active] == c.windows[c.mode.active]
  {
    IndexRefinesCursor(c, edits);
    CursorStays(View(c), edits, c.windows[c.mode.active]);
  }

  /** A removed active tab yields to the window below it, or to the new last one. */
  lemma RemovedTabYields(c: ColumnState)
    requires WellFormed(c) && c.mode.Tabbed? && |c.windows| > 2
    ensures
      var a, n := c.mode.active, |c.windows|;
      var c' := Apply(c, Remove(c.windows[a]));
      && |c'.windows| == n - 1 && c'.mode.Tabbed? && c'.mode.active < n - 1
      && c'.windows[c'.mode.active] == (if a + 1 < n then c.windows[a + 1] else c.windows[n - 2])
      && c'.mode == Apply(c, RemoveAt(a)).mode
  {
    assert Position(c.windows, c.windows[c.mode.active]) == Some(c.mode.active);
  }

  predicate LoneTab(c: ColumnState) { c.mode.Tabbed? && |c.windows| < 2 }

  /** The run never asks for tabs while the column has a single window. */
  predicate NoLoneTabbing(c: ColumnState, edits: seq<Edit>)
    decreases |edits|
  {
    edits == [] || (!(edits[0].SetTabbed? && |c.windows| == 1) && NoLoneTabbing(Apply(c, edits[0]), edits[1..]))
  }

  lemma EditKeepsTabs(c: ColumnState, edit: Edit)
    requires !LoneTab(c) && !(edit.SetTabbed? && |c.windows| == 1)
    ensures !LoneTab(Apply(c, edit))
  {}

  /** Tabbed with fewer than two windows is reached only by asking for tabs on a lone window. */
  lemma {:induction false} TabsNeedTwoWindows(c: ColumnState, edits: seq<Edit>)
    requires !LoneTab(c) && NoLoneTabbing(c, edits)
    ensures !LoneTab(ApplyAll(c, edits))
    decreases |edits|
  {
    if edits != [] {
      hide Apply, LoneTab;
      EditKeepsTabs(c, edits[0]);
      TabsNeedTwoWindows(Apply(c, edits[0]), edits[1..]);
    }
  }

  // ------------------------------------------------------------ height weights

  /** Weights are absent, or one per window, positive, and within the tolerance of 1 in total. */
  ghost predicate Balanced(c: ColumnState) { Weighted(c.weights, |c.windows|) }

  ghost predicate Weighted(weights: seq<real>, n: nat) { weights == [] || Shares(weights, n) }

  ghost predicate Shares(s: seq<real>, n: nat) {
    && |s| == n
    && (forall i :: 0 <= i < n ==> s[i] > 0.0)
    && Abs(Sum(s) - 1.0) <= TOLERANCE
  }

  lemma {:induction false} SumConcat(a: seq<real>, b: seq<real>)
    ensures Sum(a + b) == Sum(a) + Sum(b)
  {
    if b == [] {
      assert a + b == a;
    } else {
      SumConcat(a, b[..|b| - 1]);
      assert (a + b)[..|a + b| - 1] == a + b[..|b| - 1];
    }
  }

  lemma SumSingle(x: real)
    ensures Sum([x]) == x
  {
    assert [x][..0] == [];
  }

  lemma SumAround(a: seq<real>, x: real, b: seq<real>)
    ensures Sum(a + [x] + b) == Sum(a) + x + Sum(b)
  {
    SumConcat(a + [x], b);
    SumConcat(a, [x]);
    SumSingle(x);
  }

  lemma JoinAround(s: seq<real>, i: nat)
    requires i < |s|
    ensures s == s[..i] + [s[i]] + s[i + 1..]
  {}

  lemma SumSplit(s: seq<real>, i: nat)
    requires i < |s|
    ensures Sum(s) == Sum(Without(s, i)) + s[i]
  {
    JoinAround(s, i);
    SumAround(s[..i], s[i], s[i + 1..]);
    SumConcat(s[..i], s[i + 1..]);
  }

  lemma {:induction false} SumPositive(s: seq<real>)
    requires s != [] && forall i :: 0 <= i < |s| ==> s[i] > 0.0
    ensures Sum(s) > 0.0
  {
    if |s| > 1 { SumPositive(s[..|s| - 1]); }
  }

  lemma {:induction false} SumScaled(s: seq<real>, total: real)
    requires total != 0.0
    ensures Sum(Scaled(s, total)) == Sum(s) / total
  {
    if s != [] {
      var front := s[..|s| - 1];
      SumScaled(front, total);
      assert Scaled(s, total)[..|s| - 1] == Scaled(front, total);
      QuotientSum(Sum(front), s[|s| - 1], total);
    }
  }

  lemma QuotientSum(a: real, b: real, d: real)
    requires d != 0.0
    ensures a / d + b / d == (a + b) / d
  {}

  function Constant(n: nat, x: real): seq<real> { seq(n, _ => x) }

  lemma {:induction false} SumConstant(n: nat, x: real)
    ensures Sum(Constant(n, x)) == n as real * x
  {
    if n > 0 {
      SumConstant(n - 1, x);
      assert Constant(n, x)[..n - 1] == Constant(n - 1, x);
    }
  }

  lemma SumUpdate(s: seq<real>, i: nat, x: real)
    requires i < |s|
    ensures Sum(s[i := x]) == Sum(s) - s[i] + x
  {
    SumSplit(s, i);
    SumSplit(s[i := x], i);
    assert Without(s[i := x], i) == Without(s, i);
  }

  lemma Inverse(n: nat)
    requires n > 0
    ensures n as real * (1.0 / n as real) == 1.0 && 1.0 / n as real > 0.0
  {}

  lemma EqualShares(n: nat)
    ensures n > 0 ==> Sum(Equal(n)) == 1.0 && Shares(Equal(n), n)
  {
    if n > 0 {
      Inverse(n);
      assert Equal(n) == Constant(n, 1.0 / n as real);
      SumConstant(n, 1.0 / n as real);
    }
  }

  lemma PositiveQuotient(a: real, d: real)
    requires a > 0.0 && d > 0.0
    ensures a / d > 0.0 && d / d == 1.0
  {}

  lemma NormalizedShares(s: seq<real>)
    requires s != [] && forall i :: 0 <= i < |s| ==> s[i] > 0.0
    ensures Shares(Normalized(s), |s|)
  {
    SumPositive(s);
    var total := Sum(s);
    SumScaled(s, total);
    PositiveQuotient(1.0, total);
    forall i | 0 <= i < |s| ensures Scaled(s, total)[i] > 0.0 { PositiveQuotient(s[i], total); }
  }

  /** The least share times the number of windows never exceeds the column. */
  lemma LeastFits(n: nat)
    requires n > 1
    ensures 0.0 < MinShare(n) && MinShare(n) <= 1.0 - (n - 1) as real * MinShare(n)
  {
    var m, r := MinShare(n), n as real;
    Inverse(n);
    assert r * m <= r * (1.0 / r) by { assert r * ((1.0 / r) - m) >= 0.0; }
    assert (n - 1) as real * m == r * m - m;
  }

  lemma SiblingShare(n: nat, share: real)
    requires n > 1 && share <= 1.0 - (n - 1) as real * MinShare(n)
    ensures (1.0 - share) / (n - 1) as real >= MinShare(n)
    ensures (n - 1) as real * ((1.0 - share) / (n - 1) as real) == 1.0 - share
  {
    var k, q := (n - 1) as real, (1.0 - share) / (n - 1) as real;
    assert k * q == 1.0 - share;
    if q < MinShare(n) {
      assert k * (MinShare(n) - q) > 0.0;
    }
  }

  /** Setting one weight leaves a total of exactly 1, and no window below the least share. */
  lemma SetWeightExact(n: nat, index: nat, weight: real)
    requires n > 1 && index < n
    ensures
      var s := Shared(n, index, weight);
      && |s| == n && Sum(s) == 1.0
      && (forall i :: 0 <= i < n ==> s[i] >= MinShare(n))
      && (MinShare(n) <= weight <= 1.0 - (n - 1) as real * MinShare(n) ==> s[index] == weight)
      && Shares(s, n)
  {
    var s, share := Shared(n, index, weight), Share(n, weight);
    LeastFits(n);
    SiblingShare(n, share);
    SharedSum(s, n, index, share, (1.0 - share) / (n - 1) as real);
  }

  lemma SharedSum(s: seq<real>, n: nat, index: nat, share: real, rest: real)
    requires |s| == n > 1 && index < n
    requires forall i :: 0 <= i < n ==> s[i] == if i == index then share else rest
    ensures Sum(s) == share + (n - 1) as real * rest
  {
    hide Sum, Constant;
    OneAmongEqual(s, index, share, rest);
    SumAmong(index, n - 1 - index, n - 1, share, rest);
  }

  lemma SumAmong(a: nat, b: nat, m: nat, share: real, rest: real)
    requires a + b == m
    ensures Sum(Constant(a, rest) + [share] + Constant(b, rest)) == share + m as real * rest
  {
    hide Sum, Constant;
    SumAround(Constant(a, rest), share, Constant(b, rest));
    SumConstant(a, rest);
    SumConstant(b, rest);
    Collect(a, b, m, rest, share);
  }

  lemma OneAmongEqual(s: seq<real>, index: nat, share: real, rest: real)
    requires index < |s| && forall i :: 0 <= i < |s| ==> s[i] == if i == index then share else rest
    ensures s == Constant(index, rest) + [share] + Constant(|s| - 1 - index, rest)
  {}

  lemma Collect(a: nat, b: nat, m: nat, x: real, share: real)
    requires a + b == m
    ensures a as real * x + share + b as real * x == share + m as real * x
  {
    assert m as real == a as real + b as real;
  }

  lemma SwappedShares(s: seq<real>, a: nat, b: nat)
    requires Shares(s, |s|) && a < |s| && b < |s|
    ensures Shares(Swapped(s, a, b), |s|)
  {
    SumUpdate(s, a, s[b]);
    SumUpdate(s[a := s[b]], b, s[a]);
  }

  lemma RemovedShares(c: ColumnState, i: nat)
    requires Balanced(c) && i < |c.windows|
    ensures Weighted(Normalized(Without(c.weights, i)), |c.windows| - 1)
  {
    if |c.weights| > 1 {
      NormalizedShares(Without(c.weights, i));
    }
  }

  lemma EqualWeighted(n: nat)
    ensures Weighted(Equal(n), n)
  {
    EqualShares(n);
  }

  lemma SwappedWeighted(c: ColumnState, a: nat, b: nat)
    requires Balanced(c) && a < |c.windows| && b < |c.windows|
    ensures Weighted(Swapped(c.weights, a, b), |Swapped(c.windows, a, b)|)
  {
    if c.weights != [] { SwappedShares(c.weights, a, b); }
  }

  /** Maintaining the active tab touches neither the windows nor the weights. */
  lemma TabsOnly(c: ColumnState, i: nat, j: nat)
    ensures Balanced(c) ==> Balanced(Maintained(c))
    ensures Balanced(c) ==> Balanced(AfterRemoval(c, i))
    ensures Balanced(c) ==> Balanced(AfterInsertion(c, i))
    ensures Balanced(c) ==> Balanced(AfterSwap(c, i, j))
  {}

  lemma BalancedStep(c: ColumnState, e: Edit)
    requires Balanced(c)
    ensures Balanced(Apply(c, e))
  {
    hide AfterRemoval, AfterInsertion, AfterSwap, Shared, Swapped, Equal, Normalized, Weighted;
    var n := |c.windows|;
    match e
    case Add(w) =>
      EqualWeighted(n + 1);
      TabsOnly(c.(windows := c.windows + [w], weights := Equal(n + 1)), 0, 0);
    case InsertAt(index, w) =>
      var i := Min(index, n);
      EqualWeighted(n + 1);
      TabsOnly(c.(windows := c.windows[..i] + [w] + c.windows[i..], weights := Equal(n + 1)), i, 0);
    case RemoveAt(index) =>
      if index < n {
        EqualWeighted(n - 1);
        TabsOnly(c.(windows := Without(c.windows, index), weights := Equal(n - 1)), index, 0);
      }
    case Remove(w) =>
      if w in c.windows {
        var i := Position(c.windows, w).value;
        RemovedShares(c, i);
        TabsOnly(c.(windows := Without(c.windows, i), weights := Normalized(Without(c.weights, i))), i, 0);
      }
    case Swap(a, b) =>
      if a < n && b < n {
        SwappedWeighted(c, a, b);
        TabsOnly(c.(windows := Swapped(c.windows, a, b), weights := Swapped(c.weights, a, b)), a, b);
      }
    case SetHeightWeight(index, weight) => if n > 1 && index < n { SharedWeighted(n, index, weight); }
    case _ =>
  }

  lemma SharedWeighted(n: nat, index: nat, weight: real)
    requires n > 1 && index < n
    ensures Weighted(Shared(n, index, weight), n)
  {
    SetWeightExact(n, index, weight);
  }

  /** From the constructors, or from a column loaded without weights, every run of edits keeps
      the weights balanced: skipped renormalisations never add up. */
  lemma {:induction false} WeightsStayBalanced(c: ColumnState, edits: seq<Edit>)
    requires Balanced(c)
    ensures Balanced(ApplyAll(c, edits))
    decreases |edits|
  {
    if edits != [] {
      BalancedStep(c, edits[0]);
      WeightsStayBalanced(Apply(c, edits[0]), edits[1..]);
    }
  }

  // ------------------------------------------------- who has which height after an edit

  /** The position whose window and weight a swap brings to `k`. */
  function Crossed(a: nat, b: nat, k: nat): nat { if k == a then b else if k == b then a else k }

  /** The position that a removal at `i` brings to `k`. */
  function Passed(i: nat, k: nat): nat { if k < i then k else k + 1 }

  /** `n` equal shares of the whole height. */
  predicate Level(weights: seq<real>, n: nat) {
    |weights| == n && forall k :: 0 <= k < n ==> weights[k] * n as real == 1.0
  }

  /** The windows are those of `before` in the same order, less the one at `i`. */
  predicate LessOne(before: seq<WindowId>, i: nat, after: seq<WindowId>) {
    && i < |before| && |after| == |before| - 1
    && forall k :: 0 <= k < |after| ==> after[k] == before[Passed(i, k)]
  }

  /** The windows are those of `before` in the same order, with `w` at `i`. */
  predicate PlusOne(before: seq<WindowId>, i: nat, w: WindowId, after: seq<WindowId>) {
    i <= |before| && |after| == |before| + 1 && after[i] == w && LessOne(after, i, before)
  }

  /** The windows and their weights, if there is one for each, change places in pairs. */
  predicate PairsCrossed(ws: seq<WindowId>, weights: seq<real>, a: nat, b: nat, ws': seq<WindowId>,
      weights': seq<real>)
  {
    && |ws'| == |ws| && |weights'| == |weights| && a < |ws| && b < |ws|
    && (forall k :: 0 <= k < |ws| ==> ws'[k] == ws[Crossed(a, b, k)])
    && (|weights| == |ws| ==> forall k :: 0 <= k < |ws| ==> weights'[k] == weights[Crossed(a, b, k)])
  }

  /** Every two survivors of a removal at `i` stand to each other as before. */
  predicate InProportion(before: seq<real>, i: nat, after: seq<real>) {
    && i < |before| && |after| == |before| - 1
    && forall j, k :: 0 <= j < |after| && 0 <= k < |after| ==>
         after[j] * before[Passed(i, k)] == after[k] * before[Passed(i, j)]
  }

  /** Every window keeps its height through a swap. */
  lemma SwapKeepsHeights(c: ColumnState, a: nat, b: nat)
    ensures
      var c' := Apply(c, Swap(a, b));
      if a < |c.windows| && b < |c.windows| then PairsCrossed(c.windows, c.weights, a, b, c'.windows, c'.weights)
      else c' == c
  {
    if a < |c.windows| && b < |c.windows| { SwappedPairs(c.windows, c.weights, a, b); }
  }

  lemma SwappedPairs(ws: seq<WindowId>, weights: seq<real>, a: nat, b: nat)
    requires a < |ws| && b < |ws|
    ensures PairsCrossed(ws, weights, a, b, Swapped(ws, a, b), Swapped(weights, a, b))
  {}

  lemma EqualLevel(n: nat)
    ensures Level(Equal(n), n)
  {
    if n > 0 { Inverse(n); }
  }

  /** Adding or inserting a window levels all heights. */
  lemma ArrivalsLevel(c: ColumnState, index: nat, w: WindowId)
    ensures
      var c' := Apply(c, Add(w));
      PlusOne(c.windows, |c.windows|, w, c'.windows) && Level(c'.weights, |c'.windows|)
    ensures
      var c' := Apply(c, InsertAt(index, w));
      PlusOne(c.windows, Min(index, |c.windows|), w, c'.windows) && Level(c'.weights, |c'.windows|)
  {
    hide Level, Equal, PlusOne, LessOne, AfterInsertion, Maintained;
    var ws, i := c.windows, Min(index, |c.windows|);
    EqualLevel(|ws| + 1);
    OnePlus(ws, |ws|, w);
    OnePlus(ws, i, w);
    assert ws[..|ws|] + [w] + ws[|ws|..] == ws + [w];
    TabsAlone(c.(windows := ws + [w], weights := Equal(|ws| + 1)), 0);
    TabsAlone(c.(windows := ws[..i] + [w] + ws[i..], weights := Equal(|ws| + 1)), i);
  }

  /** So does taking out the window at an index. */
  lemma TakingOutLevels(c: ColumnState, index: nat)
    ensures
      var c' := Apply(c, RemoveAt(index));
      if index < |c.windows| then LessOne(c.windows, index, c'.windows) && Level(c'.weights, |c'.windows|) else c' == c
  {
    hide Level, Equal, LessOne, AfterRemoval, Without;
    var ws := c.windows;
    if index < |ws| {
      EqualLevel(|ws| - 1);
      OneLess(ws, index);
      TabsAlone(c.(windows := Without(ws, index), weights := Equal(|ws| - 1)), index);
    }
  }

  /** Maintaining the active tab touches nothing but the tabs. */
  lemma TabsAlone(c: ColumnState, i: nat)
    ensures Maintained(c) == c.(mode := Maintained(c).mode)
    ensures AfterRemoval(c, i) == c.(mode := AfterRemoval(c, i).mode)
    ensures AfterInsertion(c, i) == c.(mode := AfterInsertion(c, i).mode)
  {}

  lemma OnePlus(ws: seq<WindowId>, i: nat, w: WindowId)
    requires i <= |ws|
    ensures PlusOne(ws, i, w, ws[..i] + [w] + ws[i..])
  {}

  lemma OneLess(ws: seq<WindowId>, i: nat)
    requires i < |ws|
    ensures LessOne(ws, i, Without(ws, i)) && |Without(ws, i)| == |ws| - 1
  {}

  lemma NormalizedInProportion(s: seq<real>)
    ensures |Normalized(s)| == |s|
    ensures forall j, k :: 0 <= j < |s| && 0 <= k < |s| ==> Normalized(s)[j] * s[k] == Normalized(s)[k] * s[j]
  {
    var total := Sum(s);
    if total != 0.0 {
      forall j, k | 0 <= j < |s| && 0 <= k < |s| ensures s[j] / total * s[k] == s[k] / total * s[j] {
        Crosswise(s[j], s[k], total);
      }
    }
    hide Sum;
  }

  lemma Crosswise(a: real, b: real, d: real)
    requires d != 0.0
    ensures a / d * b == b / d * a
  {}

  /** A window taken out by name leaves the others in order and with heights in the same proportion. */
  lemma RemovalKeepsProportions(c: ColumnState, w: WindowId)
    ensures
      var c' := Apply(c, Remove(w));
      match Position(c.windows, w)
      case None => c' == c
      case Some(i) =>
        LessOne(c.windows, i, c'.windows) && (|c.weights| == |c.windows| ==> InProportion(c.weights, i, c'.weights))
  {
    var p := Position(c.windows, w);
    if p.Some? {
      var i := p.value;
      OneLess(c.windows, i);
      if |c.weights| == |c.windows| { NormalizedWithout(c.weights, i); }
      TabsAlone(c.(windows := Without(c.windows, i), weights := Normalized(Without(c.weights, i))), i);
      hide Normalized, Without, LessOne, InProportion, AfterRemoval;
    }
  }

  lemma NormalizedWithout(s: seq<real>, i: nat)
    requires i < |s|
    ensures InProportion(s, i, Normalized(Without(s, i)))
  {
    WithoutPassed(s, i);
    NormalizedInProportion(Without(s, i));
    hide Normalized;
  }

  lemma WithoutPassed(s: seq<real>, i: nat)
    requires i < |s|
    ensures |Without(s, i)| == |s| - 1 && forall k :: 0 <= k < |s| - 1 ==> Without(s, i)[k] == s[Passed(i, k)]
  {}

  /** Dividing by the total happens only beyond the tolerance, and then makes it exactly 1. */
  lemma NormalizedExact(s: seq<real>)
    requires Sum(s) > 0.0
    ensures -TOLERANCE <= Sum(s) - 1.0 <= TOLERANCE ==> Normalized(s) == s
    ensures !(-TOLERANCE <= Sum(s) - 1.0 <= TOLERANCE) ==> Sum(Normalized(s)) == 1.0
  {
    SumScaled(s, Sum(s));
    PositiveQuotient(1.0, Sum(s));
  }

  /** One weight set, in a column of several windows: that window gets it as far as every window keeps the
      least share, its siblings share the rest evenly, and nothing else changes. */
  ghost predicate WeightGiven(weights: seq<real>, n: nat, index: nat, weight: real) {
    && n > 1 && index < n && |weights| == n && Sum(weights) == 1.0
    && (forall i :: 0 <= i < n ==> weights[i] >= MinShare(n))
    && (forall i, j :: 0 <= i < n && 0 <= j < n && i != index && j != index ==> weights[i] == weights[j])
    && (if weight < MinShare(n) then weights[index] == MinShare(n)
        else if weight > 1.0 - (n - 1) as real * MinShare(n) then
          forall i :: 0 <= i < n && i != index ==> weights[i] == MinShare(n)
        else weights[index] == weight)
  }

  lemma SettingAWeight(c: ColumnState, index: nat, weight: real)
    ensures
      var c' := Apply(c, SetHeightWeight(index, weight));
      if |c.windows| > 1 && index < |c.windows|
      then c' == c.(weights := c'.weights) && WeightGiven(c'.weights, |c.windows|, index, weight)
      else c' == c
  {
    var n := |c.windows|;
    if n > 1 && index < n {
      GivenWeight(n, index, weight);
    }
    hide Sum, MinShare, Shared, WeightGiven;
  }

  lemma GivenWeight(n: nat, index: nat, weight: real)
    requires n > 1 && index < n
    ensures WeightGiven(Shared(n, index, weight), n, index, weight)
  {
    SetWeightExact(n, index, weight);
    LeastFits(n);
    WholeRest(n);
    hide Sum, MinShare, Shares;
  }

  /** With the largest share taken, the siblings are left with the least. */
  lemma WholeRest(n: nat)
    requires n > 1
    ensures (1.0 - (1.0 - (n - 1) as real * MinShare(n))) / (n - 1) as real == MinShare(n)
  {
    hide MinShare;
    Cancels((n - 1) as real, MinShare(n));
  }

  lemma Cancels(k: real, m: real)
    requires k > 0.0
    ensures (1.0 - (1.0 - k * m)) / k == m
  {
    var p := k * m;
    assert 1.0 - (1.0 - p) == p;
    assert p / k == m;
  }

  /** No edit changes the width of the column. */
  lemma EditsKeepWidth(c: ColumnState, e: Edit)
    ensures Apply(c, e).width == c.width
  {}

  /** Tabs are set at the given index, or at the last window beyond it; selecting one changes tabs only. */
  lemma TabsClamped(c: ColumnState, index: nat)
    ensures
      var c' := Apply(c, SetTabbed(index));
      c' == c.(mode := c'.mode) && (c.windows == [] ==> c' == c) &&
      (c.windows != [] ==> c'.mode == Tabbed(if index < |c.windows| then index else |c.windows| - 1))
    ensures
      Apply(c, SetActiveTab(index)) == if c.mode.Tabbed? then Apply(c, SetTabbed(index)) else c
    ensures Apply(c, SetVertical) == c.(mode := Vertical)
  {}

  lemma ConstructorsBalanced(w: WindowId, width: int)
    ensures Balanced(NewColumn(w, width)) && WellFormed(NewColumn(w, width)) && !LoneTab(NewColumn(w, width))
    ensures Balanced(EmptyColumn(width)) && WellFormed(EmptyColumn(width)) && !LoneTab(EmptyColumn(width))
    ensures NewColumn(w, width).width == EmptyColumn(width).width == if width < 100 then 100 else width
    ensures NewColumn(w, width).windows == [w] && EmptyColumn(width).windows == []
  {
    assert Sum([1.0]) == 1.0;
  }

  // --------------------------------------------------------------- the column

  class Column {
    var width: int
    var windows: seq<WindowId>
    var heightWeights: seq<real>
    var mode: Mode

    ghost function State(): ColumnState reads this {
      ColumnState(width, windows, heightWeights, mode)
    }

    constructor (w: WindowId, width: int)
      ensures State() == NewColumn(w, width)
    {
      this.width := if width < MIN_COLUMN_WIDTH then MIN_COLUMN_WIDTH else width;
      windows, heightWeights, mode := [w], [1.0], Vertical;
    }

    constructor Empty(width: int)
      ensures State() == EmptyColumn(width)
    {
      this.width := if width < MIN_COLUMN_WIDTH then MIN_COLUMN_WIDTH else width;
      windows, heightWeights, mode := [], [], Vertical;
    }

    method AddWindow(w: WindowId)
      modifies this
      ensures State() == Apply(old(State()), Add(w))
      ensures PlusOne(old(windows), |old(windows)|, w, windows) && Level(heightWeights, |windows|)
    {
      ArrivalsLevel(State(), 0, w);
      windows := windows + [w];
      EqualizeHeightWeights();
      MaintainModeInvariant();
    }

    method RemoveWindow(w: WindowId) returns (removed: Option<nat>)
      modifies this
      ensures State() == Apply(old(State()), Remove(w))
      ensures removed == Position(old(windows), w)
      ensures match removed
              case None => w !in old(windows) && State() == old(State())
              case Some(i) =>
                && LessOne(old(windows), i, windows) && old(windows)[i] == w
                && (|old(heightWeights)| == |old(windows)| ==> InProportion(old(heightWeights), i, heightWeights))
    {
      RemovalKeepsProportions(State(), w);
      removed := Position(windows, w);
      if removed.Some? {
        var i := removed.value;
        windows := windows[..i] + windows[i + 1..];
        if i < |heightWeights| {
          heightWeights := heightWeights[..i] + heightWeights[i + 1..];
        }
        assert windows == Without(old(windows), i) && heightWeights == Without(old(heightWeights), i);
        NormalizeHeightWeights();
        OnWindowsRemovedAt(i);
      }
    }

    method RemoveAtIndex(index: nat) returns (removed: Option<WindowId>)
      modifies this
      ensures State() == Apply(old(State()), RemoveAt(index))
      ensures removed == if index < |old(windows)| then Some(old(windows)[index]) else None
      ensures removed.Some? ==> LessOne(old(windows), index, windows) && Level(heightWeights, |windows|)
    {
      TakingOutLevels(State(), index);
      if index >= |windows| { return None; }
      removed := Some(windows[index]);
      windows := windows[..index] + windows[index + 1..];
      if index < |heightWeights| {
        heightWeights := heightWeights[..index] + heightWeights[index + 1..];
      }
      EqualizeHeightWeights();
      OnWindowsRemovedAt(index);
    }

    method InsertWindowAt(index: nat, w: WindowId)
      modifies this
      ensures State() == Apply(old(State()), InsertAt(index, w))
      ensures PlusOne(old(windows), Min(index, |old(windows)|), w, windows) && Level(heightWeights, |windows|)
    {
      ArrivalsLevel(State(), index, w);
      var i := if index < |windows| then index else |windows|;
      windows := windows[..i] + [w] + windows[i..];
      EqualizeHeightWeights();
      OnWindowInsertedAt(i);
    }

    method SwapWindows(a: nat, b: nat)
      modifies this
      ensures State() == Apply(old(State()), Swap(a, b))
      ensures if a < |old(windows)| && b < |old(windows)|
              then PairsCrossed(old(windows), old(heightWeights), a, b, windows, heightWeights)
              else State() == old(State())
    {
      SwapKeepsHeights(State(), a, b);
      if a >= |windows| || b >= |windows| { return; }
      windows := windows[a := windows[b]][b := windows[a]];
      if a < |heightWeights| && b < |heightWeights| {
        heightWeights := heightWeights[a := heightWeights[b]][b := heightWeights[a]];
      }
      OnWindowsSwapped(a, b);
    }

    method SetTabbedMode(index: nat)
      modifies `mode
      ensures State() == Apply(old(State()), SetTabbed(index))
    {
      if windows == [] { return; }
      mode := Tabbed(if index < |windows| - 1 then index else |windows| - 1);
    }

    method SetVerticalMode()
      modifies `mode
      ensures State() == Apply(old(State()), SetVertical)
    {
      mode := Vertical;
    }

    method SelectTab(index: nat)
      modifies `mode
      ensures State() == Apply(old(State()), SetActiveTab(index))
    {
      if windows == [] { return; }
      if mode.Tabbed? {
        mode := Tabbed(if index < |windows| - 1 then index else |windows| - 1);
      }
    }

    /** Sets one window's weight and splits the rest of the height evenly. */
    method SetWeight(index: nat, weight: real)
      modifies `heightWeights
      ensures State() == Apply(old(State()), SetHeightWeight(index, weight))
      ensures if |windows| > 1 && index < |windows| then WeightGiven(heightWeights, |windows|, index, weight)
              else heightWeights == old(heightWeights)
    {
      SettingAWeight(State(), index, weight);
      hide Share, Shared;
      var n := |windows|;
      if n <= 1 || index >= n { return; }
      if |heightWeights| != n { EqualizeHeightWeights(); }
      var siblings := (n - 1) as real;
      var least := RMin(0.05, 1.0 / n as real);
      var most := RMax(1.0 - siblings * least, least);
      var share := RMin(RMax(weight, least), most);
      var perSibling := (1.0 - share) / siblings;
      SharedAs(n, index, weight, share, perSibling);
      hide RMin, RMax;
      Distribute(n, index, share, perSibling);
    }

    method Distribute(n: nat, index: nat, share: real, perSibling: real)
      requires index < n == |heightWeights|
      modifies `heightWeights
      ensures heightWeights == seq(n, i => if i == index then share else perSibling)
    {
      heightWeights := heightWeights[index := share];
      for i := 0 to n
        invariant |heightWeights| == n && heightWeights[index] == share
        invariant forall k :: 0 <= k < i && k != index ==> heightWeights[k] == perSibling
      {
        if i != index { heightWeights := heightWeights[i := perSibling]; }
      }
    }

    method EqualizeHeightWeights()
      modifies `heightWeights
      ensures heightWeights == Equal(|windows|)
    {
      var n := |windows|;
      heightWeights := if n == 0 then [] else seq(n, _ => 1.0 / n as real);
    }

    method NormalizeHeightWeights()
      modifies `heightWeights
      ensures heightWeights == Normalized(old(heightWeights))
    {
      if heightWeights == [] { return; }
      var n, total := |heightWeights|, 0.0;
      for i := 0 to n
        invariant total == Sum(heightWeights[..i])
      {
        assert heightWeights[..i + 1][..i] == heightWeights[..i];
        total := total + heightWeights[i];
      }
      assert heightWeights[..n] == heightWeights;
      var deviation := if total < 1.0 then 1.0 - total else total - 1.0;
      if total > 0.0 && deviation > TOLERANCE {
        ghost var before := heightWeights;
        for i := 0 to n
          invariant |heightWeights| == n
          invariant forall k :: 0 <= k < n ==> heightWeights[k] == if k < i then before[k] / total else before[k]
        {
          heightWeights := heightWeights[i := heightWeights[i] / total];
        }
        assert heightWeights == Scaled(before, total);
      }
    }

    method OnWindowsRemovedAt(i: nat)
      modifies `mode
      ensures State() == AfterRemoval(old(State()), i)
    {
      if mode.Tabbed? {
        if windows == [] {
          mode := Vertical;
          return;
        }
        if mode.active > i {
          mode := Tabbed(mode.active - 1);
        } else if mode.active == i && mode.active > |windows| - 1 {
          mode := Tabbed(|windows| - 1);
        }
      }
      MaintainModeInvariant();
    }

    method OnWindowInsertedAt(i: nat)
      modifies `mode
      ensures State() == AfterInsertion(old(State()), i)
    {
      if mode.Tabbed? && i <= mode.active {
        var last := if |windows| == 0 then 0 else |windows| - 1;
        mode := Tabbed(if mode.active + 1 < last then mode.active + 1 else last);
      }
      MaintainModeInvariant();
    }

    method OnWindowsSwapped(a: nat, b: nat)
      modifies `mode
      ensures State() == AfterSwap(old(State()), a, b)
    {
      if mode.Tabbed? {
        mode := Tabbed(if mode.active == a then b else if mode.active == b then a else mode.active);
      }
      MaintainModeInvariant();
    }

    method MaintainModeInvariant()
      modifies `mode
      ensures State() == Maintained(old(State()))
    {
      if mode.Tabbed? {
        if |windows| <= 1 {
          mode := Vertical;
        } else if mode.active >= |windows| {
          mode := Tabbed(|windows| - 1);
        }
      }
    }

    /** The active tab unless it is minimized, else the first tab that is not; none when every
        tab is minimized or the column is not tabbed. */
    method EffectiveVisibleTab(minimized: WindowId -> bool) returns (tab: Option<nat>)
      ensures tab.Some? ==>
                && mode.Tabbed? && tab.value < |windows| && !minimized(windows[tab.value])
                && (mode.active < |windows| && !minimized(windows[mode.active]) ==> tab.value == mode.active)
                && (tab.value == mode.active || forall k :: 0 <= k < tab.value ==> minimized(windows[k]))
      ensures tab.None? <==> mode.Vertical? || forall k :: 0 <= k < |windows| ==> minimized(windows[k])
    {
      if mode.Vertical? { return None; }
      if mode.active < |windows| && !minimized(windows[mode.active]) { return Some(mode.active); }
      for i := 0 to |windows|
        invariant forall k :: 0 <= k < i ==> minimized(windows[k])
      {
        if !minimized(windows[i]) { return Some(i); }
      }
      return None;
    }
  }
}
