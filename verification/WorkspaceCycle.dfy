/** Cycling to the next or previous workspace, over any number of slots. */
module WorkspaceCycle {
  import opened Prelude
  import opened Columns
  import opened Workspaces

  const COUNT := 9

  /** The slot `distance` steps ahead of (or behind) `current`, wrapping. */
  function Slot(n: nat, current: nat, distance: nat, forward: bool): nat
    requires current < n && distance <= n
  {
    if forward then (current + distance) % n else (current + n - distance) % n
  }

  predicate Eligible(slot: nat, skipEmpty: bool, occupied: set<nat>) { !skipEmpty || slot in occupied }

  /** The first eligible slot at `distance` or more, short of coming full circle. */
  function Search(n: nat, current: nat, forward: bool, skipEmpty: bool, occupied: set<nat>, distance: nat): Option<nat>
    requires current < n && 1 <= distance <= n
    decreases n - distance
  {
    if distance == n then None
    else
      var slot := Slot(n, current, distance, forward);
      if Eligible(slot, skipEmpty, occupied) then Some(slot)
      else Search(n, current, forward, skipEmpty, occupied, distance + 1)
  }

  function Target(n: nat, current: nat, forward: bool, skipEmpty: bool, occupied: set<nat>): Option<nat>
    requires current < n
  {
    Search(n, current, forward, skipEmpty, occupied, 1)
  }

  /** A workspace counts as occupied when it holds a window that is not sticky. */
  ghost predicate Occupied(ws: Workspace, sticky: set<WindowId>) {
    exists w :: Contains(ws, w) && w !in sticky
  }

  ghost function Occupancy(spaces: seq<Workspace>, sticky: set<WindowId>): set<nat> {
    set i | 0 <= i < |spaces| && Occupied(spaces[i], sticky)
  }

  /** The 1-based workspace that next or previous switches to, if any. */
  ghost function SwitchTo(spaces: seq<Workspace>, sticky: set<WindowId>, current: nat, forward: bool,
      skipEmpty: bool): Option<nat>
    requires current < COUNT
  {
    match Target(COUNT, current, forward, skipEmpty, Occupancy(spaces, sticky))
    case None => None
    case Some(t) => Some(t + 1)
  }

  function RelativeIndex(current: nat, forward: bool): nat
    requires current < COUNT
  {
    (if forward then (current + 1) % COUNT else (current + COUNT - 1) % COUNT) + 1
  }

  // ------------------------------------------------------------------ distances

  /** How many steps ahead of (or behind) `current` a slot lies. */
  function Ahead(n: nat, current: nat, slot: nat, forward: bool): nat
    requires current < n && slot < n
  {
    if forward then if slot >= current then slot - current else slot + n - current
    else if current >= slot then current - slot else current + n - slot
  }

  lemma Wrap(x: nat, n: nat)
    requires 0 < n && x < 2 * n
    ensures x % n == if x < n then x else x - n
  {
    assert x < n ==> x / n == 0;
    assert x >= n ==> x / n == 1;
  }

  lemma SlotAhead(n: nat, current: nat, distance: nat, forward: bool)
    requires current < n && 1 <= distance < n
    ensures Slot(n, current, distance, forward) < n
    ensures Slot(n, current, distance, forward) != current
    ensures Ahead(n, current, Slot(n, current, distance, forward), forward) == distance
  {
    Wrap(if forward then current + distance else current + n - distance, n);
  }

  lemma AheadSlot(n: nat, current: nat, slot: nat, forward: bool)
    requires current < n && slot < n && slot != current
    ensures 1 <= Ahead(n, current, slot, forward) < n
    ensures Slot(n, current, Ahead(n, current, slot, forward), forward) == slot
  {
    var d := Ahead(n, current, slot, forward);
    Wrap(if forward then current + d else current + n - d, n);
  }

  /** `t` is the nearest eligible other slot. */
  ghost predicate Nearest(n: nat, current: nat, forward: bool, skipEmpty: bool, occupied: set<nat>, t: nat)
    requires current < n
  {
    && t < n && t != current && Eligible(t, skipEmpty, occupied)
    && forall s :: 0 <= s < n && s != current && Eligible(s, skipEmpty, occupied) ==>
         Ahead(n, current, t, forward) <= Ahead(n, current, s, forward)
  }

  lemma {:induction false} SearchNearest(n: nat, current: nat, forward: bool, skipEmpty: bool, occupied: set<nat>,
      distance: nat)
    requires current < n && 1 <= distance <= n
    requires forall s :: 0 <= s < n && s != current && Eligible(s, skipEmpty, occupied) ==>
          distance <= Ahead(n, current, s, forward)
    ensures
      match Search(n, current, forward, skipEmpty, occupied, distance)
      case Some(t) => Nearest(n, current, forward, skipEmpty, occupied, t)
      case None => forall s :: 0 <= s < n && s != current ==> !Eligible(s, skipEmpty, occupied)
    decreases n - distance
  {
    if distance == n {
      forall s | 0 <= s < n && s != current ensures !Eligible(s, skipEmpty, occupied) {
        AheadSlot(n, current, s, forward);
      }
    } else {
      SlotAhead(n, current, distance, forward);
      if !Eligible(Slot(n, current, distance, forward), skipEmpty, occupied) {
        forall s | 0 <= s < n && s != current && Eligible(s, skipEmpty, occupied)
          ensures distance + 1 <= Ahead(n, current, s, forward)
        {
          AheadSlot(n, current, s, forward);
        }
        SearchNearest(n, current, forward, skipEmpty, occupied, distance + 1);
      }
    }
  }

  /** Next (or previous) picks the nearest eligible other slot, and does nothing only when there is
      none. */
  lemma TargetNearest(n: nat, current: nat, forward: bool, skipEmpty: bool, occupied: set<nat>)
    requires current < n
    ensures
      match Target(n, current, forward, skipEmpty, occupied)
      case Some(t) => Nearest(n, current, forward, skipEmpty, occupied, t)
      case None => forall s :: 0 <= s < n && s != current ==> !Eligible(s, skipEmpty, occupied)
  {
    forall s | 0 <= s < n && s != current ensures 1 <= Ahead(n, current, s, forward) {
      AheadSlot(n, current, s, forward);
    }
    SearchNearest(n, current, forward, skipEmpty, occupied, 1);
  }

  lemma NearestUnique(n: nat, current: nat, forward: bool, skipEmpty: bool, occupied: set<nat>, t: nat)
    requires current < n && Nearest(n, current, forward, skipEmpty, occupied, t)
    ensures Target(n, current, forward, skipEmpty, occupied) == Some(t)
  {
    TargetNearest(n, current, forward, skipEmpty, occupied);
    var u := Target(n, current, forward, skipEmpty, occupied).value;
    AheadSlot(n, current, t, forward);
    AheadSlot(n, current, u, forward);
  }

  /** Going back undoes going ahead exactly from an occupied slot. */
  lemma BackUndoesAhead(n: nat, current: nat, forward: bool, occupied: set<nat>)
    requires current < n && Target(n, current, forward, true, occupied).Some?
    ensures
      var t := Target(n, current, forward, true, occupied).value;
      t < n && (Target(n, t, !forward, true, occupied) == Some(current) <==> current in occupied)
  {
    TargetNearest(n, current, forward, true, occupied);
    var t := Target(n, current, forward, true, occupied).value;
    TargetNearest(n, t, !forward, true, occupied);
    if current in occupied {
      forall s | 0 <= s < n && s != t && s in occupied
        ensures Ahead(n, t, current, !forward) <= Ahead(n, t, s, !forward)
      {
        assert s != current ==>
          Eligible(s, true, occupied) && Ahead(n, current, t, forward) <= Ahead(n, current, s, forward);
      }
      NearestUnique(n, t, !forward, true, occupied, current);
    }
  }

  /** Without skipping, next and previous agree with the relative index. */
  lemma UnskippedIsRelative(spaces: seq<Workspace>, sticky: set<WindowId>, current: nat, forward: bool)
    requires current < COUNT
    ensures SwitchTo(spaces, sticky, current, forward, false) == Some(RelativeIndex(current, forward))
  {
    assert Slot(COUNT, current, 1, forward) + 1 == RelativeIndex(current, forward);
  }

  /** Workspace `i` holds this window, tiled or floating. */
  ghost predicate InSpace(spaces: seq<Workspace>, i: nat, w: WindowId) {
    && i < |spaces|
    && (|| (exists c :: 0 <= c < |spaces[i].columns| && w in spaces[i].columns[c].windows)
        || (exists f :: 0 <= f < |spaces[i].floating| && spaces[i].floating[f].id == w))
  }

  /** Workspace `i` holds a window that does not follow the user around. */
  ghost predicate Inhabited(spaces: seq<Workspace>, sticky: set<WindowId>, i: nat) {
    exists w :: InSpace(spaces, i, w) && w !in sticky
  }

  lemma OccupancyIsInhabited(spaces: seq<Workspace>, sticky: set<WindowId>, i: nat)
    ensures i in Occupancy(spaces, sticky) <==> Inhabited(spaces, sticky, i)
  {
    if i < |spaces| {
      forall w ensures Contains(spaces[i], w) <==> InSpace(spaces, i, w) {}
    }
  }

  /** Skipping empty workspaces, next and previous lead to the nearest of the other eight that holds a window
      that is not sticky, and nowhere exactly when none does. */
  lemma SwitchesToInhabited(spaces: seq<Workspace>, sticky: set<WindowId>, current: nat, forward: bool)
    requires current < COUNT
    ensures
      match SwitchTo(spaces, sticky, current, forward, true)
      case Some(index) =>
        && 1 <= index <= COUNT && index - 1 != current && Inhabited(spaces, sticky, index - 1)
        && (forall s :: 0 <= s < COUNT && s != current && Inhabited(spaces, sticky, s) ==>
              Ahead(COUNT, current, index - 1, forward) <= Ahead(COUNT, current, s, forward))
      case None => forall s :: 0 <= s < COUNT && s != current ==> !Inhabited(spaces, sticky, s)
  {
    var occupied := Occupancy(spaces, sticky);
    TargetNearest(COUNT, current, forward, true, occupied);
    forall s: nat ensures s in occupied <==> Inhabited(spaces, sticky, s) { OccupancyIsInhabited(spaces, sticky, s); }
    hide Occupancy, Inhabited, Target;
    assert forall s: nat :: Eligible(s, true, occupied) <==> s in occupied;
  }

  // ------------------------------------------------------------------ the tour

  /** Where next leads, staying put when there is nowhere to go. */
  function Go(n: nat, current: nat, forward: bool, occupied: set<nat>): nat
    requires current < n
  {
    match Target(n, current, forward, true, occupied)
    case Some(t) => t
    case None => current
  }

  /** The first `steps + 1` slots visited from `start`. */
  ghost predicate Tour(n: nat, start: nat, forward: bool, occupied: set<nat>, visited: seq<nat>) {
    && start < n && visited != [] && visited[0] == start
    && (forall i :: 0 <= i < |visited| ==> visited[i] < n)
    && forall i :: 0 <= i < |visited| - 1 ==> visited[i + 1] == Go(n, visited[i], forward, occupied)
  }

  /** The occupied slots up to `last`, going around from `start`. */
  ghost function Passed(n: nat, start: nat, forward: bool, occupied: set<nat>, last: nat): set<nat>
    requires start < n && last < n
  {
    set s | s in occupied && s < n && Ahead(n, start, s, forward) <= Ahead(n, start, last, forward)
  }

  /** One more step of the tour adds exactly the next occupied slot, or closes the circle. */
  lemma TourStep(n: nat, start: nat, forward: bool, occupied: set<nat>, last: nat)
    requires start < n && last < n && start in occupied && last in occupied
    ensures
      var next := Go(n, last, forward, occupied);
      var passed := Passed(n, start, forward, occupied, last);
      && next < n && next in occupied
      && (next == start || (next !in passed && Passed(n, start, forward, occupied, next) == passed + {next}))
      && (next == start <==> forall s :: s in occupied && s < n ==> s in passed)
  {
    TargetNearest(n, last, forward, true, occupied);
    var next := Go(n, last, forward, occupied);
    forall s | s in occupied && s < n && s != last
      ensures next != last && Ahead(n, last, next, forward) <= Ahead(n, last, s, forward)
    {
      assert Eligible(s, true, occupied);
    }
  }

  /** A tour of as many slots as are occupied visits every occupied slot once, and the next step
      closes the circle. */
  lemma TourVisitsAll(n: nat, start: nat, forward: bool, occupied: set<nat>, visited: seq<nat>)
    requires Tour(n, start, forward, occupied, visited) && start in occupied
    requires forall s :: s in occupied ==> s < n
    requires |visited| == |occupied|
    ensures (forall i, j :: 0 <= i < j < |visited| ==> visited[i] != visited[j])
    ensures forall s :: s in visited <==> s in occupied
    ensures Go(n, visited[|visited| - 1], forward, occupied) == start
  {
    var last := visited[|visited| - 1];
    TourPasses(n, start, forward, occupied, visited);
    TourStep(n, start, forward, occupied, last);
    var passed := Passed(n, start, forward, occupied, last);
    assert passed == occupied by { SubsetOfSameSize(passed, occupied); }
  }

  lemma SubsetOfSameSize(a: set<nat>, b: set<nat>)
    requires a <= b && |a| == |b|
    ensures a == b
  {
    assert |b - a| == |b| - |a|;
  }

  /** Every step so far has passed exactly the slots visited. */
  lemma {:induction false} TourPasses(n: nat, start: nat, forward: bool, occupied: set<nat>, visited: seq<nat>)
    requires Tour(n, start, forward, occupied, visited) && start in occupied
    requires forall s :: s in occupied ==> s < n
    requires |visited| <= |occupied|
    ensures visited[|visited| - 1] in occupied
    ensures |Passed(n, start, forward, occupied, visited[|visited| - 1])| == |visited|
    ensures forall s :: s in visited <==> s in Passed(n, start, forward, occupied, visited[|visited| - 1])
    ensures forall i, j :: 0 <= i < j < |visited| ==> visited[i] != visited[j]
    decreases |visited|
  {
    var last := visited[|visited| - 1];
    if |visited| == 1 {
      OnlyStart(n, start, forward, occupied);
    } else {
      var front := visited[..|visited| - 1];
      var from := front[|front| - 1];
      assert last == Go(n, from, forward, occupied);
      hide Go, Passed, Ahead;
      TourPasses(n, start, forward, occupied, front);
      NotHomeYet(n, start, forward, occupied, from);
      assert visited == front + [last];
      Extended(front, last, Passed(n, start, forward, occupied, from));
    }
  }

  lemma NotHomeYet(n: nat, start: nat, forward: bool, occupied: set<nat>, from: nat)
    requires start < n && from < n && start in occupied && from in occupied
    requires (forall s :: s in occupied ==> s < n) && |Passed(n, start, forward, occupied, from)| < |occupied|
    ensures
      var next := Go(n, from, forward, occupied);
      var passed := Passed(n, start, forward, occupied, from);
      && next < n && next in occupied && next !in passed
      && Passed(n, start, forward, occupied, next) == passed + {next}
  {
    TourStep(n, start, forward, occupied, from);
    var passed := Passed(n, start, forward, occupied, from);
    assert passed <= occupied && passed != occupied;
    assert exists s :: s in occupied && s !in passed;
  }

  lemma Extended(front: seq<nat>, last: nat, passed: set<nat>)
    requires |passed| == |front| && last !in passed
    requires (forall s :: s in front <==> s in passed) && forall i, j :: 0 <= i < j < |front| ==> front[i] != front[j]
    ensures |passed + {last}| == |front + [last]|
    ensures forall s :: s in front + [last] <==> s in passed + {last}
    ensures forall i, j :: 0 <= i < j < |front + [last]| ==> (front + [last])[i] != (front + [last])[j]
  {}

  lemma OnlyStart(n: nat, start: nat, forward: bool, occupied: set<nat>)
    requires start < n && start in occupied
    ensures Passed(n, start, forward, occupied, start) == {start}
  {
    forall s | s in occupied && s < n && s != start ensures s !in Passed(n, start, forward, occupied, start) {
      AheadSlot(n, start, s, forward);
    }
  }
}
