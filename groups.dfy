/**
 * The group manager: the map from group names to window lists, the
 * ordering of the groups (kept by the list view), the history of windows
 * parked by hand, and the counter that names new groups.
 *
 * The window system is reduced to its inputs and outputs: the windows an
 * enumeration reports are parameters, and every requested window move is
 * an event `Park(w)` or `Show(w)` of the returned trace.
 */
module WinGroups {
  import opened Common
  import opened Rotation
  import opened Placement
  import opened ScratchHistory
  import opened GroupNames
  import opened ItemView

  /** The error boxes the group operations show. */
  datatype Message =
    | FailedToRotate
    | FailedToGetTopAfterRotate
    | GroupsOutOfSync
    | NoGroupToDelete
    | FailedToAllocateGroup

  /** How an operation ended: normally, with an error box, or at a failed `assert`. */
  datatype Status = Done | Reported(message: Message) | AssertFailed

  /**
   * The desktop index `dir` steps away from `curIdx` in a ring of `max`
   * desktops. With no desktops the source loops for ever, so `max` must be positive.
   */
  method WrapIdx(curIdx: nat, max: nat, dir: int) returns (r: nat)
    requires max > 0
    ensures r < max
    ensures r == (curIdx + dir) % max
  {
    var idx: int := curIdx + dir;
    ghost var k: int := 0;
    while idx < 0
      invariant idx - (curIdx + dir) == k * max
      decreases -idx
    {
      idx, k := idx + max, k + 1;
    }
    while idx >= max
      invariant 0 <= idx
      invariant idx - (curIdx + dir) == k * max
      decreases idx
    {
      idx, k := idx - max, k - 1;
    }
    r := idx;
    ModUnique(curIdx + dir, -k, r, max);
  }

  /** `idx` after `n` rounds of WrapIdx's first loop, `idx += max`. */
  function AdjustedUp(idx: int, max: nat, n: nat): (r: int)
    ensures r == idx + n * max
  {
    if n == 0 then idx else AdjustedUp(idx, max, n - 1) + max
  }

  /** `idx` after `n` rounds of WrapIdx's second loop, `idx -= max`. */
  function AdjustedDown(idx: int, max: nat, n: nat): (r: int)
    ensures r == idx - n * max
  {
    if n == 0 then idx else AdjustedDown(idx, max, n - 1) - max
  }

  /**
   * On an empty ring the adjusting loops make no progress: whichever loop's
   * guard holds at the start still holds after any number of rounds, so
   * WrapIdx as written never returns when `max == 0`.
   */
  lemma {:induction false} EmptyRingNeverExits(idx: int, n: nat)
    ensures idx < 0 ==> AdjustedUp(idx, 0, n) < 0
    ensures idx >= 0 ==> AdjustedDown(idx, 0, n) >= 0
  {
    if n > 0 {
      EmptyRingNeverExits(idx, n - 1);
    }
  }

  /**
   * The desktop MoveDesktop switches to, among the `count` desktops it
   * collected: none when it collected none (the guard the evident intent
   * needs), otherwise WrapIdx's index.
   */
  method TargetDesktop(curIdx: nat, count: nat, dir: int) returns (target: Option<nat>)
    ensures count == 0 <==> target.None?
    ensures target.Some? ==> target.value < count && target.value == (curIdx + dir) % count
  {
    if count == 0 {
      return None;
    }
    var idx := WrapIdx(curIdx, count, dir);
    target := Some(idx);
  }

  /** Every positive multiple of `m` is at least `m`. */
  lemma {:induction false} AtLeastOnce(a: int, m: int)
    requires a >= 1 && m > 0
    ensures a * m >= m
    decreases a
  {
    if a > 1 {
      AtLeastOnce(a - 1, m);
      assert a * m == (a - 1) * m + m;
    }
  }

  /** The Euclidean remainder is the only remainder in `[0, m)`. */
  lemma ModUnique(x: int, q: int, r: int, m: int)
    requires m > 0 && 0 <= r < m && x == q * m + r
    ensures x % m == r
  {
    var q0, r0 := x / m, x % m;
    assert x == q0 * m + r0;
    if q0 > q {
      AtLeastOnce(q0 - q, m);
    } else if q > q0 {
      AtLeastOnce(q - q0, m);
    }
  }

  /** The ordering `MoveGroup` works on: the current one, or a fresh name alone. */
  function CapturedOrdering(items: seq<string>, newName: string): (r: seq<string>)
    ensures r != [] && (items != [] ==> r == items)
  {
    if items == [] then [newName] else items
  }

  /** The group map after `oldName` is renamed to `newName`. */
  function RenamedGroups(g: map<string, seq<WindowId>>, oldName: string, newName: string): (r: map<string, seq<WindowId>>)
    requires oldName in g
    ensures newName in r && r[newName] == g[oldName]
    ensures oldName != newName ==> oldName !in r
    ensures r.Keys == g.Keys - {oldName} + {newName}
    ensures forall k :: k in r && k != newName ==> k in g && r[k] == g[k]
  {
    (g - {oldName})[newName := g[oldName]]
  }

  /** An edit that the list view commits: a real index, a terminated text, and no clash. */
  ghost predicate Commits(items: seq<string>, index: int, text: Option<seq<char>>)
  {
    index != -1 && EditedName(text).Some? && !ClashesWithOther(items, index, EditedName(text).value)
  }

  /** A committed name keeps its terminator, so it never equals a generated name. */
  lemma EditedNameIsNeverGenerated(text: Option<seq<char>>, k: nat)
    ensures EditedName(text) != Some(AutoName(k))
  {
    if EditedName(text).Some? {
      EditedNameShape(text);
      var d := Decimal(k);
      assert AutoName(k)[|AutoName(k)| - 1] == d[|d| - 1];
    }
  }

  /** Editing an entry back to its own text yields exactly that entry when it already ends in NUL. */
  lemma ReeditKeepsName(t: seq<char>)
    requires |t| < TextLimit
    requires forall j :: 0 <= j < |t| ==> t[j] != '\0'
    ensures EditedName(Some(t + ['\0'])) == Some(t + ['\0'])
  {
    assert StringLength(t + ['\0'], TextLimit) == Some(|t|) by {
      StringLengthOf(t);
    }
    assert (t + ['\0'])[..|t|] == t;
  }

  class GroupManager {
    /** The list view; its entries are the group ordering, the active group first. */
    const view: ItemViewData
    /** The program's own window, which is never moved. */
    const ownWindow: WindowId
    /** The windows each group holds. */
    var groups: map<string, seq<WindowId>>
    /** The windows parked by hand, the oldest first. */
    var moved: seq<WindowId>
    /** The last number used for a generated group name. */
    var counter: nat

    /** Every group appears exactly once in the ordering. */
    ghost predicate Valid()
      reads this, view
    {
      Distinct(view.items) && Elements(view.items) == groups.Keys
    }

    /** A valid manager has as many groups as the ordering has entries. */
    lemma ValidCounts()
      requires Valid()
      ensures |groups| == |view.items|
    {
      DistinctCardinality(view.items);
    }

    constructor (ownWindow: WindowId)
      ensures this.ownWindow == ownWindow && fresh(view)
      ensures view.items == [] && groups == map[] && moved == [] && counter == 0
      ensures Valid()
    {
      this.ownWindow := ownWindow;
      view := new ItemViewData();
      groups := map[];
      moved := [];
      counter := 0;
    }

    /**
     * The next generated name that is not a group yet: the counter is
     * advanced past every generated name already in use. The loop ends
     * because only finitely many names are in use.
     */
    method NextGroupName() returns (name: string)
      modifies this`counter
      ensures counter > old(counter)
      ensures name == AutoName(counter) && name != [] && name !in groups
      ensures forall j :: old(counter) < j < counter ==> AutoName(j) in groups
    {
      ghost var bound := Pow10(MaxLength(groups.Keys));
      name := [];
      while name == [] || name in groups
        invariant name == [] <==> counter == old(counter)
        invariant counter >= old(counter)
        invariant name != [] ==> name == AutoName(counter)
        invariant forall j :: old(counter) < j < counter ==> AutoName(j) in groups
        decreases name == [], bound - counter
      {
        if name != [] {
          AutoNameBound(groups.Keys, counter);
        }
        counter := counter + 1;
        name := AutoName(counter);
      }
    }

    /**
     * Shows the active group: parks the visible windows it does not hold,
     * then shows the windows it holds that are not visible. There is no
     * special case for an empty group.
     */
    method ShowTopGroup(current: seq<WindowId>) returns (st: Status, moves: seq<Move>)
      ensures st == Done || st == AssertFailed
      ensures st == Done <==> view.items != [] && view.items[0] in groups
      ensures st == AssertFailed ==> moves == []
      ensures st == Done ==> moves == Reconcile(current, groups[view.items[0]], ownWindow)
      ensures Valid() ==> (st == Done <==> view.items != [])
    {
      var top := view.GetTop();
      if top.None? {
        return AssertFailed, [];
      }
      if top.value !in groups {
        return AssertFailed, [];
      }
      var showWin := groups[top.value];
      var parks := ParkEach(current, showWin, ownWindow);
      var shows := ShowEach(showWin, current, ownWindow);
      st, moves := Done, parks + shows;
    }

    /**
     * The capture step of `MoveGroup`: makes sure there is an active group
     * (generating one when the ordering is empty, whatever the control
     * answers) and stores the visible windows as its list.
     */
    method CaptureTop(current: seq<WindowId>) returns (name: string)
      modifies this`groups, this`counter, view
      ensures view.items == CapturedOrdering(old(view.items), name) && name == view.items[0]
      ensures groups == old(groups)[name := current]
      ensures old(view.items) != [] ==> counter == old(counter)
      ensures old(view.items) == [] ==>
        name == AutoName(counter) && counter > old(counter) && name !in old(groups) &&
        forall j :: old(counter) < j < counter ==> AutoName(j) in old(groups)
      ensures old(Valid()) ==> Valid() && |groups| == |view.items|
    {
      var top := view.GetTop();
      if top.None? {
        name := NextGroupName();
        var _ := view.AddItemTop(name, true);
      } else {
        name := top.value;
      }
      if name !in groups {
        groups := groups[name := []];
      }
      groups := groups[name := current];
      if old(Valid()) {
        CapturedKeepsValid(old(view.items), old(groups), name, current);
      }
    }

    /** The capture step keeps every group in the ordering exactly once. */
    static lemma CapturedKeepsValid(items: seq<string>, g: map<string, seq<WindowId>>, name: string, current: seq<WindowId>)
      requires Distinct(items) && Elements(items) == g.Keys
      requires items != [] ==> name == items[0]
      requires items == [] ==> name !in g
      ensures var items1 := CapturedOrdering(items, name);
        var g1 := (if name in g then g else g[name := []])[name := current];
        Distinct(items1) && Elements(items1) == g1.Keys && |g1| == |items1|
    {
      var items1 := CapturedOrdering(items, name);
      assert Distinct(items1);
      assert name in Elements(items1);
      DistinctCardinality(items1);
    }

    /** The rotation loops of `MoveGroup`: `dir` steps up, or `-dir` steps down. */
    method RotateBy(dir: int) returns (ok: bool)
      modifies view
      ensures ok <==> dir == 0 || old(view.items) != []
      ensures ok ==> view.items == Rotated(old(view.items), dir)
      ensures !ok ==> view.items == old(view.items)
    {
      ghost var items1 := view.items;
      var d := dir;
      while d > 0
        modifies view
        invariant if dir > 0 then 0 <= d <= dir else d == dir
        invariant view.items == RepeatLeft(items1, if dir > 0 then dir - d else 0)
        invariant |view.items| == |items1|
        invariant dir > 0 && d < dir ==> items1 != []
      {
        ok := view.RotateUp();
        if !ok {
          return false;
        }
        d := d - 1;
      }
      while d < 0
        modifies view
        invariant if dir < 0 then dir <= d <= 0 else d == 0
        invariant view.items == (if dir < 0 then RepeatRight(items1, d - dir) else RepeatLeft(items1, dir))
        invariant |view.items| == |items1|
        invariant (dir > 0 && d < dir) || (dir < 0 && d > dir) ==> items1 != []
      {
        ok := view.RotateDown();
        if !ok {
          return false;
        }
        d := d + 1;
      }
      ok := true;
    }

    /** Rotating the ordering keeps every group in it exactly once. */
    static lemma RotationKeepsValid(items: seq<string>, keys: set<string>, dir: int)
      requires Distinct(items) && Elements(items) == keys
      ensures Distinct(Rotated(items, dir)) && Elements(Rotated(items, dir)) == keys
    {
      RotatedKeepsNames(items, dir);
      SameMultisetSameElements(items, Rotated(items, dir));
    }

    /**
     * Stores the visible windows as the active group (creating one when the
     * ordering is empty), rotates the ordering by `dir` and switches to the
     * new active group, unless that group holds no windows.
     */
    method MoveGroup(dir: int, current: seq<WindowId>) returns (st: Status, moves: seq<Move>)
      modifies this`groups, this`counter, view
      ensures var items1 := CapturedOrdering(old(view.items), AutoName(counter));
        groups == old(groups)[items1[0] := current]
      ensures old(view.items) != [] ==> counter == old(counter)
      ensures old(view.items) == [] ==>
        counter > old(counter) && AutoName(counter) !in old(groups) &&
        forall j :: old(counter) < j < counter ==> AutoName(j) in old(groups)
      ensures var items1 := CapturedOrdering(old(view.items), AutoName(counter));
        |groups| < 2 ==> st == Done && moves == [] && view.items == items1
      ensures var items1 := CapturedOrdering(old(view.items), AutoName(counter));
        |groups| >= 2 ==> view.items == Rotated(items1, dir)
      ensures |groups| >= 2 && view.items[0] !in groups ==> st == Reported(GroupsOutOfSync) && moves == []
      ensures |groups| >= 2 && view.items[0] in groups ==>
        st == Done &&
        moves == (if groups[view.items[0]] == [] then [] else Reconcile(current, groups[view.items[0]], ownWindow))
      ensures old(Valid()) ==> Valid() && st == Done
      ensures old(Valid()) && old(view.items) != [] && dir % |old(view.items)| == 0 ==>
        view.items == old(view.items) && moves == []
    {
      var name := CaptureTop(current);
      ghost var items1 := view.items;
      if |groups| < 2 {
        return Done, [];
      }
      var ok := RotateBy(dir);
      if !ok {
        return Reported(FailedToRotate), [];
      }
      if old(Valid()) {
        RotationKeepsValid(items1, groups.Keys, dir);
        if old(view.items) != [] && dir % |old(view.items)| == 0 {
          RotatedByMultiple(items1, dir);
          ReconcileSameList(current, ownWindow);
        }
      }
      var newTop := view.GetTop();
      if newTop.None? {
        return Reported(FailedToGetTopAfterRotate), [];
      }
      if newTop.value !in groups {
        return Reported(GroupsOutOfSync), [];
      }
      var oldWin := groups[name];
      var newWin := groups[newTop.value];
      if newWin != [] {
        var parks := ParkEach(oldWin, newWin, ownWindow);
        var shows := ShowEach(newWin, oldWin, ownWindow);
        moves := parks + shows;
      } else {
        moves := [];
      }
      st := Done;
    }
    /**
     * Deletes the active group from the ordering and the map, then shows the
     * group that is now first.
     */
    method DeleteGroup(current: seq<WindowId>, deleteOk: bool) returns (st: Status, moves: seq<Move>)
      modifies this`groups, view
      ensures old(view.items) == [] || !deleteOk ==>
        st == Reported(NoGroupToDelete) && moves == [] && view.items == old(view.items) && groups == old(groups)
      ensures old(view.items) != [] && deleteOk ==> view.items == old(view.items)[1..]
      ensures old(view.items) != [] && deleteOk && old(view.items)[0] !in old(groups) ==>
        st == AssertFailed && moves == [] && groups == old(groups)
      ensures old(view.items) != [] && deleteOk && old(view.items)[0] in old(groups) ==>
        groups == old(groups) - {old(view.items)[0]} &&
        (st == Done <==> view.items != [] && view.items[0] in groups) &&
        (st == Done ==> moves == Reconcile(current, groups[view.items[0]], ownWindow)) &&
        (st != Done ==> st == AssertFailed && moves == [])
      ensures old(Valid()) && old(view.items) != [] && deleteOk ==>
        Valid() && (st == Done <==> |old(view.items)| >= 2)
    {
      var name := view.DelItemTop(deleteOk);
      if name.None? {
        return Reported(NoGroupToDelete), [];
      }
      if name.value !in groups {
        return AssertFailed, [];
      }
      groups := groups - {name.value};
      if old(Valid()) {
        DistinctTail(old(view.items));
      }
      st, moves := ShowTopGroup(current);
    }

    /**
     * The group map once `NewGroup` has stored the visible windows: the
     * active group gets them when there are groups at all.
     */
    static function Captured(g: map<string, seq<WindowId>>, items: seq<string>, current: seq<WindowId>): (r: map<string, seq<WindowId>>)
      requires |g| == 0 || items != []
      ensures r.Keys == g.Keys || (items != [] && r.Keys == g.Keys + {items[0]})
      ensures |g| != 0 ==> items[0] in r && r[items[0]] == current && forall k :: k in g && k != items[0] ==> r[k] == g[k]
    {
      if |g| == 0 then g else g[items[0] := current]
    }

    /** Adding a name that is not a group yet, in front, keeps every group in the ordering exactly once. */
    static lemma NewGroupKeepsValid(items: seq<string>, g: map<string, seq<WindowId>>, current: seq<WindowId>, name: string)
      requires Distinct(items) && Elements(items) == g.Keys
      requires name !in Captured(g, items, current)
      ensures Distinct([name] + items)
      ensures Elements([name] + items) == Captured(g, items, current)[name := []].Keys
    {
      assert name !in g;
      DistinctCons(name, items);
      if |g| != 0 {
        assert items != [] && items[0] in Elements(items);
      }
    }

    /**
     * Stores the visible windows as the active group (when there are groups),
     * then adds a group with a fresh generated name at the front. The name
     * reaches the ordering even when the control refuses it.
     */
    method NewGroup(current: seq<WindowId>, insertOk: bool) returns (st: Status)
      modifies this`groups, this`counter, view
      ensures |old(groups)| != 0 && old(view.items) == [] ==>
        st == AssertFailed && groups == old(groups) && view.items == old(view.items) && counter == old(counter)
      ensures |old(groups)| == 0 || old(view.items) != [] ==>
        counter > old(counter) && view.items == [AutoName(counter)] + old(view.items) &&
        AutoName(counter) !in Captured(old(groups), old(view.items), current) &&
        forall j :: old(counter) < j < counter ==> AutoName(j) in Captured(old(groups), old(view.items), current)
      ensures |old(groups)| == 0 || old(view.items) != [] ==>
        st == (if insertOk then Done else Reported(FailedToAllocateGroup)) &&
        groups == (if insertOk then Captured(old(groups), old(view.items), current)[AutoName(counter) := []]
                   else Captured(old(groups), old(view.items), current))
      ensures old(Valid()) ==> (st == Done <==> insertOk)
      ensures old(Valid()) && st == Done ==> Valid() && view.items[0] == AutoName(counter) && groups[view.items[0]] == []
    {
      if old(Valid()) && |groups| != 0 {
        assert view.items != [];
      }
      if |groups| != 0 {
        var top := view.GetTop();
        if top.None? {
          return AssertFailed;
        }
        groups := groups[top.value := current];
      }
      assert groups == Captured(old(groups), old(view.items), current);
      var name := NextGroupName();
      var ok := view.AddItemTop(name, insertOk);
      if !ok {
        return Reported(FailedToAllocateGroup);
      }
      assert name !in groups;
      groups := groups[name := []];
      st := Done;
      if old(Valid()) {
        NewGroupKeepsValid(old(view.items), old(groups), current, name);
      }
    }

    /** The rename callback: moves the old name's windows to the new name. */
    method OnRename(oldName: string, newName: string) returns (st: Status)
      modifies this`groups
      ensures oldName !in old(groups) || newName in old(groups) ==> st == AssertFailed && groups == old(groups)
      ensures oldName in old(groups) && newName !in old(groups) ==>
        st == Done && groups == RenamedGroups(old(groups), oldName, newName)
    {
      if oldName !in groups {
        return AssertFailed;
      }
      if newName in groups {
        return AssertFailed;
      }
      groups := groups[newName := groups[oldName]];
      groups := groups - {oldName};
      st := Done;
    }

    /**
     * Ends a label edit in the list view and passes a committed rename on
     * to `OnRename`. Editing an entry back to its own name reaches the
     * failed assertion of `OnRename`.
     */
    method LabelEdit(index: int, text: Option<seq<char>>) returns (accepted: bool, st: Status)
      requires index == -1 || 0 <= index < |view.items|
      modifies this`groups, view
      ensures !Commits(old(view.items), index, text) ==>
        st == Done && view.items == old(view.items) && groups == old(groups) &&
        (accepted <==> index == -1 || EditedName(text).None?)
      ensures Commits(old(view.items), index, text) ==>
        var oldName := old(view.items)[index];
        var newName := EditedName(text).value;
        accepted && view.items == old(view.items)[index := newName] &&
        (oldName !in old(groups) || newName in old(groups) ==> st == AssertFailed && groups == old(groups)) &&
        (oldName in old(groups) && newName !in old(groups) ==>
          st == Done && groups == RenamedGroups(old(groups), oldName, newName))
      ensures old(Valid()) ==>
        (st == AssertFailed <==> Commits(old(view.items), index, text) && EditedName(text).value == old(view.items)[index])
      ensures old(Valid()) && st == Done ==> Valid()
    {
      var renamed;
      accepted, renamed := view.EndLabelEdit(index, text);
      if renamed.Some? {
        st := OnRename(renamed.value.oldName, renamed.value.newName);
        if old(Valid()) && st == Done {
          DistinctUpdate(old(view.items), index, renamed.value.newName);
        }
      } else {
        st := Done;
      }
    }

    /**
     * Parks window `w`. A tracked park whose move went through also records
     * the window in the history, dropping the oldest entries beyond
     * `MaxMoveHistory` first.
     */
    method MoveToScratch(w: WindowId, track: bool, moveOk: bool) returns (moves: seq<Move>)
      modifies this`moved
      ensures moves == ScratchRequest(w, ownWindow)
      ensures w != ownWindow && moveOk && track ==> moved == Tracked(old(moved), w)
      ensures !(w != ownWindow && moveOk && track) ==> moved == old(moved)
    {
      if w == ownWindow {
        return [];
      }
      moves := [Park(w)];
      if !moveOk || !track {
        return;
      }
      while |moved| > MaxMoveHistory
        invariant moved == old(moved)[|old(moved)| - |moved|..]
        invariant |old(moved)| > MaxMoveHistory ==> MaxMoveHistory <= |moved|
        invariant |old(moved)| <= MaxMoveHistory ==> moved == old(moved)
        decreases |moved|
      {
        moved := moved[1..];
      }
      moved := moved + [w];
    }

    /** Brings back the window parked last by hand and forgets it, whether or not the move succeeds. */
    method MoveBackFromOther() returns (moves: seq<Move>)
      modifies this`moved
      ensures old(moved) == [] ==> moves == [] && moved == []
      ensures old(moved) != [] ==>
        moves == CurrentRequest(old(moved)[|old(moved)| - 1], ownWindow) &&
        moved == old(moved)[..|old(moved)| - 1]
    {
      var last := Newest(moved);
      if last.None? {
        return [];
      }
      moves := CurrentRequest(last.value, ownWindow);
      moved := moved[..|moved| - 1];
    }

    /**
     * MoveBackFromOther as written: the request is for the handle computed
     * from the slot past the end, `pastEnd` standing for whatever that slot
     * holds, while the newest entry is erased all the same.
     */
    method MoveBackFromOtherAsWritten(pastEnd: WindowId) returns (moves: seq<Move>)
      modifies this`moved
      ensures old(moved) == [] ==> moves == [] && moved == []
      ensures old(moved) != [] ==>
        moves == CurrentRequest(AsWrittenBackTarget(pastEnd), ownWindow) &&
        moved == old(moved)[..|old(moved)| - 1]
    {
      if moved == [] {
        return [];
      }
      moves := CurrentRequest(AsWrittenBackTarget(pastEnd), ownWindow);
      moved := moved[..|moved| - 1];
    }

    /** Parks every visible window except the program's own. */
    method MoveAllToOther(current: seq<WindowId>) returns (moves: seq<Move>)
      ensures moves == Parks(Pending(current, [], ownWindow))
      ensures forall m :: m in moves ==> m.Park?
      ensures forall w :: Park(w) in moves <==> w in current && w != ownWindow
    {
      moves := ParkEach(current, [], ownWindow);
      PendingMembers(current, [], ownWindow);
      PlanMembers(Pending(current, [], ownWindow), []);
      assert moves + Shows([]) == moves;
    }

    /** Parks every visible window, then shows every window of the other desktops. */
    method MoveSwap(current: seq<WindowId>, notCurrent: seq<WindowId>) returns (moves: seq<Move>)
      ensures moves == Parks(Pending(current, [], ownWindow)) + Shows(Pending(notCurrent, [], ownWindow))
      ensures forall w :: Park(w) in moves <==> w in current && w != ownWindow
      ensures forall w :: Show(w) in moves <==> w in notCurrent && w != ownWindow
    {
      var parks := ParkEach(current, [], ownWindow);
      var shows := ShowEach(notCurrent, [], ownWindow);
      moves := parks + shows;
      PendingMembers(current, [], ownWindow);
      PendingMembers(notCurrent, [], ownWindow);
      PlanMembers(Pending(current, [], ownWindow), Pending(notCurrent, [], ownWindow));
    }

    /** Shows every window of the other desktops, provided the current desktop is known. */
    method RestoreScratched(desktopKnown: bool, other: seq<WindowId>) returns (moves: seq<Move>)
      ensures !desktopKnown ==> moves == []
      ensures desktopKnown ==> moves == Shows(Pending(other, [], ownWindow))
      ensures forall w :: Show(w) in moves <==> desktopKnown && w in other && w != ownWindow
      ensures forall m :: m in moves ==> m.Show?
    {
      if !desktopKnown {
        return [];
      }
      moves := ShowEach(other, [], ownWindow);
      PendingMembers(other, [], ownWindow);
      PlanMembers([], Pending(other, [], ownWindow));
      assert Parks([]) + moves == moves;
    }
  }
}
