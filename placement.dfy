/**
 * Window placement: which windows the core asks the desktop provider to park
 * (move off the current desktop) or show (move onto it), and in what order.
 * The provider itself is outside the model; a move is a request in a trace.
 */
module Placement {

  /** An opaque, externally owned window handle (`HWND`). */
  type WindowId = int

  /** One request made of the desktop provider. */
  datatype Move =
    | Park(w: WindowId)  // MoveToScratch: move the window to the scratch desktop
    | Show(w: WindowId)  // MoveToCurrent: move the window to the current desktop

  /**
   * The windows of `ws`, in enumeration order, that are not found in `skip` and
   * are not the program's own window `ownWindow` (MoveToScratch and MoveToCurrent both
   * return at once for that one).
   */
  function Pending(ws: seq<WindowId>, skip: seq<WindowId>, ownWindow: WindowId): (r: seq<WindowId>)
    ensures |r| <= |ws|
  {
    if ws == [] then []
    else
      var init, last := ws[..|ws| - 1], ws[|ws| - 1];
      Pending(init, skip, ownWindow) + (if last !in skip && last != ownWindow then [last] else [])
  }

  /** A window is pending exactly when it is enumerated, not skipped and not the program's own. */
  lemma {:induction false} PendingMembers(ws: seq<WindowId>, skip: seq<WindowId>, ownWindow: WindowId)
    ensures forall w :: w in Pending(ws, skip, ownWindow) <==> w in ws && w !in skip && w != ownWindow
  {
    if ws != [] {
      var init, last := ws[..|ws| - 1], ws[|ws| - 1];
      assert ws == init + [last];
      PendingMembers(init, skip, ownWindow);
    }
  }

  /** Nothing is pending when every enumerated window is skipped. */
  lemma {:induction false} PendingAllSkipped(ws: seq<WindowId>, skip: seq<WindowId>, ownWindow: WindowId)
    requires forall w :: w in ws ==> w in skip
    ensures Pending(ws, skip, ownWindow) == []
  {
    if ws != [] {
      var init, last := ws[..|ws| - 1], ws[|ws| - 1];
      assert forall w :: w in init ==> w in ws;
      PendingAllSkipped(init, skip, ownWindow);
    }
  }

  /** Filtering respects concatenation, so the requests keep the enumeration order. */
  lemma {:induction false} PendingAppend(a: seq<WindowId>, b: seq<WindowId>, skip: seq<WindowId>, ownWindow: WindowId)
    ensures Pending(a + b, skip, ownWindow) == Pending(a, skip, ownWindow) + Pending(b, skip, ownWindow)
    decreases |b|
  {
    if b == [] {
      assert a + b == a;
    } else {
      var init, last := b[..|b| - 1], b[|b| - 1];
      var tail := if last !in skip && last != ownWindow then [last] else [];
      assert (a + b)[..|a + b| - 1] == a + init;
      assert (a + b)[|a + b| - 1] == last;
      assert Pending(a + b, skip, ownWindow) == Pending(a + init, skip, ownWindow) + tail;
      assert Pending(b, skip, ownWindow) == Pending(init, skip, ownWindow) + tail;
      PendingAppend(a, init, skip, ownWindow);
      var pa, pi := Pending(a, skip, ownWindow), Pending(init, skip, ownWindow);
      assert (pa + pi) + tail == pa + (pi + tail);
    }
  }

  /** Park requests for `ws`, one per window, in order. */
  function Parks(ws: seq<WindowId>): seq<Move>
  {
    seq(|ws|, i requires 0 <= i < |ws| => Park(ws[i]))
  }

  /** Show requests for `ws`, one per window, in order. */
  function Shows(ws: seq<WindowId>): seq<Move>
  {
    seq(|ws|, i requires 0 <= i < |ws| => Show(ws[i]))
  }

  /** The requests MoveToScratch makes for `w`: none for the program's own window. */
  function ScratchRequest(w: WindowId, ownWindow: WindowId): (r: seq<Move>)
    ensures r == [] <==> w == ownWindow
    ensures |r| <= 1 && forall m :: m in r ==> m == Park(w)
  {
    if w == ownWindow then [] else [Park(w)]
  }

  /** The requests MoveToCurrent makes for `w`: none for the program's own window. */
  function CurrentRequest(w: WindowId, ownWindow: WindowId): (r: seq<Move>)
    ensures r == [] <==> w == ownWindow
    ensures |r| <= 1 && forall m :: m in r ==> m == Show(w)
  {
    if w == ownWindow then [] else [Show(w)]
  }

  /**
   * The reconciliation of ShowTopGroup and MoveGroup: park every visible window
   * the target does not hold, then show every target window not visible.
   */
  function Reconcile(visible: seq<WindowId>, target: seq<WindowId>, ownWindow: WindowId): (r: seq<Move>)
    ensures |r| <= |visible| + |target|
    ensures forall i :: 0 <= i < |r| ==> r[i].w != ownWindow && (r[i].w in visible <==> r[i].Park?)
  {
    var parks, shows := Pending(visible, target, ownWindow), Pending(target, visible, ownWindow);
    PendingMembers(visible, target, ownWindow);
    PendingMembers(target, visible, ownWindow);
    assert forall i :: 0 <= i < |parks| ==> parks[i] in parks;
    assert forall i :: 0 <= i < |shows| ==> shows[i] in shows;
    Parks(parks) + Shows(shows)
  }

  /** A plan of parks followed by shows names exactly the listed windows, each in its own role. */
  lemma PlanMembers(parks: seq<WindowId>, shows: seq<WindowId>)
    ensures forall w :: Park(w) in Parks(parks) + Shows(shows) <==> w in parks
    ensures forall w :: Show(w) in Parks(parks) + Shows(shows) <==> w in shows
  {
    var plan := Parks(parks) + Shows(shows);
    forall w ensures (Park(w) in plan <==> w in parks) && (Show(w) in plan <==> w in shows) {
      if w in parks {
        var i :| 0 <= i < |parks| && parks[i] == w;
        assert plan[i] == Park(w);
      }
      if w in shows {
        var i :| 0 <= i < |shows| && shows[i] == w;
        assert plan[|parks| + i] == Show(w);
      }
      assert Park(w) !in Shows(shows);
      assert Show(w) !in Parks(parks);
    }
  }

  /** Exactly the visible windows outside the target (other than the program's own) are parked. */
  lemma ReconcileParksExactly(visible: seq<WindowId>, target: seq<WindowId>, ownWindow: WindowId)
    ensures forall w :: Park(w) in Reconcile(visible, target, ownWindow) <==> w in visible && w !in target && w != ownWindow
  {
    var p, s := Pending(visible, target, ownWindow), Pending(target, visible, ownWindow);
    PendingMembers(visible, target, ownWindow);
    forall w ensures Park(w) in Reconcile(visible, target, ownWindow) <==> w in p {
      if w in p {
        var i :| 0 <= i < |p| && p[i] == w;
        assert Reconcile(visible, target, ownWindow)[i] == Park(w);
      }
      assert Park(w) !in Shows(s);
    }
  }

  /** Exactly the target windows not visible (other than the program's own) are shown. */
  lemma ReconcileShowsExactly(visible: seq<WindowId>, target: seq<WindowId>, ownWindow: WindowId)
    ensures forall w :: Show(w) in Reconcile(visible, target, ownWindow) <==> w in target && w !in visible && w != ownWindow
  {
    var p, s := Pending(visible, target, ownWindow), Pending(target, visible, ownWindow);
    PendingMembers(target, visible, ownWindow);
    forall w ensures Show(w) in Reconcile(visible, target, ownWindow) <==> w in s {
      if w in s {
        var i :| 0 <= i < |s| && s[i] == w;
        assert Reconcile(visible, target, ownWindow)[|p| + i] == Show(w);
      }
      assert Show(w) !in Parks(p);
    }
  }

  /** A window both visible and in the target is never moved. */
  lemma ReconcileLeavesShared(visible: seq<WindowId>, target: seq<WindowId>, ownWindow: WindowId)
    ensures forall m :: m in Reconcile(visible, target, ownWindow) ==> m.w !in visible || m.w !in target
  {
    ReconcileParksExactly(visible, target, ownWindow);
    ReconcileShowsExactly(visible, target, ownWindow);
  }

  /** Every park request comes before every show request. */
  lemma ReconcileParksFirst(visible: seq<WindowId>, target: seq<WindowId>, ownWindow: WindowId)
    ensures var r := Reconcile(visible, target, ownWindow);
      forall i, j :: 0 <= i < j < |r| && r[i].Show? ==> r[j].Show?
  {
  }

  /** Reconciling a list against itself moves nothing. */
  lemma ReconcileSameList(ws: seq<WindowId>, ownWindow: WindowId)
    ensures Reconcile(ws, ws, ownWindow) == []
  {
    var p := Pending(ws, ws, ownWindow);
    PendingAllSkipped(ws, ws, ownWindow);
    assert Parks(p) == [] && Shows(p) == [];
  }

  /** Visible {1, 2, 3} against target {2, 3, 4}: park 1, show 4, and nothing else. */
  lemma ReconcileExample()
    ensures Reconcile([1, 2, 3], [2, 3, 4], 0) == [Park(1), Show(4)]
  {
    assert [1, 2, 3][..2] == [1, 2] && [1, 2][..1] == [1] && [1][..0] == [];
    assert [2, 3, 4][..2] == [2, 3] && [2, 3][..1] == [2] && [2][..0] == [];
    assert Pending([1, 2, 3], [2, 3, 4], 0) == [1];
    assert Pending([2, 3, 4], [1, 2, 3], 0) == [4];
  }

  /** The loop `for (hwnd : ws) if (find(skip, hwnd) == end) MoveToScratch(hwnd);`. */
  method ParkEach(ws: seq<WindowId>, skip: seq<WindowId>, ownWindow: WindowId) returns (moves: seq<Move>)
    ensures moves == Parks(Pending(ws, skip, ownWindow))
  {
    moves := [];
    for i := 0 to |ws|
      invariant moves == Parks(Pending(ws[..i], skip, ownWindow))
    {
      assert ws[..i + 1][..i] == ws[..i];
      if ws[i] !in skip {
        moves := moves + ScratchRequest(ws[i], ownWindow);
      }
    }
    assert ws[..|ws|] == ws;
  }

  /** The loop `for (hwnd : ws) if (find(skip, hwnd) == end) MoveToCurrent(hwnd);`. */
  method ShowEach(ws: seq<WindowId>, skip: seq<WindowId>, ownWindow: WindowId) returns (moves: seq<Move>)
    ensures moves == Shows(Pending(ws, skip, ownWindow))
  {
    moves := [];
    for i := 0 to |ws|
      invariant moves == Shows(Pending(ws[..i], skip, ownWindow))
    {
      assert ws[..i + 1][..i] == ws[..i];
      if ws[i] !in skip {
        moves := moves + CurrentRequest(ws[i], ownWindow);
      }
    }
    assert ws[..|ws|] == ws;
  }
}
