/**
 * The scratch history `m_Moved`: the windows parked by the "move away" command
 * with tracking, oldest first, so that "move back" can restore the newest one.
 */
module ScratchHistory {
  import opened Common
  import opened Placement

  /** `MaxMoveHistory`: eviction runs only while the history is LONGER than this. */
  const MaxMoveHistory: nat := 15

  /** The last `k` entries of `h`, or all of `h` when it is shorter. */
  function Last<T>(h: seq<T>, k: nat): seq<T>
  {
    if |h| <= k then h else h[|h| - k..]
  }

  /**
   * The history after a tracked park of `w` that succeeded: the loop
   * `while (size() > MaxMoveHistory) erase(begin());` and then `push_back(w)`.
   */
  function Tracked(h: seq<WindowId>, w: WindowId): (r: seq<WindowId>)
    ensures |r| == (if |h| <= MaxMoveHistory then |h| else MaxMoveHistory) + 1
    ensures r[|r| - 1] == w
    ensures r[..|r| - 1] == h[|h| - (|r| - 1)..]
  {
    Last(h, MaxMoveHistory) + [w]
  }

  /** The history therefore holds up to 16 windows, not 15: the newest 16 of `h` and `w`. */
  lemma TrackedKeepsNewest(h: seq<WindowId>, w: WindowId)
    ensures Tracked(h, w) == Last(h + [w], MaxMoveHistory + 1)
    ensures |Tracked(h, w)| <= MaxMoveHistory + 1
  {
    if |h| > MaxMoveHistory {
      assert (h + [w])[|h| + 1 - (MaxMoveHistory + 1)..] == h[|h| - MaxMoveHistory..] + [w];
    }
  }

  /** Keeping the newest `k` of a list and then of its extension is keeping the newest `k` of the extension. */
  lemma LastOfLast<T>(x: seq<T>, y: seq<T>, k: nat)
    ensures Last(Last(x, k) + y, k) == Last(x + y, k)
  {
    if |x| > k {
      var n := |x + y|;
      assert x + y == x[..|x| - k] + (x[|x| - k..] + y);
      if |y| < k {
        assert (x + y)[n - k..] == (x[|x| - k..] + y)[|y|..];
      }
    }
  }

  /** The history after tracked, successful parks of `ws` in order. */
  function TrackAll(h: seq<WindowId>, ws: seq<WindowId>): seq<WindowId>
    decreases |ws|
  {
    if ws == [] then h else TrackAll(Tracked(h, ws[0]), ws[1..])
  }

  /** After any non-empty run of tracked parks, the history is the newest 16 windows, oldest evicted first. */
  lemma {:induction false} TrackAllKeepsNewest(h: seq<WindowId>, ws: seq<WindowId>)
    requires ws != []
    ensures TrackAll(h, ws) == Last(h + ws, MaxMoveHistory + 1)
    decreases |ws|
  {
    TrackedKeepsNewest(h, ws[0]);
    var h' := Tracked(h, ws[0]);
    if |ws| == 1 {
      assert ws == [ws[0]];
    } else {
      TrackAllKeepsNewest(h', ws[1..]);
      LastOfLast(h + [ws[0]], ws[1..], MaxMoveHistory + 1);
      assert h + [ws[0]] + ws[1..] == h + ws;
    }
  }

  /** Sixteen tracked parks from an empty history are all kept: the capacity is `MaxMoveHistory + 1`. */
  lemma SixteenParksKeepAll(ws: seq<WindowId>)
    requires |ws| == MaxMoveHistory + 1
    ensures TrackAll([], ws) == ws
  {
    TrackAllKeepsNewest([], ws);
    assert [] + ws == ws;
  }

  /** Seventeen tracked parks from an empty history keep the newest sixteen, dropping only the first. */
  lemma SeventeenParksKeepSixteen(ws: seq<WindowId>)
    requires |ws| == MaxMoveHistory + 2
    ensures TrackAll([], ws) == ws[1..]
  {
    TrackAllKeepsNewest([], ws);
    assert [] + ws == ws;
  }

  /** The entry "move back" restores: the newest, at the end. */
  function Newest(h: seq<WindowId>): (r: Option<WindowId>)
    ensures r.Some? <==> h != []
    ensures r.Some? ==> r.value == h[|h| - 1] && r.value in h
  {
    if h == [] then None else Some(h[|h| - 1])
  }

  /**
   * The handle MoveBackFromOther requests as written. `*m_Moved.end() - 1`
   * parses as `(*m_Moved.end()) - 1`: it reads the handle `pastEnd` in the
   * slot one past the last entry (whatever lies there) and then steps that
   * handle back by one element, which is pointer arithmetic on an `HWND`.
   */
  function AsWrittenBackTarget(pastEnd: WindowId): (r: WindowId)
    ensures r != pastEnd
  {
    pastEnd - 1
  }

  /**
   * As written, "move back" requests the stepped-back handle. Whenever that is
   * not the newest entry, the newest entry is never shown, although the
   * following erase still drops it; the intended request shows exactly it.
   */
  lemma AsWrittenMissesNewest(h: seq<WindowId>, pastEnd: WindowId, ownWindow: WindowId)
    requires h != [] && h[|h| - 1] != ownWindow
    requires AsWrittenBackTarget(pastEnd) != h[|h| - 1]
    ensures Show(h[|h| - 1]) !in CurrentRequest(AsWrittenBackTarget(pastEnd), ownWindow)
    ensures CurrentRequest(Newest(h).value, ownWindow) == [Show(h[|h| - 1])]
  {
    var wrong := CurrentRequest(AsWrittenBackTarget(pastEnd), ownWindow);
    assert wrong == [] || wrong == [Show(AsWrittenBackTarget(pastEnd))];
  }

  /** A one-entry history `[7]` whose past-the-end slot holds 0: the request is for handle -1, not 7. */
  lemma AsWrittenExample()
    ensures CurrentRequest(AsWrittenBackTarget(0), 1) == [Show(-1)]
    ensures CurrentRequest(Newest([7]).value, 1) == [Show(7)]
  {
  }
}
