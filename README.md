# WinGroups in Dafny

WinGroups keeps named groups of top-level windows on Windows. Only the
windows of the active group stay on the current virtual desktop. The
other windows are parked on another desktop, the scratch desktop. Hotkeys
create, delete and rename groups and step through them. Stepping stores
the visible windows as the active group's list, rotates the ordering of
groups and reconciles the desktop with the new active group: visible
windows the group does not hold are parked, and held windows that are not
visible are shown. Windows parked by hand go into a short history, so the
last one can be brought back.

This project models that core and proves properties of it:

- `common.dfy` (`Common`): `Option`, duplicate-free sequences and their
  element sets.
- `rotation.dfy` (`Rotation`): the left and right single-step rotations
  that `std::rotate` performs on the item list, repeated rotation, and
  their round trips.
- `placement.dfy` (`Placement`): window ids, the trace of move requests
  (`Park(w)` parks a window on the scratch desktop; `Show(w)` brings it to
  the current one), the filter loops that issue them, and the
  reconciliation.
- `history.dfy` (`ScratchHistory`): the bounded history of windows parked
  by hand.
- `names.dfy` (`GroupNames`): the generated names `AutoGroup<k>`.
- `itemview.dfy` (`ItemView`): the list view's item list
  (`ItemViewData.mItems`) as a class whose methods update it in place. It
  also holds the row-swap loops that keep the control's rows in the same
  order.
- `groups.dfy` (`WinGroups`): the group manager, a class over the group
  map, the history and the name counter, with `WrapIdx`.

The invariant `GroupManager.Valid` says that the ordering has no
duplicates and that its names are exactly the keys of the group map.
Every group operation of the model preserves it when it ends normally,
except `OnRename`: the callback changes only the map, and `LabelEdit`,
which commits the new name to the ordering before calling it, restores
the invariant.

Nothing here talks to Windows. The model replaces the outside world as
follows:

- **Window enumeration.** The lists the window enumeration would return
  become parameters: `current` for the windows on the current desktop,
  `notCurrent`/`other` for windows elsewhere.
- **Move requests.** Every window move the code requests becomes an
  event of the returned trace. The program's own window is never
  requested, because `MoveToScratch` and `MoveToCurrent` return early for
  it.
- **Control and service results.** Whether the list-view control accepts
  an insert or delete, and whether a desktop move went through, become
  boolean parameters (`controlOk`, `insertOk`, `deleteOk`, `moveOk`,
  `desktopKnown`).
- **Failures.** A failed `assert` in the source becomes
  `Status.AssertFailed`. An error box becomes `Status.Reported(message)`.

## Model

| member | source | states |
|---|---|---|
| WinGroups.WrapIdx | main.cpp:133-139 | For a positive ring size the result lies in `[0, max)` and equals `(curIdx + dir) mod max`. |
| WinGroups.TargetDesktop | main.cpp:172-174 | The desktop to switch to: none exactly when no desktop was collected, otherwise the index `(curIdx + dir) mod count`, in range. |
| WinGroups.AdjustedUp | main.cpp:136 | After `n` rounds of `idx += max` the index is `idx + n * max`. |
| WinGroups.AdjustedDown | main.cpp:137 | After `n` rounds of `idx -= max` the index is `idx - n * max`. |
| WinGroups.EmptyRingNeverExits | main.cpp:136-137 | With `max == 0`, whichever loop guard holds at the start still holds after any number of rounds, so `WrapIdx` never returns. |
| WinGroups.ModUnique | main.cpp:136-137 | A value in `[0, m)` that differs from `x` by a multiple of `m` is the Euclidean remainder of `x`. This is why the two adjusting loops land on the remainder. |
| WinGroups.GroupManager.NextGroupName | main.cpp:221-235 | Returns the non-empty name `AutoGroup<counter>` for a strictly increased counter. The name is not a group. Every name skipped on the way is already a group. The loop always ends. |
| GroupNames.AutoName | main.cpp:229-231 | A generated name is `AutoGroup` followed by at least one decimal digit and nothing else. |
| GroupNames.Decimal | main.cpp:230 | The decimal text of `n` is non-empty, has two or more digits from 10 on, and holds only digits. |
| GroupNames.AutoNameInjective | main.cpp:229-231 | Different counters give different generated names. |
| GroupNames.AutoNameBound | main.cpp:227 | A generated name in a finite set of names has a counter below a bound fixed by that set. This bound makes `NextGroupName` terminate. |
| GroupNames.DecimalBound | main.cpp:230 | The decimal text of `n` has enough digits to exceed `n`. |
| WinGroups.GroupManager.ShowTopGroup | main.cpp:237-263 | Fails the assertion exactly when the ordering is empty or its top is not a group. Otherwise the trace is the reconciliation of the visible windows against the top group's list, with no special case for an empty list. Under `Valid` it fails exactly on an empty ordering. |
| Placement.Reconcile | main.cpp:250-262 | The reconciliation plan: at most one request per listed window. No request names the program's own window, and a request is a park exactly when its window is visible. The exact sets are in the lemmas below. |
| Placement.Pending | main.cpp:254 | The find-filter keeps at most the listed windows. Which windows it keeps is `Placement.PendingMembers`, and their order is `Placement.PendingAppend`. |
| Placement.ScratchRequest | main.cpp:463 | `MoveToScratch` requests nothing for the program's own window and otherwise exactly one request, `Park(w)`. |
| Placement.CurrentRequest | main.cpp:427 | `MoveToCurrent` requests nothing for the program's own window and otherwise exactly one request, `Show(w)`. |
| Placement.ReconcileParksExactly | main.cpp:252-256 | `Park(w)` is requested exactly for the visible windows that are not in the target list and are not the program's own window. |
| Placement.ReconcileShowsExactly | main.cpp:258-262 | `Show(w)` is requested exactly for the target windows that are not visible and are not the program's own window. |
| Placement.ReconcileLeavesShared | main.cpp:252-262 | A window that is both visible and in the target is never moved. |
| Placement.ReconcileParksFirst | main.cpp:252-262 | Every park request comes before every show request. |
| Placement.ReconcileSameList | main.cpp:324-337 | Reconciling a list against itself requests nothing. |
| Placement.ReconcileExample | main.cpp:252-262 | Visible `[1, 2, 3]` against target `[2, 3, 4]` gives exactly `[Park(1), Show(4)]`. |
| Placement.ParkEach | main.cpp:252-256 | The find-then-park loop yields the park requests of the windows not in the skip list, in enumeration order. |
| Placement.ShowEach | main.cpp:258-262 | The find-then-show loop yields the show requests of the windows not in the skip list, in order. |
| Placement.PendingMembers | main.cpp:254 | A window is pending exactly when it is listed, not skipped and not the program's own window. |
| Placement.PendingAppend | main.cpp:252-256 | The filter distributes over concatenation, so it keeps enumeration order. |
| Placement.PendingAllSkipped | main.cpp:328 | When every window is skipped, nothing is pending. |
| Placement.PlanMembers | main.cpp:510-517 | A plan of parks followed by shows names each listed window exactly in its own role. |
| WinGroups.GroupManager.ValidCounts | main.cpp:114 | Under the invariant `Valid` (no duplicate names in the ordering, its names equal to the keys of the map) there are as many groups as ordering entries. |
| WinGroups.CapturedOrdering | main.cpp:268-273 | The ordering `MoveGroup` works on is never empty, and it is the current ordering whenever that is non-empty. |
| WinGroups.GroupManager.CaptureTop | main.cpp:268-291 | Creates a generated group when the ordering is empty, even if the control refuses it. The active group's list becomes the visible windows. `Valid` is preserved, and then the group count equals the ordering's length. |
| WinGroups.GroupManager.RotateBy | main.cpp:296-308 | Rotates the ordering `dir` steps up or `-dir` steps down. It fails only on an empty ordering with a non-zero count, and then changes nothing. |
| WinGroups.GroupManager.MoveGroup | main.cpp:265-340 | The active group's list becomes the visible windows. With fewer than two groups it stops with the ordering unrotated and no moves. Otherwise the ordering becomes its rotation by `dir`. A new top that is not a group reports "Groups out of sync". An empty new group requests nothing. Otherwise the trace reconciles the stored list against the new one. Under `Valid` it succeeds and preserves `Valid`. A multiple of the group count leaves the ordering and the desktop unchanged. |
| WinGroups.GroupManager.RotationKeepsValid | main.cpp:296-308 | Rotation keeps the ordering duplicate-free and keeps its names equal to the keys. |
| WinGroups.GroupManager.CapturedKeepsValid | main.cpp:268-291 | The capture step keeps every group in the ordering exactly once. |
| WinGroups.GroupManager.DeleteGroup | main.cpp:352-367 | On an empty ordering, or when the control refuses, it reports "No group to delete" and changes nothing. Otherwise the top leaves the ordering. If the top was a group, it is removed from the map, every other entry is kept, and the new top is shown. Under `Valid` the invariant is kept, and the final `ShowTopGroup` fails its assertion exactly when the last group was deleted. |
| WinGroups.GroupManager.NewGroup | main.cpp:369-399 | With groups but an empty ordering it fails the assertion and changes nothing. Otherwise the active group's list becomes the visible windows, and a fresh generated name goes to the front of the ordering even when the control refuses it. On success that name maps to an empty list; on refusal "Failed to allocate new group" is reported and the map lacks it. Under `Valid` it succeeds exactly when the control accepts, and then `Valid` holds. |
| WinGroups.GroupManager.Captured | main.cpp:372-382 | With groups present, the active group's list becomes the visible windows and every other entry is kept. |
| WinGroups.GroupManager.NewGroupKeepsValid | main.cpp:385-398 | Putting a name that is not a group in front, mapping to an empty list, keeps every group in the ordering exactly once. |
| WinGroups.GroupManager.OnRename | main.cpp:588-596 | Fails the assertion and changes nothing when the old name is missing or the new name is taken. Otherwise the new name holds the old name's windows, the old name is gone, and every other entry is unchanged. |
| WinGroups.RenamedGroups | main.cpp:594-595 | The renamed map: its keys lose the old name and gain the new one, the new name holds the old list, and other entries are unchanged. |
| WinGroups.GroupManager.LabelEdit | itemview.cpp:419-454 | An edit that does not commit changes neither the ordering nor the map, and it is refused exactly on a name clash. A committed edit rewrites only the edited entry and renames the group. Under `Valid` it fails `OnRename`'s assertion exactly when the committed name equals the entry's old name; when it ends normally `Valid` holds. |
| WinGroups.EditedNameIsNeverGenerated | itemview.cpp:432-436 | A committed name ends in NUL, so it never equals a generated name. |
| WinGroups.ReeditKeepsName | itemview.cpp:432-438 | Re-editing an entry produced by a rename to its own text gives exactly that entry, which is the `OnRename(old, old)` path. |
| WinGroups.GroupManager.MoveToScratch | main.cpp:461-500 | Requests `Park(w)` except for the program's own window. A tracked park whose move went through evicts from the front while the history is longer than 15 and then appends `w`. In every other case the history is unchanged. |
| ScratchHistory.Tracked | main.cpp:493-499 | After a tracked park the window is last, the history holds at most 16 entries, and the entries before it are the newest of the old history. |
| ScratchHistory.TrackedKeepsNewest | main.cpp:495-498 | A tracked park leaves exactly the newest 16 entries of the old history followed by the window. |
| ScratchHistory.TrackAllKeepsNewest | main.cpp:493-499 | Any sequence of tracked parks leaves exactly the newest 16 windows. |
| ScratchHistory.SixteenParksKeepAll | main.cpp:112 | Sixteen tracked parks from empty keep all sixteen. |
| ScratchHistory.SeventeenParksKeepSixteen | main.cpp:495-498 | Seventeen tracked parks from empty drop only the first. |
| ScratchHistory.Newest | main.cpp:447 | The window to bring back is the last history entry, and there is one exactly when the history is non-empty. |
| ScratchHistory.AsWrittenBackTarget | main.cpp:447 | As written, the requested handle is the one read past the end, stepped back one element, so it is not even the handle that was read. |
| ScratchHistory.AsWrittenMissesNewest | main.cpp:447-448 | Whenever the stepped-back handle is not the newest entry, the as-written request never shows the newest entry, while the intended request shows exactly it. |
| ScratchHistory.AsWrittenExample | main.cpp:447 | With history `[7]` and 0 in the slot past the end, the as-written request is `Show(-1)`, while the intended one is `Show(7)`. |
| WinGroups.GroupManager.MoveBackFromOtherAsWritten | main.cpp:443-449 | As written: a no-op on an empty history. Otherwise it requests the stepped-back past-the-end handle and still erases the newest entry. |
| WinGroups.GroupManager.MoveBackFromOther | main.cpp:443-449 | Does nothing on an empty history. Otherwise it requests `Show` of the last entry (unless it is the program's own window) and removes that entry whatever the move's outcome. |
| WinGroups.GroupManager.MoveAllToOther | main.cpp:451-459 | Requests only parks: exactly one per visible window except the program's own, in order, without touching the history. |
| WinGroups.GroupManager.MoveSwap | main.cpp:502-519 | Parks exactly the visible windows and then shows exactly the windows of the other desktops, never the program's own. |
| WinGroups.GroupManager.RestoreScratched | main.cpp:408-423 | Requests nothing when the current desktop cannot be read. Otherwise it shows exactly the windows of the other desktops, except the program's own. |
| Rotation.RotatedLeft | itemview.cpp:211 | One step up keeps the length. Positions and the multiset are `Rotation.RotatedLeftAt`. |
| Rotation.RotatedRight | itemview.cpp:230 | One step down keeps the length. Positions and the multiset are `Rotation.RotatedRightAt`. |
| Rotation.RepeatLeft | main.cpp:296-301 | `k` steps up keep the length. The closed form is `Rotation.RepeatLeftSplits`. |
| Rotation.RepeatRight | main.cpp:303-308 | `k` steps down keep the length. The closed form is `Rotation.RepeatRightSplits`. |
| Rotation.Rotated | main.cpp:296-308 | A signed rotation, up for positive counts and down for negative ones, keeps the length. |
| Rotation.RotatedLeftAt | itemview.cpp:211 | One step up moves every entry one place towards the front and the first entry to the end, keeping the multiset. |
| Rotation.RotatedRightAt | itemview.cpp:230 | One step down moves the last entry to the front and every other entry one place back, keeping the multiset. |
| Rotation.RightUndoesLeft | itemview.cpp:211 | A step up followed by a step down restores the list. |
| Rotation.LeftUndoesRight | itemview.cpp:230 | A step down followed by a step up restores the list. |
| Rotation.RotatedLeftKeepsDistinct | itemview.cpp:211 | A step up keeps a list duplicate-free, and only a duplicate-free list gives a duplicate-free result. |
| Rotation.RotatedRightKeepsDistinct | itemview.cpp:230 | The same holds for a step down. |
| Rotation.RepeatLeftKeepsNames | itemview.cpp:211 | Any number of steps up keeps the multiset of names and freedom from duplicates. |
| Rotation.RepeatRightKeepsNames | itemview.cpp:230 | Any number of steps down keeps the multiset of names and freedom from duplicates. |
| Rotation.RotatedKeepsNames | main.cpp:296-308 | A rotation by any signed count keeps the multiset of names and freedom from duplicates. |
| Rotation.RepeatLeftSplits | itemview.cpp:211 | `k` steps up with `k` at most the length give `s[k..] + s[..k]`. |
| Rotation.RepeatRightSplits | itemview.cpp:230 | `k` steps down with `k` at most the length give `s[n-k..] + s[..n-k]`. |
| Rotation.RepeatLeftAdds | itemview.cpp:211 | `a + b` steps up are `a` steps up followed by `b` steps up. |
| Rotation.RepeatRightAdds | itemview.cpp:230 | The same holds for steps down. |
| Rotation.FullCyclesRestore | itemview.cpp:211 | Any whole number of full cycles, in either direction, restores the list. |
| Rotation.RotatedByMultiple | main.cpp:296-308 | A rotation count that is a multiple of the list length leaves the list unchanged. |
| ItemView.ItemViewData.RotateUp | itemview.cpp:197-214 | Returns false and changes nothing on an empty list. A single entry stays put with true. Otherwise the list becomes `old[1..] + [old[0]]`. |
| ItemView.ItemViewData.RotateDown | itemview.cpp:216-233 | Returns false and changes nothing on an empty list. A single entry stays put with true. Otherwise the list becomes `[last] + old[..n-1]`. |
| ItemView.ItemViewData.GetTop | itemview.cpp:235-246 | Fails exactly on an empty list and otherwise returns the first entry without changing anything. |
| ItemView.ItemViewData.DelItemTop | itemview.cpp:297-318 | Fails with no change on an empty list or when the control refuses. Otherwise it returns the first entry and leaves the rest. |
| ItemView.ItemViewData.AddItemTop | itemview.cpp:320-345 | The list always becomes `[text] + old`, with no duplicate check. The result is the control's answer. |
| ItemView.ItemViewData.AddSecondItem | itemview.cpp:347-375 | Fails with no change on an empty list. Otherwise it inserts at index 1 and returns the control's answer. |
| ItemView.ItemViewData.EndLabelEdit | itemview.cpp:419-454 | Only the edited entry is ever rewritten. With no row, a NULL text or no NUL within 80 characters, it accepts with no change and no rename. A name equal to another entry restores the entry and refuses. Otherwise the entry becomes the new name and exactly one rename `(old, new)` is sent. |
| ItemView.StringLength | itemview.cpp:427 | Finds the first NUL below the limit, or reports that there is none. |
| ItemView.StringLengthOf | itemview.cpp:427 | A text of fewer than 80 characters without NUL, followed by one NUL, has its length as its terminator position. |
| ItemView.EditedName | itemview.cpp:426-436 | The committed name is present exactly when a NUL lies within the first 80 characters. It is then the text up to its first NUL plus that NUL: its last character is a NUL at the same position of the text, and no earlier character of the text is a NUL. |
| ItemView.EditedNameShape | itemview.cpp:432-436 | A committed name has at most 80 characters, ends in NUL, and has no other NUL. |
| ItemView.UnterminatedTextYieldsNothing | itemview.cpp:427 | Text with no NUL in its first 80 characters yields no name. |
| ItemView.SwapRows | itemview.cpp:75-121 | Exchanges two rows when both exist and otherwise changes nothing. |
| ItemView.RotateRowsUp | itemview.cpp:123-129 | Swapping rows (i, i-1) for i = 1..n-1 rotates the rows left, the same permutation as the list's `std::rotate`. |
| ItemView.RotateRowsDown | itemview.cpp:131-137 | Swapping rows (i, i+1) for i = n-1 down to 0, the first swap being out of range, rotates the rows right, the same permutation as the list's. |

## Left out

- Setting up and tearing down the COM virtual-desktop services (`CreateScratchDesktop`, `DestoryScratchDesktop`, `scope_guard`) manages the lifetimes of foreign objects.
- The COM bodies of `MoveToScratch`, `MoveToCurrent`, `MoveWinToDesktop`, `MoveDesktop` and `SwitchToAnchorDesktop` are calls into code outside the program. A move is a request in the trace, and its outcome is a parameter. Of `MoveDesktop` only `WrapIdx` is modelled.
- The `EnumWindows` callbacks `EnumCurrent` and `EnumNotCurrent` are replaced by the window lists given as parameters.
- The GUID hash reinterprets the bits of a foreign structure.
- Error boxes and `ShowLastError` are modelled only as a `Status`.
- `WndProc`, hotkey registration and the message loop are window-system plumbing. The hotkey handler for "move away" is `MoveToScratch(w, true, moveOk)` on the foreground window.
- Creating and drawing the list view is not modelled: `ListViewCreate`, the item fetches inside `SwapLVItems`, the `LVN_GETDISPINFO`, `LVN_BEGINLABELEDIT` and `LVN_INSERTITEM` branches, and the registry of views. The view handle is taken to be live.
- `ListViewGetItems` copies to `items.end()` of a vector, which is undefined behaviour, so it has no model.
- The control's rows are a separate array: `ItemView.RotateRowsUp` and `ItemView.RotateRowsDown` work on one. A class method that rotates the list does not also rotate that array.
- WrapIdx: the `size_t`/`int` casts are not modelled. Both inputs are unbounded naturals and the result is exact.
- WinGroups.GroupManager.NextGroupName: the counter is an unbounded natural. The source's `int` counter could overflow after 2^31 generated names.
- ItemView.StringLength, ItemView.EditedName, ItemView.ItemViewData.EndLabelEdit, WinGroups.GroupManager.LabelEdit: the model counts Unicode characters where `std::wstring`, `StringCchLength` and the edit limit count UTF-16 code units. A text of 40 characters outside the Basic Multilingual Plane followed by NUL is 80 code units: the source finds no terminator and leaves the entry alone, while the model commits it. Lone surrogates cannot be represented either.
- WinGroups.GroupManager.OnRename: `m_Groups[newName]` may rehash the map, which invalidates the iterator that `m_Groups.erase(it)` uses next. That is undefined behaviour. The model erases the old key itself, which is the evident intent.
- WinGroups.GroupManager.LabelEdit, ItemView.ItemViewData.EndLabelEdit: require the row to be -1 or a valid index. The source forms a reference to `mItems[iItem]` before checking for -1, and it trusts the control's row index.
- MoveGroup's error boxes after a failed rotation and after a failed read of the new top are unreachable in the model, because the ordering is never empty at that point. They are kept as branches.
- The history holds up to 16 windows, not the 15 that `MaxMoveHistory` suggests: the code evicts only while the size exceeds 15 and then pushes (main.cpp:495-498). The model follows the code; see `ScratchHistory.SixteenParksKeepAll`.

## Findings

| source | as written | input that shows it | evidently intended | confidence | as-written member | corrected member |
|---|---|---|---|---|---|---|
| main.cpp:447 | `MoveToCurrent(*m_Moved.end() - 1)` dereferences the past-the-end iterator and subtracts one from the handle read there. | `m_Moved = [w]`: the read is at index 1 of a one-element vector. | `*(m_Moved.end() - 1)`: the last entry, which the next line then erases. | high; not executed | ScratchHistory.AsWrittenMissesNewest | WinGroups.GroupManager.MoveBackFromOther |
| main.cpp:133-139, main.cpp:174 | `WrapIdx(curIdx, desktops.size(), dir)` with no check that a desktop was collected; with `max == 0` neither loop changes `idx`. | Every `GetAt` or `GetID` call fails, so `desktops` is empty: `idx += 0` or `idx -= 0` repeats for ever. | Return when no desktop was collected, as the other failure paths of `MoveDesktop` do. | medium; not executed | WinGroups.EmptyRingNeverExits | WinGroups.TargetDesktop |
