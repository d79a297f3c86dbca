/**
 * The list-view wrapper of itemview.cpp: the ordered group names `mItems`
 * (position 0 is the active group), its insert/remove/rotate operations, the
 * label-edit rename commit, and the row swaps that keep the on-screen control
 * in the same order as `mItems`.
 */
module ItemView {
  import opened Common
  import opened Rotation

  /** `TextLimit`: the edit-box limit, and the bound given to StringCchLength. */
  const TextLimit: nat := 80

  /**
   * StringCchLength(text, max, &len): the position of the first NUL among the
   * first `max` characters of `text`; failure when there is none.
   */
  function StringLength(text: seq<char>, max: nat): (r: Option<nat>)
    ensures r.Some? ==> r.value < max && r.value < |text| && text[r.value] == '\0'
    ensures r.Some? ==> forall j :: 0 <= j < r.value ==> text[j] != '\0'
    ensures r.None? ==> forall j :: 0 <= j < max && j < |text| ==> text[j] != '\0'
  {
    if text == [] || max == 0 then None
    else if text[0] == '\0' then Some(0)
    else
      match StringLength(text[1..], max - 1)
      case None => None
      case Some(k) => Some(k + 1)
  }

  /**
   * The name the rename commit builds from the edit text, when it gets that far:
   * nothing for a NULL text or one with no terminator within TextLimit, otherwise
   * the `len` characters before the terminator followed by one NUL, because
   * `newName` is resized to `len + 1` and only `len` characters are copied.
   */
  function EditedName(text: Option<seq<char>>): (r: Option<string>)
    ensures r.Some? <==> text.Some? && exists j :: 0 <= j < TextLimit && j < |text.value| && text.value[j] == '\0'
    ensures r.Some? ==>
      text.Some? && 1 <= |r.value| <= |text.value| && r.value[..|r.value| - 1] == text.value[..|r.value| - 1]
    ensures r.Some? ==>
      r.value[|r.value| - 1] == '\0' && text.value[|r.value| - 1] == '\0' &&
      forall j :: 0 <= j < |r.value| - 1 ==> text.value[j] != '\0'
  {
    match text
    case None => None
    case Some(t) =>
      match StringLength(t, TextLimit)
      case None => None
      case Some(len) => Some(t[..len] + ['\0'])
  }

  /** An edited name is never empty, ends in its one NUL, and has at most TextLimit characters. */
  lemma EditedNameShape(text: Option<seq<char>>)
    requires EditedName(text).Some?
    ensures var n := EditedName(text).value;
      1 <= |n| <= TextLimit && n[|n| - 1] == '\0' && forall j :: 0 <= j < |n| - 1 ==> n[j] != '\0'
  {
  }

  /** The terminator of a text with no NUL before its end lies at its end. */
  lemma {:induction false} StringLengthOf(t: seq<char>)
    requires |t| < TextLimit
    requires forall j :: 0 <= j < |t| ==> t[j] != '\0'
    ensures StringLength(t + ['\0'], TextLimit) == Some(|t|)
  {
    assert (t + ['\0'])[|t|] == '\0';
  }

  /** Edit text without a terminator among its first TextLimit characters yields no name. */
  lemma UnterminatedTextYieldsNothing(t: seq<char>)
    requires forall j :: 0 <= j < TextLimit && j < |t| ==> t[j] != '\0'
    ensures EditedName(Some(t)) == None
  {
  }

  /** The `onRename(oldName, newName)` notification a successful commit sends. */
  datatype Renaming = Renaming(oldName: string, newName: string)

  /** Whether `name` equals some entry other than the one at `index`. */
  ghost predicate ClashesWithOther(items: seq<string>, index: int, name: string)
  {
    exists j :: 0 <= j < |items| && j != index && items[j] == name
  }

  /** `ItemViewData`: the control's item list `mItems` (the control handle and registry are not modelled). */
  class ItemViewData {
    var items: seq<string>

    constructor ()
      ensures items == []
    {
      items := [];
    }

    /** ListViewRotateUp: FALSE on an empty list; otherwise the front name moves to the back. */
    method RotateUp() returns (ok: bool)
      modifies this
      ensures ok <==> old(items) != []
      ensures items == RotatedLeft(old(items))
      ensures |old(items)| <= 1 ==> items == old(items)
    {
      if items == [] {
        return false;
      }
      if |items| == 1 {
        return true;
      }
      items := items[1..] + [items[0]];
      return true;
    }

    /** ListViewRotateDown: FALSE on an empty list; otherwise the back name moves to the front. */
    method RotateDown() returns (ok: bool)
      modifies this
      ensures ok <==> old(items) != []
      ensures items == RotatedRight(old(items))
      ensures |old(items)| <= 1 ==> items == old(items)
    {
      if items == [] {
        return false;
      }
      if |items| == 1 {
        return true;
      }
      items := [items[|items| - 1]] + items[..|items| - 1];
      return true;
    }

    /** ListViewGetTop: the active group's name, or failure on an empty list. */
    method GetTop() returns (name: Option<string>)
      ensures name.None? <==> items == []
      ensures name.Some? ==> name.value == items[0] && name.value in items
    {
      if items == [] {
        return None;
      }
      return Some(items[0]);
    }

    /**
     * ListViewDelItemTop: fails on an empty list or when the control refuses to
     * delete its first row (`controlOk`); otherwise removes and returns the front name.
     */
    method DelItemTop(controlOk: bool) returns (deleted: Option<string>)
      modifies this
      ensures deleted.None? <==> old(items) == [] || !controlOk
      ensures deleted.None? ==> items == old(items)
      ensures deleted.Some? ==> deleted.value == old(items)[0] && items == old(items)[1..]
    {
      if items == [] {
        return None;
      }
      if !controlOk {
        return None;
      }
      deleted := Some(items[0]);
      items := items[1..];
    }

    /**
     * ListViewAddItemTop: puts `text` in front, with no duplicate check, BEFORE
     * the control insert; a failed insert (`controlOk` false) still leaves it there.
     */
    method AddItemTop(text: string, controlOk: bool) returns (ok: bool)
      modifies this
      ensures items == [text] + old(items)
      ensures ok == controlOk
    {
      items := [text] + items;
      if !controlOk {
        return false;
      }
      return true;
    }

    /** ListViewAddSecondItem: fails on an empty list; otherwise inserts `text` at position 1. */
    method AddSecondItem(text: string, controlOk: bool) returns (ok: bool)
      modifies this
      ensures old(items) == [] ==> !ok && items == old(items)
      ensures old(items) != [] ==> ok == controlOk && items == old(items)[..1] + [text] + old(items)[1..]
    {
      if items == [] {
        return false;
      }
      items := items[..1] + [text] + items[1..];
      return controlOk;
    }

    /**
     * The LVN_ENDLABELEDIT branch for row `index` (-1 when no row) and edit text
     * `text` (None for a NULL pointer). Returns the notification result and the
     * `onRename` call made, if any. The edited entry is cleared before the
     * duplicate search, so it never blocks itself.
     */
    method EndLabelEdit(index: int, text: Option<seq<char>>) returns (accepted: bool, renamed: Option<Renaming>)
      requires index == -1 || 0 <= index < |items|
      modifies this
      ensures |items| == |old(items)|
      ensures forall j :: 0 <= j < |items| && j != index ==> items[j] == old(items)[j]
      ensures index == -1 || EditedName(text).None? ==> accepted && renamed == None && items == old(items)
      ensures index != -1 && EditedName(text).Some? && ClashesWithOther(old(items), index, EditedName(text).value) ==>
        !accepted && renamed == None && items == old(items)
      ensures index != -1 && EditedName(text).Some? && !ClashesWithOther(old(items), index, EditedName(text).value) ==>
        accepted &&
        renamed == Some(Renaming(old(items)[index], EditedName(text).value)) &&
        items == old(items)[index := EditedName(text).value]
    {
      if index == -1 || text.None? {
        return true, None;
      }
      var len := StringLength(text.value, TextLimit);
      if len.None? {
        return true, None;
      }
      var oldName := items[index];
      var newName := text.value[..len.value] + ['\0'];
      items := items[index := []];
      if newName in items {
        ghost var j :| 0 <= j < |items| && items[j] == newName;
        assert j != index;
        items := items[index := oldName];
        assert items == old(items);
        return false, None;
      }
      assert !ClashesWithOther(old(items), index, newName) by {
        forall j | 0 <= j < |old(items)| && j != index ensures old(items)[j] != newName {
          assert items[j] == old(items)[j];
        }
      }
      items := items[index := newName];
      return true, Some(Renaming(oldName, newName));
    }
  }

  /**
   * SwapLVItems: exchanges two rows of the control, but only when both rows can
   * be fetched (GetLVItem fails for an index outside the control).
   */
  method SwapRows<T>(rows: array<T>, i1: int, i2: int)
    modifies rows
    ensures 0 <= i1 < rows.Length && 0 <= i2 < rows.Length ==> rows[i1] == old(rows[i2]) && rows[i2] == old(rows[i1])
    ensures forall m :: 0 <= m < rows.Length && ((m != i1 && m != i2) || !(0 <= i1 < rows.Length && 0 <= i2 < rows.Length)) ==>
      rows[m] == old(rows[m])
  {
    if 0 <= i1 < rows.Length && 0 <= i2 < rows.Length {
      rows[i1], rows[i2] := rows[i2], rows[i1];
    }
  }

  /** The control-side RotateUp: swaps rows (i, i - 1) for i = 1 .. n - 1, a rotation up. */
  method RotateRowsUp<T>(rows: array<T>)
    modifies rows
    ensures rows[..] == RotatedLeft(old(rows[..]))
  {
    ghost var s := rows[..];
    var count := rows.Length;
    var i := 1;
    while i < count
      invariant 1 <= i <= if count == 0 then 1 else count
      invariant count > 0 ==> rows[i - 1] == s[0]
      invariant forall k :: 0 <= k < i - 1 ==> rows[k] == s[k + 1]
      invariant forall k :: i <= k < count ==> rows[k] == s[k]
    {
      SwapRows(rows, i, i - 1);
      i := i + 1;
    }
    RotatedLeftAt(s);
    assert rows[..] == RotatedLeft(s);
  }

  /**
   * The control-side RotateDown: swaps rows (i, i + 1) for i = n - 1 down to 0;
   * the first swap names a row past the end and does nothing, and the result is
   * a rotation down.
   */
  method RotateRowsDown<T>(rows: array<T>)
    modifies rows
    ensures rows[..] == RotatedRight(old(rows[..]))
  {
    ghost var s := rows[..];
    var count := rows.Length;
    var i := count - 1;
    while i >= 0
      invariant -1 <= i <= count - 1
      invariant i + 1 < count ==> rows[i + 1] == s[count - 1]
      invariant forall k :: 0 <= k <= i ==> rows[k] == s[k]
      invariant forall k :: i + 2 <= k < count ==> rows[k] == s[k - 1]
    {
      ghost var before := rows[..];
      SwapRows(rows, i, i + 1);
      if i == count - 1 {
        assert rows[..] == before;
      }
      i := i - 1;
    }
    RotatedRightAt(s);
    assert rows[..] == RotatedRight(s);
  }
}
