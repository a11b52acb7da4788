/**
  The builder's linear undo history: a list of whole-canvas snapshots and a
  cursor (`historyIndex`) that starts at -1 before anything is saved. Saving
  discards the redo branch beyond the cursor and appends; undo and redo move
  the cursor by one within the list and hand back the snapshot to restore.
*/
module History {
  import opened Strings

  datatype History<T> = History(entries: seq<T>, cursor: int)

  /** The result of an undo or redo: the new history and the snapshot to
      restore into the canvas, if the cursor moved. */
  datatype Step<T> = Step(history: History<T>, restored: Option<T>)

  /** The history of a freshly opened builder: no entries, cursor -1. */
  function Empty<T>(): History<T> {
    History([], -1)
  }

  /** The cursor stays within `-1 .. |entries| - 1`, and is -1 exactly when
      nothing has been saved. */
  predicate Valid<T>(h: History<T>) {
    -1 <= h.cursor < |h.entries| && (h.cursor == -1 <==> h.entries == [])
  }

  /** The snapshot at the cursor. */
  function Current<T>(h: History<T>): (r: Option<T>)
    requires Valid(h)
    ensures r.None? <==> h.entries == []
  {
    if h.cursor < 0 then None else Some(h.entries[h.cursor])
  }

  /** `saveHistory`: keep the entries up to the cursor, append `s`, and point
      the cursor at it. */
  function Save<T>(h: History<T>, s: T): (h': History<T>)
    requires Valid(h)
    ensures Valid(h')
    ensures |h'.entries| == h.cursor + 2 && h'.cursor == |h'.entries| - 1
    ensures h'.entries[..h.cursor + 1] == h.entries[..h.cursor + 1]
    ensures h'.entries[h'.cursor] == s
  {
    var kept := h.entries[..h.cursor + 1];
    assert (kept + [s])[..h.cursor + 1] == kept;
    History(kept + [s], |kept|)
  }

  /** `undo`: a no-op at index 0 (and before the first save); otherwise one
      step back, restoring the entry there. */
  function Undo<T>(h: History<T>): (r: Step<T>)
    requires Valid(h)
    ensures Valid(r.history) && r.history.entries == h.entries
    ensures h.cursor <= 0 ==> r == Step(h, None)
    ensures h.cursor > 0 ==>
              r.history.cursor == h.cursor - 1 && r.restored == Some(h.entries[h.cursor - 1])
  {
    if h.cursor > 0 then
      Step(History(h.entries, h.cursor - 1), Some(h.entries[h.cursor - 1]))
    else
      Step(h, None)
  }

  /** `redo`: a no-op at the last index; otherwise one step forward,
      restoring the entry there. */
  function Redo<T>(h: History<T>): (r: Step<T>)
    requires Valid(h)
    ensures Valid(r.history) && r.history.entries == h.entries
    ensures h.cursor == |h.entries| - 1 ==> r == Step(h, None)
    ensures h.cursor < |h.entries| - 1 ==>
              r.history.cursor == h.cursor + 1 && r.restored == Some(h.entries[h.cursor + 1])
  {
    if h.cursor < |h.entries| - 1 then
      Step(History(h.entries, h.cursor + 1), Some(h.entries[h.cursor + 1]))
    else
      Step(h, None)
  }

  /** Right after a save there is nothing to redo. */
  lemma RedoAfterSaveIsNoOp<T>(h: History<T>, s: T)
    requires Valid(h)
    ensures Redo(Save(h, s)) == Step(Save(h, s), None)
  {
  }

  /** Saving never disturbs the first entry once there is one. */
  lemma SaveKeepsFirst<T>(h: History<T>, s: T)
    requires Valid(h) && h.entries != []
    ensures Save(h, s).entries[0] == h.entries[0]
  {
    assert Save(h, s).entries[..h.cursor + 1][0] == h.entries[..h.cursor + 1][0];
  }

  /** Undo followed by redo comes back to the same history and restores the
      snapshot that was current before the undo. */
  lemma UndoThenRedo<T>(h: History<T>)
    requires Valid(h) && h.cursor > 0
    ensures Redo(Undo(h).history) == Step(h, Some(h.entries[h.cursor]))
  {
  }

  /** Redo followed by undo comes back to the same history. */
  lemma RedoThenUndo<T>(h: History<T>)
    requires Valid(h) && h.cursor < |h.entries| - 1
    ensures h.cursor >= 0
    ensures Undo(Redo(h).history) == Step(h, Some(h.entries[h.cursor]))
  {
  }

  /** `k` presses of undo. */
  function UndoTimes<T>(h: History<T>, k: nat): (h': History<T>)
    requires Valid(h)
    ensures Valid(h') && h'.entries == h.entries
    decreases k
  {
    if k == 0 then h else UndoTimes(Undo(h).history, k - 1)
  }

  /** `k` presses of redo. */
  function RedoTimes<T>(h: History<T>, k: nat): (h': History<T>)
    requires Valid(h)
    ensures Valid(h') && h'.entries == h.entries
    decreases k
  {
    if k == 0 then h else RedoTimes(Redo(h).history, k - 1)
  }

  /** Undo stops at index 0: however often it is pressed, the cursor goes down
      to 0 and no further, so the state before the first save is never
      restored. */
  lemma {:induction false} UndoTimesFloor<T>(h: History<T>, k: nat)
    requires Valid(h) && h.cursor >= 0
    ensures UndoTimes(h, k).cursor == if h.cursor >= k then h.cursor - k else 0
    decreases k
  {
    if k > 0 {
      UndoTimesFloor(Undo(h).history, k - 1);
    }
  }

  /** Redo stops at the last index. */
  lemma {:induction false} RedoTimesCeiling<T>(h: History<T>, k: nat)
    requires Valid(h) && h.entries != []
    ensures RedoTimes(h, k).cursor ==
              if h.cursor + k <= |h.entries| - 1 then h.cursor + k else |h.entries| - 1
    decreases k
  {
    if k > 0 {
      RedoTimesCeiling(Redo(h).history, k - 1);
    }
  }

  /** `k` undos followed by `k` redos give back the same history, as long as
      the undos did not hit index 0. */
  lemma {:induction false} UndoRedoTimes<T>(h: History<T>, k: nat)
    requires Valid(h) && k <= h.cursor
    ensures RedoTimes(UndoTimes(h, k), k) == h
  {
    UndoTimesFloor(h, k);
    RedoTimesCeiling(UndoTimes(h, k), k);
  }

  /** Saving each of `ss` in turn. */
  function SaveAll<T>(h: History<T>, ss: seq<T>): (h': History<T>)
    requires Valid(h)
    ensures Valid(h')
    decreases |ss|
  {
    if ss == [] then h else SaveAll(Save(h, ss[0]), ss[1..])
  }

  /** From an empty history, `n` saves leave exactly those `n` entries with the
      cursor on the last one. */
  lemma {:induction false} SaveAllFromEmpty<T>(ss: seq<T>)
    ensures SaveAll(Empty(), ss) == History(ss, |ss| - 1)
  {
    SaveAllExtends(Empty(), ss);
  }

  lemma {:induction false} SaveAllExtends<T>(h: History<T>, ss: seq<T>)
    requires Valid(h) && h.cursor == |h.entries| - 1
    ensures SaveAll(h, ss) == History(h.entries + ss, |h.entries| + |ss| - 1)
    decreases |ss|
  {
    if ss == [] {
      assert h.entries + ss == h.entries;
    } else {
      var h1 := Save(h, ss[0]);
      assert h1.entries == h.entries + [ss[0]];
      SaveAllExtends(h1, ss[1..]);
      assert h.entries + [ss[0]] + ss[1..] == h.entries + ss;
    }
  }

  /** After `n >= 1` saves from an empty history, pressing undo `n` times
      lands on the first saved snapshot, not on the empty start. */
  lemma UndoAfterSavesStopsAtFirst<T>(ss: seq<T>)
    requires ss != []
    ensures Current(UndoTimes(SaveAll(Empty(), ss), |ss|)) == Some(ss[0])
  {
    SaveAllFromEmpty(ss);
    UndoTimesFloor(SaveAll(Empty(), ss), |ss|);
  }
}
