/** The bounded snapshot history every undo/redo manager of the editor keeps:
    a list of records and a cursor. Saving discards the redo tail (the
    records after the cursor), appends the new record, and drops the oldest
    record once the list is longer than `max_states`; the cursor then moves
    to the last record. */
module StateHistory {
  import opened Wrappers

  /** The largest length a history bounded by `maxStates` can reach: a
      bound of zero or less keeps nothing. */
  function MaxLen(maxStates: int): nat {
    if maxStates > 0 then maxStates else 0
  }

  /** `states[:cursor + 1]` when the cursor is before the last record. */
  function Truncate<R>(states: seq<R>, cursor: int): (r: seq<R>)
    requires cursor >= -1
    ensures |r| <= |states| && r == states[..|r|]
    ensures cursor < |states| ==> |r| == cursor + 1
    ensures cursor >= |states| ==> r == states
  {
    if cursor < |states| - 1 then states[..cursor + 1] else states
  }

  /** The history after saving `rec`. */
  function AfterSave<R>(states: seq<R>, cursor: int, rec: R, maxStates: int): (r: seq<R>)
    requires cursor >= -1
    ensures |r| <= |Truncate(states, cursor)| + 1
    ensures maxStates >= 1 ==> |r| >= 1 && r[|r| - 1] == rec
  {
    var appended := Truncate(states, cursor) + [rec];
    if |appended| > maxStates then appended[1..] else appended
  }

  /** A save keeps the length bound. */
  lemma AfterSaveBound<R>(states: seq<R>, cursor: int, rec: R, maxStates: int)
    requires -1 <= cursor && |states| <= MaxLen(maxStates)
    ensures |AfterSave(states, cursor, rec, maxStates)| <= MaxLen(maxStates)
  {
  }

  /** What a save guarantees: the bound is kept; unless the bound is zero or
      less, the saved record is last; every other surviving record is one at
      or before the old cursor, in its old order; nothing else is dropped
      than the redo tail and, on overflow, the oldest record. */
  lemma AfterSaveSpec<R>(states: seq<R>, cursor: int, rec: R, maxStates: int)
    requires -1 <= cursor
    requires |states| <= MaxLen(maxStates)
    ensures var r := AfterSave(states, cursor, rec, maxStates);
      |r| <= MaxLen(maxStates) &&
      (maxStates >= 1 ==> |r| >= 1 && r[|r| - 1] == rec) &&
      (var dropped := |Truncate(states, cursor)| + 1 - |r|;
        (dropped == 0 || dropped == 1) &&
        (dropped == 1 <==> |Truncate(states, cursor)| + 1 > maxStates) &&
        forall j :: 0 <= j < |r| - 1 ==>
          j + dropped <= cursor && r[j] == states[j + dropped])
  {
  }

  /** A save right after undoing keeps exactly the records up to the cursor
      (when nothing overflows) and puts the new record after them. */
  lemma SaveAfterUndoDiscardsRedoTail<R>(states: seq<R>, cursor: int, rec: R, maxStates: int)
    requires 0 <= cursor < |states| - 1
    requires cursor + 2 <= maxStates
    ensures AfterSave(states, cursor, rec, maxStates) == states[..cursor + 1] + [rec]
  {
  }

  /** `can_undo`: there is a record before the cursor. */
  predicate CanUndo(cursor: int) {
    cursor > 0
  }

  /** `can_redo`: there is a record after the cursor. */
  predicate CanRedo(count: int, cursor: int) {
    cursor < count - 1
  }

  /** `undo` on a history: the cursor it leaves and the record it returns,
      none when there is no record before the cursor. */
  function UndoStep<R>(states: seq<R>, cursor: int): (r: (int, Option<R>))
    requires -1 <= cursor < |states|
    ensures -1 <= r.0 < |states|
    ensures r.1.Some? <==> CanUndo(cursor)
    ensures r.1.None? ==> r.0 == cursor
    ensures r.1.Some? ==> r.0 == cursor - 1 && r.1.value == states[r.0]
  {
    if CanUndo(cursor) then (cursor - 1, Some(states[cursor - 1])) else (cursor, None)
  }

  /** `redo` on a history: the cursor it leaves and the record it returns,
      none when there is no record after the cursor. */
  function RedoStep<R>(states: seq<R>, cursor: int): (r: (int, Option<R>))
    requires -1 <= cursor < |states|
    ensures -1 <= r.0 < |states|
    ensures r.1.Some? <==> CanRedo(|states|, cursor)
    ensures r.1.None? ==> r.0 == cursor
    ensures r.1.Some? ==> r.0 == cursor + 1 && r.1.value == states[r.0]
  {
    if CanRedo(|states|, cursor) then (cursor + 1, Some(states[cursor + 1])) else (cursor, None)
  }

  /** Right after a successful undo, redo succeeds, puts the cursor back
      where it was before the undo and returns the record that was current
      then. */
  lemma UndoThenRedo<R>(states: seq<R>, cursor: int)
    requires -1 <= cursor < |states| && CanUndo(cursor)
    ensures UndoStep(states, cursor).1.Some?
    ensures RedoStep(states, UndoStep(states, cursor).0) == (cursor, Some(states[cursor]))
  {
  }

  /** Right after a successful redo, undo succeeds, puts the cursor back
      and returns the record that was current before the redo. */
  lemma RedoThenUndo<R>(states: seq<R>, cursor: int)
    requires 0 <= cursor < |states| && CanRedo(|states|, cursor)
    ensures RedoStep(states, cursor).1.Some?
    ensures UndoStep(states, RedoStep(states, cursor).0) == (cursor, Some(states[cursor]))
  {
  }
}
