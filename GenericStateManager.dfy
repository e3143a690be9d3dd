/** The generic undo/redo manager: whole snapshots of any comparable type,
    saved with duplicate suppression. */
module GenericState {
  import opened Wrappers
  import opened BaseState
  import opened StateHistory

  /** The operation dict stored when the caller passes none (or an empty one). */
  function UnknownOperation(): map<string, string> {
    map["type" := "unknown", "description" := "Unknown operation"]
  }

  /** Python's `operation_info or default`. */
  function OperationOrDefault(info: Option<map<string, string>>): (op: map<string, string>)
    ensures info.Some? && info.value != map[] ==> op == info.value
    ensures info.None? || info.value == map[] ==> op == UnknownOperation()
  {
    if info.Some? && info.value != map[] then info.value else UnknownOperation()
  }

  /** `save_state` is skipped when the snapshot equals the one at the cursor. */
  predicate IsDuplicate<T(==)>(states: seq<StateRecord<T>>, cursor: int, state: T) {
    0 <= cursor < |states| && state == states[cursor].state
  }

  class GenericStateManager<T(==)> {
    const base: BaseStateManager
    var states: seq<StateRecord<T>>
    var cursor: int
    var lastUndoTime: real
    var undoCounter: int

    /** The bounded-history invariant. */
    predicate Valid()
      reads this
    {
      -1 <= cursor < |states| && |states| <= MaxLen(base.maxStates)
    }

    constructor(maxStates: int)
      ensures Valid() && fresh(base)
      ensures base.maxStates == maxStates && base.Valid()
      ensures states == [] && cursor == -1 && lastUndoTime == 0.0 && undoCounter == 0
    {
      base := new BaseStateManager(maxStates);
      states := [];
      cursor := -1;
      lastUndoTime := 0.0;
      undoCounter := 0;
    }

    /** `save_state(state, info)` at time `now`. */
    method SaveState(state: T, info: Option<map<string, string>>, now: real)
      requires Valid()
      modifies this
      ensures Valid()
      ensures IsDuplicate(old(states), old(cursor), state) ==>
        states == old(states) && cursor == old(cursor)
      ensures !IsDuplicate(old(states), old(cursor), state) ==>
        states == AfterSave(old(states), old(cursor),
                            StateRecord(state, OperationOrDefault(info), now), base.maxStates) &&
        cursor == |states| - 1
      ensures lastUndoTime == old(lastUndoTime) && undoCounter == old(undoCounter)
    {
      if 0 <= cursor < |states| && state == states[cursor].state {
        return;
      }
      ghost var rec := StateRecord(state, OperationOrDefault(info), now);
      AfterSaveSpec(states, cursor, rec, base.maxStates);
      if cursor < |states| - 1 {
        states := states[..cursor + 1];
      }
      states := states + [StateRecord(state, OperationOrDefault(info), now)];
      if |states| > base.maxStates {
        states := states[1..];
        cursor := cursor - 1;
      }
      cursor := |states| - 1;
    }

    /** `get_current_operation`. */
    function CurrentOperation(): (r: Option<map<string, string>>)
      reads this
      ensures r.Some? <==> 0 <= cursor < |states|
      ensures r.Some? ==> r.value == states[cursor].operation
    {
      if 0 <= cursor < |states| then Some(states[cursor].operation) else None
    }

    /** `get_current_state`. */
    function CurrentState(): (r: Option<T>)
      reads this
      ensures r.Some? <==> 0 <= cursor < |states|
      ensures r.Some? ==> r.value == states[cursor].state
    {
      if 0 <= cursor < |states| then Some(states[cursor].state) else None
    }

    /** `undo` at time `now`: when there is a record before the cursor, step
        back to it, count the undo and return its snapshot. */
    method Undo(now: real) returns (r: Option<T>)
      requires Valid()
      modifies this
      ensures Valid() && states == old(states)
      ensures !CanUndo(old(cursor)) ==>
        r == None && cursor == old(cursor) &&
        lastUndoTime == old(lastUndoTime) && undoCounter == old(undoCounter)
      ensures CanUndo(old(cursor)) ==>
        cursor == old(cursor) - 1 && r == Some(states[cursor].state) &&
        lastUndoTime == now && undoCounter == old(undoCounter) + 1
      ensures (cursor, r) == UndoStep(Snapshots(states), old(cursor))
    {
      if !(cursor > 0) {
        return None;
      }
      cursor := cursor - 1;
      lastUndoTime := now;
      undoCounter := undoCounter + 1;
      r := Some(states[cursor].state);
    }

    /** `redo`: when there is a record after the cursor, step forward to it
        and return its snapshot. */
    method Redo() returns (r: Option<T>)
      requires Valid()
      modifies this
      ensures Valid() && states == old(states)
      ensures lastUndoTime == old(lastUndoTime) && undoCounter == old(undoCounter)
      ensures !CanRedo(|states|, old(cursor)) ==> r == None && cursor == old(cursor)
      ensures CanRedo(|states|, old(cursor)) ==>
        cursor == old(cursor) + 1 && r == Some(states[cursor].state)
      ensures (cursor, r) == RedoStep(Snapshots(states), old(cursor))
    {
      if !(cursor < |states| - 1) {
        return None;
      }
      cursor := cursor + 1;
      r := Some(states[cursor].state);
    }

    /** `clear_states`. */
    method ClearStates()
      modifies this
      ensures Valid()
      ensures states == [] && cursor == -1 && lastUndoTime == 0.0 && undoCounter == 0
    {
      states := [];
      cursor := -1;
      lastUndoTime := 0.0;
      undoCounter := 0;
    }

    /** `get_operation_history`: the operations, one per record, in order. */
    function OperationHistory(): (ops: seq<map<string, string>>)
      reads this
      ensures |ops| == |states|
      ensures forall i :: 0 <= i < |states| ==> ops[i] == states[i].operation
    {
      seq(|states|, i requires 0 <= i < |states| reads this => states[i].operation)
    }

    /** `reset_undo_count`. */
    method ResetUndoCount()
      modifies this
      ensures undoCounter == 0
      ensures states == old(states) && cursor == old(cursor) && lastUndoTime == old(lastUndoTime)
    {
      undoCounter := 0;
    }
  }
}
