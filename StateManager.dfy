/** The main window's undo/redo manager: snapshots of the subtitle tree (a
    list of items), duplicate suppression, operation-specific undo, and two
    clean-up passes over the history. */
module TreeState {
  import opened Wrappers
  import opened StateHistory

  /** The fields of an operation dict the manager reads: `type`,
      `description` and `original_state` (the snapshot taken before the
      operation), each possibly absent. */
  datatype Operation<Item> = Operation(opType: Option<string>, description: Option<string>,
                                       originalState: Option<seq<Item>>)

  datatype Record<Item> = Record(state: seq<Item>, operation: Operation<Item>, timestamp: real)

  /** The tree snapshots of a history, record by record. */
  function TreeSnapshots<Item>(records: seq<Record<Item>>): (s: seq<seq<Item>>)
    ensures |s| == |records|
    ensures forall i :: 0 <= i < |records| ==> s[i] == records[i].state
  {
    if records == [] then [] else TreeSnapshots(records[..|records| - 1]) + [records[|records| - 1].state]
  }

  /** The operation stored when the caller passes none or an empty dict. */
  function UnknownOperation<Item>(): Operation<Item> {
    Operation(Some("unknown"), Some("Unknown operation"), None)
  }

  /** Python's `operation_info or default`. The model keeps only the three
      keys the manager reads, so a record with all three absent stands for
      the empty dict `{}`, which is false and gives the default. */
  function OperationOrDefault<Item>(info: Option<Operation<Item>>): (op: Operation<Item>)
    ensures info.Some? && info.value != Operation(None, None, None) ==> op == info.value
    ensures info.None? || info.value == Operation(None, None, None) ==> op == UnknownOperation()
  {
    if info.Some? && info.value != Operation(None, None, None) then info.value else UnknownOperation()
  }

  /** The operation types whose undo returns the saved `original_state`. */
  function RestoringTypes(): set<string> {
    {"combine_sentences", "split_srt", "split_word_text", "align_end_times", "edit_text"}
  }

  /** Undo returns the operation's own `original_state` when the type is one
      of the restoring types and the snapshot is present and non-empty. */
  predicate RestoresOriginal<Item>(op: Operation<Item>) {
    op.opType.Some? && op.opType.value in RestoringTypes() &&
    op.originalState.Some? && |op.originalState.value| > 0
  }

  /** Two neighbouring records `merge_consecutive_states` joins: saved less
      than `threshold` apart, with the same operation type. */
  predicate Mergeable<Item>(earlier: Record<Item>, later: Record<Item>, threshold: real) {
    later.timestamp - earlier.timestamp < threshold &&
    earlier.operation.opType.Some? && later.operation.opType.Some? &&
    later.operation.opType == earlier.operation.opType
  }

  /** Reading `operation['type']` of a record without one raises KeyError. */
  predicate LacksType<Item>(earlier: Record<Item>, later: Record<Item>, threshold: real) {
    later.timestamp - earlier.timestamp < threshold &&
    (later.operation.opType.None? || earlier.operation.opType.None?)
  }

  datatype MergeOutcome<Item> = MergeOutcome(states: seq<Record<Item>>, cursor: int, completed: bool)

  /** The merge loop from position `i` down to 1: a mergeable pair loses its
      earlier record, and the cursor moves back when it was at or after the
      removed position. `completed` is false when a KeyError stopped it. */
  function MergeFrom<Item>(states: seq<Record<Item>>, cursor: int, i: int, threshold: real): (r: MergeOutcome<Item>)
    requires i < |states|
    ensures |r.states| <= |states|
    ensures |states| - |r.states| <= (if i > 0 then i else 0)
    decreases i
  {
    if i <= 0 then MergeOutcome(states, cursor, true)
    else if LacksType(states[i - 1], states[i], threshold) then MergeOutcome(states, cursor, false)
    else if Mergeable(states[i - 1], states[i], threshold) then
      MergeFrom(states[..i - 1] + states[i..], if cursor >= i - 1 then cursor - 1 else cursor, i - 1, threshold)
    else MergeFrom(states, cursor, i - 1, threshold)
  }

  predicate NoMergeableFrom<Item>(states: seq<Record<Item>>, i: int, threshold: real) {
    forall j :: 0 <= j && i <= j < |states| - 1 ==> !Mergeable(states[j], states[j + 1], threshold)
  }

  /** The merge pass keeps the newest record, never grows the history, keeps
      the cursor within `[-1, |states|)`, and when it completes no two
      neighbouring records are mergeable any more. */
  lemma {:induction false} MergeFromSpec<Item>(states: seq<Record<Item>>, cursor: int, i: int, threshold: real)
    requires 0 <= i < |states|
    requires -1 <= cursor < |states|
    requires NoMergeableFrom(states, i, threshold)
    ensures var m := MergeFrom(states, cursor, i, threshold);
      1 <= |m.states| <= |states| &&
      m.states[|m.states| - 1] == states[|states| - 1] &&
      -1 <= m.cursor < |m.states| &&
      (m.completed ==> NoMergeableFrom(m.states, 0, threshold))
    decreases i
  {
    if i > 0 && !LacksType(states[i - 1], states[i], threshold) {
      if Mergeable(states[i - 1], states[i], threshold) {
        var s := states[..i - 1] + states[i..];
        assert s[|s| - 1] == states[|states| - 1];
        forall j | 0 <= j && i - 1 <= j < |s| - 1
          ensures !Mergeable(s[j], s[j + 1], threshold)
        {
          assert s[j] == states[j + 1] && s[j + 1] == states[j + 2];
        }
        MergeFromSpec(s, if cursor >= i - 1 then cursor - 1 else cursor, i - 1, threshold);
      } else {
        MergeFromSpec(states, cursor, i - 1, threshold);
      }
    }
  }

  /** A merge pass completes unless some record near a neighbour lacks a
      `type`. */
  lemma {:induction false} MergeFromCompletes<Item>(states: seq<Record<Item>>, cursor: int, i: int, threshold: real)
    requires i < |states|
    requires forall j :: 0 <= j < |states| ==> states[j].operation.opType.Some?
    ensures MergeFrom(states, cursor, i, threshold).completed
    decreases i
  {
    if i > 0 {
      if Mergeable(states[i - 1], states[i], threshold) {
        var s := states[..i - 1] + states[i..];
        assert forall j :: 0 <= j < |s| ==> s[j] in states;
        MergeFromCompletes(s, if cursor >= i - 1 then cursor - 1 else cursor, i - 1, threshold);
      } else {
        MergeFromCompletes(states, cursor, i - 1, threshold);
      }
    }
  }

  /** The trim loop: drop records from the front while they are older than
      `cutoff`, moving the cursor back only while it is positive. */
  function TrimFrom<Item>(states: seq<Record<Item>>, cursor: int, cutoff: real): (r: (seq<Record<Item>>, int))
    ensures |r.0| <= |states|
    ensures |r.0| > 0 ==> r.0[0].timestamp >= cutoff
    decreases |states|
  {
    if |states| > 0 && states[0].timestamp < cutoff then
      TrimFrom(states[1..], if cursor > 0 then cursor - 1 else cursor, cutoff)
    else (states, cursor)
  }

  /** Trimming removes exactly the leading run of records older than the
      cutoff; the cursor moves back by that many but never below 0 (a cursor
      of 0 or -1 is left as it was). */
  lemma {:induction false} TrimFromSpec<Item>(states: seq<Record<Item>>, cursor: int, cutoff: real)
    ensures var (s, c) := TrimFrom(states, cursor, cutoff);
      exists k :: 0 <= k <= |states| && s == states[k..] &&
        (forall j :: 0 <= j < k ==> states[j].timestamp < cutoff) &&
        (|s| > 0 ==> s[0].timestamp >= cutoff) &&
        c == (if cursor <= 0 then cursor else if cursor - k > 0 then cursor - k else 0)
    decreases |states|
  {
    if |states| > 0 && states[0].timestamp < cutoff {
      var c' := if cursor > 0 then cursor - 1 else cursor;
      TrimFromSpec(states[1..], c', cutoff);
      var k :| 0 <= k <= |states[1..]| && TrimFrom(states[1..], c', cutoff).0 == states[1..][k..] &&
        (forall j :: 0 <= j < k ==> states[1..][j].timestamp < cutoff) &&
        (|TrimFrom(states[1..], c', cutoff).0| > 0 ==> TrimFrom(states[1..], c', cutoff).0[0].timestamp >= cutoff) &&
        TrimFrom(states[1..], c', cutoff).1 == (if c' <= 0 then c' else if c' - k > 0 then c' - k else 0);
      assert states[1..][k..] == states[k + 1..];
      assert forall j :: 0 <= j < k + 1 ==> states[j].timestamp < cutoff by {
        forall j | 0 <= j < k + 1 ensures states[j].timestamp < cutoff {
          if j > 0 { assert states[j] == states[1..][j - 1]; }
        }
      }
    } else {
      assert states == states[0..];
    }
  }

  class StateManager<Item(==)> {
    const maxStates: int
    var states: seq<Record<Item>>
    var cursor: int
    var lastUndoTime: real
    var undoCounter: int

    /** The history bound, and the cursor at most one step outside the list:
        it is -1 or a valid position, or 0 once `trim_old_states` has
        emptied the list. */
    predicate Valid()
      reads this
    {
      |states| <= MaxLen(maxStates) &&
      -1 <= cursor && (cursor < |states| || cursor == 0)
    }

    constructor(maxStates: int)
      ensures Valid() && this.maxStates == maxStates
      ensures states == [] && cursor == -1 && lastUndoTime == 0.0 && undoCounter == 0
    {
      this.maxStates := maxStates;
      states := [];
      cursor := -1;
      lastUndoTime := 0.0;
      undoCounter := 0;
    }

    /** `save_state(state, info)` at time `now`: skipped when `state` equals
        the snapshot at the cursor. */
    method SaveState(state: seq<Item>, info: Option<Operation<Item>>, now: real)
      requires Valid()
      modifies this
      ensures Valid()
      ensures (0 <= old(cursor) < |old(states)| && state == old(states)[old(cursor)].state) ==>
        states == old(states) && cursor == old(cursor)
      ensures !(0 <= old(cursor) < |old(states)| && state == old(states)[old(cursor)].state) ==>
        states == AfterSave(old(states), old(cursor),
                            Record(state, OperationOrDefault(info), now), maxStates) &&
        cursor == |states| - 1
      ensures lastUndoTime == old(lastUndoTime) && undoCounter == old(undoCounter)
    {
      if 0 <= cursor < |states| && state == states[cursor].state {
        return;
      }
      var rec := Record(state, OperationOrDefault(info), now);
      AfterSaveSpec(states, cursor, rec, maxStates);
      states := Truncate(states, cursor);
      states := states + [rec];
      if |states| > maxStates {
        states := states[1..];
        cursor := cursor - 1;
      }
      cursor := |states| - 1;
    }

    /** `get_current_state`. */
    function CurrentState(): (r: Option<seq<Item>>)
      reads this
      ensures r.Some? <==> 0 <= cursor < |states|
      ensures r.Some? ==> r.value == states[cursor].state
    {
      if 0 <= cursor < |states| then Some(states[cursor].state) else None
    }

    /** `get_current_operation`. */
    function CurrentOperation(): (r: Option<Operation<Item>>)
      reads this
      ensures r.Some? <==> 0 <= cursor < |states|
      ensures r.Some? ==> r.value == states[cursor].operation
    {
      if 0 <= cursor < |states| then Some(states[cursor].operation) else None
    }

    /** `undo` at time `now`. Every successful branch moves the cursor back
        by exactly one and counts the undo; the snapshot returned is the
        current operation's `original_state` for the restoring types, and
        otherwise the previous record's snapshot. */
    method Undo(now: real) returns (r: Option<seq<Item>>)
      requires Valid()
      modifies this
      ensures Valid() && states == old(states)
      ensures !CanUndo(old(cursor)) ==>
        r == None && cursor == old(cursor) &&
        lastUndoTime == old(lastUndoTime) && undoCounter == old(undoCounter)
      ensures CanUndo(old(cursor)) ==>
        cursor == old(cursor) - 1 && cursor >= 0 &&
        lastUndoTime == now && undoCounter == old(undoCounter) + 1 &&
        r == Some(if RestoresOriginal(states[old(cursor)].operation)
                  then states[old(cursor)].operation.originalState.value
                  else states[cursor].state)
    {
      if !(cursor > 0) {
        return None;
      }
      if cursor == 1 {
        var op := states[cursor].operation;
        if op.opType == Some("combine_sentences") && op.originalState.Some? && |op.originalState.value| > 0 {
          cursor := 0;
          lastUndoTime := now;
          undoCounter := undoCounter + 1;
          return Some(op.originalState.value);
        }
      }
      if 0 <= cursor < |states| {
        var op := states[cursor].operation;
        if op.opType == Some("combine_sentences") {
          if op.originalState.Some? && |op.originalState.value| > 0 {
            cursor := cursor - 1;
            lastUndoTime := now;
            undoCounter := undoCounter + 1;
            return Some(op.originalState.value);
          }
        } else if op.opType == Some("split_srt") || op.opType == Some("split_word_text") {
          if op.originalState.Some? && |op.originalState.value| > 0 {
            cursor := cursor - 1;
            lastUndoTime := now;
            undoCounter := undoCounter + 1;
            return Some(op.originalState.value);
          }
        } else if op.opType == Some("align_end_times") {
          if op.originalState.Some? && |op.originalState.value| > 0 {
            cursor := cursor - 1;
            lastUndoTime := now;
            undoCounter := undoCounter + 1;
            return Some(op.originalState.value);
          }
        } else if op.opType == Some("edit_text") {
          if op.originalState.Some? && |op.originalState.value| > 0 {
            cursor := cursor - 1;
            lastUndoTime := now;
            undoCounter := undoCounter + 1;
            return Some(op.originalState.value);
          }
        }
      }
      var prev := cursor - 1;
      if prev < 0 || prev >= |states| {
        assert false;
        return None;
      }
      r := Some(states[prev].state);
      cursor := prev;
      lastUndoTime := now;
      undoCounter := undoCounter + 1;
    }

    /** `redo`: step forward to the next record and return its snapshot. */
    method Redo() returns (r: Option<seq<Item>>)
      requires Valid()
      modifies this
      ensures Valid() && states == old(states)
      ensures lastUndoTime == old(lastUndoTime) && undoCounter == old(undoCounter)
      ensures !CanRedo(|states|, old(cursor)) ==> r == None && cursor == old(cursor)
      ensures CanRedo(|states|, old(cursor)) ==>
        cursor == old(cursor) + 1 && r == Some(states[cursor].state)
      ensures old(cursor) < |states| ==> (cursor, r) == RedoStep(TreeSnapshots(states), old(cursor))
    {
      if !(cursor < |states| - 1) {
        return None;
      }
      cursor := cursor + 1;
      r := Some(states[cursor].state);
    }

    /** `clear_states`. */
    method ClearStates()
      modifies this
      ensures Valid()
      ensures states == [] && cursor == -1 && lastUndoTime == 0.0 && undoCounter == 0
    {
      states := [];
      cursor := -1;
      lastUndoTime := 0.0;
      undoCounter := 0;
    }

    /** `merge_consecutive_states(threshold)`. `completed` is false when the
        loop stopped on a record without `type` (Python raises KeyError and
        the records merged so far stay merged). */
    method MergeConsecutiveStates(threshold: real) returns (completed: bool)
      requires Valid()
      modifies this
      ensures Valid()
      ensures lastUndoTime == old(lastUndoTime) && undoCounter == old(undoCounter)
      ensures |old(states)| < 2 ==> states == old(states) && cursor == old(cursor) && completed
      ensures |old(states)| >= 2 ==>
        MergeOutcome(states, cursor, completed) ==
        MergeFrom(old(states), old(cursor), |old(states)| - 1, threshold)
    {
      if |states| < 2 {
        return true;
      }
      var i := |states| - 1;
      while i > 0
        invariant 0 <= i < |states| <= |old(states)|
        invariant -1 <= cursor < |states|
        invariant lastUndoTime == old(lastUndoTime) && undoCounter == old(undoCounter)
        invariant MergeFrom(states, cursor, i, threshold) ==
          MergeFrom(old(states), old(cursor), |old(states)| - 1, threshold)
        decreases i
      {
        if LacksType(states[i - 1], states[i], threshold) {
          return false;
        }
        if states[i].timestamp - states[i - 1].timestamp < threshold &&
           states[i].operation.opType == states[i - 1].operation.opType {
          states := states[..i - 1] + states[i..];
          if cursor >= i - 1 {
            cursor := cursor - 1;
          }
        }
        i := i - 1;
      }
      completed := true;
    }

    /** `trim_old_states(max_age)` at time `now`. */
    method TrimOldStates(maxAge: real, now: real)
      requires Valid()
      modifies this
      ensures Valid()
      ensures lastUndoTime == old(lastUndoTime) && undoCounter == old(undoCounter)
      ensures (states, cursor) == TrimFrom(old(states), old(cursor), now - maxAge)
    {
      var cutoff := now - maxAge;
      while |states| > 0 && states[0].timestamp < cutoff
        invariant Valid()
        invariant lastUndoTime == old(lastUndoTime) && undoCounter == old(undoCounter)
        invariant TrimFrom(states, cursor, cutoff) == TrimFrom(old(states), old(cursor), cutoff)
        decreases |states|
      {
        states := states[1..];
        if cursor > 0 {
          cursor := cursor - 1;
        }
      }
    }

    /** `reset_undo_count`. */
    method ResetUndoCount()
      modifies this
      ensures undoCounter == 0
      ensures states == old(states) && cursor == old(cursor) && lastUndoTime == old(lastUndoTime)
    {
      undoCounter := 0;
    }
  }
}
