/** The enhanced undo/redo manager used by the alignment window. Its
    constructor sets `current_index` while every other method but
    `can_undo`/`can_redo` reads and writes `current_state_index`, an
    attribute that exists only after `clear_states`; the model keeps that
    split: `currentIndex` is fixed at -1 and `currentStateIndex` is `None`
    until the first `clear_states`. */
module EnhancedState {
  import opened Wrappers
  import opened Strings
  import opened StateHistory
  import opened BaseState

  type Dict = map<string, string>

  /** A history record: snapshot, operation dict, save time, the correction
      snapshot passed along, and the display mode read from the snapshot. */
  datatype EnhancedRecord = EnhancedRecord(state: Dict, operation: Dict, timestamp: real,
                                           correctionState: Option<Dict>, displayMode: Option<string>)

  /** `d.get(key)`. */
  function Get(d: Dict, key: string): (r: Option<string>)
    ensures r.Some? <==> key in d
    ensures r.Some? ==> r.value == d[key]
  {
    if key in d then Some(d[key]) else None
  }

  function UnknownOperation(): Dict {
    map["type" := "unknown", "description" := "Unknown operation"]
  }

  /** The operation types that can be folded into the previous record. */
  function MergeableTypes(): set<string> {
    {"edit_text", "edit_word_text", "toggle_correction"}
  }

  /** The longest gap, in seconds, between two foldable saves. */
  const MaxMergeInterval: real := 2.0

  /** `try_compress_similar_operations` folds the new operation into the
      record at the cursor: same type, a foldable type, less than two seconds
      since that record was saved. */
  predicate Compressible(states: seq<EnhancedRecord>, cursor: int, op: Dict, now: real) {
    0 <= cursor < |states| &&
    Get(states[cursor].operation, "type") == Get(op, "type") &&
    Get(states[cursor].operation, "type").Some? &&
    Get(states[cursor].operation, "type").value in MergeableTypes() &&
    now - states[cursor].timestamp < MaxMergeInterval
  }

  /** The folded record: new snapshot and time; for an edit type, the
      description (default '編輯') gets ' (多次)' appended; the correction
      snapshot and display mode of the earlier save are kept. */
  function Folded(rec: EnhancedRecord, state: Dict, now: real): (r: EnhancedRecord)
    ensures r.state == state && r.timestamp == now
    ensures r.correctionState == rec.correctionState && r.displayMode == rec.displayMode
    ensures "type" in rec.operation && Contains(rec.operation["type"], "edit") ==>
      r.operation == rec.operation["description" := Get(rec.operation, "description").GetOr("編輯") + " (多次)"]
    ensures !("type" in rec.operation && Contains(rec.operation["type"], "edit")) ==>
      r.operation == rec.operation
  {
    var op := rec.operation;
    var op' := if Contains(Get(op, "type").GetOr(""), "edit")
               then op["description" := Get(op, "description").GetOr("編輯") + " (多次)"]
               else op;
    EnhancedRecord(state, op', now, rec.correctionState, rec.displayMode)
  }

  /** One line of `get_state_history`. */
  datatype EnhancedEntry = EnhancedEntry(index: nat, timestamp: real, operationType: string,
                                         description: string, isCurrent: bool, hasCorrection: bool)

  /** The events this manager's callback table knows about. */
  function EnhancedEvents(): set<string> {
    {"on_state_change", "on_undo", "on_redo"}
  }

  class EnhancedStateManager {
    const maxStates: int
    /** `current_index`: set once by the constructor, read by `can_undo`
        and `can_redo`, never updated. */
    const currentIndex: int
    /** `current_state_index`: absent until `clear_states` creates it. */
    var currentStateIndex: Option<int>
    var states: seq<EnhancedRecord>
    var callbacks: map<string, Option<Callback>>

    /** Before the cursor attribute exists nothing has been saved; after,
        it is at least -1 (a failed redo can leave it past the end); the
        history obeys the bound. */
    predicate Valid()
      reads this
    {
      currentIndex == -1 &&
      (currentStateIndex.None? ==> states == []) &&
      (currentStateIndex.Some? ==> currentStateIndex.value >= -1) &&
      |states| <= MaxLen(maxStates) &&
      callbacks.Keys == EnhancedEvents()
    }

    constructor(maxStates: int)
      ensures Valid() && this.maxStates == maxStates
      ensures currentStateIndex == None && states == []
      ensures forall e :: e in EnhancedEvents() ==> callbacks[e] == None
    {
      this.maxStates := maxStates;
      currentIndex := -1;
      currentStateIndex := None;
      states := [];
      callbacks := map["on_state_change" := None, "on_undo" := None, "on_redo" := None];
    }

    /** `set_callback`: only the three known events can be set. */
    method SetCallback(event: string, callback: Option<Callback>)
      requires Valid()
      modifies this
      ensures Valid()
      ensures event in EnhancedEvents() ==> callbacks == old(callbacks)[event := callback]
      ensures event !in EnhancedEvents() ==> callbacks == old(callbacks)
      ensures states == old(states) && currentStateIndex == old(currentStateIndex)
    {
      if event in callbacks {
        callbacks := callbacks[event := callback];
      }
    }

    /** `save_state(state, info, correction)` at time `now`. Without the
        cursor attribute the first comparison raises and the `except` clause
        swallows it: nothing is recorded. Otherwise the redo tail is dropped,
        then the new operation is folded into the record at the cursor when
        `Compressible`, or appended as a new record. */
    method SaveState(state: Dict, info: Option<Dict>, correction: Option<Dict>, now: real)
      requires Valid()
      modifies this
      ensures Valid() && callbacks == old(callbacks)
      ensures old(currentStateIndex).None? ==>
        states == old(states) && currentStateIndex == old(currentStateIndex)
      ensures old(currentStateIndex).Some? ==>
        var c := old(currentStateIndex).value;
        var op := if info.Some? && info.value != map[] then info.value else UnknownOperation();
        var kept := Truncate(old(states), c);
        if Compressible(kept, c, op, now) then
          states == kept[c := Folded(kept[c], state, now)] && currentStateIndex == old(currentStateIndex)
        else
          states == AfterSave(old(states), c,
                              EnhancedRecord(state, op, now, correction, Get(state, "display_mode")),
                              maxStates) &&
          currentStateIndex == Some(|states| - 1)
    {
      if currentStateIndex.None? {
        return;
      }
      var op := if info.Some? && info.value != map[] then info.value else UnknownOperation();
      var c := currentStateIndex.value;
      if c < |states| - 1 {
        states := states[..c + 1];
      }
      assert states == Truncate(old(states), c);
      var skip := TryCompressSimilarOperations(op, state, now);
      if skip {
        return;
      }
      var rec := EnhancedRecord(state, op, now, correction, Get(state, "display_mode"));
      AfterSaveBound(old(states), c, rec, maxStates);
      states := states + [rec];
      if |states| > maxStates {
        states := states[1..];
        currentStateIndex := Some(currentStateIndex.value - 1);
      }
      currentStateIndex := Some(|states| - 1);
    }

    /** `try_compress_similar_operations(op, state)` at time `now`. */
    method TryCompressSimilarOperations(op: Dict, state: Dict, now: real) returns (folded: bool)
      requires currentStateIndex.Some?
      modifies this
      ensures currentStateIndex == old(currentStateIndex) && callbacks == old(callbacks)
      ensures folded == Compressible(old(states), currentStateIndex.value, op, now)
      ensures folded ==> states == old(states)[currentStateIndex.value :=
                                     Folded(old(states)[currentStateIndex.value], state, now)]
      ensures !folded ==> states == old(states)
    {
      var c := currentStateIndex.value;
      if c < 0 || c >= |states| {
        return false;
      }
      var prevOp := states[c].operation;
      var timeDiff := now - states[c].timestamp;
      if Get(prevOp, "type") == Get(op, "type") && Get(prevOp, "type").Some? &&
         Get(prevOp, "type").value in MergeableTypes() && timeDiff < MaxMergeInterval {
        states := states[c := Folded(states[c], state, now)];
        return true;
      }
      return false;
    }

    /** `get_current_operation`; raises AttributeError without the cursor. */
    function CurrentOperation(): (r: Result<Option<Dict>>)
      reads this
      ensures r.Failure? <==> currentStateIndex.None?
      ensures r.Success? ==>
        (r.value.Some? <==> 0 <= currentStateIndex.value < |states|) &&
        (r.value.Some? ==> r.value.value == states[currentStateIndex.value].operation)
    {
      if currentStateIndex.None? then Failure("AttributeError")
      else if 0 <= currentStateIndex.value < |states| then Success(Some(states[currentStateIndex.value].operation))
      else Success(None)
    }

    /** `get_current_state`; raises AttributeError without the cursor. */
    function CurrentState(): (r: Result<Option<Dict>>)
      reads this
      ensures r.Failure? <==> currentStateIndex.None?
      ensures r.Success? ==>
        (r.value.Some? <==> 0 <= currentStateIndex.value < |states|) &&
        (r.value.Some? ==> r.value.value == states[currentStateIndex.value].state)
    {
      if currentStateIndex.None? then Failure("AttributeError")
      else if 0 <= currentStateIndex.value < |states| then Success(Some(states[currentStateIndex.value].state))
      else Success(None)
    }

    /** `get_state_history`. Without the cursor attribute there are no
        records, so the comparison that would raise is never reached. */
    function StateHistorySummary(): (h: seq<EnhancedEntry>)
      requires Valid()
      reads this
      ensures |h| == |states|
      ensures forall i :: 0 <= i < |h| ==>
        h[i].index == i && h[i].timestamp == states[i].timestamp &&
        (h[i].isCurrent <==> currentStateIndex == Some(i)) &&
        (h[i].hasCorrection <==> states[i].correctionState.Some?) &&
        h[i].operationType == Get(states[i].operation, "type").GetOr("unknown") &&
        h[i].description == Get(states[i].operation, "description").GetOr("")
      ensures (exists i :: 0 <= i < |h| && h[i].isCurrent) <==>
        currentStateIndex.Some? && 0 <= currentStateIndex.value < |states|
    {
      var h := seq(|states|, i requires 0 <= i < |states| reads this =>
        EnhancedEntry(i, states[i].timestamp,
                      Get(states[i].operation, "type").GetOr("unknown"),
                      Get(states[i].operation, "description").GetOr(""),
                      currentStateIndex == Some(i),
                      states[i].correctionState.Some?));
      assert currentStateIndex.Some? && 0 <= currentStateIndex.value < |states| ==>
        h[currentStateIndex.value].isCurrent;
      h
    }

    /** `can_undo`, on the constructor's `current_index`. */
    predicate CanUndo()
      reads this
    {
      currentIndex > 0
    }

    /** `can_redo`, on the constructor's `current_index`. */
    predicate CanRedo()
      reads this
    {
      currentIndex < |states| - 1
    }

    /** `undo`: `can_undo` never holds, so it always answers False and
        never moves. */
    method Undo() returns (ok: bool)
      requires Valid()
      ensures !ok
    {
      if !CanUndo() {
        return false;
      }
      assert false;
      return false;
    }

    /** `redo`. With at least one record the stale `can_redo` check passes;
        the cursor is then incremented (AttributeError, caught, when it does
        not exist yet), the record there is read (IndexError, caught, when the
        cursor went past the end, which stays past the end), and the
        `on_redo` callback runs when set: a raising or non-callable entry
        makes the result False. */
    method Redo() returns (ok: bool)
      requires Valid()
      modifies this
      ensures Valid() && states == old(states) && callbacks == old(callbacks)
      ensures !CanRedo() || old(currentStateIndex).None? ==>
        !ok && currentStateIndex == old(currentStateIndex)
      ensures CanRedo() && old(currentStateIndex).Some? ==>
        currentStateIndex == Some(old(currentStateIndex).value + 1) &&
        (ok <==> currentStateIndex.value < |states| &&
                 (callbacks["on_redo"].None? ||
                  (callbacks["on_redo"].value.Callable? && !callbacks["on_redo"].value.raises)))
    {
      if !CanRedo() {
        return false;
      }
      if currentStateIndex.None? {
        return false;
      }
      currentStateIndex := Some(currentStateIndex.value + 1);
      if currentStateIndex.value >= |states| {
        return false;
      }
      var entry := callbacks["on_redo"];
      if entry.Some? {
        if entry.value.NotCallable? || entry.value.raises {
          return false;
        }
      }
      return true;
    }

    /** `clear_states`: the first call creates the cursor attribute. */
    method ClearStates()
      requires Valid()
      modifies this
      ensures Valid() && callbacks == old(callbacks)
      ensures states == [] && currentStateIndex == Some(-1)
    {
      states := [];
      currentStateIndex := Some(-1);
    }
  }

  /** `can_undo` is false in every reachable state. */
  lemma UndoNeverPossible(m: EnhancedStateManager)
    requires m.Valid()
    ensures !m.CanUndo()
  {
  }

  /** `can_redo` holds exactly when there is at least one record, wherever
      the real cursor is. */
  lemma RedoCheckIgnoresCursor(m: EnhancedStateManager)
    requires m.Valid()
    ensures m.CanRedo() <==> |m.states| >= 1
  {
  }

  /** Folding refreshes the record's time and keeps its type, so a run of
      same-type edits each less than two seconds after the previous one
      keeps folding into one record, however long the run lasts. */
  lemma FoldingSlides(states: seq<EnhancedRecord>, cursor: int, op: Dict, state: Dict, now: real, later: real)
    requires Compressible(states, cursor, op, now)
    requires later - now < MaxMergeInterval
    ensures Compressible(states[cursor := Folded(states[cursor], state, now)], cursor, op, later)
  {
    var r := states[cursor];
    var f := Folded(r, state, now);
    assert "type" in r.operation;
    assert Get(f.operation, "type") == Get(r.operation, "type");
  }
}
