/** The UI-independent application-state history: every save appends a full
    application state (tree rows, correction states, display mode, Word
    flags, operation info); there is no duplicate check. */
module AppStateHistory {
  import opened Wrappers
  import opened StateHistory

  type TreeItem = map<string, string>

  /** One recorded application state (`AppState`). */
  datatype AppState = AppState(
    treeData: seq<TreeItem>,
    correctionStates: map<string, map<string, string>>,
    displayMode: string,
    useWordFlags: map<string, bool>,
    timestamp: real,
    operationInfo: map<string, string>)

  /** The dict passed to `save_state`; every key may be missing. */
  datatype StateData = StateData(
    treeData: Option<seq<TreeItem>>,
    correctionStates: Option<map<string, map<string, string>>>,
    displayMode: Option<string>,
    useWordFlags: Option<map<string, bool>>,
    operationInfo: Option<map<string, string>>)

  /** The record `save_state` builds: each missing key takes its default
      (`[]`, `{}`, `''`, `{}`, `{}`), the timestamp is the save time. */
  function ToAppState(data: StateData, now: real): (s: AppState)
    ensures s.treeData == (if data.treeData.Some? then data.treeData.value else [])
    ensures s.correctionStates == (if data.correctionStates.Some? then data.correctionStates.value else map[])
    ensures s.displayMode == (if data.displayMode.Some? then data.displayMode.value else "")
    ensures s.useWordFlags == (if data.useWordFlags.Some? then data.useWordFlags.value else map[])
    ensures s.operationInfo == (if data.operationInfo.Some? then data.operationInfo.value else map[])
    ensures s.timestamp == now
  {
    AppState(data.treeData.GetOr([]), data.correctionStates.GetOr(map[]),
             data.displayMode.GetOr(""), data.useWordFlags.GetOr(map[]),
             now, data.operationInfo.GetOr(map[]))
  }

  /** One row of `get_state_history`. */
  datatype HistoryEntry = HistoryEntry(index: nat, timestamp: real, operationType: string,
                                       description: string, isCurrent: bool)

  class AppStateManager {
    const maxStates: int
    var states: seq<AppState>
    var cursor: int

    predicate Valid()
      reads this
    {
      -1 <= cursor < |states| && |states| <= MaxLen(maxStates)
    }

    constructor(maxStates: int)
      ensures Valid() && this.maxStates == maxStates
      ensures states == [] && cursor == -1
    {
      this.maxStates := maxStates;
      states := [];
      cursor := -1;
    }

    /** `save_state(data)` at time `now`: always records, never skips. */
    method SaveState(data: StateData, now: real)
      requires Valid()
      modifies this
      ensures Valid()
      ensures states == AfterSave(old(states), old(cursor), ToAppState(data, now), maxStates)
      ensures cursor == |states| - 1
    {
      var rec := ToAppState(data, now);
      AfterSaveSpec(states, cursor, rec, maxStates);
      if cursor < |states| - 1 {
        states := states[..cursor + 1];
      }
      states := states + [rec];
      if |states| > maxStates {
        states := states[1..];
        cursor := cursor - 1;
      }
      cursor := |states| - 1;
    }

    /** `undo`: the record at the new cursor, or `None` at the oldest one. */
    method Undo() returns (r: Option<AppState>)
      requires Valid()
      modifies this
      ensures Valid() && states == old(states)
      ensures !CanUndo(old(cursor)) ==> r == None && cursor == old(cursor)
      ensures CanUndo(old(cursor)) ==> cursor == old(cursor) - 1 && r == Some(states[cursor])
      ensures (cursor, r) == UndoStep(states, old(cursor))
    {
      if !(cursor > 0) {
        return None;
      }
      cursor := cursor - 1;
      r := Some(states[cursor]);
    }

    /** `redo`: the record at the new cursor, or `None` at the newest one. */
    method Redo() returns (r: Option<AppState>)
      requires Valid()
      modifies this
      ensures Valid() && states == old(states)
      ensures !CanRedo(|states|, old(cursor)) ==> r == None && cursor == old(cursor)
      ensures CanRedo(|states|, old(cursor)) ==> cursor == old(cursor) + 1 && r == Some(states[cursor])
      ensures (cursor, r) == RedoStep(states, old(cursor))
    {
      if !(cursor < |states| - 1) {
        return None;
      }
      cursor := cursor + 1;
      r := Some(states[cursor]);
    }

    /** `get_current_state`. */
    function CurrentState(): (r: Option<AppState>)
      reads this
      ensures r.Some? <==> 0 <= cursor < |states|
      ensures r.Some? ==> r.value == states[cursor]
    {
      if 0 <= cursor < |states| then Some(states[cursor]) else None
    }

    /** `clear_states`. */
    method ClearStates()
      modifies this
      ensures Valid() && states == [] && cursor == -1
    {
      states := [];
      cursor := -1;
    }

    /** `get_state_history`: one summary per record, current exactly at the
        cursor, with `type` defaulting to 'unknown' and `description` to ''. */
    function StateHistorySummary(): (h: seq<HistoryEntry>)
      reads this
      ensures |h| == |states|
      ensures forall i :: 0 <= i < |h| ==>
        h[i].index == i && h[i].timestamp == states[i].timestamp &&
        (h[i].isCurrent <==> i == cursor) &&
        h[i].operationType == (if "type" in states[i].operationInfo then states[i].operationInfo["type"] else "unknown") &&
        h[i].description == (if "description" in states[i].operationInfo then states[i].operationInfo["description"] else "")
      ensures (exists i :: 0 <= i < |h| && h[i].isCurrent) <==> 0 <= cursor < |states|
    {
      var h := seq(|states|, i requires 0 <= i < |states| reads this =>
        var op := states[i].operationInfo;
        HistoryEntry(i, states[i].timestamp,
                     if "type" in op then op["type"] else "unknown",
                     if "description" in op then op["description"] else "",
                     i == cursor));
      assert 0 <= cursor < |states| ==> h[cursor].isCurrent;
      h
    }
  }
}
