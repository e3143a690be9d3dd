# A verified model of the subtitle alignment editor's core

The editor aligns the subtitles of an SRT file with the paragraphs of a Word
document and the time line of an audio file, and lets the user correct the
subtitle texts with a table of error → correction rules. Underneath its Tk
windows sit small, self-contained pieces of logic, and this project models
them in Dafny and proves what they promise:

- **Undo/redo histories** (`StateHistory`, `BaseState`, `GenericState`,
  `TreeState`, `AppStateHistory`, `EnhancedState`): lists of whole-state
  snapshots with a cursor. Saving discards the redo tail, appends, drops the
  oldest record above `max_states` and moves the cursor to the end; undo and
  redo move the cursor by one. The variants add duplicate suppression,
  operation-specific undo results, merge and trim passes and the compression
  of quick successive edits. The enhanced manager's `current_index` /
  `current_state_index` split is kept as written: undo is never possible and
  redo can leave the cursor past the list.
- **Correction rules and per-entry correction state** (`RuleEngine`,
  `CorrectionEntries`, `CorrectionService`, `LegacyCorrection`,
  `CorrectionStateManager`, `LegacyCorrectionStateManager`,
  `CorrectionHandler`): a rule table is a sequence of pairs with distinct,
  non-empty error texts, applied with Python's `str.replace`. Every class
  keeps three dicts keyed by an entry index; the invariant proved is that they
  share one key set and that an entry exists only where the original and the
  corrected text differ. Each copy's differences (which text a rule is checked
  against, what a transfer keeps, what serialization filters) are stated
  separately.
- **Row layouts** (`RowLayouts`, `AlignmentGui`): the four column layouts
  `srt`, `srt_word`, `audio_srt` and `all`, the conversion of a row between
  them, the display-mode choice from the imported files, row building, the
  in-place update of a row's text and mark, edit marks, the end-time
  alignment pass and the insertion of split subtitles.
- **Word paragraphs** (`WordProcessor`): editing and splitting the two
  parallel paragraph lists and the map of edited paragraphs.
- **Split-time segmentation** (`Segmentation`): a subtitle's time span shared
  out over its text lines in proportion to their length, contiguously.
- **Versions and release assets** (`Versions`): both version comparisons, the
  platform guess from a file name and the choice of a release asset.
- **Configuration** (`Config`): default sections, section and option access
  and the most-recently-used lists.
- **Column widths** (`Columns`) and **audio view ranges**
  (`AudioRangeManager`, `TimeRangeHandler`, `VisualizationRangeManager`):
  width allocation, clamping, view widths and view ranges, in exact
  milliseconds.

`Strings` holds the fragment of Python's `str` the editor relies on
(substring tests, `replace`, `strip`, `split`, `join`, ASCII `lower`, `int`
and `str` on digits) and `Wrappers` the `Option`/`Result` types.

Objects whose methods update their fields are classes with `modifies`
clauses; each method's `ensures` ties the new state to a function of the old
one, and the lemmas beside those functions state what the source promises.

## Model

| member | source | states |
|---|---|---|
| BaseState.BaseStateManager.constructor | src/services/state/base_state_manager.py:22-34 | the history bound is stored and all four events start with no callback |
| BaseState.BaseStateManager.SetCallback | src/services/state/base_state_manager.py:36-45 | a known event gets the new entry, possibly none; an unknown event leaves the table unchanged |
| BaseState.BaseStateManager.TriggerCallback | src/services/state/base_state_manager.py:47-60 | the handler is invoked exactly when the event has a callable entry; what it raises is caught and reported in the dispatch, never to the caller |
| StateHistory.Truncate | src/services/state/generic_state_manager.py:32-34 | dropping the redo tail keeps a prefix of the records, of length cursor + 1 while the cursor is inside the list |
| StateHistory.AfterSaveBound | src/services/state/generic_state_manager.py:50-53 | a save never takes the history above the bound |
| StateHistory.AfterSaveSpec | src/services/state/generic_state_manager.py:32-55 | after a save the new record is last, at most one old record (the oldest) is dropped and only when the bound is exceeded, and the other records are the kept prefix in order |
| StateHistory.SaveAfterUndoDiscardsRedoTail | src/services/state/generic_state_manager.py:32-48 | saving with the cursor before the end discards the redo tail: the result is the prefix up to the cursor plus the new record |
| StateHistory.AfterSave | src/services/state/generic_state_manager.py:32-55 | the saved history ends with the new record whenever the bound admits one, and holds at most one record more than the kept prefix |
| StateHistory.UndoStep | src/services/state/generic_state_manager.py:67-105 | an undo step succeeds exactly when there is a record before the cursor; it then moves the cursor back one and returns that record's snapshot, and otherwise keeps the cursor |
| StateHistory.RedoStep | src/services/state/generic_state_manager.py:74-125 | a redo step succeeds exactly when there is a record after the cursor; it then moves the cursor forward one and returns that record's snapshot, and otherwise keeps the cursor |
| StateHistory.UndoThenRedo | src/services/state/generic_state_manager.py:81-125 | after a successful undo, redo succeeds, puts the cursor back where it was and returns the snapshot that was current before the undo |
| StateHistory.RedoThenUndo | src/services/state/generic_state_manager.py:81-125 | after a successful redo, undo succeeds, puts the cursor back where it was and returns the snapshot that was current before the redo |
| GenericState.OperationOrDefault | src/services/state/generic_state_manager.py:38 | the given operation unless it is missing or empty, then the unknown-operation dict |
| GenericState.GenericStateManager.constructor | src/services/state/generic_state_manager.py:13-18 | empty history, cursor -1, both counters 0 |
| GenericState.GenericStateManager.SaveState | src/services/state/generic_state_manager.py:20-59 | a snapshot equal to the one at the cursor changes nothing; otherwise the history is the saved-and-bounded one and the cursor is its last position |
| GenericState.GenericStateManager.CurrentOperation | src/services/state/generic_state_manager.py:61-65 | present exactly when the cursor is in range, and then the operation at the cursor |
| GenericState.GenericStateManager.CurrentState | src/services/state/generic_state_manager.py:135-142 | present exactly when the cursor is in range, and then the snapshot at the cursor |
| GenericState.GenericStateManager.Undo | src/services/state/generic_state_manager.py:81-105 | without a record before the cursor: none and no change; otherwise the cursor moves back one, the undo is counted and timed, and the snapshot there is returned; the new cursor and the result are `UndoStep` of the snapshots |
| GenericState.GenericStateManager.Redo | src/services/state/generic_state_manager.py:107-125 | without a record after the cursor: none and no change; otherwise the cursor moves forward one and the snapshot there is returned; the new cursor and the result are `RedoStep` of the snapshots |
| GenericState.GenericStateManager.ClearStates | src/services/state/generic_state_manager.py:127-133 | empty history, cursor -1, both counters 0 |
| GenericState.GenericStateManager.OperationHistory | src/services/state/generic_state_manager.py:151-156 | one operation per record, in record order |
| GenericState.GenericStateManager.ResetUndoCount | src/services/state/generic_state_manager.py:165-167 | the undo counter is 0 and nothing else changes |
| TreeState.OperationOrDefault | src/services/state_manager.py:50 | the given operation unless it is missing or an empty dict, which is falsy, then the unknown-operation dict |
| TreeState.MergeFrom | src/services/state_manager.py:253-273 | the merge pass never grows the history and removes at most one record per pair it visits |
| TreeState.TrimFrom | src/services/state_manager.py:286-299 | trimming never grows the history, and what remains starts with a record no older than the cutoff |
| TreeState.MergeFromSpec | src/services/state_manager.py:253-273 | the merge pass keeps the newest record, never grows the history, keeps the cursor in range, and once it completes no two neighbouring records are mergeable |
| TreeState.MergeFromCompletes | src/services/state_manager.py:258-266 | when every record has an operation type the merge pass never raises |
| TreeState.TrimFromSpec | src/services/state_manager.py:286-299 | trimming removes exactly the leading run of records older than the cutoff; a positive cursor moves back by that many but not below 0, a cursor of 0 or -1 stays |
| TreeState.StateManager.constructor | src/services/state_manager.py:19-29 | empty history, cursor -1, both counters 0 |
| TreeState.StateManager.SaveState | src/services/state_manager.py:31-63 | a snapshot equal to the one at the cursor changes nothing; otherwise the redo tail is cut, the record appended, the oldest dropped above the bound, and the cursor is the last position; the record carries the given operation, or the unknown-operation dict when it is missing or empty |
| TreeState.StateManager.CurrentState | src/services/state_manager.py:230-237 | present exactly when the cursor is in range, and then the snapshot at the cursor |
| TreeState.StateManager.CurrentOperation | src/services/state_manager.py:65-69 | present exactly when the cursor is in range, and then the operation at the cursor |
| TreeState.StateManager.Undo | src/services/state_manager.py:91-207 | with nothing before the cursor: none and no change; otherwise the cursor moves back exactly one and stays at least 0, and the result is the operation's original state for the five restoring types, else the previous snapshot |
| TreeState.StateManager.Redo | src/services/state_manager.py:208-220 | none and no change unless the cursor is before the last record; otherwise one step forward and that snapshot; the new cursor and the result are `RedoStep` of the snapshots |
| TreeState.StateManager.ClearStates | src/services/state_manager.py:222-228 | empty history, cursor -1, both counters 0 |
| TreeState.StateManager.MergeConsecutiveStates | src/services/state_manager.py:253-273 | histories shorter than two are untouched; otherwise the outcome is the merge pass from the newest pair down, stopping where a record lacks a type |
| TreeState.StateManager.TrimOldStates | src/services/state_manager.py:286-299 | the history and cursor are the trim of the old ones at now minus the maximum age |
| TreeState.StateManager.ResetUndoCount | src/services/state_manager.py:282-284 | the undo counter is 0 and nothing else changes |
| AppStateHistory.ToAppState | src/services/app_state_manager.py:45-54 | the record takes each field from the dict, defaulting to `[]`, `{}`, `''`, `{}`, `{}`, and the given time |
| AppStateHistory.AppStateManager.constructor | src/services/app_state_manager.py:20-26 | empty history, cursor -1, the bound stored |
| AppStateHistory.AppStateManager.SaveState | src/services/app_state_manager.py:37-68 | always saves (no duplicate check): the redo tail cut, the record appended, the oldest dropped above the bound, the cursor at the end |
| AppStateHistory.AppStateManager.Undo | src/services/app_state_manager.py:70-90 | at the first record none and no change; otherwise the cursor moves back one and the record there is returned; the new cursor and the result are `UndoStep` of the snapshots |
| AppStateHistory.AppStateManager.Redo | src/services/app_state_manager.py:74-104 | at the last record none and no change; otherwise the cursor moves forward one and the record there is returned; the new cursor and the result are `RedoStep` of the snapshots |
| AppStateHistory.AppStateManager.CurrentState | src/services/app_state_manager.py:106-110 | present exactly when the cursor is in range, and then the record at the cursor |
| AppStateHistory.AppStateManager.ClearStates | src/services/app_state_manager.py:112-116 | empty history and cursor -1 |
| AppStateHistory.AppStateManager.StateHistorySummary | src/services/app_state_manager.py:118-129 | one entry per record with its index, time, type (default `unknown`) and description (default empty); `is_current` holds exactly at the cursor, so some entry is current exactly when the cursor is in range |
| EnhancedState.Folded | src/services/enhanced_state_manager.py:226-234 | a folded record takes the new snapshot and time, keeps its correction state and display mode, and gets ` (多次)` appended to its description exactly when its type contains `edit` |
| EnhancedState.EnhancedStateManager.constructor | src/services/enhanced_state_manager.py:105-114 | empty history, no callbacks, and the cursor attribute `current_state_index` never set |
| EnhancedState.EnhancedStateManager.SetCallback | src/services/enhanced_state_manager.py:116-125 | a known event gets the new entry, an unknown one changes nothing; the history is untouched |
| EnhancedState.EnhancedStateManager.SaveState | src/services/enhanced_state_manager.py:142-199 | before `clear_states` the read of the unset cursor raises inside the try and nothing is recorded; afterwards the redo tail is cut and either the cursor record is folded or the new record (display mode from the snapshot) is appended under the bound with the cursor at the end |
| EnhancedState.EnhancedStateManager.TryCompressSimilarOperations | src/services/enhanced_state_manager.py:201-238 | folds exactly when there is a cursor record of the same mergeable type saved less than two seconds before, and then rewrites only that record |
| EnhancedState.EnhancedStateManager.CurrentOperation | src/services/enhanced_state_manager.py:240-244 | raises while the cursor was never set; otherwise present exactly when the cursor is in range, with the operation there |
| EnhancedState.EnhancedStateManager.CurrentState | src/services/enhanced_state_manager.py:347-351 | raises while the cursor was never set; otherwise present exactly when the cursor is in range, with the snapshot there |
| EnhancedState.EnhancedStateManager.StateHistorySummary | src/services/enhanced_state_manager.py:353-365 | one entry per record with index, time, type and description defaults and whether a correction state is stored; current exactly at the cursor |
| EnhancedState.EnhancedStateManager.Undo | src/services/enhanced_state_manager.py:246-268 | always fails, because the check reads the stale `current_index` of -1 |
| EnhancedState.EnhancedStateManager.Redo | src/services/enhanced_state_manager.py:250-339 | the stale check passes whenever there is a record; the cursor then moves forward one even past the end, and the result is true only when the record exists and the redo callback ran without raising |
| EnhancedState.EnhancedStateManager.ClearStates | src/services/enhanced_state_manager.py:341-345 | empty history and cursor -1 |
| EnhancedState.EnhancedStateManager.CanUndo | src/services/enhanced_state_manager.py:246-248 | `can_undo` on the constructor's `current_index` (proved never to hold by `UndoNeverPossible`) |
| EnhancedState.EnhancedStateManager.CanRedo | src/services/enhanced_state_manager.py:250-252 | `can_redo` on the constructor's `current_index` (characterised by `RedoCheckIgnoresCursor`) |
| EnhancedState.UndoNeverPossible | src/services/enhanced_state_manager.py:246-248 | `can_undo` is false in every reachable state |
| EnhancedState.RedoCheckIgnoresCursor | src/services/enhanced_state_manager.py:250-252 | `can_redo` holds exactly when the history is not empty, wherever the cursor is |
| EnhancedState.FoldingSlides | src/services/enhanced_state_manager.py:217-224 | a fold resets the record's time, so a run of edits each less than two seconds after the last keeps folding into one record |
| RuleEngine.LookupIffKey | src/services/correction/correction_service.py:119-123 | a lookup in the table finds an entry exactly for its keys |
| RuleEngine.SetRule | src/services/correction/correction_service.py:123 | storing a rule keeps the table's order and keys, rewrites the correction of an existing key in place, and appends a new key at the end |
| RuleEngine.SetRuleSpec | src/services/correction/correction_service.py:123 | after storing, the table is still well-formed, has the new key added, maps it to the new correction and leaves every other key's lookup unchanged |
| RuleEngine.SetRuleLookup | src/services/correction/correction_service.py:123 | rewriting an existing key changes its lookup only |
| RuleEngine.LookupAppend | src/services/correction/correction_service.py:123 | appending a new key changes its lookup only |
| RuleEngine.RemoveRule | src/services/correction/correction_service.py:165-167 | deleting a rule removes exactly its key, keeps the table well-formed and every other lookup as it was |
| RuleEngine.ReplaceAll | src/utils/text_utils.py:53-63 | when every correction has its error's length, the corrected text has the input's length |
| RuleEngine.ReplaceAllEmpty | src/utils/text_utils.py:53-63 | an empty table leaves the text unchanged |
| RuleEngine.ReplaceAllConcat | src/utils/text_utils.py:60-63 | applying two tables one after the other is applying their concatenation |
| RuleEngine.ReplaceAllNoOccurrence | src/utils/text_utils.py:60-63 | a text containing none of the errors is returned unchanged |
| RuleEngine.Occurring | src/services/state/correction_state_manager.py:135-144 | the rules whose error occurs in the text, in table order: every one kept occurs, and every occurring one is kept |
| RuleEngine.RunningIsReplaceAll | src/gui/alignment/correction_handler.py:43-47 | testing each error against the running text before replacing gives the same text as replacing unconditionally, since replacing an absent error is a no-op |
| RuleEngine.RunningAppliedIff | src/services/correction/correction_service.py:262-272 | some rule is reported applied exactly when some error occurs in the text corrected by the rules before it |
| RuleEngine.OriginalIsOccurring | src/services/state/correction_state_manager.py:135-144 | testing errors against the input applies exactly the rules occurring in the input, in table order, to the running text |
| RuleEngine.ChangedImpliesApplied | src/services/state/correction_state_manager.py:135-144 | a changed text implies some rule was applied |
| RuleEngine.EmptyTextUntouched | src/services/correction/correction_service.py:485-487 | the empty text is never corrected |
| RuleEngine.OccurringNone | src/services/state/correction_state_manager.py:135-144 | a text containing no error has no occurring rule |
| RuleEngine.CheckText | src/services/state/correction_state_manager.py:135-144 | the check keeps the input as the original, and needs correction exactly when the corrected text differs from it |
| RuleEngine.CheckTextSpec | src/services/state/correction_state_manager.py:135-144 | the check reports exactly the errors occurring in the text, and its corrected text is those rules applied in order |
| CorrectionEntries.RemoveEntry | src/services/correction/correction_service.py:458-468 | the index is gone from all three dicts, every other index is as it was, and the invariant is kept |
| CorrectionEntries.SetEntry | src/services/correction/correction_service.py:274-297 | all three dicts hold the entry exactly when the texts differ, otherwise the index is removed from all three; other indices are untouched and the invariant is kept |
| CorrectionEntries.Toggle | src/services/correction/correction_service.py:299-325 | an existing state is flipped; an index with both texts but no state gets `correct`; otherwise the answer is `''` and nothing changes |
| CorrectionEntries.ToggleSpec | src/services/correction/correction_service.py:299-325 | on well-formed entries the answer is `''` exactly for an index without a state, the invariant is kept, and toggling twice restores the entries |
| CorrectionEntries.GetState | src/services/correction/correction_service.py:328-347 | the stored state; for two differing texts without a state it inserts and answers `correct`; any change it makes is that insertion |
| CorrectionEntries.GetStateReadOnly | src/services/correction/correction_service.py:337-347 | on well-formed entries the insertion never fires: the entries are unchanged and the answer is the stored state or `''` |
| CorrectionEntries.PartIndex | src/services/correction/correction_service.py:518 | a part's index starts with the original index and is longer |
| CorrectionEntries.PartIndexInjective | src/services/correction/correction_service.py:518 | different parts get different indices |
| CorrectionEntries.SplitPrefixFrame | src/services/correction/correction_service.py:507-522 | after a split the invariant holds, the original index is gone and every index other than the parts' is untouched |
| CorrectionEntries.SplitPrefixParts | src/services/correction/correction_service.py:516-522 | after a split each part needing correction has state `correct` with its texts, and each other part's index is as before |
| CorrectionEntries.SplitPrefixPart | src/services/correction/correction_service.py:516-522 | the same for one part, by induction over the parts |
| CorrectionEntries.SameEverywhere | src/services/correction/correction_service.py:283-297 | entries agreeing on every index are equal |
| CorrectionEntries.SerializeDiffering | src/services/correction/correction_service.py:524-548 | the result has each index of the three dicts whose texts differ exactly once, with its state, texts and time |
| CorrectionEntries.SerializeAll | src/services/correction_service.py:347-358 | the result has each index with a state exactly once, unfiltered, with its state, texts and time |
| CorrectionEntries.RestoreOne | src/services/correction/correction_service.py:569-579 | restoring one entry keeps the invariant, touches only its index, and skips entries it does not accept |
| CorrectionEntries.Restored | src/services/correction/correction_service.py:550-582 | what deserialization builds is always well-formed |
| CorrectionEntries.RestoredAt | src/services/correction/correction_service.py:565-579 | without an id mapping each index of the data is restored from its own entry, and no other index appears |
| CorrectionEntries.RoundTripDiffering | src/services/correction/correction_service.py:524-582 | deserializing a serialization gives back exactly the entries whose two texts are non-empty |
| CorrectionEntries.RoundTripAll | src/services/correction_service.py:347-378 | in the older service deserializing a serialization gives back the entries unchanged |
| CorrectionEntries.UpdateAfterSplit | src/services/correction/correction_service.py:507-522 | the loop's result is the split of the entries over all parts |
| CorrectionEntries.Deserialize | src/services/correction/correction_service.py:550-582 | the loop's result is the restoration of the data |
| CorrectionService.ApplyNewRule | src/services/correction/correction_service.py:136-156 | originals are kept; an entry whose original the new rule changes gets the replaced original as its corrected text and state `correct`; every other entry is untouched; the invariant is kept |
| CorrectionService.RefreshedOn | src/services/correction/correction_service.py:371-407 | the partly rebuilt dicts are well-formed |
| CorrectionService.Refreshed | src/services/correction/correction_service.py:365-411 | the rebuilt dicts are well-formed |
| CorrectionService.RefreshIdempotent | src/services/correction/correction_service.py:365-411 | refreshing twice gives what refreshing once gives |
| CorrectionService.MapStep | src/services/correction/correction_service.py:596-605 | the mapping loop keeps the invariant |
| CorrectionService.MapStepSpec | src/services/correction/correction_service.py:596-605 | an old index is marked handled exactly when it has a state and the mapping names it; a new index is written exactly when some pair maps a stateful old index to it |
| CorrectionService.MapStepAt | src/services/correction/correction_service.py:596-601 | after the mapping loop each target holds the state and texts of the last pair that maps a stateful old index to it |
| CorrectionService.TransferSpec | src/services/correction/correction_service.py:584-614 | transfer keeps the invariant, keeps every stateful index the mapping does not mention, gives every mapped stateful index's target a state, and, where no kept index sits at a target, moves there the state and texts of the last pair that writes it |
| CorrectionService.SplitReportSpec | src/services/correction/correction_service.py:429-452 | one triple per part, in order: its index, then `error` and the cross icon when it needs correction, empty strings otherwise |
| CorrectionService.DefaultSplitIndices | src/services/correction/correction_service.py:422-426 | part 0 keeps the original index and part i > 0 gets the original number plus i; a non-numeric original fails exactly when a second part needs an index |
| CorrectionService.HandledFrame | src/services/correction/correction_service.py:429-452 | handling the parts keeps the invariant and leaves every index that is not a part's untouched |
| CorrectionService.HandledSpec | src/services/correction/correction_service.py:429-452 | with distinct indices every part's index holds an `error` entry with its texts when it needs correction, and nothing otherwise |
| CorrectionService.ApplyToExisting | src/services/correction/correction_service.py:136-156 | the loop's entries are the new rule applied to the stored originals, and the count is the number of entries it changed |
| CorrectionService.Refresh | src/services/correction/correction_service.py:371-407 | the loop's result is the refreshed dicts |
| CorrectionService.HandleSplit | src/services/correction/correction_service.py:429-452 | the loop's entries and report are those of the handled parts, as many as there are both texts and indices |
| CorrectionService.Transfer | src/services/correction/correction_service.py:584-614 | the two loops give the transferred entries |
| CorrectionService.KeepAll | src/services/correction/correction_service.py:607-612 | the second loop copies exactly the unmapped indices over from the old dicts |
| CorrectionService.CorrectionService.constructor | src/services/correction/correction_service.py:12-28 | no rules and no entries |
| CorrectionService.CorrectionService.AddCorrection | src/services/correction/correction_service.py:107-158 | an empty error or correction returns 0 and changes nothing; otherwise the rule is stored and, with `apply_to_existing`, the entries are the new rule applied and the count of updated entries is returned, else 1 |
| CorrectionService.CorrectionService.RemoveCorrection | src/services/correction/correction_service.py:160-178 | true exactly when the rule existed, and then it is deleted; the entries are untouched |
| CorrectionService.CorrectionService.CorrectText | src/services/correction/correction_service.py:247-272 | tests each rule against the running text: the result is every rule replaced in order, and the verdict is that some rule was applied |
| CorrectionService.CorrectionService.CheckTextForCorrection | src/services/correction/correction_service.py:476-505 | the check against the input text; the empty text gives `(False, "", "", [])` |
| CorrectionService.CorrectionService.SetCorrectionState | src/services/correction/correction_service.py:274-297 | the entries are the ones with this entry set, the rules untouched |
| CorrectionService.CorrectionService.ToggleCorrectionState | src/services/correction/correction_service.py:299-325 | the answer and new entries are the toggle's |
| CorrectionService.CorrectionService.GetCorrectionState | src/services/correction/correction_service.py:328-347 | the answer and new entries are the lookup's, insertion included |
| CorrectionService.CorrectionService.RemoveCorrectionState | src/services/correction/correction_service.py:458-468 | the index is removed from all three dicts |
| CorrectionService.CorrectionService.ClearCorrectionStates | src/services/correction/correction_service.py:470-474 | no entries remain, the rules untouched |
| CorrectionService.CorrectionService.RefreshAllCorrectionStates | src/services/correction/correction_service.py:365-411 | the entries are the refreshed ones |
| CorrectionService.CorrectionService.HandleTextSplit | src/services/correction/correction_service.py:413-456 | when default indices are needed and the original is not a number the error propagates and nothing changes; otherwise the report and entries are those of the handled parts |
| CorrectionService.CorrectionService.UpdateCorrectionStatesAfterSplit | src/services/correction/correction_service.py:507-522 | the entries are the split over all parts |
| CorrectionService.CorrectionService.SerializeState | src/services/correction/correction_service.py:524-548 | a serialization of exactly the indices whose texts differ |
| CorrectionService.CorrectionService.DeserializeState | src/services/correction/correction_service.py:550-582 | the entries are the restoration of the data under the id mapping |
| CorrectionService.CorrectionService.TransferCorrectionStates | src/services/correction/correction_service.py:584-614 | the entries are the transferred ones |
| LegacyCorrection.CorrectText | src/services/correction_service.py:124-142 | the shortcut for an empty text or table and the general loop give the verdict, corrected text and applied rules of the check |
| LegacyCorrection.CheckTextForCorrection | src/services/correction_service.py:289-328 | the check of the text against the table of the newer service |
| LegacyCorrection.EmptyOrNoRules | src/services/correction_service.py:131-132 | an empty text or an empty table needs no correction and leaves the text as it is |
| LegacyCorrection.UnvisitedUntouched | src/services/correction_service.py:238-263 | an index the in-place loop has not reached yet keeps its entry |
| LegacyCorrection.LegacyRefreshed | src/services/correction_service.py:232-267 | an index with an empty original keeps its entry; one that no longer needs correction is removed from all three dicts; one that still does keeps its state (default `correct`) and original and gets the fresh corrected text |
| LegacyCorrection.LegacyRefreshWellFormed | src/services/correction_service.py:232-267 | the in-place refresh keeps the invariant |
| LegacyCorrection.RefreshesAgree | src/services/correction_service.py:232-267 | with no empty original the in-place refresh and the rebuilding refresh of the newer service give the same dicts |
| LegacyCorrection.LegacyRefresh | src/services/correction_service.py:238-263 | the loop over a snapshot of the indices gives the refreshed dicts, in any visiting order |
| LegacyCorrection.MapAll | src/services/correction_service.py:387-395 | the mapping loop gives the mapped entries |
| LegacyCorrection.TextForDisplay | src/services/correction_service.py:216-230 | no text for an index without a state, the corrected text for `correct`, the original otherwise |
| LegacyCorrection.ToggleSwitchesDisplay | src/services/correction_service.py:169-195 | toggling a `correct` entry shows the original and an `error` entry the corrected text, so the shown text changes |
| LegacyCorrection.LegacyCorrectionService.constructor | src/services/correction_service.py:12-26 | no rules and no entries |
| LegacyCorrection.LegacyCorrectionService.AddCorrection | src/services/correction_service.py:100-111 | true exactly when both texts are non-empty, and only then the rule is stored; the entries are untouched |
| LegacyCorrection.LegacyCorrectionService.RemoveCorrection | src/services/correction_service.py:113-122 | true exactly when the rule existed, and then it is deleted |
| LegacyCorrection.LegacyCorrectionService.SetCorrectionState | src/services/correction_service.py:144-167 | the entries are the ones with this entry set |
| LegacyCorrection.LegacyCorrectionService.AddCorrectionState | src/services/correction_service.py:402-410 | the same as setting the entry |
| LegacyCorrection.LegacyCorrectionService.ToggleCorrectionState | src/services/correction_service.py:169-195 | the answer and new entries are the toggle's |
| LegacyCorrection.LegacyCorrectionService.GetCorrectionState | src/services/correction_service.py:198-214 | the answer and new entries are the lookup's |
| LegacyCorrection.LegacyCorrectionService.GetTextForDisplay | src/services/correction_service.py:216-230 | the displayed text of the stored entries |
| LegacyCorrection.LegacyCorrectionService.RefreshAllCorrectionStates | src/services/correction_service.py:232-267 | the entries are the in-place refreshed ones |
| LegacyCorrection.LegacyCorrectionService.RemoveCorrectionState | src/services/correction_service.py:271-281 | the index is removed from all three dicts |
| LegacyCorrection.LegacyCorrectionService.ClearCorrectionStates | src/services/correction_service.py:283-287 | no entries remain |
| LegacyCorrection.LegacyCorrectionService.UpdateCorrectionStatesAfterSplit | src/services/correction_service.py:330-345 | the entries are the split over all parts |
| LegacyCorrection.LegacyCorrectionService.SerializeState | src/services/correction_service.py:347-358 | a serialization of every entry |
| LegacyCorrection.LegacyCorrectionService.DeserializeState | src/services/correction_service.py:360-378 | the entries are the data restored under no id mapping |
| LegacyCorrection.LegacyCorrectionService.TransferCorrectionStates | src/services/correction_service.py:380-400 | only the mapped entries remain, at their new indices |
| CorrectionStateManager.ShouldHaveIcon | src/services/state/correction_state_manager.py:199-206 | true exactly when some error of the table occurs in the text |
| CorrectionStateManager.IconIffApplied | src/services/state/correction_state_manager.py:199-206 | an icon is shown exactly when the check applies some rule; every text that needs correction has one |
| CorrectionStateManager.IconForText | src/services/state/correction_state_manager.py:228-232 | the check-mark icon exactly when some error occurs in the text, the empty string otherwise |
| CorrectionStateManager.CurrentState | src/services/state/correction_state_manager.py:234-236 | the stored state, `correct` for an index without one |
| CorrectionStateManager.ToggleFlipsCurrent | src/services/state/correction_state_manager.py:305-334 | toggling an index in state `correct` or `error` flips its current state; an index without texts keeps it |
| CorrectionStateManager.Copied | src/services/state/correction_state_manager.py:146-172 | the states are kept and each text dict gets exactly the stated indices, with its text or `''` where it had none |
| CorrectionStateManager.CopiedIsIdentity | src/services/state/correction_state_manager.py:146-172 | on well-formed dicts the mode transfer changes nothing |
| CorrectionStateManager.CopyStated | src/services/state/correction_state_manager.py:154-166 | the copying loop gives the copied dicts |
| CorrectionStateManager.SerializeAsWritten | src/services/state/correction_state_manager.py:238-262 | raises exactly when some index has differing texts, and otherwise gives an empty serialization |
| CorrectionStateManager.StoredEntryDiffers | src/services/state/correction_state_manager.py:238-262 | every well-formed record with an entry has an index whose texts differ, so serializing it raises |
| CorrectionStateManager.SerializeRaisesOnOneEntry | src/services/state/correction_state_manager.py:3-7 | a one-entry record corrected from `teh` to `the` has differing texts |
| CorrectionStateManager.ToggledStillDiffers | src/services/state/correction_state_manager.py:34-62 | after toggling a stored index there is still an entry whose texts differ |
| CorrectionStateManager.CorrectionStateManager.constructor | src/services/state/correction_state_manager.py:12-32 | empty dicts, with or without an attached history |
| CorrectionStateManager.CorrectionStateManager.TransferCorrectionStates | src/services/state/correction_state_manager.py:146-172 | the dicts become their copy, which on well-formed dicts is what they were |
| CorrectionStateManager.CorrectionStateManager.AddCorrectionState | src/services/state/correction_state_manager.py:175-186 | the entries are the ones with this entry set |
| CorrectionStateManager.CorrectionStateManager.RemoveCorrectionState | src/services/state/correction_state_manager.py:188-197 | the index is removed from all three dicts |
| CorrectionStateManager.CorrectionStateManager.UpdateCorrectionStatesAfterSplit | src/services/state/correction_state_manager.py:208-226 | the entries are the split over all parts |
| CorrectionStateManager.CorrectionStateManager.GetCurrentState | src/services/state/correction_state_manager.py:234-236 | the current state of the index |
| CorrectionStateManager.CorrectionStateManager.SerializeState | src/services/state/correction_state_manager.py:238-262 | the serialization as written: an error exactly when some texts differ |
| CorrectionStateManager.CorrectionStateManager.DeserializeState | src/services/state/correction_state_manager.py:264-296 | the entries are the data restored under the id mapping |
| CorrectionStateManager.CorrectionStateManager.ClearCorrectionStates | src/services/state/correction_state_manager.py:298-302 | no entries remain |
| CorrectionStateManager.CorrectionStateManager.ToggleCorrectionState | src/services/state/correction_state_manager.py:305-334 | the entries are toggled; without an attached history, or for an index with no state, the answer is the toggle's; with one and a stored index, recording the toggle fails exactly when some texts differ |
| LegacyCorrectionStateManager.LegacyCorrectionStateManager.constructor | src/services/correction_state_manager.py:10-18 | empty dicts |
| LegacyCorrectionStateManager.LegacyCorrectionStateManager.ToggleCorrectionState | src/services/correction_state_manager.py:20-44 | the answer and new entries are the toggle's |
| LegacyCorrectionStateManager.LegacyCorrectionStateManager.TransferCorrectionStates | src/services/correction_state_manager.py:127-153 | the dicts become their copy, which on well-formed dicts is what they were |
| LegacyCorrectionStateManager.LegacyCorrectionStateManager.AddCorrectionState | src/services/correction_state_manager.py:156-167 | the entries are the ones with this entry set |
| LegacyCorrectionStateManager.LegacyCorrectionStateManager.RemoveCorrectionState | src/services/correction_state_manager.py:169-178 | the index is removed from all three dicts |
| LegacyCorrectionStateManager.LegacyCorrectionStateManager.UpdateCorrectionStatesAfterSplit | src/services/correction_state_manager.py:188-206 | the entries are the split over all parts |
| LegacyCorrectionStateManager.LegacyCorrectionStateManager.GetCurrentState | src/services/correction_state_manager.py:214-216 | the current state of the index |
| CorrectionHandler.CorrectText | src/gui/alignment/correction_handler.py:36-47 | testing each error against the text corrected so far gives every rule applied in table order |
| CorrectionHandler.CheckTextCorrection | src/gui/alignment/correction_handler.py:49-64 | keeps the input as the original; needs correction exactly when some error occurs in the input, changed or not; the corrected text is the check's |
| CorrectionHandler.NeedsWithoutChange | src/gui/alignment/correction_handler.py:49-64 | the rule `a`→`a` makes this check report a correction that the four-valued check does not |
| CorrectionHandler.FirstMatch | src/gui/alignment/correction_handler.py:112-117 | the first rule in table order whose error occurs in the text, or none exactly when no error occurs |
| CorrectionHandler.FirstMatchIffIcon | src/gui/alignment/correction_handler.py:112-117 | a first match exists exactly when the icon test succeeds |
| CorrectionHandler.OnlyFirstRuleApplied | src/gui/alignment/correction_handler.py:112-117 | with two errors in `ab` only the first is replaced, where the correction check replaces both |
| CorrectionHandler.SubtitleRow | src/gui/alignment/correction_handler.py:120-132 | five values ending with the icon, six with the play icon first exactly in `audio_srt` mode |
| CorrectionHandler.ProcessSubtitleItem | src/gui/alignment/correction_handler.py:84-149 | a non-integer index gives no row and records nothing; otherwise the row shows the text with the first matching rule applied and the check mark when one matched, and only then a `correct` entry is recorded under the index |
| RowLayouts.Columns | src/gui/alignment_gui.py:848-853 | headings exist exactly for the four display modes; any other mode is a KeyError |
| RowLayouts.Width | src/gui/alignment_gui.py:848-853 | five columns, two more with the Word columns and one more with the play column |
| RowLayouts.VxPos | src/gui/alignment_gui.py:848-853 | the V/X column is the last of every layout |
| RowLayouts.TextPos | src/gui/alignment_gui.py:848-853 | every layout has an SRT Text column |
| RowLayouts.BuildValuesForMode | src/gui/alignment/state_handling.py:441-488 | a row exactly as wide as a known layout; an empty row for an unknown mode |
| RowLayouts.FitLength | src/gui/alignment/state_handling.py:377-381 | exactly `n` cells: the row's own where it has them, `''` after |
| RowLayouts.DetectWidth | src/gui/alignment/state_handling.py:352-366 | the length detection recovers the layout of a row of that layout's width |
| RowLayouts.AdjustValuesForMode | src/gui/alignment/state_handling.py:336-383 | the same mode returns the row; otherwise it succeeds exactly for a known target, with the target's width |
| RowLayouts.GenericAdjustment | src/gui/alignment/state_handling.py:490-567 | succeeds exactly for a known target, with its width, the guessed index and V/X cells in place, the play icon first in an audio layout and empty Word cells |
| RowLayouts.BuildExtractRoundTrip | src/gui/alignment/state_handling.py:385-488 | extracting the fields of a row of a layout and rebuilding them in that layout gives the row back |
| RowLayouts.AdjustFromAnyIdentity | src/gui/alignment/state_handling.py:352-383 | adjusting a row of a known layout from `any` to that layout gives it back |
| RowLayouts.AdjustKeepsFields | src/gui/alignment/state_handling.py:336-488 | converting between two known layouts succeeds and keeps every field the target can hold |
| AlignmentGui.TimeToMilliseconds | src/gui/alignment_gui.py:620-623 | the millisecond count of a time with non-negative fields is non-negative |
| AlignmentGui.MillisecondsDecompose | src/gui/alignment_gui.py:620-623 | a time with minutes, seconds and milliseconds in range is recovered field by field from its millisecond count |
| AlignmentGui.ExpectedMode | src/gui/alignment_gui.py:4355-4364 | no mode exactly before an SRT import; otherwise a known layout with the Word columns exactly when a Word file is imported and the play column exactly when audio is |
| AlignmentGui.LayoutOf | src/gui/alignment_gui.py:2783-2822 | a known layout, the mode itself when it is one |
| AlignmentGui.BuildRow | src/gui/alignment_gui.py:2783-2822 | a row of the layout's width, the fields in the order the layout's rebuild uses |
| AlignmentGui.PrepareValuesForMode | src/gui/alignment_gui.py:1390-1429 | the row of the mode with the check mark exactly when a correction is needed; its SRT Text field is the text |
| AlignmentGui.WithText | src/gui/alignment_gui.py:2570-2590 | the updated row keeps its length |
| AlignmentGui.WithTextFields | src/gui/alignment_gui.py:2570-2590 | on a row of its layout's width only the SRT Text and V/X fields change, to the given text and icon |
| AlignmentGui.UpdateTreeItemText | src/gui/alignment_gui.py:2570-2590 | the array holds the updated row |
| AlignmentGui.Marked | src/gui/alignment_gui.py:2592-2598 | the index lists the edit and every other index keeps its list |
| AlignmentGui.MarkedOnce | src/gui/alignment_gui.py:2592-2598 | marking keeps the lists duplicate-free, lists the edit exactly once and keeps the earlier edits |
| AlignmentGui.DistinctCountsOne | src/gui/alignment_gui.py:2592-2598 | a duplicate-free list holds each of its edits exactly once |
| AlignmentGui.MarkedIdempotent | src/gui/alignment_gui.py:2592-2598 | marking twice is marking once |
| AlignmentGui.StartCell | src/gui/alignment_gui.py:4097-4102 | the cell is the layout's Start column |
| AlignmentGui.EndCell | src/gui/alignment_gui.py:4097-4102 | the cell right after Start is the layout's End column |
| AlignmentGui.Aligned | src/gui/alignment_gui.py:4112-4124 | as many rows as before |
| AlignmentGui.AlignedContiguous | src/gui/alignment_gui.py:4112-4124 | every row length, every Start and the last row are kept, and each long-enough row ends where the next starts |
| AlignmentGui.AlignEndTimes | src/gui/alignment_gui.py:4085-4152 | warns exactly when there are no rows; the rows become the aligned ones |
| AlignmentGui.SplitRow | src/gui/alignment_gui.py:2736-2759 | the row of a split part has the tree's width |
| AlignmentGui.SplitMarkedFrame | src/gui/alignment_gui.py:2714-2734 | recording the parts leaves every index that is no part's untouched |
| AlignmentGui.SplitMarkedPart | src/gui/alignment_gui.py:2714-2734 | every part that needs correction ends as an `error` entry under its own index with its text and corrected text |
| AlignmentGui.SplitKeyInjective | src/gui/alignment_gui.py:2716 | distinct parts get distinct indices |
| AlignmentGui.AlignmentGui.constructor | src/gui/alignment_gui.py:848-860 | SRT mode, nothing imported, no edits |
| AlignmentGui.AlignmentGui.UpdateDisplayMode | src/gui/alignment_gui.py:880-1047 | warns and keeps the mode exactly without an SRT import; otherwise the mode becomes the expected one; the import flags and the edit record are kept |
| AlignmentGui.AlignmentGui.CheckDisplayModeConsistency | src/gui/alignment_gui.py:4353-4376 | reports a change exactly when an expected mode exists and differs, and then switches to it |
| AlignmentGui.AlignmentGui.MarkTextEdited | src/gui/alignment_gui.py:2592-2598 | the edit record is the marked one; nothing else changes |
| AlignmentGui.AlignmentGui.InsertSplitItemsAsWritten | src/gui/alignment_gui.py:2691-2781 | the call into the two-argument row builder raises on the first part, so no rows or indices come back and only the first part's correction is recorded |
| AlignmentGui.AlignmentGui.InsertSplitItems | src/gui/alignment_gui.py:2691-2781 | one index and one row per part, in order, the entries those of the recorded parts |
| AlignmentGui.SplitIndicesStep | src/gui/alignment_gui.py:2716-2717 | appending the next part's index keeps the indices `str(srt_index + i)` |
| AlignmentGui.SplitRowsStep | src/gui/alignment_gui.py:2741-2765 | appending the next part's row keeps the rows in part order |
| AlignmentGui.InsertSplitParts | src/gui/alignment_gui.py:2714-2773 | the loop gives the indices, the rows and the recorded entries of all parts |
| AlignmentGui.InsertSplitPart | src/gui/alignment_gui.py:2714-2773 | one turn records part `i` and builds its row and index |
| AlignmentGui.AsWrittenLosesLaterParts | src/gui/alignment_gui.py:4716 | a later part that needs correction is recorded by the intended insertion and not by the written one |
| WordProcessor.Coherent | src/services/word_processor.py:193-207 | the comparison list has one entry per paragraph, the comparison form of the text that position shows (kept by the edit and split rows below) |
| WordProcessor.MoveMark | src/services/word_processor.py:291-296 | one move: a mark present at an old position goes to the position `offset` further on and leaves the old one; a move by 0 deletes it; no other position changes |
| WordProcessor.SplitMarksAsWritten | src/services/word_processor.py:264-296 | the marks the written split leaves; marks before the split paragraph are kept |
| WordProcessor.ParagraphText | src/services/word_processor.py:209-221 | the edited text when there is one, else the paragraph when the index is in range, else `""` |
| WordProcessor.Splice | src/services/word_processor.py:259-275 | replacing one paragraph by the parts changes the length by `|texts| - 1` |
| WordProcessor.SpliceAt | src/services/word_processor.py:259-275 | positions before the split keep their paragraph, the next `|texts|` hold the parts in order, and later ones hold the paragraph `|texts| - 1` earlier |
| WordProcessor.Shifted | src/services/word_processor.py:264-296 | marks before the split stay, the first part takes the split paragraph's mark as its own text, other parts are unmarked, later marks move by `|texts| - 1` |
| WordProcessor.ShiftedCoherent | src/services/word_processor.py:230-302 | splitting as intended keeps every position's comparison form equal to the normalized text it shows |
| WordProcessor.MoveMarkStep | src/services/word_processor.py:285-296 | one turn of the written loop over the old positions, from the top down, moves that position's mark |
| WordProcessor.MovedFromShifts | src/services/word_processor.py:285-296 | with a positive offset the written loop moves every mark above the split by the offset |
| WordProcessor.AsWrittenShiftsFromTwoParts | src/services/word_processor.py:282-296 | with two or more parts the written loop moves the marks as intended |
| WordProcessor.MovedFromDeletes | src/services/word_processor.py:285-296 | with offset 0 the written loop deletes exactly the marks the range had when the split began and adds or rewrites none |
| WordProcessor.AsWrittenDropsAllWithOnePart | src/services/word_processor.py:282-296 | for every mark table, with a single part every mark after the split paragraph is deleted and every other position is as the first part leaves it |
| WordProcessor.AsWrittenDropsWithOnePart | src/services/word_processor.py:282-296 | with a single part a later mark is deleted where it should stay |
| WordProcessor.AsWrittenCascadesWithNoParts | src/services/word_processor.py:282-296 | with no parts the moves, walking down from the top, carry the highest mark down over the others and a mark is lost |
| WordProcessor.PreprocessOne | src/services/word_processor.py:131-137 | no line of the result has a line break, and a paragraph without one is kept whole |
| WordProcessor.NonBlankLines | src/services/word_processor.py:134 | the stripped lines that are not blank, never more than there were |
| WordProcessor.StripKeeps | src/services/word_processor.py:134 | stripping adds no character |
| WordProcessor.Preprocessed | src/services/word_processor.py:127-142 | no resulting paragraph has a line break |
| WordProcessor.PreprocessedKeeps | src/services/word_processor.py:127-142 | paragraphs without line breaks are kept as they are |
| WordProcessor.PreprocessIdempotent | src/services/word_processor.py:127-142 | preprocessing twice is preprocessing once |
| WordProcessor.PreprocessedStep | src/services/word_processor.py:131-137 | the loop extends the result by each paragraph's lines in turn |
| WordProcessor.CompareAt | src/services/word_processor.py:84-123 | entry `i` uses Word paragraph `i`, or -1 beyond the paragraphs; it matches exactly when the paragraph exists and the similarity of the comparison forms exceeds 0.7 |
| WordProcessor.MoveLaterMarks | src/services/word_processor.py:285-296 | the written loop's result |
| WordProcessor.InsertParts | src/services/word_processor.py:269-279 | the insertion loop gives the spliced lists and hands the mark to the first part |
| WordProcessor.WordProcessor.constructor | src/services/word_processor.py:13-21 | no text, paragraphs or marks |
| WordProcessor.WordProcessor.GetParagraphText | src/services/word_processor.py:209-221 | the shown text of the index |
| WordProcessor.WordProcessor.EditParagraph | src/services/word_processor.py:193-207 | true exactly for an index in range, which then shows the new text with its comparison form updated; otherwise nothing changes; coherence is kept |
| WordProcessor.WordProcessor.SplitParagraphAsWritten | src/services/word_processor.py:230-306 | an index out of range changes nothing and gives `[]`; otherwise the parts replace the paragraph in both lists, the marks are moved by the written loop, the new indices are `index + i` and the text is rejoined |
| WordProcessor.WordProcessor.SpliceParts | src/services/word_processor.py:259-279 | the parts replace the paragraph in both lists and the first part inherits the mark |
| WordProcessor.WordProcessor.SplitParagraph | src/services/word_processor.py:230-306 | as written, but with the marks shifted as intended, so coherence is kept |
| WordProcessor.WordProcessor.PreprocessParagraphs | src/services/word_processor.py:127-142 | the paragraphs are preprocessed and the comparison list rebuilt from them |
| WordProcessor.WordProcessor.CompareWithSrt | src/services/word_processor.py:72-125 | `{}` without paragraphs; otherwise exactly one entry per SRT text, entry `i` as compared at `i` |
| Segmentation.ValidLines | src/services/text_processing/segmentation_service.py:31 | the stripped non-blank lines, never more than there were |
| Segmentation.CharCount | src/services/text_processing/segmentation_service.py:41-45 | at least one and at least the summed stripped lengths |
| Segmentation.TruncDiv | src/services/text_processing/segmentation_service.py:62-63 | the truncated quotient has the dividend's sign: non-negative for a non-negative dividend, non-positive for a non-positive one |
| Segmentation.Elapsed | src/services/text_processing/segmentation_service.py:62-64 | the running time before line `i`: the summed shares of the earlier lines (stated by the two `Elapsed` lemmas below) |
| Segmentation.SegmentAt | src/services/text_processing/segmentation_service.py:57-74 | segment `k` holds line `k`, and the last segment ends at the end time |
| Segmentation.TimeSegments | src/services/text_processing/segmentation_service.py:18-76 | one segment per non-blank line |
| Segmentation.TruncDivBounds | src/services/text_processing/segmentation_service.py:62-63 | `int()` of a quotient truncates toward zero: the remainder is below the divisor on the quotient's side of zero |
| Segmentation.ShareBounds | src/services/text_processing/segmentation_service.py:62-63 | a line's share of a non-negative span is non-negative and at most its proportion of the span |
| Segmentation.GenerateTimeSegments | src/services/text_processing/segmentation_service.py:18-76 | the loop gives the segments of the specification |
| Segmentation.SegmentsTexts | src/services/text_processing/segmentation_service.py:31-52 | one segment per non-blank line, in order, holding that stripped line |
| Segmentation.AllBlankNoSegments | src/services/text_processing/segmentation_service.py:31-33 | only blank lines give no segments |
| Segmentation.SegmentsEnds | src/services/text_processing/segmentation_service.py:49-59 | the first segment starts at the start time and the last ends at the end time |
| Segmentation.SegmentsContiguous | src/services/text_processing/segmentation_service.py:57-74 | each segment but the last ends where the next starts and lasts its line's share of the span |
| Segmentation.SegmentStep | src/services/text_processing/segmentation_service.py:60-74 | one step of the running time |
| Segmentation.ElapsedBound | src/services/text_processing/segmentation_service.py:62-64 | the time used so far is non-negative and at most the lines' proportion of the span |
| Segmentation.ElapsedMonotone | src/services/text_processing/segmentation_service.py:62-64 | the running time never goes back |
| Segmentation.ElapsedWithinSpan | src/services/text_processing/segmentation_service.py:62-64 | the running time stays within the span |
| Segmentation.TotalCharsPrefix | src/services/text_processing/segmentation_service.py:41 | the characters of a prefix of the lines are at most all characters |
| Segmentation.SegmentsWithinSpan | src/services/text_processing/segmentation_service.py:49-74 | for an ordered span every segment is ordered and inside it |
| Segmentation.ProcessSplitResult | src/services/text_processing/segmentation_service.py:78-103 | one record per part, in order, part `i` numbered `original + i` with its text and times |
| Segmentation.ValidateTimeRange | src/services/text_processing/segmentation_service.py:105-128 | valid exactly when both strings are non-empty, both parse and the end comes after the start; the message is empty exactly when valid, and an empty string gives the emptiness message |
| Strings.Replace | src/utils/text_utils.py:62 | `str.replace`: the text keeps its length when the replacement has the pattern's length, and shrinks or grows with a shorter or longer one |
| Strings.ReplaceAbsent | src/utils/text_utils.py:62 | replacing a pattern that does not occur leaves the text unchanged |
| Strings.ReplaceIdentity | src/utils/text_utils.py:62 | replacing a pattern by itself leaves the text unchanged |
| Strings.ReplaceChangedImpliesContains | src/utils/text_utils.py:62 | a replacement that changes the text had an occurrence to replace |
| Strings.Strip | src/services/word_processor.py:134 | `str.strip`: never longer, neither end is whitespace, and empty exactly when every character is whitespace |
| Strings.JoinSplit | src/services/update/version_checker.py:150 | joining the pieces of `split` with the same separator gives the text back |
| Strings.ParseInt | src/services/update/version_checker.py:151 | `int(s)`: surrounding whitespace ignored, an optional sign and ASCII digits (round trip stated by `ParseIntToString`) |
| Strings.ParseIntToString | src/services/update/version_checker.py:151 | `int(str(i)) == i` for every integer |
| Versions.StripV | src/services/update/version_checker.py:114-115 | exactly a leading `v` or `V` is removed, and only that one character; any other text is unchanged |
| Versions.PartValue | src/services/update/version_checker.py:150-156 | `int(part)`, or the number its digits form, or 0 (stated by `PartValueOfNat` and the examples below) |
| Versions.VersionParts | src/services/update/version_checker.py:136-164 | a prerelease's parts end with the extra 0 |
| Versions.PartsOrder | src/services/update/version_checker.py:121-134 | a three-way sign that is 0 exactly when the lists agree once padded to the longer length |
| Versions.VersionOrder | src/services/update/version_checker.py:106-134 | a three-way sign, 0 whenever the two versions parse to the same parts |
| Versions.DigitVersionOrder | src/services/update/update_manager.py:166-194 | a three-way sign, 0 whenever the all-digit pieces of the two versions agree |
| Versions.StripVAppend | src/services/update/version_checker.py:114-115 | removing the leading `v` commutes with appending text that cannot become one |
| Versions.SplitFirst | src/services/update/version_checker.py:143-144 | `split('-', 1)`: the text before the first separator, which holds none, and the rest after it |
| Versions.SplitFirstAt | src/services/update/version_checker.py:143-144 | splitting at the first separator recovers the two sides |
| Versions.PartValueOfNat | src/services/update/version_checker.py:150-152 | a part written in decimal digits has its value |
| Versions.PartValues | src/services/update/version_checker.py:150-156 | one value per part, in order |
| Versions.ParseVersionParts | src/services/update/version_checker.py:136-164 | the loop gives the release numbers, with one trailing 0 for a prerelease |
| Versions.PrereleaseAppendsZero | src/services/update/version_checker.py:143-161 | a suffix after `-` appends a single 0 to the release's numbers |
| Versions.Pad | src/services/update/version_checker.py:121-125 | the list extended with zeros to the longer length, its own elements first |
| Versions.LexSign | src/services/update/version_checker.py:128-134 | a three-way sign that is 0 exactly on equal lists |
| Versions.LexSignSwap | src/services/update/version_checker.py:128-134 | swapping the lists negates the sign |
| Versions.PartsOrderSwap | src/services/update/version_checker.py:121-134 | swapping the versions negates the padded comparison |
| Versions.PartsOrderTrailingZero | src/services/update/version_checker.py:121-125 | a trailing 0 does not change the comparison |
| Versions.CompareParts | src/services/update/version_checker.py:121-134 | the padding and comparison loops give the padded comparison |
| Versions.PadWithZeros | src/services/update/version_checker.py:121-124 | the loop appending zeros gives the list padded to the other list's length |
| Versions.CompareVersions | src/services/update/version_checker.py:106-134 | the loops give the checker's version order |
| Versions.VersionOrderSign | src/services/update/version_checker.py:106-134 | the comparison is a three-way sign, reflexive and antisymmetric |
| Versions.ZeroPartEqual | src/services/update/version_checker.py:121-125 | a version equals itself with `.0` appended |
| Versions.SplitAppendLast | src/services/update/version_checker.py:150 | splitting a text with a final `.0` appended gives its pieces followed by `0` |
| Versions.PrereleaseEqualsRelease | src/services/update/version_checker.py:143-162 | as written, a prerelease compares equal to its release |
| Versions.IsUpdateAvailable | src/services/update/version_checker.py:166-173 | an update exactly when the latest version is ordered after the current one |
| Versions.NoUpdateFromPrerelease | src/services/update/version_checker.py:166-173 | a user of a prerelease is never offered its release |
| Versions.IntendedOrder | src/services/update/version_checker.py:136-162 | a three-way sign |
| Versions.IntendedOrderSign | src/services/update/version_checker.py:136-162 | the intended order is reflexive and antisymmetric |
| Versions.IntendedAgreesOnReleases | src/services/update/version_checker.py:106-134 | between releases the intended order is the written one |
| Versions.IntendedPrereleaseFirst | src/services/update/version_checker.py:159-162 | a prerelease comes before its release |
| Versions.DigitParts | src/services/update/update_manager.py:178-179 | only the all-digit pieces count, so never more values than pieces |
| Versions.CompareDigitVersions | src/services/update/update_manager.py:166-194 | the loops give the update manager's order |
| Versions.DigitVersionOrderSign | src/services/update/update_manager.py:166-194 | also a reflexive, antisymmetric three-way sign |
| Versions.SplitExamples | src/services/update/update_manager.py:178 | `1.x.3` splits into three pieces and `1.3` into two |
| Versions.PieceValueExamples | src/services/update/version_checker.py:150-156 | `1` and `3` have their values, `x` gives 0 and is not all digits |
| Versions.NonNumberPart | src/services/update/version_checker.py:150-156 | `x` is not a number and has no digits, so it counts as 0 |
| Versions.PartValuesAppend | src/services/update/version_checker.py:150-156 | the values of two runs of parts are the values of each run, in order |
| Versions.PartValuesExample | src/services/update/version_checker.py:150-156 | the pieces `1`, `x`, `3` give `[1, 0, 3]` and `1`, `3` give `[1, 3]` |
| Versions.CheckerPartsExample | src/services/update/version_checker.py:150-156 | the checker reads `1.x.3` as `[1, 0, 3]` and `1.3` as `[1, 3]` |
| Versions.DigitPartsExample | src/services/update/update_manager.py:178-179 | the update manager reads both `1.x.3` and `1.3` as `[1, 3]` |
| Versions.NonDigitPieceDropped | src/services/update/update_manager.py:178-179 | so the two comparisons disagree on `1.x.3` against `1.3`: equal for the manager, older for the checker |
| Versions.PaddedExample | src/services/update/version_checker.py:121-134 | `[1, 0, 3]` is before `[1, 3]` once padded |
| Versions.DetectOsFromFilename | src/services/update/version_checker.py:73-104 | each flag is set exactly when one of its substrings occurs in the lower-cased name |
| Versions.ContainsPrefix | src/services/update/version_checker.py:89-94 | a name containing `windows` or `macos` contains the shorter test, so those tests add nothing |
| Versions.LowerIdentity | src/services/update/version_checker.py:86 | a name without capitals is its own lower-case form |
| Versions.DarwinReadsAsWindows | src/services/update/version_checker.py:89-94 | `darwin` is read as Windows as well as macOS |
| Versions.InstallReadsAsUniversal | src/services/update/version_checker.py:101-102 | `install` is read as universal |
| Versions.IsSuitableAsset | src/services/update/update_manager.py:146-164 | suitable exactly for a Windows `.exe`, a macOS `.dmg` or `.zip`, a Linux `.tar.gz`, or any universal zip |
| Versions.NoUpperAfterLower | src/services/update/update_manager.py:157 | a lower-cased name never contains `.AppImage` |
| Versions.IntendedSuitableAsset | src/services/update/update_manager.py:146-164 | suitable exactly when the written test says so or, on Linux, the lower-cased name contains `.appimage` |
| Versions.AbsentChar | src/services/update/update_manager.py:153-161 | a name lacking one of a pattern's characters does not contain the pattern |
| Versions.AppImageSuitsOnlyIntended | src/services/update/update_manager.py:157 | an AppImage name that is neither a tarball nor a zip is refused on Linux as written, and accepted by the intended test |
| Config.Has | src/services/config_manager.py:132 | on a dict, whether the key is one of its keys |
| Config.SetItem | src/services/config_manager.py:133 | succeeds exactly on a dict, which then maps the key to the value |
| Config.ToMap | src/services/config_manager.py:71-118 | the dict of the default items has exactly their keys |
| Config.ExtendsHas | src/services/config_manager.py:129-134 | a grown value keeps every key that was present |
| Config.ExtendsTransitive | src/services/config_manager.py:125-134 | growing twice is growing |
| Config.Filled | src/services/config_manager.py:131-134 | a section that is not a dict is kept as it is when filling succeeds |
| Config.FilledSpec | src/services/config_manager.py:131-134 | filling a section never overwrites a value, and afterwards every default key is in it |
| Config.FilledShape | src/services/config_manager.py:131-134 | a dict section is always filled and stays a dict; another value is kept or raises |
| Config.Ensure | src/services/config_manager.py:120-134 | ensuring the sections keeps every section that was present |
| Config.EnsureSpec | src/services/config_manager.py:120-134 | when the loop completes every default section is present, every key of a dict default is in its section, only default sections are added and no existing value is overwritten |
| Config.EnsureSectionSpec | src/services/config_manager.py:125-134 | one step adds only its section and grows what was there |
| Config.KeysHas | src/services/config_manager.py:71-118 | every item's key is a key of the default dict |
| Config.ConfigManager.Loaded | src/services/config_manager.py:12-31 | the loaded document is the configuration |
| Config.ConfigManager.Create | src/services/config_manager.py:12-31 | a manager exactly when ensuring the sections completes, and then its configuration is the ensured one |
| Config.ConfigManager.EnsureConfigSections | src/services/config_manager.py:120-134 | the configuration and the completion flag of the loop over the defaults |
| Config.ConfigManager.EnsureSections | src/services/config_manager.py:125-134 | the loop gives the ensured configuration |
| Config.ConfigManager.GetSection | src/services/config_manager.py:143-159 | a present section as it is; a missing default section is inserted from the defaults; any other name gives `{}` and changes nothing |
| Config.ConfigManager.GetOption | src/services/config_manager.py:236-245 | the option of the section `get_section` gives, or the default; a missing default section is first inserted from the defaults, like `get_section` does; a section that is not a dict raises |
| Config.ConfigManager.SetOption | src/services/config_manager.py:217-234 | a missing section is created holding only the option, a dict section gets the option set, another value is kept and gives false; success is the save's |
| Config.ConfigManager.SetSection | src/services/config_manager.py:203-215 | the section is replaced; success is the save's |
| Config.ConfigManager.AddRecent | src/services/config_manager.py:254-276 | a list under the key becomes the updated recent list; any other value leaves the configuration and fails |
| Config.ConfigManager.AddRecentProject | src/services/config_manager.py:247-276 | the same on `recent_projects` |
| Config.ConfigManager.AddRecentFile | src/services/config_manager.py:278-307 | the same on `recent_files` |
| Config.DefaultOf | src/services/config_manager.py:71-118 | a default exactly for the names of the default sections, and the one listed with the name |
| Config.Lookup | src/services/config_manager.py:154-156 | an entry exactly for a listed name, and the one listed with it |
| Config.RemoveFirst | src/services/config_manager.py:259-260 | an absent path leaves the list; a present one shortens it by one |
| Config.RemoveFirstMultiset | src/services/config_manager.py:259-260 | exactly one occurrence of the path goes |
| Config.SliceTo | src/services/config_manager.py:266-267 | Python's `s[:n]`, a negative `n` counting from the end |
| Config.Recent | src/services/config_manager.py:259-267 | at most one entry more than before, and the new path first whenever the bound admits one |
| Config.RecentSpec | src/services/config_manager.py:259-267 | the newest path first, at most `max_size` entries and one more than before at most, the rest in order with the earlier occurrence removed |
| Config.RecentNoDuplicate | src/services/config_manager.py:259-267 | a path listed at most once is listed once afterwards |
| Config.FillKeys | src/services/config_manager.py:131-134 | the inner loop fills the section as specified, failing exactly where that raises |
| Columns.WeightsNonNegative | src/gui/components/columns.py:10-19 | every configured width and weight is non-negative |
| Columns.FixedWidth | src/gui/components/columns.py:47 | the summed width of the fixed columns is non-negative |
| Columns.Share | src/gui/components/columns.py:61 | a non-negative width shared by a non-negative weight gives a non-negative share |
| Columns.TotalWeight | src/gui/components/columns.py:50 | the summed weight of the stretch columns is non-negative |
| Columns.Stretchable | src/gui/components/columns.py:53 | the space left after the fixed columns, never negative |
| Columns.ColumnWidth | src/gui/components/columns.py:55-66 | a fixed column, or any column when no weight is requested, keeps its width; a stretch column gets the larger of its width and its proportional share |
| Columns.CalculateColumnWidths | src/gui/components/columns.py:37-68 | a KeyError exactly when some column is not in the table; otherwise exactly the requested columns, each with its width |
| Columns.WidthsAtLeastConfigured | src/gui/components/columns.py:55-66 | every column gets at least its configured width, a fixed one exactly that, a stretch one at least its share |
| Columns.ShareTimesDivisor | src/gui/components/columns.py:60 | a floored share times the total weight is at most the stretchable width times the weight |
| Columns.ShareSumScaled | src/gui/components/columns.py:55-66 | the summed shares times the total weight stay within the stretchable width times that weight |
| Columns.SharesFit | src/gui/components/columns.py:55-66 | the proportional shares together never exceed the stretchable width |
| Columns.ColumnsExample | src/gui/components/columns.py:37-68 | on a 600-pixel tree `Index` keeps 50 and `SRT Text` and `Match` share the remaining 550 as 330 and 220 |
| AudioRangeManager.ValidateTimeRange | src/audio/audio_range_manager.py:127-144 | the start is inside the audio, the end at least the minimum width after it, an in-range start is kept and an end within the audio is never cut |
| AudioRangeManager.ValidateSymmetric | src/audio/audio_range_manager.py:134-136 | the order of the bounds does not matter |
| AudioRangeManager.ValidateKeepsValid | src/audio/audio_range_manager.py:127-144 | a range inside the audio and wide enough is kept |
| AudioRangeManager.ValidateIdempotent | src/audio/audio_range_manager.py:127-144 | validating twice is validating once |
| AudioRangeManager.ViewWidth | src/audio/audio_range_manager.py:146-171 | at least the minimum view and twice the duration, and either the minimum or the duration times its multiplier |
| AudioRangeManager.ViewWidthExamples | src/audio/audio_range_manager.py:157-171 | the multipliers step down as the selection grows |
| AudioRangeManager.OptimalViewRange | src/audio/audio_range_manager.py:35-90 | the view starts inside the audio, holds the validated selection and ends inside the audio when the selection does |
| AudioRangeManager.OptimalOfValidated | src/audio/audio_range_manager.py:47 | validating the selection first does not change the view |
| AudioRangeManager.SlideSelection | src/audio/audio_range_manager.py:108-119 | the fixed bound is clamped to the audio and the moved one stays at least the minimum width away on its side |
| AudioRangeManager.SlideStartKept | src/audio/audio_range_manager.py:108-119 | moving the start to a time leaving the minimum width keeps it where it was put |
| AudioRangeManager.SlideEndKept | src/audio/audio_range_manager.py:108-119 | moving the end to a time leaving the minimum width keeps it where it was put |
| AudioRangeManager.AudioRangeManager.constructor | src/audio/audio_range_manager.py:16-33 | the duration raised to one millisecond, the first five seconds selected and the first ten in view |
| AudioRangeManager.AudioRangeManager.GetOptimalViewRange | src/audio/audio_range_manager.py:35-90 | caches the validated selection and the view, which starts inside the audio and holds the selection |
| AudioRangeManager.AudioRangeManager.CalculateViewRangeOnSlide | src/audio/audio_range_manager.py:92-125 | the view of the selection the slider move makes, cached |
| AudioRangeManager.AudioRangeManager.CalculateOptimalZoom | src/audio/audio_range_manager.py:174-185 | the view of the range, as the optimal view gives it |
| TimeRangeHandler.Pair | src/audio/time_range_handler.py:14-64 | a pair of numbers is a well-formed argument |
| TimeRangeHandler.Widen | src/audio/time_range_handler.py:52-62 | a range at least the minimum long is kept |
| TimeRangeHandler.ValidateRange | src/audio/time_range_handler.py:14-64 | a malformed argument gives `(0, min_range)`; a well-formed one an ordered range inside the audio, at least the minimum long whenever the audio is |
| TimeRangeHandler.ValidateSymmetric | src/audio/time_range_handler.py:43-45 | the order of the bounds does not matter |
| TimeRangeHandler.ValidateKeepsValid | src/audio/time_range_handler.py:14-64 | a range inside the audio and at least the minimum long is kept |
| TimeRangeHandler.ValidateIdempotent | src/audio/time_range_handler.py:14-64 | validating a repaired range again changes nothing |
| TimeRangeHandler.ContextWidth | src/audio/time_range_handler.py:86-90 | the larger of the scaled duration and the minimum view width |
| TimeRangeHandler.ContextView | src/audio/time_range_handler.py:93-113 | the view holds the selection and stays inside the audio when the selection does |
| TimeRangeHandler.CreateViewRange | src/audio/time_range_handler.py:66-116 | an ordered view inside the audio, at least a tenth of the minimum view width whenever the audio is |
| TimeRangeHandler.ContextViewWide | src/audio/time_range_handler.py:86-113 | the view keeps its starting width, or is the whole audio |
| TimeRangeHandler.CreateViewHoldsSelection | src/audio/time_range_handler.py:66-116 | the final validation never cuts into the selection |
| VisualizationRangeManager.ViewWidth | src/audio/visualization_range_manager.py:106-122 | at least two seconds and, for a real span, twice it; four, three or two times the span by its length |
| VisualizationRangeManager.InitialViewRange | src/audio/visualization_range_manager.py:16-43 | the view lies in the audio and holds the span wherever the span does |
| VisualizationRangeManager.InitialViewCentred | src/audio/visualization_range_manager.py:27-33 | a span well inside the audio is shown centred in a view of the computed width |
| VisualizationRangeManager.SlideSpan | src/audio/visualization_range_manager.py:62-67 | the dragged time is the start or the end of the span |
| VisualizationRangeManager.SlideWidth | src/audio/visualization_range_manager.py:70-81 | narrower by a fifth (at least one second) for a shorter span, wider by a fifth (at most the audio) for a longer one, unchanged otherwise |
| VisualizationRangeManager.RatioAgainstOne | src/audio/visualization_range_manager.py:73-81 | the ratio is below or above one exactly when the duration is below or above the divisor |
| VisualizationRangeManager.SlideView | src/audio/visualization_range_manager.py:84-99 | the view starts inside the audio and shows the span's end |
| VisualizationRangeManager.LongSpanHidesStart | src/audio/visualization_range_manager.py:94-99 | a span wider than the view loses its dragged start: the view after a three-second drag is one second long |
| VisualizationRangeManager.VisualizationRangeManager.constructor | src/audio/visualization_range_manager.py:10-14 | no span yet and the whole audio in view |
| VisualizationRangeManager.VisualizationRangeManager.CalculateInitialViewRange | src/audio/visualization_range_manager.py:16-43 | the view lies in the audio |
| VisualizationRangeManager.VisualizationRangeManager.CalculateViewRangeOnSlide | src/audio/visualization_range_manager.py:45-104 | the view of the dragged span at the adjusted width, remembered with the span's duration; it starts inside the audio and shows the span's end |

## Left out

- File I/O: the CSV `load_corrections`/`save_corrections`, `import_corrections`/`export_corrections`, `ConfigManager._load_config`/`_save_config`, and reading the Word document (`load_document`, `extract_text`). The loaded configuration is a constructor argument. Each save's outcome is a `saved` argument. The rule table reloaded from disk when it is empty is the table the caller passes.
- The Tk tree, windows, dialogs, sliders and message boxes; logging; deep copies (Dafny values are immutable). Rows of the tree are sequences of strings.
- The callees of callbacks (`on_undo`, `on_state_change`, `on_correction_change`). `BaseState.BaseStateManager.TriggerCallback` returns which handler was called and whether it raised; nothing is called.
- `handle_icon_click` and `_save_toggle_operation` of `src/services/state/correction_state_manager.py`: they edit tree rows and record into the attached enhanced history, an external object. `toggle_correction_state` is modelled without that recording.
- `ColumnConfig.configure_column`: it only passes widths to the Tk tree.
- The `WaveformVisualization` class of `src/audio/audio_range_manager.py`: waveform drawing, which calls helpers the file does not define.
- `AudioRangeManager.MaxViewWidth`: the constant is configured by the source, but no computation reads it.
- `AudioRangeManager.AudioRangeManager.GetOptimalViewRange`: the `except` fallback is not modelled, because no typed input raises.
- Floating point: the range managers, segmentation and the undo time stamps use exact `real` or `int` milliseconds. Rounding is not modelled.
- `time.time()`: the current time is a parameter (`now`).
- `platform.system()`: the platform name is a parameter.
- The network part of the update manager (`check_latest_version`, `_parse_assets`, downloads).
- Library helpers are function parameters with no properties assumed:
  - `parse_time`/`format_time` (pysrt); `GenerateTimeSegments` takes the start and end times already parsed, so the `ValueError` raised for a malformed time string (src/services/text_processing/segmentation_service.py:35-36) is not modelled;
  - `simplify_to_traditional` (opencc; the converted text is the input);
  - `_remove_punctuation_and_spaces` (a regex);
  - the difflib similarity and difference details of `compare_with_srt` and `_check_text_match`.
- Strings are sequences of `char`: `lower` and `isdigit` are ASCII only, and there is no Unicode case folding. `strip` removes the characters for which `str.isspace()` holds.
- AlignmentGui.AlignmentGui.UpdateDisplayMode: does not model the rebuild that follows a mode change (src/gui/alignment_gui.py:908-1047). There the correction service's three dicts and `use_word_text` are cleared, and an entry is restored only when its index appears in a tree row, under that row's index in the new layout. The tree rows and `use_word_text` are not part of this model, so the model keeps the correction service unchanged.
- TreeState.OperationOrDefault: the model keeps only the three keys the manager reads, so a non-empty operation dict holding only other keys counts as `{}` and gets the unknown-operation default, where `operation_info or {...}` (src/services/state_manager.py:50) keeps it.
- EnhancedState.EnhancedStateManager.Redo: a callback entry is either callable or not, so a non-callable entry that is false (such as `0`) counts like any other non-callable one and redo answers false. The source's `if self.callbacks['on_redo']:` (src/services/enhanced_state_manager.py:324) skips such an entry and answers true.
- Strings.ParseInt: `int()` accepts surrounding whitespace and a sign, but not underscores between digits or non-ASCII decimal digits; those texts fail in the model.
- Python's `float()` on a value of the loose range argument of `TimeRangeHandler.ValidateRange` is a datatype case: a number, or `NotNumber` for a value it rejects.
- A configuration file whose top level is not a JSON object is not modelled.
- The visiting order of `dict` and `set` iteration in the correction services is left open. Properties are stated for every order, and the transfer mapping is a sequence of pairs in insertion order.
- The rest of the repository (database, authentication, payment, audio playback, file management, split and combine services working on the tree) is not part of this model.

## Findings

| source | as written | input that shows it | evidently intended | confidence | as-written member | corrected member |
|---|---|---|---|---|---|---|
| src/gui/alignment_gui.py:2691-2781 | `_insert_split_items` calls the seven-argument `_build_values_for_mode`, but the two-argument definition at line 4716 shadows it, so the call raises `TypeError`, which is caught, and the method returns `([], [])` | any split into one or more parts | every part is inserted as a row and its index returned | high, not executed | AlignmentGui.AlignmentGui.InsertSplitItemsAsWritten, AlignmentGui.AsWrittenLosesLaterParts | AlignmentGui.AlignmentGui.InsertSplitItems |
| src/services/state/correction_state_manager.py:238-262 | `serialize_state` calls `time.time()`, but the module never imports `time` (lines 3-7), so it raises `NameError` | one entry whose original and corrected texts differ | the differing entries serialized with a time stamp | high, not executed | CorrectionStateManager.SerializeAsWritten, CorrectionStateManager.SerializeRaisesOnOneEntry | CorrectionEntries.SerializeDiffering, CorrectionEntries.RoundTripDiffering |
| src/services/update/version_checker.py:143-162 | a `-prerelease` suffix appends a single 0 part, which padding makes equal to the release | `"1.0.0-beta"` against `"1.0.0"` compares 0 | a prerelease orders before its release, as the comment at lines 160-161 says | high, not executed | Versions.PrereleaseEqualsRelease, Versions.NoUpdateFromPrerelease | Versions.IntendedOrder, Versions.IntendedPrereleaseFirst |
| src/services/word_processor.py:282-296 | edited marks after the split paragraph are moved by `len(texts) - 1` in a loop that deletes the old key after writing the new one, so a move by 0 deletes the mark, and a move by -1 cascades | `split_paragraph(0, ["a"])` with a mark at paragraph 1 | marks after the split shift by `len(texts) - 1` and survive | high, not executed | WordProcessor.WordProcessor.SplitParagraphAsWritten, WordProcessor.AsWrittenDropsAllWithOnePart, WordProcessor.AsWrittenDropsWithOnePart, WordProcessor.AsWrittenCascadesWithNoParts | WordProcessor.WordProcessor.SplitParagraph, WordProcessor.ShiftedCoherent |
| src/services/update/update_manager.py:157 | `'.AppImage' in asset_name.lower()` tests for an upper-case pattern in a lower-cased name, so it never holds | `"x.AppImage"` on linux | AppImage assets are suitable on linux | high, not executed | Versions.IsSuitableAsset, Versions.NoUpperAfterLower, Versions.AppImageSuitsOnlyIntended | Versions.IntendedSuitableAsset, Versions.AppImageSuitsOnlyIntended |
