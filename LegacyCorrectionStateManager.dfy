/** The older correction state manager of the services package: the same
    three dicts, with toggle, add, remove, split update, icon choice and a
    mode transfer, and no serialization. */
module LegacyCorrectionStateManager {
  import opened Strings
  import opened RuleEngine
  import opened CorrectionEntries
  import opened CorrectionStateManager

  class LegacyCorrectionStateManager {
    var correctionStates: map<string, string>
    var originalTexts: map<string, string>
    var correctedTexts: map<string, string>

    function Record(): Entries
      reads this
    {
      Entries(correctionStates, originalTexts, correctedTexts)
    }

    predicate Valid()
      reads this
    {
      WellFormed(Record())
    }

    constructor()
      ensures Valid() && Record() == NoEntries()
    {
      correctionStates := map[];
      originalTexts := map[];
      correctedTexts := map[];
    }

    /** `toggle_correction_state(index)`. */
    method ToggleCorrectionState(index: string) returns (result: string)
      modifies this
      ensures old(Valid()) ==> Valid()
      ensures Toggled(Record(), result) == Toggle(old(Record()), index)
    {
      if Valid() {
        ToggleSpec(Record(), index);
      }
      if index in correctionStates {
        result := Flip(correctionStates[index]);
        correctionStates := correctionStates[index := result];
      } else if index in originalTexts && index in correctedTexts {
        correctionStates := correctionStates[index := "correct"];
        result := "correct";
      } else {
        result := "";
      }
    }

    /** `transfer_correction_states(old_mode, new_mode)`. */
    method TransferCorrectionStates(oldMode: string, newMode: string)
      modifies this
      ensures old(Valid()) ==> Valid() && Record() == old(Record())
      ensures Record() == Copied(old(Record()))
    {
      if Valid() {
        CopiedIsIdentity(Record());
      }
      var r := CopyStated(Record());
      correctionStates, originalTexts, correctedTexts := r.states, r.originals, r.correcteds;
    }

    /** `add_correction_state(index, original, corrected, state)`. */
    method AddCorrectionState(index: string, original: string, corrected: string, state: string)
      requires Valid()
      modifies this
      ensures Valid() && Record() == SetEntry(old(Record()), index, original, corrected, state)
    {
      if original != corrected {
        correctionStates := correctionStates[index := state];
        originalTexts := originalTexts[index := original];
        correctedTexts := correctedTexts[index := corrected];
      } else {
        RemoveCorrectionState(index);
      }
    }

    /** `remove_correction_state(index)`. */
    method RemoveCorrectionState(index: string)
      requires Valid()
      modifies this
      ensures Valid() && Record() == RemoveEntry(old(Record()), index)
    {
      correctionStates := correctionStates - {index};
      originalTexts := originalTexts - {index};
      correctedTexts := correctedTexts - {index};
    }

    /** `update_correction_states_after_split(original, texts, corrections)`. */
    method UpdateCorrectionStatesAfterSplit(originalIndex: string, newTexts: seq<string>, rules: Rules)
      requires Valid() && KeysNonEmpty(rules)
      modifies this
      ensures Valid() && Record() == SplitPrefix(old(Record()), originalIndex, newTexts, rules, |newTexts|)
    {
      SplitPrefixFrame(Record(), originalIndex, newTexts, rules, |newTexts|);
      var r := UpdateAfterSplit(Record(), originalIndex, newTexts, rules);
      correctionStates, originalTexts, correctedTexts := r.states, r.originals, r.correcteds;
    }

    /** `get_current_state(index)`. */
    function GetCurrentState(index: string): (s: string)
      reads this
      ensures s == CurrentState(Record(), index)
    {
      if index in correctionStates then correctionStates[index] else "correct"
    }
  }
}
