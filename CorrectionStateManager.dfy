/** The correction state manager of the state package: the three
    per-entry dicts without a rule table of their own (every check is given
    the table), an optional enhanced history attached for toggles. */
module CorrectionStateManager {
  import opened Wrappers
  import opened Strings
  import opened RuleEngine
  import opened CorrectionEntries

  const CorrectIcon: string := "✅"
  const ErrorIcon: string := "❌"

  /** `should_have_icon(text, corrections)`: the first error found in the
      text stops the scan. */
  function ShouldHaveIcon(text: string, rules: Rules): (b: bool)
    ensures b <==> exists i :: 0 <= i < |rules| && Contains(text, rules[i].0)
    decreases |rules|
  {
    if |rules| == 0 then false
    else if Contains(text, rules[0].0) then true
    else
      var rest := ShouldHaveIcon(text, rules[1..]);
      assert forall i :: 1 <= i < |rules| ==> rules[i] == rules[1..][i - 1];
      rest
  }

  /** The icon test and the correction check agree on whether any rule
      applies, though the check may still find nothing to change. */
  lemma IconIffApplied(text: string, rules: Rules)
    requires KeysNonEmpty(rules)
    ensures ShouldHaveIcon(text, rules) <==> CheckText(text, rules).applied != []
    ensures CheckText(text, rules).needsCorrection ==> ShouldHaveIcon(text, rules)
  {
    CheckTextSpec(text, rules);
    var r := Occurring(rules, text);
    if r != [] {
      assert r[0] in rules && Contains(text, r[0].0);
      var i :| 0 <= i < |rules| && rules[i] == r[0];
      assert Contains(text, rules[i].0);
    }
    if ShouldHaveIcon(text, rules) {
      var i :| 0 <= i < |rules| && Contains(text, rules[i].0);
      assert rules[i] in r;
    }
  }

  /** `get_icon_for_text(text, corrections)`. */
  function IconForText(text: string, rules: Rules): (icon: string)
    ensures icon == CorrectIcon <==> exists i :: 0 <= i < |rules| && Contains(text, rules[i].0)
    ensures icon != CorrectIcon ==> icon == ""
  {
    if ShouldHaveIcon(text, rules) then CorrectIcon else ""
  }

  /** `get_current_state(index)`: the stored state, `'correct'` without
      one. */
  function CurrentState(e: Entries, k: string): (s: string)
    ensures k in e.states ==> s == e.states[k]
    ensures k !in e.states ==> s == "correct"
  {
    GetOr(e.states, k, "correct")
  }

  /** A toggle flips what `get_current_state` reports for the two states
      the editor uses, and reports `'correct'` for a freshly created one. */
  lemma ToggleFlipsCurrent(e: Entries, k: string)
    requires WellFormed(e)
    ensures k in e.states && e.states[k] in {"correct", "error"} ==>
      CurrentState(Toggle(e, k).entries, k) == Flip(CurrentState(e, k)) &&
      CurrentState(Toggle(e, k).entries, k) != CurrentState(e, k)
    ensures k !in e.states ==> CurrentState(Toggle(e, k).entries, k) == CurrentState(e, k)
  {
    ToggleSpec(e, k);
  }

  /** The dicts `transfer_correction_states` has rebuilt after copying the
      indices in `done`: the state, and each text (default `''`). */
  function CopiedOn(e: Entries, done: set<string>): Entries {
    Entries(CopiedMap(e.states, done, e.states.Keys), CopiedMap(e.originals, done, e.states.Keys),
            CopiedMap(e.correcteds, done, e.states.Keys))
  }

  /** `src` read with default `''` at the indices of `done` that are in
      `keys`. */
  function CopiedMap(src: map<string, string>, done: set<string>, keys: set<string>): map<string, string> {
    map k | k in done && k in keys :: GetOr(src, k, "")
  }

  lemma CopiedMapStep(src: map<string, string>, done: set<string>, keys: set<string>, k: string)
    requires k in keys
    ensures CopiedMap(src, done + {k}, keys) == CopiedMap(src, done, keys)[k := GetOr(src, k, "")]
  {
  }

  /** `transfer_correction_states(old_mode, new_mode)`: every index with a
      state is copied back under the same index; the modes are ignored. */
  function Copied(e: Entries): (r: Entries)
    ensures r.states == e.states
    ensures r.originals.Keys == e.states.Keys && r.correcteds.Keys == e.states.Keys
    ensures forall k :: k in e.states && k in e.originals ==> r.originals[k] == e.originals[k]
    ensures forall k :: k in e.states && k in e.correcteds ==> r.correcteds[k] == e.correcteds[k]
    ensures forall k :: k in e.states && k !in e.originals ==> r.originals[k] == ""
    ensures forall k :: k in e.states && k !in e.correcteds ==> r.correcteds[k] == ""
  {
    CopiedOn(e, e.states.Keys)
  }

  /** On well-formed dicts the transfer changes nothing. */
  lemma CopiedIsIdentity(e: Entries)
    requires WellFormed(e)
    ensures Copied(e) == e
  {
    var r := Copied(e);
    forall k ensures SameAt(r, e, k) {
      if k in e.states {
        assert k in e.originals && k in e.correcteds;
      }
    }
    SameEverywhere(r, e);
  }

  /** The copying loop of `transfer_correction_states`. */
  method CopyStated(e: Entries) returns (r: Entries)
    ensures r == Copied(e)
  {
    var keys := e.states.Keys;
    var remaining := keys;
    ghost var done: set<string> := {};
    r := NoEntries();
    while remaining != {}
      invariant remaining <= keys && done == keys - remaining
      invariant r == CopiedOn(e, done)
      decreases remaining
    {
      var index :| index in remaining;
      Visit(keys, remaining, done, index);
      r := CopyOne(e, done, index, r);
      remaining := remaining - {index};
      done := done + {index};
    }
    VisitedAll(keys, done);
  }

  /** One index of the copying loop. */
  method CopyOne(e: Entries, ghost done: set<string>, index: string, r: Entries) returns (r': Entries)
    requires index in e.states && index !in done && r == CopiedOn(e, done)
    ensures r' == CopiedOn(e, done + {index})
  {
    CopiedMapStep(e.states, done, e.states.Keys, index);
    CopiedMapStep(e.originals, done, e.states.Keys, index);
    CopiedMapStep(e.correcteds, done, e.states.Keys, index);
    var state := e.states[index];
    var original := GetOr(e.originals, index, "");
    var corrected := GetOr(e.correcteds, index, "");
    r' := Entries(r.states[index := state], r.originals[index := original], r.correcteds[index := corrected]);
  }

  /** Some index of the three dicts has differing texts, reading a missing
      text as `''`. */
  predicate SomeDiffer(e: Entries) {
    exists k :: k in AllIndices(e) && Differs(e, k)
  }

  /** `serialize_state` as written. The module never imports `time`, so
      building the record of the first index whose texts differ raises
      NameError; only dicts with no such index serialize, to `{}`. */
  method SerializeAsWritten(e: Entries) returns (r: Result<SerialData>)
    ensures r.Failure? <==> SomeDiffer(e)
    ensures r.Success? ==> r.value == []
  {
    var remaining := AllIndices(e);
    while remaining != {}
      invariant remaining <= AllIndices(e)
      invariant forall k :: k in AllIndices(e) - remaining ==> !Differs(e, k)
      decreases remaining
    {
      var index :| index in remaining;
      if GetOr(e.originals, index, "") != GetOr(e.correcteds, index, "") {
        return Failure("NameError: name 'time' is not defined");
      }
      remaining := remaining - {index};
    }
    return Success([]);
  }

  /** Every well-formed record with at least one entry makes the
      serialization as written raise. */
  lemma StoredEntryDiffers(e: Entries)
    requires WellFormed(e) && e.states != map[]
    ensures SomeDiffer(e)
  {
    var k :| k in e.states;
    assert k in AllIndices(e) && Differs(e, k);
  }

  /** A one-entry record that shows it: `"1"` corrected from `"teh"` to
      `"the"`. */
  lemma SerializeRaisesOnOneEntry()
    ensures SomeDiffer(Entries(map["1" := "correct"], map["1" := "teh"], map["1" := "the"]))
  {
    var e := Entries(map["1" := "correct"], map["1" := "teh"], map["1" := "the"]);
    assert "1" in AllIndices(e) && Differs(e, "1");
  }

  /** A toggle of an existing state leaves that entry in the dicts, so the
      serialization an attached history asks for raises. */
  lemma ToggledStillDiffers(e: Entries, k: string)
    requires WellFormed(e) && k in e.states
    ensures SomeDiffer(Toggle(e, k).entries)
  {
    ToggleSpec(e, k);
    StoredEntryDiffers(Toggle(e, k).entries);
  }

  class CorrectionStateManager {
    var correctionStates: map<string, string>
    var originalTexts: map<string, string>
    var correctedTexts: map<string, string>
    /** Whether an enhanced state manager is attached. */
    const enhancedAttached: bool

    function Record(): Entries
      reads this
    {
      Entries(correctionStates, originalTexts, correctedTexts)
    }

    predicate Valid()
      reads this
    {
      WellFormed(Record())
    }

    constructor(enhancedAttached: bool)
      ensures Valid() && Record() == NoEntries() && this.enhancedAttached == enhancedAttached
    {
      this.enhancedAttached := enhancedAttached;
      correctionStates := map[];
      originalTexts := map[];
      correctedTexts := map[];
    }

    /** `transfer_correction_states(old_mode, new_mode)`. */
    method TransferCorrectionStates(oldMode: string, newMode: string)
      modifies this
      ensures old(Valid()) ==> Valid() && Record() == old(Record())
      ensures Record() == Copied(old(Record()))
    {
      if Valid() {
        CopiedIsIdentity(Record());
      }
      var r := CopyStated(Record());
      correctionStates, originalTexts, correctedTexts := r.states, r.originals, r.correcteds;
    }

    /** `add_correction_state(index, original, corrected, state)`. */
    method AddCorrectionState(index: string, original: string, corrected: string, state: string)
      requires Valid()
      modifies this
      ensures Valid() && Record() == SetEntry(old(Record()), index, original, corrected, state)
    {
      if original != corrected {
        correctionStates := correctionStates[index := state];
        originalTexts := originalTexts[index := original];
        correctedTexts := correctedTexts[index := corrected];
      } else {
        RemoveCorrectionState(index);
      }
    }

    /** `remove_correction_state(index)`. */
    method RemoveCorrectionState(index: string)
      requires Valid()
      modifies this
      ensures Valid() && Record() == RemoveEntry(old(Record()), index)
    {
      correctionStates := correctionStates - {index};
      originalTexts := originalTexts - {index};
      correctedTexts := correctedTexts - {index};
    }

    /** `update_correction_states_after_split(original, texts, corrections)`. */
    method UpdateCorrectionStatesAfterSplit(originalIndex: string, newTexts: seq<string>, rules: Rules)
      requires Valid() && KeysNonEmpty(rules)
      modifies this
      ensures Valid() && Record() == SplitPrefix(old(Record()), originalIndex, newTexts, rules, |newTexts|)
    {
      SplitPrefixFrame(Record(), originalIndex, newTexts, rules, |newTexts|);
      var r := UpdateAfterSplit(Record(), originalIndex, newTexts, rules);
      correctionStates, originalTexts, correctedTexts := r.states, r.originals, r.correcteds;
    }

    /** `get_current_state(index)`. */
    function GetCurrentState(index: string): (s: string)
      reads this
      ensures s == CurrentState(Record(), index)
    {
      if index in correctionStates then correctionStates[index] else "correct"
    }

    /** `serialize_state()`: raises whenever some index has differing
        texts. */
    method SerializeState() returns (r: Result<SerialData>)
      ensures r.Failure? <==> SomeDiffer(Record())
      ensures r.Success? ==> r.value == []
    {
      r := SerializeAsWritten(Record());
    }

    /** `deserialize_state(data, id_mapping)`. */
    method DeserializeState(data: SerialData, idMapping: map<string, string>)
      requires Valid()
      modifies this
      ensures Valid() && Record() == Restored(data, idMapping, true)
    {
      ClearCorrectionStates();
      var r := Deserialize(data, idMapping, true);
      correctionStates, originalTexts, correctedTexts := r.states, r.originals, r.correcteds;
    }

    /** `clear_correction_states()`. */
    method ClearCorrectionStates()
      modifies this
      ensures Valid() && Record() == NoEntries()
    {
      correctionStates := map[];
      originalTexts := map[];
      correctedTexts := map[];
    }

    /** `toggle_correction_state(index)`. The flip happens first; with a
        history attached, recording it serializes the dicts, which raises
        when some texts differ. */
    method ToggleCorrectionState(index: string) returns (r: Result<string>)
      modifies this
      ensures old(Valid()) ==> Valid()
      ensures Record() == Toggle(old(Record()), index).entries
      ensures !(enhancedAttached && index in old(correctionStates)) ==>
        r == Success(Toggle(old(Record()), index).result)
      ensures enhancedAttached && index in old(correctionStates) ==>
        (r.Failure? <==> SomeDiffer(Record())) &&
        (r.Success? ==> r.value == Toggle(old(Record()), index).result)
    {
      if Valid() {
        ToggleSpec(Record(), index);
      }
      if index in correctionStates {
        var newState := Flip(correctionStates[index]);
        correctionStates := correctionStates[index := newState];
        if enhancedAttached {
          var s := SerializeAsWritten(Record());
          if s.Failure? {
            return Failure(s.error);
          }
        }
        return Success(newState);
      }
      if index in originalTexts && index in correctedTexts {
        correctionStates := correctionStates[index := "correct"];
        return Success("correct");
      }
      return Success("");
    }
  }
}
