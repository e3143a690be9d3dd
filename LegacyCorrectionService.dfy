/** The older correction service of the services package: the same rule
    table and per-entry record as the newer one, with a refresh that works
    in place, an unfiltered serialization and a transfer that keeps only
    the mapped indices. */
module LegacyCorrection {
  import opened Wrappers
  import opened Strings
  import opened RuleEngine
  import opened CorrectionEntries
  import opened CorrectionService

  /** The verdict of `correct_text`: whether to correct, the corrected
      text and the rules applied. */
  datatype Corrected = Corrected(needsCorrection: bool, text: string, applied: Rules)

  /** `correct_text(text)`: an empty text or an empty table is answered at
      once; otherwise each error is checked against the input text and the
      verdict needs the result to differ. The shortcut gives exactly what
      the general case gives. */
  function CorrectText(text: string, rules: Rules): (r: Corrected)
    requires KeysNonEmpty(rules)
    ensures var c := CheckText(text, rules);
      r == Corrected(c.needsCorrection, c.corrected, c.applied)
  {
    if text == "" || rules == [] then
      EmptyOrNoRules(text, rules);
      Corrected(false, text, [])
    else
      var c := CheckText(text, rules);
      Corrected(c.needsCorrection, c.corrected, c.applied)
  }

  /** `check_text_for_correction(text)` once the table is loaded: the two
      shortcuts agree with the general check. */
  function CheckTextForCorrection(text: string, rules: Rules): (c: Check)
    requires KeysNonEmpty(rules)
    ensures c == CheckText(text, rules)
  {
    if text == "" then
      EmptyOrNoRules(text, rules);
      Check(false, "", "", [])
    else if rules == [] then
      EmptyOrNoRules(text, rules);
      Check(false, text, text, [])
    else CheckText(text, rules)
  }

  /** On an empty text or with no rules the general check applies nothing
      and changes nothing. */
  lemma EmptyOrNoRules(text: string, rules: Rules)
    requires KeysNonEmpty(rules) && (text == "" || rules == [])
    ensures CheckText(text, rules) == Check(false, text, text, [])
  {
    CheckTextSpec(text, rules);
    if text == "" {
      EmptyTextUntouched(rules);
    }
  }

  /** The original of `k` is non-empty and no longer needs correction. */
  predicate Dropped(e: Entries, rules: Rules, k: string)
    requires KeysNonEmpty(rules)
  {
    GetOr(e.originals, k, "") != "" && !CheckText(GetOr(e.originals, k, ""), rules).needsCorrection
  }

  /** The dicts after the in-place refresh has visited the indices in
      `done`: a visited index that still needs correction is re-set with
      its state (default `'correct'`) and a fresh corrected text, a visited
      index that no longer does is removed, everything else is as it was. */
  function LegacyRefreshedOn(e: Entries, rules: Rules, done: set<string>): Entries
    requires KeysNonEmpty(rules)
  {
    Entries(RefreshStates(e, rules, done), RefreshOriginals(e, rules, done), RefreshCorrecteds(e, rules, done))
  }

  function RefreshStates(e: Entries, rules: Rules, done: set<string>): map<string, string>
    requires KeysNonEmpty(rules)
  {
    map k | k in AllIndices(e) && !(k in done && Dropped(e, rules, k)) &&
            (k in e.states || (k in done && StillNeeds(e, rules, k))) ::
      if k in done && StillNeeds(e, rules, k) then GetOr(e.states, k, "correct") else e.states[k]
  }

  function RefreshOriginals(e: Entries, rules: Rules, done: set<string>): map<string, string>
    requires KeysNonEmpty(rules)
  {
    map k | k in e.originals && !(k in done && Dropped(e, rules, k)) :: e.originals[k]
  }

  function RefreshCorrecteds(e: Entries, rules: Rules, done: set<string>): map<string, string>
    requires KeysNonEmpty(rules)
  {
    map k | k in AllIndices(e) && !(k in done && Dropped(e, rules, k)) &&
            (k in e.correcteds || (k in done && StillNeeds(e, rules, k))) ::
      if k in done && StillNeeds(e, rules, k) then CheckText(GetOr(e.originals, k, ""), rules).corrected
      else e.correcteds[k]
  }

  /** One index of the in-place refresh, reading the current dicts. */
  function RefreshStep(r: Entries, rules: Rules, k: string): Entries
    requires KeysNonEmpty(rules)
  {
    var o := GetOr(r.originals, k, "");
    if o == "" then r
    else
      var c := CheckText(o, rules);
      if c.needsCorrection then SetEntry(r, k, o, c.corrected, GetOr(r.states, k, "correct"))
      else RemoveEntry(r, k)
  }

  /** An index not yet visited still holds its old entry. */
  lemma UnvisitedUntouched(e: Entries, rules: Rules, done: set<string>, k: string)
    requires KeysNonEmpty(rules) && k !in done
    ensures SameAt(LegacyRefreshedOn(e, rules, done), e, k)
  {
  }

  lemma LegacyRefreshedOnStep(e: Entries, rules: Rules, done: set<string>, k: string)
    requires KeysNonEmpty(rules) && k !in done
    ensures LegacyRefreshedOn(e, rules, done + {k}) == RefreshStep(LegacyRefreshedOn(e, rules, done), rules, k)
  {
    var r := LegacyRefreshedOn(e, rules, done);
    var r' := LegacyRefreshedOn(e, rules, done + {k});
    var want := RefreshStep(r, rules, k);
    forall j ensures SameAt(r', want, j) {
      if j == k {
        StepAtVisited(e, rules, done, k);
      } else {
        StepElsewhere(e, rules, done, k, j);
        assert SameAt(want, r, j);
      }
    }
    SameEverywhere(r', want);
  }

  lemma StepAtVisited(e: Entries, rules: Rules, done: set<string>, k: string)
    requires KeysNonEmpty(rules) && k !in done
    ensures SameAt(LegacyRefreshedOn(e, rules, done + {k}), RefreshStep(LegacyRefreshedOn(e, rules, done), rules, k), k)
  {
    UnvisitedUntouched(e, rules, done, k);
  }

  lemma StepElsewhere(e: Entries, rules: Rules, done: set<string>, k: string, j: string)
    requires KeysNonEmpty(rules) && j != k
    ensures SameAt(LegacyRefreshedOn(e, rules, done + {k}), LegacyRefreshedOn(e, rules, done), j)
  {
  }

  /** `refresh_all_correction_states` of the older service. An index with
      an empty original is kept as it was; one that still needs correction
      holds its state (default `'correct'`), its original and the fresh
      corrected text; one that no longer does is gone. */
  function LegacyRefreshed(e: Entries, rules: Rules): (r: Entries)
    requires KeysNonEmpty(rules)
    ensures forall k :: GetOr(e.originals, k, "") == "" ==> SameAt(r, e, k)
    ensures forall k :: Dropped(e, rules, k) ==> k !in r.states && k !in r.originals && k !in r.correcteds
    ensures forall k :: StillNeeds(e, rules, k) ==>
      k in r.states && k in r.originals && k in r.correcteds &&
      r.states[k] == GetOr(e.states, k, "correct") && r.originals[k] == e.originals[k] &&
      r.correcteds[k] == CheckText(e.originals[k], rules).corrected
  {
    LegacyRefreshedOn(e, rules, AllIndices(e))
  }

  /** The in-place refresh keeps the invariant. */
  lemma LegacyRefreshWellFormed(e: Entries, rules: Rules)
    requires KeysNonEmpty(rules) && WellFormed(e)
    ensures WellFormed(LegacyRefreshed(e, rules))
  {
    var r := LegacyRefreshed(e, rules);
    forall k | k in r.originals ensures r.originals[k] != r.correcteds[k] {
      if StillNeeds(e, rules, k) {
        assert r.correcteds[k] == CheckText(e.originals[k], rules).corrected;
      } else {
        assert SameAt(r, e, k);
      }
    }
  }

  /** When no stored original is empty, the older in-place refresh and the
      newer rebuilding one give the same dicts. */
  lemma RefreshesAgree(e: Entries, rules: Rules)
    requires KeysNonEmpty(rules) && WellFormed(e)
    requires forall k :: k in e.originals ==> e.originals[k] != ""
    ensures LegacyRefreshed(e, rules) == Refreshed(e, rules)
  {
    var a := LegacyRefreshed(e, rules);
    var b := Refreshed(e, rules);
    forall k ensures SameAt(a, b, k) {
      if k in AllIndices(e) && !StillNeeds(e, rules, k) {
        assert Dropped(e, rules, k);
      }
    }
    SameEverywhere(a, b);
  }

  /** The loop of the older `refresh_all_correction_states` over a
      snapshot of every index, in an order the model leaves open. */
  method LegacyRefresh(e: Entries, rules: Rules) returns (r: Entries)
    requires KeysNonEmpty(rules)
    ensures r == LegacyRefreshed(e, rules)
  {
    var all := AllIndices(e);
    var remaining := all;
    ghost var done: set<string> := {};
    r := e;
    SameEverywhere(LegacyRefreshedOn(e, rules, {}), e);
    while remaining != {}
      invariant remaining <= all && done == all - remaining
      invariant r == LegacyRefreshedOn(e, rules, done)
      decreases remaining
    {
      var index := PickIndex(remaining);
      Visit(all, remaining, done, index);
      r := LegacyRefreshOne(e, rules, done, index, r);
      remaining := remaining - {index};
      done := done + {index};
    }
    VisitedAll(all, done);
  }

  /** Some element of a non-empty set. */
  method PickIndex(s: set<string>) returns (k: string)
    requires s != {}
    ensures k in s
  {
    k :| k in s;
  }

  /** One index of the older refresh: skip an empty original, re-set an
      entry that still needs correction, remove the others. */
  method LegacyRefreshOne(e: Entries, rules: Rules, ghost done: set<string>, index: string, r: Entries)
    returns (r': Entries)
    requires KeysNonEmpty(rules) && index !in done && r == LegacyRefreshedOn(e, rules, done)
    ensures r' == LegacyRefreshedOn(e, rules, done + {index})
  {
    LegacyRefreshedOnStep(e, rules, done, index);
    var originalText := GetOr(r.originals, index, "");
    if originalText == "" {
      return r;
    }
    var c := CheckText(originalText, rules);
    if c.needsCorrection {
      r' := SetEntry(r, index, originalText, c.corrected, GetOr(r.states, index, "correct"));
    } else {
      r' := RemoveEntry(r, index);
    }
  }

  /** The mapping loop of the older `transfer_correction_states`. */
  method MapAll(e: Entries, mapping: seq<(string, string)>) returns (m: Mapped)
    ensures m == MapStep(e, mapping)
  {
    m := Mapped(NoEntries(), {});
    var i := 0;
    while i < |mapping|
      invariant 0 <= i <= |mapping|
      invariant m == MapStep(e, mapping[..i])
    {
      m := MapOne(e, mapping, i, m);
      i := i + 1;
    }
    assert mapping[..|mapping|] == mapping;
  }

  /** The `display` text of an index: the corrected text in state
      `'correct'`, the original otherwise, `''` without a state. */
  function TextForDisplay(e: Entries, index: string): (t: string)
    ensures index !in e.states ==> t == ""
    ensures index in e.states && e.states[index] == "correct" ==> t == GetOr(e.correcteds, index, "")
    ensures index in e.states && e.states[index] != "correct" ==> t == GetOr(e.originals, index, "")
  {
    if index in e.states then
      if e.states[index] == "correct" then GetOr(e.correcteds, index, "") else GetOr(e.originals, index, "")
    else ""
  }

  /** Toggling a well-formed entry switches its display between the
      corrected and the original text. */
  lemma ToggleSwitchesDisplay(e: Entries, index: string)
    requires WellFormed(e) && index in e.states && e.states[index] in {"correct", "error"}
    ensures var t := Toggle(e, index).entries;
      (e.states[index] == "correct" ==> TextForDisplay(t, index) == e.originals[index]) &&
      (e.states[index] == "error" ==> TextForDisplay(t, index) == e.correcteds[index]) &&
      TextForDisplay(t, index) != TextForDisplay(e, index)
  {
  }

  class LegacyCorrectionService {
    /** The rule table, `{error: correction}` in insertion order. */
    var corrections: Rules
    var correctionStates: map<string, string>
    var originalTexts: map<string, string>
    var correctedTexts: map<string, string>

    function Record(): Entries
      reads this
    {
      Entries(correctionStates, originalTexts, correctedTexts)
    }

    predicate Valid()
      reads this
    {
      ValidRules(corrections) && WellFormed(Record())
    }

    /** A service without a rule file: no rules, no entries. */
    constructor()
      ensures Valid() && corrections == [] && Record() == NoEntries()
    {
      corrections := [];
      correctionStates := map[];
      originalTexts := map[];
      correctedTexts := map[];
    }

    /** `add_correction(error, correction)`: False for an empty error or
        correction, otherwise the rule is stored. */
    method AddCorrection(error: string, correction: string) returns (added: bool)
      requires Valid()
      modifies this
      ensures Valid() && Record() == old(Record())
      ensures added <==> error != "" && correction != ""
      ensures added ==> corrections == SetRule(old(corrections), error, correction)
      ensures !added ==> corrections == old(corrections)
    {
      if error == "" || correction == "" {
        return false;
      }
      SetRuleSpec(corrections, error, correction, error);
      corrections := SetRule(corrections, error, correction);
      return true;
    }

    /** `remove_correction(error)`: True exactly when the rule existed. */
    method RemoveCorrection(error: string) returns (removed: bool)
      requires Valid()
      modifies this
      ensures Valid() && Record() == old(Record())
      ensures removed <==> error in Keys(old(corrections))
      ensures removed ==> corrections == RemoveRule(old(corrections), error)
      ensures !removed ==> corrections == old(corrections)
    {
      removed := error in Keys(corrections);
      if removed {
        corrections := RemoveRule(corrections, error);
      }
    }

    /** `set_correction_state(index, original, corrected, state)`. */
    method SetCorrectionState(index: string, original: string, corrected: string, state: string)
      requires Valid()
      modifies this
      ensures Valid() && corrections == old(corrections)
      ensures Record() == SetEntry(old(Record()), index, original, corrected, state)
    {
      if original != corrected {
        correctionStates := correctionStates[index := state];
        originalTexts := originalTexts[index := original];
        correctedTexts := correctedTexts[index := corrected];
      } else {
        RemoveCorrectionState(index);
      }
    }

    /** `add_correction_state`, an alias of `set_correction_state`. */
    method AddCorrectionState(index: string, original: string, corrected: string, state: string)
      requires Valid()
      modifies this
      ensures Valid() && corrections == old(corrections)
      ensures Record() == SetEntry(old(Record()), index, original, corrected, state)
    {
      SetCorrectionState(index, original, corrected, state);
    }

    /** `toggle_correction_state(index)`. */
    method ToggleCorrectionState(index: string) returns (result: string)
      modifies this
      ensures old(Valid()) ==> Valid()
      ensures corrections == old(corrections)
      ensures Toggled(Record(), result) == Toggle(old(Record()), index)
    {
      if Valid() {
        ToggleSpec(Record(), index);
      }
      if index in correctionStates {
        result := Flip(correctionStates[index]);
        correctionStates := correctionStates[index := result];
      } else if index in originalTexts && index in correctedTexts {
        correctionStates := correctionStates[index := "correct"];
        result := "correct";
      } else {
        result := "";
      }
    }

    /** `get_correction_state(index)`, with its insertion. */
    method GetCorrectionState(index: string) returns (state: string)
      modifies this
      ensures old(Valid()) ==> Valid()
      ensures corrections == old(corrections)
      ensures Lookup(Record(), state) == GetState(old(Record()), index)
    {
      if index in correctionStates {
        return correctionStates[index];
      }
      if index in originalTexts && index in correctedTexts && originalTexts[index] != correctedTexts[index] {
        correctionStates := correctionStates[index := "correct"];
        return "correct";
      }
      return "";
    }

    /** `get_text_for_display(index)`. */
    function GetTextForDisplay(index: string): (t: string)
      reads this
      ensures t == TextForDisplay(Record(), index)
    {
      if index in correctionStates then
        if correctionStates[index] == "correct" then GetOr(correctedTexts, index, "")
        else GetOr(originalTexts, index, "")
      else ""
    }

    /** `refresh_all_correction_states`, in place. */
    method RefreshAllCorrectionStates()
      requires Valid()
      modifies this
      ensures Valid() && corrections == old(corrections)
      ensures Record() == LegacyRefreshed(old(Record()), corrections)
    {
      LegacyRefreshWellFormed(Record(), corrections);
      var r := LegacyRefresh(Record(), corrections);
      correctionStates, originalTexts, correctedTexts := r.states, r.originals, r.correcteds;
    }

    /** `remove_correction_state(index)`. */
    method RemoveCorrectionState(index: string)
      requires Valid()
      modifies this
      ensures Valid() && corrections == old(corrections)
      ensures Record() == RemoveEntry(old(Record()), index)
    {
      correctionStates := correctionStates - {index};
      originalTexts := originalTexts - {index};
      correctedTexts := correctedTexts - {index};
    }

    /** `clear_correction_states`. */
    method ClearCorrectionStates()
      requires Valid()
      modifies this
      ensures Valid() && corrections == old(corrections) && Record() == NoEntries()
    {
      correctionStates := map[];
      originalTexts := map[];
      correctedTexts := map[];
    }

    /** `update_correction_states_after_split(original, texts)`. */
    method UpdateCorrectionStatesAfterSplit(originalIndex: string, texts: seq<string>)
      requires Valid()
      modifies this
      ensures Valid() && corrections == old(corrections)
      ensures Record() == SplitPrefix(old(Record()), originalIndex, texts, corrections, |texts|)
    {
      SplitPrefixFrame(Record(), originalIndex, texts, corrections, |texts|);
      var r := UpdateAfterSplit(Record(), originalIndex, texts, corrections);
      correctionStates, originalTexts, correctedTexts := r.states, r.originals, r.correcteds;
    }

    /** `serialize_state()` at time `now`: every index with a state. */
    method SerializeState(now: real) returns (d: SerialData)
      requires Valid()
      ensures SerializesAll(Record(), d, now)
    {
      d := SerializeAll(Record(), now);
    }

    /** `deserialize_state(data)`: clear, then restore the entries whose
        texts differ. */
    method DeserializeState(data: SerialData)
      requires Valid()
      modifies this
      ensures Valid() && corrections == old(corrections)
      ensures Record() == Restored(data, map[], false)
    {
      ClearCorrectionStates();
      var r := Deserialize(data, map[], false);
      correctionStates, originalTexts, correctedTexts := r.states, r.originals, r.correcteds;
    }

    /** `transfer_correction_states(old_indices)`: only the mapped entries
        survive, under their new index. */
    method TransferCorrectionStates(mapping: seq<(string, string)>)
      requires Valid()
      modifies this
      ensures Valid() && corrections == old(corrections)
      ensures Record() == MapStep(old(Record()), mapping).entries
    {
      var m := MapAll(Record(), mapping);
      correctionStates, originalTexts, correctedTexts := m.entries.states, m.entries.originals, m.entries.correcteds;
    }
  }
}
