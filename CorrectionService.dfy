/** The correction service of the services/correction package: a rule
    table plus the per-entry correction record. */
module CorrectionService {
  import opened Wrappers
  import opened Strings
  import opened RuleEngine
  import opened CorrectionEntries

  /** An index whose original text changes under the new rule. */
  predicate ChangedBy(e: Entries, error: string, correction: string, k: string)
    requires |error| > 0
  {
    k in e.originals && Contains(e.originals[k], error) &&
    Replace(e.originals[k], error, correction) != e.originals[k]
  }

  /** The dicts after the `apply_to_existing` loop of `add_correction` has
      visited the indices in `done`. */
  function ApplyOn(e: Entries, error: string, correction: string, done: set<string>): Entries
    requires |error| > 0 && WellFormed(e)
  {
    Entries(map k | k in e.states ::
              if k in done && ChangedBy(e, error, correction, k) then "correct" else e.states[k],
            e.originals,
            map k | k in e.correcteds ::
              if k in done && ChangedBy(e, error, correction, k) then Replace(e.originals[k], error, correction)
              else e.correcteds[k])
  }

  /** `add_correction(..., apply_to_existing=True)` on the entries: every
      entry whose original changes under the new rule gets the replaced
      original as its corrected text and the state `'correct'`. */
  function ApplyNewRule(e: Entries, error: string, correction: string): (r: Entries)
    requires |error| > 0 && WellFormed(e)
    ensures WellFormed(r) && r.originals == e.originals
    ensures forall k :: k in e.states && !ChangedBy(e, error, correction, k) ==> SameAt(r, e, k)
    ensures forall k :: ChangedBy(e, error, correction, k) ==>
      k in r.states && r.states[k] == "correct" &&
      r.correcteds[k] == Replace(e.originals[k], error, correction)
  {
    ApplyOn(e, error, correction, e.originals.Keys)
  }

  /** One index of the `apply_to_existing` loop: when the new rule
      changes its original, the corrected text is the replaced original and
      the state becomes `'correct'`. */
  function ApplyStep(r: Entries, e: Entries, error: string, correction: string, k: string): Entries
    requires |error| > 0
  {
    if ChangedBy(e, error, correction, k) then
      r.(states := r.states[k := "correct"], correcteds := r.correcteds[k := Replace(e.originals[k], error, correction)])
    else r
  }

  lemma ApplyOnStep(e: Entries, error: string, correction: string, done: set<string>, k: string)
    requires |error| > 0 && WellFormed(e) && k in e.originals
    ensures ApplyOn(e, error, correction, done + {k}) == ApplyStep(ApplyOn(e, error, correction, done), e, error, correction, k)
  {
    var want := ApplyStep(ApplyOn(e, error, correction, done), e, error, correction, k);
    forall j ensures SameAt(ApplyOn(e, error, correction, done + {k}), want, j) {
    }
    SameEverywhere(ApplyOn(e, error, correction, done + {k}), want);
  }

  lemma ApplyOnNone(e: Entries, error: string, correction: string)
    requires |error| > 0 && WellFormed(e)
    ensures ApplyOn(e, error, correction, {}) == e
  {
    forall j ensures SameAt(ApplyOn(e, error, correction, {}), e, j) {
    }
    SameEverywhere(ApplyOn(e, error, correction, {}), e);
  }

  /** The visited indices the new rule changed. */
  function ChangedAmong(e: Entries, error: string, correction: string, done: set<string>): set<string>
    requires |error| > 0
  {
    set k | k in done && ChangedBy(e, error, correction, k)
  }

  /** The indices `add_correction` counts. */
  function Updated(e: Entries, error: string, correction: string): set<string>
    requires |error| > 0
  {
    ChangedAmong(e, error, correction, e.originals.Keys)
  }

  lemma ChangedAmongStep(e: Entries, error: string, correction: string, done: set<string>, k: string)
    requires |error| > 0 && k !in done
    ensures |ChangedAmong(e, error, correction, done + {k})| ==
      |ChangedAmong(e, error, correction, done)| + if ChangedBy(e, error, correction, k) then 1 else 0
  {
    if ChangedBy(e, error, correction, k) {
      assert ChangedAmong(e, error, correction, done + {k}) == ChangedAmong(e, error, correction, done) + {k};
    } else {
      assert ChangedAmong(e, error, correction, done + {k}) == ChangedAmong(e, error, correction, done);
    }
  }

  /** The original of `k` is non-empty and still needs correction. */
  predicate StillNeeds(e: Entries, rules: Rules, k: string)
    requires KeysNonEmpty(rules)
  {
    GetOr(e.originals, k, "") != "" && CheckText(GetOr(e.originals, k, ""), rules).needsCorrection
  }

  /** The fresh dicts `refresh_all_correction_states` has built after
      visiting the indices in `done`. */
  function RefreshedOn(e: Entries, rules: Rules, done: set<string>): (r: Entries)
    requires KeysNonEmpty(rules)
    ensures WellFormed(r)
  {
    var keys := set k | k in done && StillNeeds(e, rules, k);
    Entries(map k | k in keys :: GetOr(e.states, k, "correct"),
            map k | k in keys :: GetOr(e.originals, k, ""),
            map k | k in keys :: CheckText(GetOr(e.originals, k, ""), rules).corrected)
  }

  /** `refresh_all_correction_states`: rebuild the dicts from the indices
      whose non-empty original still needs correction, keeping their state
      (default `'correct'`) and recomputing the corrected text. */
  function Refreshed(e: Entries, rules: Rules): (r: Entries)
    requires KeysNonEmpty(rules)
    ensures WellFormed(r)
  {
    RefreshedOn(e, rules, AllIndices(e))
  }

  /** Refreshing twice gives what refreshing once gives. */
  lemma RefreshIdempotent(e: Entries, rules: Rules)
    requires KeysNonEmpty(rules)
    ensures Refreshed(Refreshed(e, rules), rules) == Refreshed(e, rules)
  {
    var r := Refreshed(e, rules);
    var rr := Refreshed(r, rules);
    forall k ensures SameAt(rr, r, k) {
      if k in r.states {
        assert k in AllIndices(r) && StillNeeds(r, rules, k);
      }
    }
    SameEverywhere(rr, r);
  }

  /** The first loop of `transfer_correction_states`: the entries copied to
      their new index and the old indices so handled. */
  datatype Mapped = Mapped(entries: Entries, processed: set<string>)

  function MapStep(e: Entries, mapping: seq<(string, string)>): (m: Mapped)
    ensures WellFormed(e) ==> WellFormed(m.entries)
    decreases |mapping|
  {
    if |mapping| == 0 then Mapped(NoEntries(), {})
    else
      var p := MapStep(e, mapping[..|mapping| - 1]);
      var (o, n) := mapping[|mapping| - 1];
      if o in e.states then
        Mapped(Entries(p.entries.states[n := e.states[o]], p.entries.originals[n := GetOr(e.originals, o, "")],
                       p.entries.correcteds[n := GetOr(e.correcteds, o, "")]),
               p.processed + {o})
      else p
  }

  /** An old index is handled exactly when it has a state and the mapping
      names it; a new index is written exactly when some pair maps a
      stateful old index to it. */
  lemma {:induction false} MapStepSpec(e: Entries, mapping: seq<(string, string)>, k: string)
    ensures k in MapStep(e, mapping).processed <==>
      k in e.states && exists i :: 0 <= i < |mapping| && mapping[i].0 == k
    ensures k in MapStep(e, mapping).entries.states <==>
      exists i :: 0 <= i < |mapping| && mapping[i].1 == k && mapping[i].0 in e.states
    decreases |mapping|
  {
    if |mapping| > 0 {
      var last := |mapping| - 1;
      var pre := mapping[..last];
      MapStepSpec(e, pre, k);
      assert forall i :: 0 <= i < |pre| ==> pre[i] == mapping[i];
      if k in e.states && exists i :: 0 <= i < |mapping| && mapping[i].0 == k {
        var i :| 0 <= i < |mapping| && mapping[i].0 == k;
        if i < last { assert pre[i].0 == k; }
      }
      if exists i :: 0 <= i < |mapping| && mapping[i].1 == k && mapping[i].0 in e.states {
        var i :| 0 <= i < |mapping| && mapping[i].1 == k && mapping[i].0 in e.states;
        if i < last { assert pre[i].1 == k && pre[i].0 in e.states; }
      }
    }
  }

  /** Pair `i` is the last pair that maps a stateful old index to its
      target, so its dict writes are the ones that stay. */
  predicate LastWriterOf(e: Entries, mapping: seq<(string, string)>, i: int)
    requires 0 <= i < |mapping|
  {
    mapping[i].0 in e.states &&
    forall j :: i < j < |mapping| && mapping[j].1 == mapping[i].1 ==> mapping[j].0 !in e.states
  }

  /** `r` holds at `n` the state and texts `e` holds at `o`. */
  predicate MovedTo(r: Entries, e: Entries, o: string, n: string) {
    o in e.states && n in r.states && n in r.originals && n in r.correcteds &&
    r.states[n] == e.states[o] && r.originals[n] == GetOr(e.originals, o, "") &&
    r.correcteds[n] == GetOr(e.correcteds, o, "")
  }

  /** The first loop leaves at each target the entry of the last pair
      that wrote there. */
  lemma {:induction false} MapStepAt(e: Entries, mapping: seq<(string, string)>, i: int)
    requires 0 <= i < |mapping| && LastWriterOf(e, mapping, i)
    ensures MovedTo(MapStep(e, mapping).entries, e, mapping[i].0, mapping[i].1)
    decreases |mapping|
  {
    var last := |mapping| - 1;
    if i < last {
      var pre := mapping[..last];
      assert forall j :: 0 <= j < |pre| ==> pre[j] == mapping[j];
      MapStepAt(e, pre, i);
      assert mapping[last].0 in e.states ==> mapping[last].1 != mapping[i].1;
    }
  }

  /** The second loop: every index not handled by the mapping keeps its
      entry, overriding whatever the mapping wrote there. */
  function KeepUnmapped(acc: Entries, e: Entries, keep: set<string>): Entries {
    Entries(Overlay(acc.states, e.states, keep), Overlay(acc.originals, e.originals, keep),
            Overlay(acc.correcteds, e.correcteds, keep))
  }

  /** `acc` with every key of `keep` set to its value in `src` (`''` when
      `src` lacks it). */
  function Overlay(acc: map<string, string>, src: map<string, string>, keep: set<string>): map<string, string> {
    map k | k in acc.Keys + keep :: if k in keep then GetOr(src, k, "") else acc[k]
  }

  lemma OverlayStep(acc: map<string, string>, src: map<string, string>, keep: set<string>, k: string)
    ensures Overlay(acc, src, keep + {k}) == Overlay(acc, src, keep)[k := GetOr(src, k, "")]
  {
  }

  /** `transfer_correction_states(index_mapping)`. */
  function Transferred(e: Entries, mapping: seq<(string, string)>): Entries {
    var m := MapStep(e, mapping);
    KeepUnmapped(m.entries, e, e.states.Keys - m.processed)
  }

  /** Transfer keeps the invariant, keeps every index the mapping does not
      mention, gives every mapped target a state, and moves to a target
      the entry of the last pair writing there when no kept index sits
      there. */
  lemma TransferSpec(e: Entries, mapping: seq<(string, string)>)
    requires WellFormed(e)
    ensures WellFormed(Transferred(e, mapping))
    ensures forall k :: k in e.states && (forall i :: 0 <= i < |mapping| ==> mapping[i].0 != k) ==>
      SameAt(Transferred(e, mapping), e, k)
    ensures forall i :: 0 <= i < |mapping| && mapping[i].0 in e.states ==> mapping[i].1 in Transferred(e, mapping).states
    ensures forall i :: (0 <= i < |mapping| && LastWriterOf(e, mapping, i) &&
                         (mapping[i].1 in e.states ==> exists j :: 0 <= j < |mapping| && mapping[j].0 == mapping[i].1))
                        ==> MovedTo(Transferred(e, mapping), e, mapping[i].0, mapping[i].1)
  {
    var m := MapStep(e, mapping);
    var r := Transferred(e, mapping);
    var keep := e.states.Keys - m.processed;
    forall k | k in e.states && (forall i :: 0 <= i < |mapping| ==> mapping[i].0 != k)
      ensures SameAt(r, e, k)
    {
      MapStepSpec(e, mapping, k);
    }
    forall k | k in r.originals ensures r.originals[k] != r.correcteds[k] {
      if k !in keep {
        assert k in m.entries.originals;
      }
    }
    forall i | 0 <= i < |mapping| && mapping[i].0 in e.states ensures mapping[i].1 in r.states {
      MapStepSpec(e, mapping, mapping[i].1);
      assert mapping[i].1 in m.entries.states;
    }
    forall i | 0 <= i < |mapping| && LastWriterOf(e, mapping, i) &&
               (mapping[i].1 in e.states ==> exists j :: 0 <= j < |mapping| && mapping[j].0 == mapping[i].1)
      ensures MovedTo(r, e, mapping[i].0, mapping[i].1)
    {
      MapStepAt(e, mapping, i);
      MapStepSpec(e, mapping, mapping[i].1);
      assert mapping[i].1 !in keep;
    }
  }

  /** The entries after `handle_text_split` has handled its first `n`
      (text, index) pairs: a part needing correction is stored as
      `'error'`, any other part's index is removed. */
  function Handled(e: Entries, texts: seq<string>, indices: seq<string>, rules: Rules, n: nat): Entries
    requires KeysNonEmpty(rules) && n <= |texts| && n <= |indices|
  {
    if n == 0 then e
    else SplitStep(Handled(e, texts, indices, rules, n - 1), texts[n - 1], indices[n - 1], rules)
  }

  /** One (text, index) pair of `handle_text_split`. */
  function SplitStep(p: Entries, text: string, index: string, rules: Rules): Entries
    requires KeysNonEmpty(rules)
  {
    var c := CheckText(text, rules);
    if c.needsCorrection then SetEntry(p, index, text, c.corrected, "error")
    else RemoveEntry(p, index)
  }

  /** The (index, state, icon) triple reported for one part. */
  function ReportItem(text: string, index: string, rules: Rules): (string, string, string)
    requires KeysNonEmpty(rules)
  {
    if CheckText(text, rules).needsCorrection then (index, "error", "❌") else (index, "", "")
  }

  function Min(a: nat, b: nat): nat {
    if a <= b then a else b
  }

  /** The (index, state, icon) triples `handle_text_split` reports for its
      first `n` parts. */
  function SplitReport(texts: seq<string>, indices: seq<string>, rules: Rules, n: nat): seq<(string, string, string)>
    requires KeysNonEmpty(rules) && n <= |texts| && n <= |indices|
  {
    if n == 0 then [] else SplitReport(texts, indices, rules, n - 1) + [ReportItem(texts[n - 1], indices[n - 1], rules)]
  }

  /** One triple per part, in order: the part's index, then `'error'` and
      the cross icon for a part needing correction, empty strings
      otherwise. */
  lemma {:induction false} SplitReportSpec(texts: seq<string>, indices: seq<string>, rules: Rules, n: nat)
    requires KeysNonEmpty(rules) && n <= |texts| && n <= |indices|
    ensures var r := SplitReport(texts, indices, rules, n);
      |r| == n &&
      forall i :: 0 <= i < n ==>
        r[i].0 == indices[i] &&
        (CheckText(texts[i], rules).needsCorrection ==> r[i].1 == "error" && r[i].2 == "❌") &&
        (!CheckText(texts[i], rules).needsCorrection ==> r[i].1 == "" && r[i].2 == "")
  {
    if n > 0 {
      SplitReportSpec(texts, indices, rules, n - 1);
    }
  }

  /** The default split indices: part 0 keeps the original index, part
      `i > 0` gets `str(int(original) + i)`; a non-numeric original raises
      ValueError as soon as a second part needs an index. */
  function DefaultSplitIndices(original: string, count: nat): (r: Result<seq<string>>)
    ensures r.Success? ==> |r.value| == count && (count > 0 ==> r.value[0] == original)
    ensures r.Failure? <==> count > 1 && ParseInt(original).Failure?
    ensures r.Success? && count > 1 ==>
      forall i :: 1 <= i < count ==> r.value[i] == IntToString(ParseInt(original).value + i)
  {
    if count <= 1 then Success(seq(count, i => original))
    else match ParseInt(original)
      case Failure(_) => Failure("ValueError")
      case Success(v) => Success(seq(count, i => if i > 0 then IntToString(v + i) else original))
  }

  /** Handling the parts keeps the invariant and leaves every index that
      is not a part's index untouched. */
  lemma {:induction false} HandledFrame(e: Entries, texts: seq<string>, indices: seq<string>, rules: Rules, n: nat)
    requires KeysNonEmpty(rules) && n <= |texts| && n <= |indices| && WellFormed(e)
    ensures WellFormed(Handled(e, texts, indices, rules, n))
    ensures forall k :: (forall i :: 0 <= i < n ==> indices[i] != k) ==> SameAt(Handled(e, texts, indices, rules, n), e, k)
  {
    if n > 0 {
      HandledFrame(e, texts, indices, rules, n - 1);
      var p := Handled(e, texts, indices, rules, n - 1);
      var r := Handled(e, texts, indices, rules, n);
      forall k | (forall i :: 0 <= i < n ==> indices[i] != k) ensures SameAt(r, e, k) {
        assert indices[n - 1] != k;
        forall i | 0 <= i < n - 1 ensures indices[i] != k {
          assert !(0 <= i < n && indices[i] == k);
        }
        assert SameAt(p, e, k);
        assert SameAt(r, p, k);
      }
    }
  }

  /** With distinct indices, every part's index ends up holding exactly
      what its text calls for: an `'error'` entry for a part needing
      correction, nothing for the others. */
  lemma {:induction false} HandledSpec(e: Entries, texts: seq<string>, indices: seq<string>, rules: Rules, n: nat)
    requires KeysNonEmpty(rules) && n <= |texts| && n <= |indices|
    requires forall i, j :: 0 <= i < j < n ==> indices[i] != indices[j]
    ensures forall i :: 0 <= i < n ==> HandledPart(Handled(e, texts, indices, rules, n), texts, indices, rules, i)
  {
    if n > 0 {
      HandledSpec(e, texts, indices, rules, n - 1);
      var p := Handled(e, texts, indices, rules, n - 1);
      var r := Handled(e, texts, indices, rules, n);
      forall i | 0 <= i < n ensures HandledPart(r, texts, indices, rules, i) {
        if i < n - 1 {
          assert HandledPart(p, texts, indices, rules, i);
          assert indices[i] != indices[n - 1];
          assert SameAt(r, p, indices[i]);
        }
      }
    }
  }

  /** Part `i`'s index holds an `'error'` entry with its text and corrected
      text when it needs correction, and no entry otherwise. */
  predicate HandledPart(r: Entries, texts: seq<string>, indices: seq<string>, rules: Rules, i: nat)
    requires KeysNonEmpty(rules) && i < |texts| && i < |indices|
  {
    var c := CheckText(texts[i], rules);
    var k := indices[i];
    if c.needsCorrection then
      k in r.states && k in r.originals && k in r.correcteds &&
      r.states[k] == "error" && r.originals[k] == texts[i] && r.correcteds[k] == c.corrected
    else k !in r.states && k !in r.originals && k !in r.correcteds
  }

  /** One more visited index extends the rebuilt dicts by that index
      alone. */
  lemma RefreshedOnStep(e: Entries, rules: Rules, done: set<string>, k: string)
    requires KeysNonEmpty(rules) && k !in done
    ensures var r := RefreshedOn(e, rules, done);
      RefreshedOn(e, rules, done + {k}) ==
        if StillNeeds(e, rules, k) then
          Entries(r.states[k := GetOr(e.states, k, "correct")], r.originals[k := GetOr(e.originals, k, "")],
                  r.correcteds[k := CheckText(GetOr(e.originals, k, ""), rules).corrected])
        else r
  {
    var r := RefreshedOn(e, rules, done);
    var r' := RefreshedOn(e, rules, done + {k});
    var want := if StillNeeds(e, rules, k) then
          Entries(r.states[k := GetOr(e.states, k, "correct")], r.originals[k := GetOr(e.originals, k, "")],
                  r.correcteds[k := CheckText(GetOr(e.originals, k, ""), rules).corrected])
        else r;
    forall j ensures SameAt(r', want, j) {
    }
    SameEverywhere(r', want);
  }

  lemma KeepUnmappedStep(acc: Entries, e: Entries, keep: set<string>, k: string)
    requires k in e.states
    ensures var r := KeepUnmapped(acc, e, keep);
      KeepUnmapped(acc, e, keep + {k}) ==
        Entries(r.states[k := e.states[k]], r.originals[k := GetOr(e.originals, k, "")],
                r.correcteds[k := GetOr(e.correcteds, k, "")])
  {
    OverlayStep(acc.states, e.states, keep, k);
    OverlayStep(acc.originals, e.originals, keep, k);
    OverlayStep(acc.correcteds, e.correcteds, keep, k);
  }

  lemma KeepUnmappedNone(acc: Entries, e: Entries)
    ensures KeepUnmapped(acc, e, {}) == acc
  {
    forall j ensures SameAt(KeepUnmapped(acc, e, {}), acc, j) {
    }
    SameEverywhere(KeepUnmapped(acc, e, {}), acc);
  }

  /** The `apply_to_existing` loop of `add_correction`, over the stored
      originals in an order the model leaves open. */
  method ApplyToExisting(e: Entries, error: string, correction: string) returns (r: Entries, count: nat)
    requires |error| > 0 && WellFormed(e)
    ensures r == ApplyNewRule(e, error, correction)
    ensures count == |Updated(e, error, correction)|
  {
    r := e;
    count := 0;
    var remaining := e.originals.Keys;
    ghost var done: set<string> := {};
    ApplyOnNone(e, error, correction);
    while remaining != {}
      invariant remaining <= e.originals.Keys && done == e.originals.Keys - remaining
      invariant r == ApplyOn(e, error, correction, done)
      invariant count == |ChangedAmong(e, error, correction, done)|
      decreases remaining
    {
      var index :| index in remaining;
      Visit(e.originals.Keys, remaining, done, index);
      r, count := ApplyToOne(e, error, correction, done, index, r, count);
      remaining := remaining - {index};
      done := done + {index};
    }
    VisitedAll(e.originals.Keys, done);
  }

  /** One index of the `apply_to_existing` loop, with the count of
      updated entries. */
  method ApplyToOne(e: Entries, error: string, correction: string, ghost done: set<string>, index: string,
                    r: Entries, count: nat) returns (r': Entries, count': nat)
    requires |error| > 0 && WellFormed(e) && index in e.originals && index !in done
    requires r == ApplyOn(e, error, correction, done) && count == |ChangedAmong(e, error, correction, done)|
    ensures r' == ApplyOn(e, error, correction, done + {index})
    ensures count' == |ChangedAmong(e, error, correction, done + {index})|
  {
    ApplyOnStep(e, error, correction, done, index);
    ChangedAmongStep(e, error, correction, done, index);
    r', count' := r, count;
    var originalText := e.originals[index];
    if Contains(originalText, error) {
      var correctedText := Replace(originalText, error, correction);
      if correctedText != originalText {
        r' := r.(states := r.states[index := "correct"], correcteds := r.correcteds[index := correctedText]);
        count' := count + 1;
      }
    }
  }

  /** The loop of `refresh_all_correction_states`, over every index in an
      order the model leaves open, building fresh dicts. */
  method Refresh(e: Entries, rules: Rules) returns (r: Entries)
    requires KeysNonEmpty(rules)
    ensures r == Refreshed(e, rules)
  {
    var all := AllIndices(e);
    var remaining := all;
    ghost var done: set<string> := {};
    r := NoEntries();
    SameEverywhere(RefreshedOn(e, rules, {}), NoEntries());
    while remaining != {}
      invariant remaining <= all && done == all - remaining
      invariant r == RefreshedOn(e, rules, done)
      decreases remaining
    {
      var index :| index in remaining;
      Visit(all, remaining, done, index);
      r := RefreshOne(e, rules, done, index, r);
      remaining := remaining - {index};
      done := done + {index};
    }
    VisitedAll(all, done);
  }

  /** One index of the refresh loop: a non-empty original that still
      needs correction is re-entered with its state and a fresh corrected
      text. */
  method RefreshOne(e: Entries, rules: Rules, ghost done: set<string>, index: string, r: Entries)
    returns (r': Entries)
    requires KeysNonEmpty(rules) && index !in done && r == RefreshedOn(e, rules, done)
    ensures r' == RefreshedOn(e, rules, done + {index})
  {
    RefreshedOnStep(e, rules, done, index);
    r' := r;
    var originalText := GetOr(e.originals, index, "");
    if originalText != "" {
      var c := CheckText(originalText, rules);
      if c.needsCorrection {
        r' := Entries(r.states[index := GetOr(e.states, index, "correct")], r.originals[index := c.original],
                      r.correcteds[index := c.corrected]);
      }
    }
  }

  /** The loop of `handle_text_split` over the (text, index) pairs. */
  method HandleSplit(e: Entries, texts: seq<string>, indices: seq<string>, rules: Rules)
    returns (r: Entries, report: seq<(string, string, string)>)
    requires KeysNonEmpty(rules)
    ensures r == Handled(e, texts, indices, rules, Min(|texts|, |indices|))
    ensures report == SplitReport(texts, indices, rules, Min(|texts|, |indices|))
  {
    var n := Min(|texts|, |indices|);
    r := e;
    report := [];
    var i := 0;
    while i < n
      invariant 0 <= i <= n
      invariant r == Handled(e, texts, indices, rules, i)
      invariant report == SplitReport(texts, indices, rules, i)
    {
      r, report := HandleOne(e, texts, indices, rules, i, r, report);
      i := i + 1;
    }
  }

  /** One (text, index) pair of `handle_text_split`: an `'error'` entry and
      a cross icon for a part needing correction, removal otherwise. */
  method HandleOne(e: Entries, texts: seq<string>, indices: seq<string>, rules: Rules, i: nat,
                   r: Entries, report: seq<(string, string, string)>)
    returns (r': Entries, report': seq<(string, string, string)>)
    requires KeysNonEmpty(rules) && i < |texts| && i < |indices|
    requires r == Handled(e, texts, indices, rules, i) && report == SplitReport(texts, indices, rules, i)
    ensures r' == Handled(e, texts, indices, rules, i + 1) && report' == SplitReport(texts, indices, rules, i + 1)
  {
    var c := CheckText(texts[i], rules);
    if c.needsCorrection {
      r' := SetEntry(r, indices[i], texts[i], c.corrected, "error");
      report' := report + [(indices[i], "error", "❌")];
    } else {
      r' := RemoveEntry(r, indices[i]);
      report' := report + [(indices[i], "", "")];
    }
  }

  /** The two loops of `transfer_correction_states`. */
  method Transfer(e: Entries, mapping: seq<(string, string)>) returns (r: Entries)
    ensures r == Transferred(e, mapping)
  {
    var m := Mapped(NoEntries(), {});
    var i := 0;
    while i < |mapping|
      invariant 0 <= i <= |mapping|
      invariant m == MapStep(e, mapping[..i])
    {
      m := MapOne(e, mapping, i, m);
      i := i + 1;
    }
    assert mapping[..|mapping|] == mapping;
    r := KeepAll(m.entries, e, e.states.Keys - m.processed);
  }

  /** The second loop of `transfer_correction_states`: the indices in
      `keep` are copied over from the old dicts. */
  method KeepAll(acc: Entries, e: Entries, keep: set<string>) returns (r: Entries)
    requires keep <= e.states.Keys
    ensures r == KeepUnmapped(acc, e, keep)
  {
    var remaining := keep;
    ghost var done: set<string> := {};
    r := acc;
    KeepUnmappedNone(acc, e);
    while remaining != {}
      invariant remaining <= keep && done == keep - remaining
      invariant r == KeepUnmapped(acc, e, done)
      decreases remaining
    {
      var index :| index in remaining;
      Visit(keep, remaining, done, index);
      r := KeepOne(acc, e, done, index, r);
      remaining := remaining - {index};
      done := done + {index};
    }
    VisitedAll(keep, done);
  }

  /** One index of the second transfer loop. */
  method KeepOne(acc: Entries, e: Entries, ghost done: set<string>, index: string, r: Entries) returns (r': Entries)
    requires index in e.states && r == KeepUnmapped(acc, e, done)
    ensures r' == KeepUnmapped(acc, e, done + {index})
  {
    KeepUnmappedStep(acc, e, done, index);
    r' := Entries(r.states[index := e.states[index]], r.originals[index := GetOr(e.originals, index, "")],
                  r.correcteds[index := GetOr(e.correcteds, index, "")]);
  }

  /** One pair of the mapping loop: an old index with a state is copied to
      its new index and marked handled. */
  method MapOne(e: Entries, mapping: seq<(string, string)>, i: nat, m: Mapped) returns (m': Mapped)
    requires i < |mapping| && m == MapStep(e, mapping[..i])
    ensures m' == MapStep(e, mapping[..i + 1])
  {
    assert mapping[..i + 1][..i] == mapping[..i];
    var (o, n) := mapping[i];
    m' := m;
    if o in e.states {
      m' := Mapped(Entries(m.entries.states[n := e.states[o]], m.entries.originals[n := GetOr(e.originals, o, "")],
                           m.entries.correcteds[n := GetOr(e.correcteds, o, "")]),
                   m.processed + {o});
    }
  }

  class CorrectionService {
    /** The rule table, `{error: correction}` in insertion order. */
    var corrections: Rules
    var correctionStates: map<string, string>
    var originalTexts: map<string, string>
    var correctedTexts: map<string, string>

    function Record(): Entries
      reads this
    {
      Entries(correctionStates, originalTexts, correctedTexts)
    }

    predicate Valid()
      reads this
    {
      ValidRules(corrections) && WellFormed(Record())
    }

    /** A service without a rule file: no rules, no entries. */
    constructor()
      ensures Valid() && corrections == [] && Record() == NoEntries()
    {
      corrections := [];
      correctionStates := map[];
      originalTexts := map[];
      correctedTexts := map[];
    }

    /** `add_correction(error, correction, apply_to_existing)`. */
    method AddCorrection(error: string, correction: string, applyToExisting: bool) returns (count: int)
      requires Valid()
      modifies this
      ensures Valid()
      ensures error == "" || correction == "" ==>
        count == 0 && corrections == old(corrections) && Record() == old(Record())
      ensures error != "" && correction != "" ==> corrections == SetRule(old(corrections), error, correction)
      ensures error != "" && correction != "" && !applyToExisting ==> count == 1 && Record() == old(Record())
      ensures error != "" && correction != "" && applyToExisting ==>
        Record() == ApplyNewRule(old(Record()), error, correction) &&
        count == |Updated(old(Record()), error, correction)|
    {
      if error == "" || correction == "" {
        return 0;
      }
      SetRuleSpec(corrections, error, correction, error);
      corrections := SetRule(corrections, error, correction);
      if !applyToExisting {
        return 1;
      }
      var r, n := ApplyToExisting(Record(), error, correction);
      correctionStates, originalTexts, correctedTexts := r.states, r.originals, r.correcteds;
      count := n;
    }

    /** `remove_correction(error)`: True exactly when the rule existed. */
    method RemoveCorrection(error: string) returns (removed: bool)
      requires Valid()
      modifies this
      ensures Valid() && Record() == old(Record())
      ensures removed <==> error in Keys(old(corrections))
      ensures removed ==> corrections == RemoveRule(old(corrections), error)
      ensures !removed ==> corrections == old(corrections)
    {
      removed := error in Keys(corrections);
      if removed {
        corrections := RemoveRule(corrections, error);
      }
    }

    /** `correct_text(text, table)`: each rule is checked against the text
        corrected so far; the verdict is whether any rule was applied. A
        `None` table means the service's own. */
    function CorrectText(text: string, table: Option<Rules>): (c: Check)
      requires Valid() && (table.Some? ==> KeysNonEmpty(table.value))
      reads this
      ensures c.original == text
      ensures c.corrected == ReplaceAll(text, table.GetOr(corrections))
      ensures c.applied == ApplyTestingRunning(text, table.GetOr(corrections)).applied
      ensures c.needsCorrection <==> |c.applied| > 0
    {
      var rules := table.GetOr(corrections);
      var a := ApplyTestingRunning(text, rules);
      RunningIsReplaceAll(text, rules);
      Check(|a.applied| > 0, a.text, text, a.applied)
    }

    /** `check_text_for_correction(text)`: the empty-text shortcut agrees
        with the general case, which tests errors against the input text. */
    function CheckTextForCorrection(text: string): (c: Check)
      requires Valid()
      reads this
      ensures c == CheckText(text, corrections)
      ensures text == "" ==> c == Check(false, "", "", [])
    {
      if text == "" then
        EmptyTextUntouched(corrections);
        Check(false, "", "", [])
      else CheckText(text, corrections)
    }

    /** `set_correction_state(index, original, corrected, state)`. */
    method SetCorrectionState(index: string, original: string, corrected: string, state: string)
      requires Valid()
      modifies this
      ensures Valid() && corrections == old(corrections)
      ensures Record() == SetEntry(old(Record()), index, original, corrected, state)
    {
      if original != corrected {
        correctionStates := correctionStates[index := state];
        originalTexts := originalTexts[index := original];
        correctedTexts := correctedTexts[index := corrected];
      } else {
        RemoveCorrectionState(index);
      }
    }

    /** `toggle_correction_state(index)`. */
    method ToggleCorrectionState(index: string) returns (result: string)
      modifies this
      ensures old(Valid()) ==> Valid()
      ensures corrections == old(corrections)
      ensures Toggled(Record(), result) == Toggle(old(Record()), index)
    {
      if Valid() {
        ToggleSpec(Record(), index);
      }
      if index in correctionStates {
        result := Flip(correctionStates[index]);
        correctionStates := correctionStates[index := result];
      } else if index in originalTexts && index in correctedTexts {
        correctionStates := correctionStates[index := "correct"];
        result := "correct";
      } else {
        result := "";
      }
    }

    /** `get_correction_state(index)`, with its insertion. */
    method GetCorrectionState(index: string) returns (state: string)
      modifies this
      ensures old(Valid()) ==> Valid()
      ensures corrections == old(corrections)
      ensures Lookup(Record(), state) == GetState(old(Record()), index)
    {
      if index in correctionStates {
        return correctionStates[index];
      }
      if index in originalTexts && index in correctedTexts && originalTexts[index] != correctedTexts[index] {
        correctionStates := correctionStates[index := "correct"];
        return "correct";
      }
      return "";
    }

    /** `remove_correction_state(index)`. */
    method RemoveCorrectionState(index: string)
      requires Valid()
      modifies this
      ensures Valid() && corrections == old(corrections)
      ensures Record() == RemoveEntry(old(Record()), index)
    {
      correctionStates := correctionStates - {index};
      originalTexts := originalTexts - {index};
      correctedTexts := correctedTexts - {index};
    }

    /** `clear_correction_states`. */
    method ClearCorrectionStates()
      requires Valid()
      modifies this
      ensures Valid() && corrections == old(corrections) && Record() == NoEntries()
    {
      correctionStates := map[];
      originalTexts := map[];
      correctedTexts := map[];
    }

    /** `refresh_all_correction_states`. */
    method RefreshAllCorrectionStates()
      requires Valid()
      modifies this
      ensures Valid() && corrections == old(corrections)
      ensures Record() == Refreshed(old(Record()), corrections)
    {
      var r := Refresh(Record(), corrections);
      correctionStates, originalTexts, correctedTexts := r.states, r.originals, r.correcteds;
    }

    /** `handle_text_split(original, texts, indices)`. A ValueError from
        the default indices propagates before anything changes. */
    method HandleTextSplit(originalIndex: string, texts: seq<string>, indices: Option<seq<string>>)
      returns (r: Result<seq<(string, string, string)>>)
      requires Valid()
      modifies this
      ensures Valid() && corrections == old(corrections)
      ensures indices.None? && DefaultSplitIndices(originalIndex, |texts|).Failure? ==>
        r.Failure? && Record() == old(Record())
      ensures indices.Some? || DefaultSplitIndices(originalIndex, |texts|).Success? ==>
        var idx := if indices.Some? then indices.value else DefaultSplitIndices(originalIndex, |texts|).value;
        r == Success(SplitReport(texts, idx, corrections, Min(|texts|, |idx|))) &&
        Record() == Handled(old(Record()), texts, idx, corrections, Min(|texts|, |idx|))
    {
      var idx: seq<string>;
      if indices.Some? {
        idx := indices.value;
      } else {
        var d := DefaultSplitIndices(originalIndex, |texts|);
        if d.Failure? {
          return Failure(d.error);
        }
        idx := d.value;
      }
      HandledFrame(Record(), texts, idx, corrections, Min(|texts|, |idx|));
      var e, report := HandleSplit(Record(), texts, idx, corrections);
      correctionStates, originalTexts, correctedTexts := e.states, e.originals, e.correcteds;
      return Success(report);
    }

    /** `update_correction_states_after_split(original, texts)`. */
    method UpdateCorrectionStatesAfterSplit(originalIndex: string, texts: seq<string>)
      requires Valid()
      modifies this
      ensures Valid() && corrections == old(corrections)
      ensures Record() == SplitPrefix(old(Record()), originalIndex, texts, corrections, |texts|)
    {
      SplitPrefixFrame(Record(), originalIndex, texts, corrections, |texts|);
      SplitPrefixParts(Record(), originalIndex, texts, corrections, |texts|);
      var r := UpdateAfterSplit(Record(), originalIndex, texts, corrections);
      correctionStates, originalTexts, correctedTexts := r.states, r.originals, r.correcteds;
    }

    /** `serialize_state()` at time `now`. */
    method SerializeState(now: real) returns (d: SerialData)
      requires Valid()
      ensures SerializesDiffering(Record(), d, now)
    {
      d := SerializeDiffering(Record(), now);
    }

    /** `deserialize_state(data, id_mapping)`. */
    method DeserializeState(data: SerialData, idMapping: map<string, string>)
      requires Valid()
      modifies this
      ensures Valid() && corrections == old(corrections)
      ensures Record() == Restored(data, idMapping, true)
    {
      ClearCorrectionStates();
      var r := Deserialize(data, idMapping, true);
      correctionStates, originalTexts, correctedTexts := r.states, r.originals, r.correcteds;
    }

    /** `transfer_correction_states(index_mapping)`. */
    method TransferCorrectionStates(mapping: seq<(string, string)>)
      requires Valid()
      modifies this
      ensures Valid() && corrections == old(corrections)
      ensures Record() == Transferred(old(Record()), mapping)
    {
      TransferSpec(Record(), mapping);
      var r := Transfer(Record(), mapping);
      correctionStates, originalTexts, correctedTexts := r.states, r.originals, r.correcteds;
    }
  }
}
