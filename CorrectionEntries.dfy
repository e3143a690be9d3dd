/** The per-entry correction record kept by every correction class: three
    dicts keyed by an entry-index string, holding the entry's state
    (`'correct'` shows the corrected text, `'error'` the original), its
    original text and its corrected text. The operations below are the ones
    all copies share; each class's methods are stated through them. */
module CorrectionEntries {
  import opened Wrappers
  import opened Strings
  import opened RuleEngine

  datatype Entries = Entries(states: map<string, string>, originals: map<string, string>,
                             correcteds: map<string, string>)

  function NoEntries(): Entries {
    Entries(map[], map[], map[])
  }

  /** `d.get(k, default)`. */
  function GetOr(d: map<string, string>, k: string, default: string): (r: string)
    ensures k in d ==> r == d[k]
    ensures k !in d ==> r == default
  {
    if k in d then d[k] else default
  }

  /** The invariant every operation keeps: one key set for the three dicts,
      and an entry only where the original and corrected texts differ. */
  predicate WellFormed(e: Entries) {
    e.states.Keys == e.originals.Keys && e.originals.Keys == e.correcteds.Keys &&
    forall k :: k in e.originals ==> e.originals[k] != e.correcteds[k]
  }

  /** `a` and `b` agree on key `k` in all three dicts. */
  predicate SameAt(a: Entries, b: Entries, k: string) {
    (k in a.states <==> k in b.states) && (k in a.states ==> a.states[k] == b.states[k]) &&
    (k in a.originals <==> k in b.originals) && (k in a.originals ==> a.originals[k] == b.originals[k]) &&
    (k in a.correcteds <==> k in b.correcteds) && (k in a.correcteds ==> a.correcteds[k] == b.correcteds[k])
  }

  /** `remove_correction_state(k)`: delete `k` from each dict holding it. */
  function RemoveEntry(e: Entries, k: string): (r: Entries)
    ensures k !in r.states && k !in r.originals && k !in r.correcteds
    ensures forall j :: j != k ==> SameAt(r, e, j)
    ensures WellFormed(e) ==> WellFormed(r)
  {
    Entries(e.states - {k}, e.originals - {k}, e.correcteds - {k})
  }

  /** `set_correction_state`/`add_correction_state(k, original, corrected,
      state)`: store the entry when the texts differ, remove it otherwise. */
  function SetEntry(e: Entries, k: string, original: string, corrected: string, state: string): (r: Entries)
    ensures original != corrected ==>
      k in r.states && k in r.originals && k in r.correcteds &&
      r.states[k] == state && r.originals[k] == original && r.correcteds[k] == corrected
    ensures original == corrected ==> k !in r.states && k !in r.originals && k !in r.correcteds
    ensures forall j :: j != k ==> SameAt(r, e, j)
    ensures WellFormed(e) ==> WellFormed(r)
  {
    if original != corrected then
      Entries(e.states[k := state], e.originals[k := original], e.correcteds[k := corrected])
    else RemoveEntry(e, k)
  }

  /** The state `toggle_correction_state` moves to from `s`. */
  function Flip(s: string): string {
    if s == "correct" then "error" else "correct"
  }

  datatype Toggled = Toggled(entries: Entries, result: string)

  /** `toggle_correction_state(k)`: flip an existing state; create
      `'correct'` when both texts are stored without a state; otherwise
      answer `''` and change nothing. */
  function Toggle(e: Entries, k: string): (t: Toggled)
    ensures k in e.states ==> t.result == Flip(e.states[k]) && t.entries == e.(states := e.states[k := t.result])
    ensures k !in e.states && k in e.originals && k in e.correcteds ==>
      t.result == "correct" && t.entries == e.(states := e.states[k := "correct"])
    ensures k !in e.states && !(k in e.originals && k in e.correcteds) ==> t == Toggled(e, "")
  {
    if k in e.states then Toggled(e.(states := e.states[k := Flip(e.states[k])]), Flip(e.states[k]))
    else if k in e.originals && k in e.correcteds then Toggled(e.(states := e.states[k := "correct"]), "correct")
    else Toggled(e, "")
  }

  /** On well-formed entries a toggle answers `''` exactly for an unknown
      index, keeps the invariant, and a second toggle undoes the first for
      the two states the editor uses. */
  lemma ToggleSpec(e: Entries, k: string)
    requires WellFormed(e)
    ensures Toggle(e, k).result == "" <==> k !in e.states
    ensures WellFormed(Toggle(e, k).entries)
    ensures k in e.states && e.states[k] in {"correct", "error"} ==>
      Toggle(Toggle(e, k).entries, k).entries == e
  {
    if k in e.states && e.states[k] in {"correct", "error"} {
      var t := Toggle(e, k);
      assert Flip(Flip(e.states[k])) == e.states[k];
      assert t.entries.states[k := Flip(t.result)] == e.states;
    }
  }

  datatype Lookup = Lookup(entries: Entries, state: string)

  /** `get_correction_state(k)`: the stored state; for an index with two
      differing texts but no state it inserts and answers `'correct'`;
      otherwise `''`. */
  function GetState(e: Entries, k: string): (g: Lookup)
    ensures k in e.states ==> g == Lookup(e, e.states[k])
    ensures k !in e.states && k in e.originals && k in e.correcteds && e.originals[k] != e.correcteds[k] ==>
      g == Lookup(e.(states := e.states[k := "correct"]), "correct")
    ensures g.entries != e ==> k !in e.states && g.state == "correct"
    ensures g.state == "" ==> g.entries == e
  {
    if k in e.states then Lookup(e, e.states[k])
    else if k in e.originals && k in e.correcteds && e.originals[k] != e.correcteds[k] then
      Lookup(e.(states := e.states[k := "correct"]), "correct")
    else Lookup(e, "")
  }

  /** The insertion in `get_correction_state` never fires on well-formed
      entries: there every index with texts already has a state. */
  lemma GetStateReadOnly(e: Entries, k: string)
    requires WellFormed(e)
    ensures GetState(e, k).entries == e
    ensures GetState(e, k).state == (if k in e.states then e.states[k] else "")
  {
  }

  /** The index `update_correction_states_after_split` gives part `i`. */
  function PartIndex(original: string, i: nat): (r: string)
    ensures |r| > |original| && r[..|original|] == original
  {
    original + "_" + NatToString(i)
  }

  lemma PartIndexInjective(original: string, i: nat, j: nat)
    requires PartIndex(original, i) == PartIndex(original, j)
    ensures i == j
  {
    var a := PartIndex(original, i);
    assert a[|original| + 1..] == NatToString(i);
    assert PartIndex(original, j)[|original| + 1..] == NatToString(j);
  }

  /** The entries after `update_correction_states_after_split` has handled
      the first `n` parts: the original index removed, then each part that
      needs correction stored as `'correct'` under `PartIndex`. */
  function SplitPrefix(e: Entries, original: string, parts: seq<string>, rules: Rules, n: nat): Entries
    requires KeysNonEmpty(rules) && n <= |parts|
  {
    if n == 0 then RemoveEntry(e, original)
    else
      var c := CheckText(parts[n - 1], rules);
      var p := SplitPrefix(e, original, parts, rules, n - 1);
      if c.needsCorrection then SetEntry(p, PartIndex(original, n - 1), parts[n - 1], c.corrected, "correct")
      else p
  }

  predicate IsPartIndex(original: string, k: string, n: nat) {
    exists i: nat :: i < n && k == PartIndex(original, i)
  }

  /** A part whose text needs correction has an entry holding `'correct'`,
      the part and its corrected text; for any other part, whatever `e` held
      under its index is left as it was. */
  predicate PartStored(r: Entries, e: Entries, original: string, parts: seq<string>, rules: Rules, i: nat)
    requires KeysNonEmpty(rules) && i < |parts|
  {
    var c := CheckText(parts[i], rules);
    var k := PartIndex(original, i);
    (!c.needsCorrection ==> SameAt(r, e, k)) &&
    (c.needsCorrection ==> k in r.states && k in r.originals && k in r.correcteds &&
                           r.states[k] == "correct" && r.originals[k] == parts[i] && r.correcteds[k] == c.corrected)
  }

  /** After the split the invariant holds, the original index is gone and
      every index that is neither the original nor a part's is untouched. */
  lemma {:induction false} SplitPrefixFrame(e: Entries, original: string, parts: seq<string>, rules: Rules, n: nat)
    requires KeysNonEmpty(rules) && n <= |parts|
    ensures WellFormed(e) ==> WellFormed(SplitPrefix(e, original, parts, rules, n))
    ensures original !in SplitPrefix(e, original, parts, rules, n).states
    ensures forall k :: k != original && !IsPartIndex(original, k, n) ==>
      SameAt(SplitPrefix(e, original, parts, rules, n), e, k)
  {
    if n > 0 {
      SplitPrefixFrame(e, original, parts, rules, n - 1);
      var r := SplitPrefix(e, original, parts, rules, n);
      var p := SplitPrefix(e, original, parts, rules, n - 1);
      var key := PartIndex(original, n - 1);
      assert key != original;
      forall k | k != original && !IsPartIndex(original, k, n) ensures SameAt(r, e, k) {
        assert k != key;
        forall i: nat | i < n - 1 ensures k != PartIndex(original, i) {
          assert !(i < n && k == PartIndex(original, i));
        }
        assert !IsPartIndex(original, k, n - 1);
        assert SameAt(p, e, k);
      }
    }
  }

  /** After the split every part is as `PartStored` says. */
  lemma SplitPrefixParts(e: Entries, original: string, parts: seq<string>, rules: Rules, n: nat)
    requires KeysNonEmpty(rules) && n <= |parts|
    ensures forall i: nat :: i < n ==> PartStored(SplitPrefix(e, original, parts, rules, n), e, original, parts, rules, i)
  {
    forall i: nat | i < n ensures PartStored(SplitPrefix(e, original, parts, rules, n), e, original, parts, rules, i) {
      SplitPrefixPart(e, original, parts, rules, n, i);
    }
  }

  lemma {:induction false} SplitPrefixPart(e: Entries, original: string, parts: seq<string>, rules: Rules, n: nat, i: nat)
    requires KeysNonEmpty(rules) && i < n <= |parts|
    ensures PartStored(SplitPrefix(e, original, parts, rules, n), e, original, parts, rules, i)
  {
    var p := SplitPrefix(e, original, parts, rules, n - 1);
    var key := PartIndex(original, n - 1);
    if i < n - 1 {
      SplitPrefixPart(e, original, parts, rules, n - 1, i);
      if PartIndex(original, i) == key { PartIndexInjective(original, i, n - 1); }
      assert SameAt(SplitPrefix(e, original, parts, rules, n), p, PartIndex(original, i));
    } else if !CheckText(parts[n - 1], rules).needsCorrection {
      SplitPrefixFrame(e, original, parts, rules, n - 1);
      if IsPartIndex(original, key, n - 1) {
        var j: nat :| j < n - 1 && key == PartIndex(original, j);
        PartIndexInjective(original, j, n - 1);
      }
    }
  }

  /** One serialized entry; a field the dict lacks is `None`. */
  datatype SerialEntry = SerialEntry(state: Option<string>, original: Option<string>,
                                     corrected: Option<string>, timestamp: Option<real>)

  /** A serialized dict, in its iteration order. */
  type SerialData = seq<(string, SerialEntry)>

  function DataKeys(d: SerialData): set<string> {
    set i | 0 <= i < |d| :: d[i].0
  }

  predicate DistinctKeys(d: SerialData) {
    forall i, j :: 0 <= i < j < |d| ==> d[i].0 != d[j].0
  }

  lemma DataKeysAppend(d: SerialData, k: string, entry: SerialEntry)
    ensures DataKeys(d + [(k, entry)]) == DataKeys(d) + {k}
  {
    var d' := d + [(k, entry)];
    assert d'[|d|].0 == k;
    forall x | x in DataKeys(d) ensures x in DataKeys(d') {
      var i :| 0 <= i < |d| && d[i].0 == x;
      assert d'[i] == d[i];
    }
  }

  /** Entries that agree on every index are equal. */
  lemma SameEverywhere(a: Entries, b: Entries)
    requires forall k :: SameAt(a, b, k)
    ensures a == b
  {
    forall k | k in a.states || k in b.states
      ensures k in a.states && k in b.states && a.states[k] == b.states[k] { assert SameAt(a, b, k); }
    forall k | k in a.originals || k in b.originals
      ensures k in a.originals && k in b.originals && a.originals[k] == b.originals[k] { assert SameAt(a, b, k); }
    forall k | k in a.correcteds || k in b.correcteds
      ensures k in a.correcteds && k in b.correcteds && a.correcteds[k] == b.correcteds[k] { assert SameAt(a, b, k); }
  }

  /** Visiting one more key of `keys`: the visited set grows by exactly
      that key. */
  lemma Visit(keys: set<string>, remaining: set<string>, done: set<string>, k: string)
    requires done == keys - remaining && k in remaining && remaining <= keys
    ensures k !in done && k in keys && done + {k} == keys - (remaining - {k})
  {
  }

  /** With nothing left to visit, every key has been visited. */
  lemma VisitedAll(keys: set<string>, done: set<string>)
    requires done == keys - {}
    ensures done == keys
  {
  }

  /** Every index any of the three dicts mentions. */
  function AllIndices(e: Entries): set<string> {
    e.states.Keys + e.originals.Keys + e.correcteds.Keys
  }

  /** The stored texts of `k` differ, reading a missing text as `''`. */
  predicate Differs(e: Entries, k: string) {
    GetOr(e.originals, k, "") != GetOr(e.correcteds, k, "")
  }

  /** The dict `serialize_state` writes for index `k` at time `now`. */
  function Serial(e: Entries, k: string, now: real): SerialEntry {
    SerialEntry(Some(GetOr(e.states, k, "")), Some(GetOr(e.originals, k, "")),
                Some(GetOr(e.correcteds, k, "")), Some(now))
  }

  /** `d` is a serialization that keeps only the indices whose texts
      differ (the newer copies). */
  predicate SerializesDiffering(e: Entries, d: SerialData, now: real) {
    DistinctKeys(d) &&
    DataKeys(d) == (set k | k in AllIndices(e) && Differs(e, k)) &&
    forall i :: 0 <= i < |d| ==> d[i].1 == Serial(e, d[i].0, now)
  }

  /** `d` is a serialization of every index that has a state (the older
      service). */
  predicate SerializesAll(e: Entries, d: SerialData, now: real) {
    DistinctKeys(d) &&
    DataKeys(d) == e.states.Keys &&
    forall i :: 0 <= i < |d| ==> d[i].1 == Serial(e, d[i].0, now)
  }

  /** The loop of the newer `serialize_state`: the indices of all three
      dicts, in an order the model leaves open, keeping those whose texts
      differ. */
  method SerializeDiffering(e: Entries, now: real) returns (d: SerialData)
    ensures SerializesDiffering(e, d, now)
  {
    d := [];
    var remaining := AllIndices(e);
    while remaining != {}
      invariant remaining <= AllIndices(e)
      invariant DistinctKeys(d)
      invariant DataKeys(d) == (set k | k in AllIndices(e) - remaining && Differs(e, k))
      invariant forall i :: 0 <= i < |d| ==> d[i].1 == Serial(e, d[i].0, now)
      decreases remaining
    {
      var k :| k in remaining;
      if Differs(e, k) {
        assert k !in DataKeys(d);
        DataKeysAppend(d, k, Serial(e, k, now));
        d := d + [(k, Serial(e, k, now))];
      }
      remaining := remaining - {k};
    }
  }

  /** The loop of the older `serialize_state`: every index with a state,
      unfiltered. */
  method SerializeAll(e: Entries, now: real) returns (d: SerialData)
    ensures SerializesAll(e, d, now)
  {
    d := [];
    var remaining := e.states.Keys;
    while remaining != {}
      invariant remaining <= e.states.Keys
      invariant DistinctKeys(d)
      invariant DataKeys(d) == e.states.Keys - remaining
      invariant forall i :: 0 <= i < |d| ==> d[i].1 == Serial(e, d[i].0, now)
      decreases remaining
    {
      var k :| k in remaining;
      assert k !in DataKeys(d);
      DataKeysAppend(d, k, Serial(e, k, now));
      d := d + [(k, Serial(e, k, now))];
      remaining := remaining - {k};
    }
  }

  /** The index an `id_mapping` gives `k`. */
  function Target(k: string, mapping: map<string, string>): string {
    if k in mapping then mapping[k] else k
  }

  /** Whether `deserialize_state` restores an entry: its texts (default
      `''`) differ and, in the newer copies, neither is empty. */
  predicate Accepts(entry: SerialEntry, nonEmptyOnly: bool) {
    var o := entry.original.GetOr("");
    var c := entry.corrected.GetOr("");
    (nonEmptyOnly ==> o != "" && c != "") && o != c
  }

  /** One step of `deserialize_state`: store an accepted entry under `k`,
      its state defaulting to `'correct'`. */
  function RestoreOne(e: Entries, k: string, entry: SerialEntry, nonEmptyOnly: bool): (r: Entries)
    ensures WellFormed(e) ==> WellFormed(r)
    ensures forall j :: j != k ==> SameAt(r, e, j)
    ensures !Accepts(entry, nonEmptyOnly) ==> r == e
  {
    if Accepts(entry, nonEmptyOnly) then
      Entries(e.states[k := entry.state.GetOr("correct")], e.originals[k := entry.original.GetOr("")],
              e.correcteds[k := entry.corrected.GetOr("")])
    else e
  }

  /** `deserialize_state(d, mapping)`: start from no entries and restore
      the accepted entries of `d` in order, each under its mapped index. */
  function Restored(d: SerialData, mapping: map<string, string>, nonEmptyOnly: bool): (r: Entries)
    ensures WellFormed(r)
    decreases |d|
  {
    if |d| == 0 then NoEntries()
    else RestoreOne(Restored(d[..|d| - 1], mapping, nonEmptyOnly), Target(d[|d| - 1].0, mapping),
                    d[|d| - 1].1, nonEmptyOnly)
  }

  /** Index `k` of `r` is exactly what restoring `entry` there gives. */
  predicate RestoredEntry(r: Entries, k: string, entry: SerialEntry, nonEmptyOnly: bool) {
    if Accepts(entry, nonEmptyOnly) then
      k in r.states && k in r.originals && k in r.correcteds &&
      r.states[k] == entry.state.GetOr("correct") && r.originals[k] == entry.original.GetOr("") &&
      r.correcteds[k] == entry.corrected.GetOr("")
    else k !in r.states && k !in r.originals && k !in r.correcteds
  }

  /** Without an id mapping and with distinct keys, every index of `d` is
      restored from its own entry, and nothing else is restored. */
  lemma {:induction false} RestoredAt(d: SerialData, nonEmptyOnly: bool)
    requires DistinctKeys(d)
    ensures forall i :: 0 <= i < |d| ==> RestoredEntry(Restored(d, map[], nonEmptyOnly), d[i].0, d[i].1, nonEmptyOnly)
    ensures forall k :: k !in DataKeys(d) ==> SameAt(Restored(d, map[], nonEmptyOnly), NoEntries(), k)
    decreases |d|
  {
    if |d| > 0 {
      var n := |d| - 1;
      var pre := d[..n];
      assert DistinctKeys(pre);
      RestoredAt(pre, nonEmptyOnly);
      var p := Restored(pre, map[], nonEmptyOnly);
      var r := Restored(d, map[], nonEmptyOnly);
      assert Target(d[n].0, map[]) == d[n].0;
      assert r == RestoreOne(p, d[n].0, d[n].1, nonEmptyOnly);
      assert d[n].0 !in DataKeys(pre);
      forall i | 0 <= i < |d| ensures RestoredEntry(r, d[i].0, d[i].1, nonEmptyOnly) {
        if i < n {
          assert pre[i] == d[i];
          assert SameAt(r, p, d[i].0);
        }
      }
      forall k | k !in DataKeys(d) ensures SameAt(r, NoEntries(), k) {
        assert k != d[n].0;
        assert k !in DataKeys(pre) by {
          forall i | 0 <= i < n ensures pre[i].0 != k { assert pre[i] == d[i]; }
        }
      }
    }
  }

  /** An index whose two texts are both non-empty. */
  predicate NonEmptyTexts(e: Entries, k: string) {
    k in e.states && k in e.originals && k in e.correcteds && e.originals[k] != "" && e.correcteds[k] != ""
  }

  /** The entries a newer copy can restore: those with two non-empty texts. */
  function NonEmptyPart(e: Entries): Entries {
    Entries(map k | k in e.states && NonEmptyTexts(e, k) :: e.states[k],
            map k | k in e.originals && NonEmptyTexts(e, k) :: e.originals[k],
            map k | k in e.correcteds && NonEmptyTexts(e, k) :: e.correcteds[k])
  }

  /** Newer copies: deserializing a serialization, without an id mapping,
      gives back every entry whose two texts are non-empty. */
  lemma RoundTripDiffering(e: Entries, d: SerialData, now: real)
    requires WellFormed(e) && SerializesDiffering(e, d, now)
    ensures Restored(d, map[], true) == NonEmptyPart(e)
  {
    RestoredAt(d, true);
    var r := Restored(d, map[], true);
    var np := NonEmptyPart(e);
    forall k ensures SameAt(r, np, k) {
      if k in DataKeys(d) {
        var i :| 0 <= i < |d| && d[i].0 == k;
        assert RestoredEntry(r, k, d[i].1, true);
        assert k in AllIndices(e) && Differs(e, k);
      } else {
        assert SameAt(r, NoEntries(), k);
      }
    }
    SameEverywhere(r, np);
  }

  /** Older service: deserializing a serialization gives back the entries
      unchanged. */
  lemma RoundTripAll(e: Entries, d: SerialData, now: real)
    requires WellFormed(e) && SerializesAll(e, d, now)
    ensures Restored(d, map[], false) == e
  {
    RestoredAt(d, false);
    var r := Restored(d, map[], false);
    forall k ensures SameAt(r, e, k) {
      if k in DataKeys(d) {
        var i :| 0 <= i < |d| && d[i].0 == k;
        assert RestoredEntry(r, k, d[i].1, false);
      } else {
        assert SameAt(r, NoEntries(), k);
      }
    }
    SameEverywhere(r, e);
  }

  /** The loop of `update_correction_states_after_split`, shared by the
      three copies that have it. */
  method UpdateAfterSplit(e: Entries, original: string, parts: seq<string>, rules: Rules) returns (r: Entries)
    requires KeysNonEmpty(rules)
    ensures r == SplitPrefix(e, original, parts, rules, |parts|)
  {
    r := RemoveEntry(e, original);
    var i := 0;
    while i < |parts|
      invariant 0 <= i <= |parts|
      invariant r == SplitPrefix(e, original, parts, rules, i)
    {
      var c := CheckText(parts[i], rules);
      if c.needsCorrection {
        r := SetEntry(r, PartIndex(original, i), c.original, c.corrected, "correct");
      }
      i := i + 1;
    }
  }

  /** The loop of `deserialize_state`, after the dicts are cleared. */
  method Deserialize(d: SerialData, mapping: map<string, string>, nonEmptyOnly: bool) returns (r: Entries)
    ensures r == Restored(d, mapping, nonEmptyOnly)
  {
    r := NoEntries();
    var i := 0;
    while i < |d|
      invariant 0 <= i <= |d|
      invariant r == Restored(d[..i], mapping, nonEmptyOnly)
    {
      assert d[..i + 1][..i] == d[..i];
      var index := if mapping != map[] && d[i].0 in mapping then mapping[d[i].0] else d[i].0;
      var o := d[i].1.original.GetOr("");
      var c := d[i].1.corrected.GetOr("");
      if (nonEmptyOnly ==> o != "" && c != "") && o != c {
        r := Entries(r.states[index := d[i].1.state.GetOr("correct")], r.originals[index := o],
                     r.correcteds[index := c]);
      }
      i := i + 1;
    }
    assert d[..|d|] == d;
  }
}
