/** The alignment window's own bookkeeping over the subtitle tree: the
    time conversion, the choice of display mode from the imported files,
    the row builders, the in-place update of a row's text and mark, the
    edit marks, the alignment of end times and the insertion of the parts
    of a split subtitle. */
module AlignmentGui {
  import opened Wrappers
  import opened Strings
  import opened RuleEngine
  import opened CorrectionEntries
  import opened RowLayouts
  import opened LegacyCorrection

  /** `time_to_milliseconds(time)`. */
  function TimeToMilliseconds(hours: int, minutes: int, seconds: int, milliseconds: int): (t: int)
    ensures hours >= 0 && minutes >= 0 && seconds >= 0 && milliseconds >= 0 ==> t >= 0
  {
    (hours * 3600 + minutes * 60 + seconds) * 1000 + milliseconds
  }

  /** A time with its fields in range is recovered from its milliseconds,
      so the conversion orders and identifies such times faithfully. */
  lemma MillisecondsDecompose(hours: nat, minutes: nat, seconds: nat, milliseconds: nat)
    requires minutes < 60 && seconds < 60 && milliseconds < 1000
    ensures var t := TimeToMilliseconds(hours, minutes, seconds, milliseconds);
      t % 1000 == milliseconds && (t / 1000) % 60 == seconds &&
      (t / 60000) % 60 == minutes && t / 3600000 == hours
  {
    var t := TimeToMilliseconds(hours, minutes, seconds, milliseconds);
    var s := hours * 3600 + minutes * 60 + seconds;
    assert t == s * 1000 + milliseconds;
    assert t / 1000 == s;
    assert s == (hours * 60 + minutes) * 60 + seconds;
    assert s % 60 == seconds && s / 60 == hours * 60 + minutes;
    assert t / 60000 == s / 60 by {
      assert t == (s / 60) * 60000 + (seconds * 1000 + milliseconds);
      assert 0 <= seconds * 1000 + milliseconds < 60000;
    }
    assert t / 3600000 == hours by {
      assert t == hours * 3600000 + ((minutes * 60 + seconds) * 1000 + milliseconds);
      assert 0 <= (minutes * 60 + seconds) * 1000 + milliseconds < 3600000;
    }
  }

  /** The layout the imported files call for; none before an SRT file. */
  function ExpectedMode(srt: bool, word: bool, audio: bool): (m: Option<string>)
    ensures m.None? <==> !srt
    ensures m.Some? ==> KnownMode(m.value) && (HasWord(m.value) <==> word) && (HasAudio(m.value) <==> audio)
  {
    if srt && word && audio then Some(ModeAll)
    else if srt && word then Some(ModeSrtWord)
    else if srt && audio then Some(ModeAudioSrt)
    else if srt then Some(ModeSrt)
    else None
  }

  /** The layout a row builder falls back on: its `else` branch is SRT. */
  function LayoutOf(mode: string): (m: string)
    ensures KnownMode(m)
    ensures KnownMode(mode) ==> m == mode
  {
    if KnownMode(mode) then mode else ModeSrt
  }

  /** `_build_values_for_mode(index, start, end, text, word, match, icon)`
      (the seven-argument builder): the fields in the layout's order. */
  function BuildRow(mode: string, index: string, start: string, end: string, text: string,
                    wordText: string, matched: string, icon: string): (row: seq<string>)
    ensures |row| == Width(LayoutOf(mode))
    ensures row == BuildValuesForMode(Extracted(index, start, end, text, wordText, matched, icon, PlayIcon),
                                      LayoutOf(mode))
  {
    if mode == ModeAll then [PlayIcon, index, start, end, text, wordText, matched, icon]
    else if mode == ModeSrtWord then [index, start, end, text, wordText, matched, icon]
    else if mode == ModeAudioSrt then [PlayIcon, index, start, end, text, icon]
    else [index, start, end, text, icon]
  }

  /** `prepare_values_for_mode(mode, sub, text, word, diff, needs)`: the
      same layouts with a `✅` exactly when a correction is needed. */
  function PrepareValuesForMode(mode: string, index: string, start: string, end: string, text: string,
                                wordText: string, diffText: string, needsCorrection: bool): (row: seq<string>)
    ensures row == BuildRow(mode, index, start, end, text, wordText, diffText,
                            if needsCorrection then CorrectIcon else "")
    ensures ExtractKeyValues(row, LayoutOf(mode)).srtText == text
    ensures ExtractKeyValues(row, LayoutOf(mode)).index == index
    ensures row[VxPos(LayoutOf(mode))] == CorrectIcon <==> needsCorrection
  {
    var icon := if needsCorrection then CorrectIcon else "";
    var row := if mode == ModeAll then [PlayIcon, index, start, end, text, wordText, diffText, icon]
      else if mode == ModeSrtWord then [index, start, end, text, wordText, diffText, icon]
      else if mode == ModeAudioSrt then [PlayIcon, index, start, end, text, icon]
      else [index, start, end, text, icon];
    BuildExtractRoundTrip(row, LayoutOf(mode));
    row
  }

  /** The row `_update_tree_item_text` leaves: the text and the mark in
      their layout positions, each only where the row has that cell. */
  function WithText(values: seq<string>, mode: string, text: string, icon: string): (r: seq<string>)
    ensures |r| == |values|
  {
    var m := LayoutOf(mode);
    var t := if TextPos(m) < |values| then values[TextPos(m) := text] else values;
    if VxPos(m) < |t| then t[VxPos(m) := icon] else t
  }

  /** On a row of its layout's width the update changes the SRT Text and
      V/X fields and keeps every other field. */
  lemma WithTextFields(values: seq<string>, mode: string, text: string, icon: string)
    requires KnownMode(mode) && |values| == Width(mode)
    ensures ExtractKeyValues(WithText(values, mode, text, icon), mode) ==
            ExtractKeyValues(values, mode).(srtText := text, vx := icon)
  {
  }

  /** `_update_tree_item_text(values, text, icon)` on the row's list. */
  method UpdateTreeItemText(values: array<string>, mode: string, text: string, icon: string)
    modifies values
    ensures values[..] == WithText(old(values[..]), mode, text, icon)
  {
    var m := LayoutOf(mode);
    var t := TextPos(m);
    var v := VxPos(m);
    if t < values.Length {
      values[t] := text;
    }
    if v < values.Length {
      values[v] := icon;
    }
  }

  /** The edit list of `index`, empty when it has none. */
  function EditsOf(info: map<string, seq<string>>, index: string): seq<string> {
    if index in info then info[index] else []
  }

  /** Every edit list names each edit once. */
  predicate Distinct(edits: seq<string>) {
    forall i, j :: 0 <= i < j < |edits| ==> edits[i] != edits[j]
  }

  predicate EditsDistinct(info: map<string, seq<string>>) {
    forall k :: k in info ==> Distinct(info[k])
  }

  /** `edited_text_info` after `_mark_text_edited(index, edit)`. */
  function Marked(info: map<string, seq<string>>, index: string, edit: string): (r: map<string, seq<string>>)
    ensures index in r && edit in r[index]
    ensures forall k :: k != index ==> (k in r <==> k in info) && (k in info ==> r[k] == info[k])
  {
    var edits := EditsOf(info, index);
    info[index := if edit in edits then edits else edits + [edit]]
  }

  /** Marking keeps the lists duplicate-free, lists the edit exactly once,
      and keeps what was listed before in its order. */
  lemma MarkedOnce(info: map<string, seq<string>>, index: string, edit: string)
    requires EditsDistinct(info)
    ensures EditsDistinct(Marked(info, index, edit))
    ensures multiset(Marked(info, index, edit)[index])[edit] == 1
    ensures EditsOf(info, index) <= Marked(info, index, edit)[index]
  {
    var edits := EditsOf(info, index);
    if edit !in edits {
      assert multiset(edits)[edit] == 0;
      assert multiset(edits + [edit]) == multiset(edits) + multiset{edit};
    } else {
      DistinctCountsOne(edits, edit);
    }
  }

  lemma {:induction false} DistinctCountsOne(edits: seq<string>, edit: string)
    requires Distinct(edits) && edit in edits
    ensures multiset(edits)[edit] == 1
  {
    if edits[0] == edit {
      assert edit !in edits[1..];
      assert edits == [edits[0]] + edits[1..];
      assert multiset(edits) == multiset{edits[0]} + multiset(edits[1..]);
    } else {
      assert edits == [edits[0]] + edits[1..];
      assert multiset(edits) == multiset{edits[0]} + multiset(edits[1..]);
      DistinctCountsOne(edits[1..], edit);
    }
  }

  /** Marking twice is marking once. */
  lemma MarkedIdempotent(info: map<string, seq<string>>, index: string, edit: string)
    ensures Marked(Marked(info, index, edit), index, edit) == Marked(info, index, edit)
  {
  }

  /** The Start and End cells `align_end_times` uses: one further right in
      the layouts that begin with the play icon. */
  function StartCell(mode: string): (p: nat)
    ensures KnownMode(mode) ==> p < |Columns(mode).value| && Columns(mode).value[p] == "Start"
  {
    if mode == ModeSrt || mode == ModeSrtWord then 1 else 2
  }

  function EndCell(mode: string): (p: nat)
    ensures p == StartCell(mode) + 1
    ensures KnownMode(mode) ==> p < |Columns(mode).value| && Columns(mode).value[p] == "End"
  {
    StartCell(mode) + 1
  }

  /** Row `i` after alignment: its End is the next row's Start, unless it
      is the last row or either row is too short. */
  function AlignedRow(rows: seq<seq<string>>, i: nat, mode: string): seq<string>
    requires i < |rows|
  {
    if i + 1 < |rows| && |rows[i]| > EndCell(mode) && |rows[i + 1]| > StartCell(mode)
    then rows[i][EndCell(mode) := rows[i + 1][StartCell(mode)]]
    else rows[i]
  }

  function Aligned(rows: seq<seq<string>>, mode: string): (r: seq<seq<string>>)
    ensures |r| == |rows|
  {
    seq(|rows|, i requires 0 <= i < |rows| => AlignedRow(rows, i, mode))
  }

  /** Alignment leaves every Start, every row length and the last row as
      they were, and afterwards each long-enough row ends where the next
      one starts. */
  lemma AlignedContiguous(rows: seq<seq<string>>, mode: string)
    ensures forall i :: 0 <= i < |rows| ==> |Aligned(rows, mode)[i]| == |rows[i]|
    ensures forall i :: 0 <= i < |rows| && |rows[i]| > StartCell(mode) ==>
      Aligned(rows, mode)[i][StartCell(mode)] == rows[i][StartCell(mode)]
    ensures |rows| > 0 ==> Aligned(rows, mode)[|rows| - 1] == rows[|rows| - 1]
    ensures forall i :: 0 <= i < |rows| - 1 && |rows[i]| > EndCell(mode) && |rows[i + 1]| > StartCell(mode) ==>
      Aligned(rows, mode)[i][EndCell(mode)] == Aligned(rows, mode)[i + 1][StartCell(mode)]
    ensures forall i, c :: 0 <= i < |rows| && 0 <= c < |rows[i]| && c != EndCell(mode) ==>
      Aligned(rows, mode)[i][c] == rows[i][c]
  {
  }

  /** `align_end_times()` on the tree's rows: with no rows it warns and
      changes nothing; otherwise every row but the last takes the next
      row's Start as its End, reading the next row before it is changed. */
  method AlignEndTimes(rows: array<seq<string>>, mode: string) returns (warned: bool)
    modifies rows
    ensures warned <==> rows.Length == 0
    ensures rows[..] == Aligned(old(rows[..]), mode)
  {
    if rows.Length == 0 {
      return true;
    }
    ghost var before := rows[..];
    var i := 0;
    while i < rows.Length - 1
      invariant 0 <= i <= rows.Length - 1
      invariant forall j :: 0 <= j < i ==> rows[j] == AlignedRow(before, j, mode)
      invariant forall j :: i <= j < rows.Length ==> rows[j] == before[j]
    {
      var current := rows[i];
      var next := rows[i + 1];
      if |current| > EndCell(mode) && |next| > StartCell(mode) {
        rows[i] := current[EndCell(mode) := next[StartCell(mode)]];
      }
      i := i + 1;
    }
    assert rows[..] == Aligned(before, mode);
    return false;
  }

  /** One part of a split subtitle: its text and its new times. */
  datatype Part = Part(text: string, start: string, end: string)

  /** The tree row a split part gets: index `srtIndex + i`, the text as
      split, a `❌` when it needs correction, and the Word text and match
      only on the first part; fitted to the tree's column count. */
  function SplitRow(parts: seq<Part>, i: nat, srtIndex: int, wordText: string, matched: string,
                    mode: string, rules: Rules, treeWidth: nat): (row: seq<string>)
    requires KeysNonEmpty(rules) && i < |parts|
    ensures |row| == treeWidth
  {
    var icon := if CheckText(parts[i].text, rules).needsCorrection then ErrorIcon else "";
    FitLength(BuildRow(mode, SplitKey(srtIndex, i), parts[i].start, parts[i].end, parts[i].text,
                       if i == 0 then wordText else "", if i == 0 then matched else "", icon), treeWidth)
  }

  /** The entries after the first `n` parts have recorded their
      corrections as errors. */
  function SplitMarked(e: Entries, parts: seq<Part>, srtIndex: int, rules: Rules, n: nat): Entries
    requires KeysNonEmpty(rules) && n <= |parts|
  {
    if n == 0 then e
    else
      var c := CheckText(parts[n - 1].text, rules);
      var p := SplitMarked(e, parts, srtIndex, rules, n - 1);
      if c.needsCorrection then SetEntry(p, SplitKey(srtIndex, n - 1), parts[n - 1].text, c.corrected, "error")
      else p
  }

  /** The index of the `i`-th part, `str(srt_index + i)`. */
  function SplitKey(srtIndex: int, i: nat): string {
    IntToString(srtIndex + i)
  }

  /** Entries of an index that is none of the parts' are untouched. */
  lemma {:induction false} SplitMarkedFrame(e: Entries, parts: seq<Part>, srtIndex: int, rules: Rules, n: nat, k: string)
    requires KeysNonEmpty(rules) && n <= |parts|
    requires forall i: nat :: i < n ==> k != SplitKey(srtIndex, i)
    ensures SameAt(SplitMarked(e, parts, srtIndex, rules, n), e, k)
    decreases n
  {
    if n > 0 {
      assert k != SplitKey(srtIndex, n - 1);
      SplitMarkedFrame(e, parts, srtIndex, rules, n - 1, k);
    }
  }

  /** Each part that needs correction is an error entry under its own
      index, holding the part and its corrected text. */
  lemma {:induction false} SplitMarkedPart(e: Entries, parts: seq<Part>, srtIndex: int, rules: Rules, n: nat, i: nat)
    requires KeysNonEmpty(rules) && i < n <= |parts|
    requires CheckText(parts[i].text, rules).needsCorrection
    ensures Holds(SplitMarked(e, parts, srtIndex, rules, n), SplitKey(srtIndex, i),
                  "error", parts[i].text, CheckText(parts[i].text, rules).corrected)
    decreases n
  {
    if i < n - 1 {
      SplitMarkedPart(e, parts, srtIndex, rules, n - 1, i);
      SplitKeyInjective(srtIndex, i, n - 1);
      assert SameAt(SplitMarked(e, parts, srtIndex, rules, n), SplitMarked(e, parts, srtIndex, rules, n - 1),
                    SplitKey(srtIndex, i));
    }
  }

  /** `k` has an entry with this state, original and corrected text. */
  predicate Holds(r: Entries, k: string, state: string, original: string, corrected: string) {
    k in r.states && r.states[k] == state && k in r.originals && r.originals[k] == original &&
    k in r.correcteds && r.correcteds[k] == corrected
  }

  /** Distinct parts have distinct indices, as `str` of distinct
      integers differ. */
  lemma SplitKeyInjective(srtIndex: int, i: nat, j: nat)
    requires i != j
    ensures SplitKey(srtIndex, i) != SplitKey(srtIndex, j)
  {
    ParseIntToString(srtIndex + i);
    ParseIntToString(srtIndex + j);
  }

  /** The alignment window: display mode, import flags, the edit marks,
      and the older correction service it owns. */
  class AlignmentGui {
    var displayMode: string
    var srtImported: bool
    var wordImported: bool
    var audioImported: bool
    var editedTextInfo: map<string, seq<string>>
    const correctionService: LegacyCorrectionService

    predicate Valid()
      reads this, correctionService
    {
      EditsDistinct(editedTextInfo) && correctionService.Valid()
    }

    /** A window in SRT mode with nothing imported. */
    constructor(service: LegacyCorrectionService)
      requires service.Valid()
      ensures Valid() && correctionService == service
      ensures displayMode == ModeSrt && !srtImported && !wordImported && !audioImported
      ensures editedTextInfo == map[]
    {
      correctionService := service;
      displayMode := ModeSrt;
      srtImported, wordImported, audioImported := false, false, false;
      editedTextInfo := map[];
    }

    /** `update_display_mode()`: without an SRT file it warns and keeps the
        mode; otherwise the mode becomes the one the imports call for. The
        rebuild of the tree and of the correction entries that follows is
        not part of this model. */
    method UpdateDisplayMode() returns (warned: bool)
      modifies this
      ensures warned <==> !srtImported
      ensures displayMode == (if srtImported then ExpectedMode(srtImported, wordImported, audioImported).value
                              else old(displayMode))
      ensures srtImported == old(srtImported) && wordImported == old(wordImported)
      ensures audioImported == old(audioImported) && editedTextInfo == old(editedTextInfo)
    {
      if !srtImported {
        return true;
      }
      var newMode := if wordImported && audioImported then ModeAll
        else if wordImported then ModeSrtWord
        else if audioImported then ModeAudioSrt
        else ModeSrt;
      if newMode != displayMode {
        displayMode := newMode;
      }
      return false;
    }

    /** `check_display_mode_consistency()`: the same choice, silently, and
        reporting whether the mode had to be corrected. */
    method CheckDisplayModeConsistency() returns (changed: bool)
      modifies this
      ensures var expected := ExpectedMode(srtImported, wordImported, audioImported);
        changed <==> expected.Some? && expected.value != old(displayMode)
      ensures var expected := ExpectedMode(srtImported, wordImported, audioImported);
        displayMode == (if expected.Some? then expected.value else old(displayMode))
      ensures srtImported == old(srtImported) && wordImported == old(wordImported)
      ensures audioImported == old(audioImported) && editedTextInfo == old(editedTextInfo)
    {
      var expected := ExpectedMode(srtImported, wordImported, audioImported);
      changed := expected.Some? && expected.value != displayMode;
      if changed {
        displayMode := expected.value;
      }
    }

    /** `_mark_text_edited(index, edit)`. */
    method MarkTextEdited(index: string, edit: string)
      requires Valid()
      modifies this
      ensures Valid()
      ensures editedTextInfo == Marked(old(editedTextInfo), index, edit)
      ensures displayMode == old(displayMode) && srtImported == old(srtImported)
      ensures wordImported == old(wordImported) && audioImported == old(audioImported)
    {
      MarkedOnce(editedTextInfo, index, edit);
      var edits := EditsOf(editedTextInfo, index);
      if edit !in edits {
        edits := edits + [edit];
      }
      editedTextInfo := editedTextInfo[index := edits];
    }

    /** `_insert_split_items(parts, position, srt_index, …)` as written: the
        first part's correction is recorded, then the call to the
        seven-argument row builder reaches the two-argument builder defined
        later in the class, which raises a TypeError; the handler returns
        no items and no indices. */
    method InsertSplitItemsAsWritten(parts: seq<Part>, srtIndex: int)
      returns (items: seq<seq<string>>, indices: seq<string>)
      requires Valid()
      modifies correctionService
      ensures Valid() && correctionService.corrections == old(correctionService.corrections)
      ensures items == [] && indices == []
      ensures correctionService.Record() ==
        SplitMarked(old(correctionService.Record()), parts, srtIndex, correctionService.corrections,
                    if |parts| > 0 then 1 else 0)
    {
      if |parts| > 0 {
        var c := LegacyCorrection.CheckTextForCorrection(parts[0].text, correctionService.corrections);
        if c.needsCorrection {
          correctionService.SetCorrectionState(IntToString(srtIndex), parts[0].text, c.corrected, "error");
        }
        // The builder call raises here.
      }
      return [], [];
    }

    /** `_insert_split_items` with the seven-argument builder it means:
        one row per part, in order, each recorded correction an error
        entry under the part's index. */
    method InsertSplitItems(parts: seq<Part>, srtIndex: int, wordText: string, matched: string, treeWidth: nat)
      returns (items: seq<seq<string>>, indices: seq<string>)
      requires Valid()
      modifies correctionService
      ensures Valid() && correctionService.corrections == old(correctionService.corrections)
      ensures SplitIndices(indices, parts, srtIndex)
      ensures SplitRows(items, parts, srtIndex, wordText, matched, displayMode, correctionService.corrections, treeWidth)
      ensures correctionService.Record() ==
        SplitMarked(old(correctionService.Record()), parts, srtIndex, correctionService.corrections, |parts|)
    {
      items, indices := InsertSplitParts(correctionService, parts, srtIndex, wordText, matched, displayMode, treeWidth);
    }
  }

  /** The indices `str(srt_index + i)` of the parts, in order. */
  predicate SplitIndicesSoFar(indices: seq<string>, srtIndex: int) {
    forall i :: 0 <= i < |indices| ==> indices[i] == SplitKey(srtIndex, i)
  }

  predicate SplitIndices(indices: seq<string>, parts: seq<Part>, srtIndex: int) {
    |indices| == |parts| && SplitIndicesSoFar(indices, srtIndex)
  }

  lemma SplitIndicesStep(indices: seq<string>, srtIndex: int, index: string)
    requires SplitIndicesSoFar(indices, srtIndex) && index == SplitKey(srtIndex, |indices|)
    ensures SplitIndicesSoFar(indices + [index], srtIndex)
  {
  }

  /** The rows of the first `|items|` parts, in order. */
  predicate SplitRowsSoFar(items: seq<seq<string>>, parts: seq<Part>, srtIndex: int, wordText: string, matched: string,
                           mode: string, rules: Rules, treeWidth: nat)
    requires KeysNonEmpty(rules)
  {
    |items| <= |parts| &&
    forall i :: 0 <= i < |items| ==> items[i] == SplitRow(parts, i, srtIndex, wordText, matched, mode, rules, treeWidth)
  }

  predicate SplitRows(items: seq<seq<string>>, parts: seq<Part>, srtIndex: int, wordText: string, matched: string,
                      mode: string, rules: Rules, treeWidth: nat)
    requires KeysNonEmpty(rules)
  {
    |items| == |parts| && SplitRowsSoFar(items, parts, srtIndex, wordText, matched, mode, rules, treeWidth)
  }

  lemma SplitRowsStep(items: seq<seq<string>>, parts: seq<Part>, srtIndex: int, wordText: string, matched: string,
                      mode: string, rules: Rules, treeWidth: nat, values: seq<string>)
    requires KeysNonEmpty(rules) && |items| < |parts|
    requires SplitRowsSoFar(items, parts, srtIndex, wordText, matched, mode, rules, treeWidth)
    requires values == SplitRow(parts, |items|, srtIndex, wordText, matched, mode, rules, treeWidth)
    ensures SplitRowsSoFar(items + [values], parts, srtIndex, wordText, matched, mode, rules, treeWidth)
  {
  }

  /** The insertion loop over the parts, on the window's correction
      service and display mode. */
  method InsertSplitParts(service: LegacyCorrectionService, parts: seq<Part>, srtIndex: int, wordText: string,
                          matched: string, mode: string, treeWidth: nat)
    returns (items: seq<seq<string>>, indices: seq<string>)
    requires service.Valid()
    modifies service
    ensures service.Valid() && service.corrections == old(service.corrections)
    ensures SplitIndices(indices, parts, srtIndex)
    ensures SplitRows(items, parts, srtIndex, wordText, matched, mode, service.corrections, treeWidth)
    ensures service.Record() == SplitMarked(old(service.Record()), parts, srtIndex, service.corrections, |parts|)
  {
    ghost var e := service.Record();
    ghost var rules := service.corrections;
    items, indices := [], [];
    var i := 0;
    while i < |parts|
      invariant 0 <= i <= |parts| && |items| == i && |indices| == i
      invariant service.Valid() && service.corrections == rules
      invariant service.Record() == SplitMarked(e, parts, srtIndex, rules, i)
      invariant SplitIndicesSoFar(indices, srtIndex)
      invariant SplitRowsSoFar(items, parts, srtIndex, wordText, matched, mode, rules, treeWidth)
    {
      var values, index := InsertSplitPart(service, parts, srtIndex, wordText, matched, mode, treeWidth, i, e);
      SplitRowsStep(items, parts, srtIndex, wordText, matched, mode, rules, treeWidth, values);
      SplitIndicesStep(indices, srtIndex, index);
      items := items + [values];
      indices := indices + [index];
      i := i + 1;
    }
  }

  /** One turn of the insertion loop: part `i` is checked, recorded when
      it needs correction, and built into its row. */
  method InsertSplitPart(service: LegacyCorrectionService, parts: seq<Part>, srtIndex: int, wordText: string,
                         matched: string, mode: string, treeWidth: nat, i: nat, ghost e: Entries)
    returns (values: seq<string>, index: string)
    requires i < |parts| && service.Valid()
    requires service.Record() == SplitMarked(e, parts, srtIndex, service.corrections, i)
    modifies service
    ensures service.Valid() && service.corrections == old(service.corrections)
    ensures service.Record() == SplitMarked(e, parts, srtIndex, service.corrections, i + 1)
    ensures index == SplitKey(srtIndex, i)
    ensures values == SplitRow(parts, i, srtIndex, wordText, matched, mode, service.corrections, treeWidth)
  {
    var rules := service.corrections;
    index := SplitKey(srtIndex, i);
    var c := LegacyCorrection.CheckTextForCorrection(parts[i].text, rules);
    var icon := "";
    if c.needsCorrection {
      icon := ErrorIcon;
      service.SetCorrectionState(index, parts[i].text, c.corrected, "error");
    }
    var word := if i == 0 then wordText else "";
    var match_ := if i == 0 then matched else "";
    values := BuildRow(mode, index, parts[i].start, parts[i].end, parts[i].text, word, match_, icon);
    values := FitLength(values, treeWidth);
  }

  /** A later part that needs correction, under an index not yet
      recorded, is recorded by the intended insertion and not by the
      written one. */
  lemma AsWrittenLosesLaterParts(e: Entries, parts: seq<Part>, srtIndex: int, rules: Rules, i: nat)
    requires KeysNonEmpty(rules) && 1 <= i < |parts|
    requires CheckText(parts[i].text, rules).needsCorrection && SplitKey(srtIndex, i) !in e.states
    ensures SplitKey(srtIndex, i) in SplitMarked(e, parts, srtIndex, rules, |parts|).states
    ensures SplitKey(srtIndex, i) !in SplitMarked(e, parts, srtIndex, rules, 1).states
  {
    SplitMarkedPart(e, parts, srtIndex, rules, |parts|, i);
    forall j: nat | j < 1
      ensures SplitKey(srtIndex, i) != SplitKey(srtIndex, j)
    {
      SplitKeyInjective(srtIndex, i, j);
    }
    SplitMarkedFrame(e, parts, srtIndex, rules, 1, SplitKey(srtIndex, i));
  }
}
