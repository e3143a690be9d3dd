/** The four column layouts of the subtitle tree and the conversion of a
    row between them (the alignment state handler; the alignment window
    carries an identical copy). */
module RowLayouts {
  import opened Wrappers

  const ModeSrt: string := "srt"
  const ModeSrtWord: string := "srt_word"
  const ModeAudioSrt: string := "audio_srt"
  const ModeAll: string := "all"
  const PlayIcon: string := "▶"
  const CorrectIcon: string := "✅"
  const ErrorIcon: string := "❌"

  predicate KnownMode(mode: string) {
    mode == ModeSrt || mode == ModeSrtWord || mode == ModeAudioSrt || mode == ModeAll
  }

  /** A layout with the Word Text and Match columns. */
  predicate HasWord(mode: string) {
    mode == ModeSrtWord || mode == ModeAll
  }

  /** A layout with the leading V.O column. */
  predicate HasAudio(mode: string) {
    mode == ModeAudioSrt || mode == ModeAll
  }

  /** The headings of `columns[mode]`; an unknown mode is a KeyError. */
  function Columns(mode: string): (r: Result<seq<string>>)
    ensures r.Success? <==> KnownMode(mode)
  {
    if mode == ModeSrt then Success(["Index", "Start", "End", "SRT Text", "V/X"])
    else if mode == ModeSrtWord then Success(["Index", "Start", "End", "SRT Text", "Word Text", "Match", "V/X"])
    else if mode == ModeAudioSrt then Success(["V.O", "Index", "Start", "End", "SRT Text", "V/X"])
    else if mode == ModeAll then Success(["V.O", "Index", "Start", "End", "SRT Text", "Word Text", "Match", "V/X"])
    else Failure("KeyError")
  }

  /** The number of columns of a known layout: 5, plus 2 for Word, plus 1
      for audio. */
  function Width(mode: string): (n: nat)
    requires KnownMode(mode)
    ensures n == |Columns(mode).value|
    ensures n == 5 + (if HasWord(mode) then 2 else 0) + (if HasAudio(mode) then 1 else 0)
  {
    |Columns(mode).value|
  }

  /** Position of the V/X cell, and of the SRT Text cell. */
  function VxPos(mode: string): (p: nat)
    requires KnownMode(mode)
    ensures p == Width(mode) - 1 && Columns(mode).value[p] == "V/X"
  {
    Width(mode) - 1
  }

  function TextPos(mode: string): (p: nat)
    requires KnownMode(mode)
    ensures p < Width(mode) && Columns(mode).value[p] == "SRT Text"
  {
    if HasAudio(mode) then 4 else 3
  }

  /** The key values `_extract_key_values` collects; `vo` defaults to the
      play icon, the others to `''`. */
  datatype Extracted = Extracted(index: string, start: string, end: string, srtText: string,
                                 wordText: string, matched: string, vx: string, vo: string)

  /** `values[i]` when the row has it, else `default`. */
  function At(values: seq<string>, i: nat, default: string): string {
    if i < |values| then values[i] else default
  }

  /** `_extract_key_values(values, mode)`: read each field from its
      position in `mode`'s layout when the row is long enough; an unknown
      mode reads nothing. */
  function ExtractKeyValues(values: seq<string>, mode: string): Extracted {
    if mode == ModeSrt then
      Extracted(At(values, 0, ""), At(values, 1, ""), At(values, 2, ""), At(values, 3, ""), "", "",
                At(values, 4, ""), PlayIcon)
    else if mode == ModeSrtWord then
      Extracted(At(values, 0, ""), At(values, 1, ""), At(values, 2, ""), At(values, 3, ""),
                At(values, 4, ""), At(values, 5, ""), At(values, 6, ""), PlayIcon)
    else if mode == ModeAudioSrt then
      Extracted(At(values, 1, ""), At(values, 2, ""), At(values, 3, ""), At(values, 4, ""), "", "",
                At(values, 5, ""), At(values, 0, PlayIcon))
    else if mode == ModeAll then
      Extracted(At(values, 1, ""), At(values, 2, ""), At(values, 3, ""), At(values, 4, ""),
                At(values, 5, ""), At(values, 6, ""), At(values, 7, ""), At(values, 0, PlayIcon))
    else Extracted("", "", "", "", "", "", "", PlayIcon)
  }

  /** `_build_values_for_mode(extracted, mode)`: the fields in `mode`'s
      column order; `[]` for an unknown mode. */
  function BuildValuesForMode(x: Extracted, mode: string): (row: seq<string>)
    ensures KnownMode(mode) ==> |row| == Width(mode)
    ensures !KnownMode(mode) ==> row == []
  {
    if mode == ModeSrt then [x.index, x.start, x.end, x.srtText, x.vx]
    else if mode == ModeSrtWord then [x.index, x.start, x.end, x.srtText, x.wordText, x.matched, x.vx]
    else if mode == ModeAudioSrt then [x.vo, x.index, x.start, x.end, x.srtText, x.vx]
    else if mode == ModeAll then [x.vo, x.index, x.start, x.end, x.srtText, x.wordText, x.matched, x.vx]
    else []
  }

  /** Truncate or pad with `''` to exactly `n` cells. */
  function FitLength(row: seq<string>, n: nat): (r: seq<string>)
    ensures |r| == n
    ensures forall i :: 0 <= i < n ==> r[i] == At(row, i, "")
  {
    if |row| >= n then row[..n] else row + seq(n - |row|, _ => "")
  }

  /** The layout a row of `length` cells is taken to be in. */
  function DetectMode(length: nat): Option<string> {
    if length == 5 then Some(ModeSrt)
    else if length == 6 then Some(ModeAudioSrt)
    else if length == 7 then Some(ModeSrtWord)
    else if length == 8 then Some(ModeAll)
    else None
  }

  /** Detection recovers the layout of a row that has its width. */
  lemma DetectWidth(mode: string)
    requires KnownMode(mode)
    ensures DetectMode(Width(mode)) == Some(mode)
  {
  }

  /** `adjust_values_for_mode(values, source, target)`. The same mode
      returns the row; `"any"` detects the layout from the length (falling
      back to the generic adjustment); then the fields are rebuilt for the
      target and fitted to its width. An unknown target is a KeyError. */
  function AdjustValuesForMode(values: seq<string>, source: string, target: string): (r: Result<seq<string>>)
    ensures source == target ==> r == Success(values)
    ensures source != target ==> (r.Success? <==> KnownMode(target))
    ensures r.Success? && source != target ==> |r.value| == Width(target)
  {
    if source == target then Success(values)
    else if source == "any" && DetectMode(|values|).None? then GenericAdjustment(values, target)
    else
      var from := if source == "any" then DetectMode(|values|).value else source;
      match Columns(target)
      case Failure(e) => Failure(e)
      case Success(cols) => Success(FitLength(BuildValuesForMode(ExtractKeyValues(values, from), target), |cols|))
  }

  /** The index cell of `_apply_generic_adjustment`: the first cell, or
      the second when the first is the play icon. */
  function GenericIndex(values: seq<string>): string {
    if |values| >= 2 then (if values[0] == PlayIcon then values[1] else values[0])
    else At(values, 0, "")
  }

  /** The V/X cell of `_apply_generic_adjustment`: the last cell if it is
      a correction mark or empty, else `''`. */
  function GenericVx(values: seq<string>): string {
    if |values| > 0 && values[|values| - 1] in {CorrectIcon, ErrorIcon, ""} then values[|values| - 1] else ""
  }

  /** `_apply_generic_adjustment(values, target)`: guess the fields by
      position, skipping a leading play icon. */
  function GenericAdjustment(values: seq<string>, target: string): (r: Result<seq<string>>)
    ensures r.Success? <==> KnownMode(target)
    ensures r.Success? ==> |r.value| == Width(target)
    ensures r.Success? ==> r.value[VxPos(target)] == GenericVx(values)
    ensures r.Success? ==> r.value[if HasAudio(target) then 1 else 0] == GenericIndex(values)
    ensures r.Success? && HasAudio(target) ==> r.value[0] == PlayIcon
    ensures r.Success? && HasWord(target) ==>
      var w := if HasAudio(target) then 5 else 4;
      r.value[w] == "" && r.value[w + 1] == ""
  {
    var n := |values|;
    var shift := if n >= 1 && values[0] == PlayIcon then 1 else 0;
    var start := if n >= 4 then values[shift + 1] else if n >= 3 then values[1] else "";
    var end := if n >= 4 then values[shift + 2] else if n >= 3 then values[2] else "";
    var text := if n >= 5 then values[3 + shift] else if n >= 4 then values[3] else "";
    var x := Extracted(GenericIndex(values), start, end, text, "", "", GenericVx(values), PlayIcon);
    match Columns(target)
    case Failure(e) => Failure(e)
    case Success(cols) => Success(FitLength(BuildValuesForMode(x, target), |cols|))
  }

  /** Rebuilding what was extracted from a row of the layout's width gives
      the row back. */
  lemma BuildExtractRoundTrip(values: seq<string>, mode: string)
    requires KnownMode(mode) && |values| == Width(mode)
    ensures BuildValuesForMode(ExtractKeyValues(values, mode), mode) == values
  {
  }

  /** Hence adjusting a row of a known layout from `"any"` to that layout
      changes nothing. */
  lemma AdjustFromAnyIdentity(values: seq<string>, mode: string)
    requires KnownMode(mode) && |values| == Width(mode)
    ensures AdjustValuesForMode(values, "any", mode) == Success(values)
  {
    DetectWidth(mode);
    BuildExtractRoundTrip(values, mode);
    assert FitLength(values, |values|) == values;
  }

  /** What the target layout can hold of the fields: no Word columns
      means empty Word fields, no V.O column means the default play icon. */
  function Project(x: Extracted, target: string): Extracted {
    x.(wordText := if HasWord(target) then x.wordText else "",
       matched := if HasWord(target) then x.matched else "",
       vo := if HasAudio(target) then x.vo else PlayIcon)
  }

  /** Converting a row between two known layouts keeps every field the
      target has a column for: converting to a layout without Word columns
      drops Word Text and Match, converting from one fills them with `''`,
      and a missing V.O cell becomes the play icon. */
  lemma AdjustKeepsFields(values: seq<string>, source: string, target: string)
    requires KnownMode(source) && KnownMode(target) && source != target
    ensures AdjustValuesForMode(values, source, target).Success?
    ensures ExtractKeyValues(AdjustValuesForMode(values, source, target).value, target) ==
            Project(ExtractKeyValues(values, source), target)
  {
    var x := ExtractKeyValues(values, source);
    var row := BuildValuesForMode(x, target);
    assert FitLength(row, |row|) == row;
  }
}
