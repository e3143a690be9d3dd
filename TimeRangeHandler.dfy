/** The time-range helper of the audio view: repairing a time range given
    as a loosely typed pair, and building a view range around a selection.
    Times are exact milliseconds. */
module TimeRangeHandler {

  function Max(a: real, b: real): real { if a >= b then a else b }

  function Min(a: real, b: real): real { if a <= b then a else b }

  /** One element of the argument: a value `float` converts, or one it
      rejects with `ValueError` or `TypeError`. */
  datatype Value = Number(x: real) | NotNumber

  /** The range argument: a tuple of values, or anything that is not a
      tuple. */
  datatype RangeArg = Tuple(items: seq<Value>) | NotTuple

  /** The range argument is a tuple of two numbers. */
  predicate WellFormed(arg: RangeArg) {
    arg.Tuple? && |arg.items| == 2 && arg.items[0].Number? && arg.items[1].Number?
  }

  /** The pair `(start, end)` as an argument. */
  function Pair(start: real, end: real): (arg: RangeArg)
    ensures WellFormed(arg)
  {
    Tuple([Number(start), Number(end)])
  }

  /** The minimum range `validate_range` uses by default. */
  const DefaultMinRange: real := 100.0

  /** The rule for a range that is too short once clamped: extend the end
      if the audio allows, else move the start back if zero allows, else
      take the start of the audio. */
  function Widen(start: real, end: real, maxDuration: real, minRange: real): (r: (real, real))
    ensures end - start >= minRange ==> r == (start, end)
  {
    if end - start >= minRange then (start, end)
    else if end + minRange <= maxDuration then (start, start + minRange)
    else if start - minRange >= 0.0 then (end - minRange, end)
    else (0.0, Min(minRange, maxDuration))
  }

  /** `validate_range(time_range, max_duration, min_range)`: a malformed
      argument gives `(0, min_range)`; otherwise the bounds in order,
      clamped to the audio and widened to the minimum range. */
  function ValidateRange(arg: RangeArg, maxDuration: real, minRange: real): (r: (real, real))
    ensures !WellFormed(arg) ==> r == (0.0, minRange)
    ensures WellFormed(arg) && maxDuration >= 0.0 ==> 0.0 <= r.0 <= r.1 <= maxDuration
    ensures WellFormed(arg) && minRange <= maxDuration ==> r.1 - r.0 >= minRange
    ensures !WellFormed(arg) ==> r.1 - r.0 == minRange
  {
    if !WellFormed(arg) then (0.0, minRange)
    else
      var (a, b) := (arg.items[0].x, arg.items[1].x);
      var (start, end) := if a > b then (b, a) else (a, b);
      var start' := Max(0.0, Min(start, maxDuration));
      var end' := Max(start', Min(end, maxDuration));
      Widen(start', end', maxDuration, minRange)
  }

  /** The order of the bounds does not matter. */
  lemma ValidateSymmetric(a: real, b: real, maxDuration: real, minRange: real)
    ensures ValidateRange(Pair(a, b), maxDuration, minRange) == ValidateRange(Pair(b, a), maxDuration, minRange)
  {
  }

  /** A range inside the audio and at least the minimum long is kept. */
  lemma ValidateKeepsValid(start: real, end: real, maxDuration: real, minRange: real)
    requires 0.0 <= start <= end <= maxDuration && end - start >= minRange
    ensures ValidateRange(Pair(start, end), maxDuration, minRange) == (start, end)
  {
  }

  /** Validating a repaired range again changes nothing. */
  lemma ValidateIdempotent(arg: RangeArg, maxDuration: real, minRange: real)
    requires WellFormed(arg) && maxDuration >= 0.0
    ensures var r := ValidateRange(arg, maxDuration, minRange);
      ValidateRange(Pair(r.0, r.1), maxDuration, minRange) == r
  {
  }

  /** The view width `create_view_range` starts from. */
  function ContextWidth(duration: real, contextFactor: real, minViewWidth: real): (w: real)
    ensures w >= minViewWidth && w >= duration * contextFactor
    ensures w == minViewWidth || w == duration * contextFactor
  {
    Max(duration * contextFactor, minViewWidth)
  }

  /** The view around a selection before the final validation: centred,
      shifted back inside the audio and widened until it holds the
      selection. */
  function ContextView(sel: (real, real), maxDuration: real, contextFactor: real, minViewWidth: real): (v: (real, real))
    ensures sel.0 >= 0.0 ==> v.0 >= 0.0 && v.0 <= sel.0
    ensures sel.1 <= v.1
    ensures sel.1 <= maxDuration ==> v.1 <= maxDuration
  {
    var width := ContextWidth(sel.1 - sel.0, contextFactor, minViewWidth);
    var start1 := Max(0.0, (sel.0 + sel.1) / 2.0 - width / 2.0);
    var end1 := Min(maxDuration, start1 + width);
    var start2 := if end1 == maxDuration && end1 - start1 < width then Max(0.0, maxDuration - width) else start1;
    var (start3, end3) := if sel.0 < start2 then (sel.0, Min(maxDuration, end1 + (start2 - sel.0))) else (start2, end1);
    if sel.1 > end3 then (Max(0.0, start3 - (sel.1 - end3)), sel.1) else (start3, end3)
  }

  /** `create_view_range(selection_range, max_duration, context_factor,
      min_view_width)`: the view of the validated selection, validated
      with a tenth of the minimum view width as its minimum range. */
  function CreateViewRange(selection: RangeArg, maxDuration: real, contextFactor: real, minViewWidth: real): (r: (real, real))
    ensures maxDuration >= 0.0 ==> 0.0 <= r.0 <= r.1 <= maxDuration
    ensures minViewWidth / 10.0 <= maxDuration ==> r.1 - r.0 >= minViewWidth / 10.0
  {
    var sel := ValidateRange(selection, maxDuration, DefaultMinRange);
    var view := ContextView(sel, maxDuration, contextFactor, minViewWidth);
    ValidateRange(Pair(view.0, view.1), maxDuration, minViewWidth / 10.0)
  }

  /** The centred view keeps at least its starting width, except when the
      audio is shorter than that; then it is the whole audio. */
  lemma ContextViewWide(sel: (real, real), maxDuration: real, contextFactor: real, minViewWidth: real)
    requires 0.0 <= sel.0 <= sel.1 <= maxDuration
    ensures var v := ContextView(sel, maxDuration, contextFactor, minViewWidth);
      v.1 - v.0 >= ContextWidth(sel.1 - sel.0, contextFactor, minViewWidth) || v == (0.0, maxDuration)
  {
  }

  /** The view `create_view_range` returns holds the validated selection:
      the final validation never has to cut into it. */
  lemma CreateViewHoldsSelection(selection: RangeArg, maxDuration: real, contextFactor: real, minViewWidth: real)
    requires WellFormed(selection) && maxDuration >= 0.0 && minViewWidth >= 0.0
    ensures var sel := ValidateRange(selection, maxDuration, DefaultMinRange);
      var r := CreateViewRange(selection, maxDuration, contextFactor, minViewWidth);
      r.0 <= sel.0 && sel.1 <= r.1
  {
    var sel := ValidateRange(selection, maxDuration, DefaultMinRange);
    var v := ContextView(sel, maxDuration, contextFactor, minViewWidth);
    var m := minViewWidth / 10.0;
    assert 0.0 <= sel.0 <= sel.1 <= maxDuration;
    ContextViewWide(sel, maxDuration, contextFactor, minViewWidth);
    if v.1 - v.0 >= m {
      ValidateKeepsValid(v.0, v.1, maxDuration, m);
    } else {
      assert v == (0.0, maxDuration);
      assert ValidateRange(Pair(v.0, v.1), maxDuration, m) == (0.0, maxDuration);
    }
  }
}
