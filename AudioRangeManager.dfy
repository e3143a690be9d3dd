/** The range manager of the audio waveform: validation of a selected time
    range, the width of the view around a selection, the view range itself
    and its update while a slider moves. Times are exact milliseconds. */
module AudioRangeManager {

  function Max(a: real, b: real): real { if a >= b then a else b }

  function Min(a: real, b: real): real { if a <= b then a else b }

  /** The narrowest view, in milliseconds. */
  const MinViewWidth: real := 500.0

  /** The widest view the manager is configured with; no computation
      consults it. */
  const MaxViewWidth: real := 30000.0

  /** The narrowest selection, in milliseconds. */
  const MinSelectionWidth: real := 50.0

  /** `_validate_time_range`: the bounds put in order, the start clamped to
      the audio and the end at least the minimum selection width after it. */
  function ValidateTimeRange(range: (real, real), duration: real): (r: (real, real))
    ensures duration >= 0.0 ==> 0.0 <= r.0 <= duration
    ensures r.1 >= r.0 + MinSelectionWidth
    ensures 0.0 <= Min(range.0, range.1) <= duration ==> r.0 == Min(range.0, range.1)
    ensures Max(range.0, range.1) <= duration ==> r.1 >= Max(range.0, range.1)
  {
    var (start, end) := if range.0 > range.1 then (range.1, range.0) else range;
    var start' := Max(0.0, Min(start, duration));
    (start', Max(start' + MinSelectionWidth, Min(end, duration)))
  }

  /** The order of the bounds does not matter. */
  lemma ValidateSymmetric(a: real, b: real, duration: real)
    ensures ValidateTimeRange((a, b), duration) == ValidateTimeRange((b, a), duration)
  {
  }

  /** A range already inside the audio and wide enough is kept. */
  lemma ValidateKeepsValid(range: (real, real), duration: real)
    requires 0.0 <= range.0 && range.0 + MinSelectionWidth <= range.1 <= duration
    ensures ValidateTimeRange(range, duration) == range
  {
  }

  /** Validating a validated range changes nothing, also when the minimum
      width pushes its end past the audio. */
  lemma ValidateIdempotent(range: (real, real), duration: real)
    requires duration >= 0.0
    ensures ValidateTimeRange(ValidateTimeRange(range, duration), duration)
      == ValidateTimeRange(range, duration)
  {
  }

  /** The multiplier of the selection duration, by how long it is. */
  function Zoom(d: real): real {
    if d < 100.0 then 20.0
    else if d < 500.0 then 12.0
    else if d < 1000.0 then 8.0
    else if d < 3000.0 then 5.0
    else if d < 10000.0 then 3.0
    else 2.0
  }

  /** `_calculate_view_width`: the duration, at least one millisecond,
      times its multiplier, and never narrower than the minimum view. */
  function ViewWidth(duration: real): (w: real)
    ensures w >= MinViewWidth
    ensures w >= 2.0 * Max(1.0, duration)
    ensures w == MinViewWidth || w == Max(1.0, duration) * Zoom(Max(1.0, duration))
  {
    var d := Max(1.0, duration);
    Max(MinViewWidth, d * Zoom(d))
  }

  /** The multipliers step down as the selection grows: a selection of
      three seconds is shown in a view of three times its length. */
  lemma ViewWidthExamples()
    ensures ViewWidth(0.0) == 500.0 && ViewWidth(50.0) == 1000.0
    ensures ViewWidth(200.0) == 2400.0 && ViewWidth(3000.0) == 9000.0
    ensures ViewWidth(20000.0) == 40000.0
  {
  }

  /** `get_optimal_view_range` on a selection, without the caching: a view
      of the computed width centred on the validated selection, shifted
      back inside the audio and widened until it holds the selection. */
  function OptimalViewRange(selection: (real, real), duration: real): (r: (real, real))
    ensures r.0 >= 0.0
    ensures r.0 <= ValidateTimeRange(selection, duration).0
    ensures ValidateTimeRange(selection, duration).1 <= r.1
    ensures ValidateTimeRange(selection, duration).1 <= duration ==> r.1 <= duration
  {
    var (s, e) := ValidateTimeRange(selection, duration);
    var width := ViewWidth(e - s);
    var start1 := Max(0.0, (s + e) / 2.0 - width / 2.0);
    var end1 := Min(duration, start1 + width);
    var start2 := if end1 == duration && end1 - start1 < width then Max(0.0, duration - width) else start1;
    var (start3, end3) := if s < start2 then (s, Min(duration, end1 + (start2 - s))) else (start2, end1);
    if e > end3 then (Max(0.0, start3 - (e - end3)), e) else (start3, end3)
  }

  /** Validating the selection first does not change the view. */
  lemma OptimalOfValidated(selection: (real, real), duration: real)
    requires duration >= 0.0
    ensures OptimalViewRange(ValidateTimeRange(selection, duration), duration)
      == OptimalViewRange(selection, duration)
  {
    ValidateIdempotent(selection, duration);
  }

  /** The selection a slider move makes: the moved time and the fixed one
      clamped to the audio, the moved one kept at least the minimum width
      away from the fixed one on its own side. */
  function SlideSelection(newTime: real, fixedTime: real, isStartAdjustment: bool, duration: real): (sel: (real, real))
    ensures isStartAdjustment ==> sel.1 == Max(0.0, Min(fixedTime, duration))
    ensures isStartAdjustment ==> sel.0 <= sel.1 - MinSelectionWidth
    ensures !isStartAdjustment ==> sel.0 == Max(0.0, Min(fixedTime, duration))
    ensures !isStartAdjustment ==> sel.1 >= sel.0 + MinSelectionWidth
    ensures duration >= 0.0 ==> isStartAdjustment ==> sel.0 <= duration
    ensures duration >= 0.0 ==> !isStartAdjustment ==> sel.1 >= 0.0
  {
    var moved := Max(0.0, Min(newTime, duration));
    var fixed := Max(0.0, Min(fixedTime, duration));
    if isStartAdjustment then (Min(moved, fixed - MinSelectionWidth), fixed)
    else (fixed, Max(moved, fixed + MinSelectionWidth))
  }

  /** Moving the start slider to a time that leaves the minimum width
      keeps it where it was put. */
  lemma SlideStartKept(newTime: real, fixedTime: real, duration: real)
    requires 0.0 <= newTime && newTime + MinSelectionWidth <= fixedTime <= duration
    ensures SlideSelection(newTime, fixedTime, true, duration) == (newTime, fixedTime)
  {
  }

  /** Moving the end slider to a time that leaves the minimum width keeps
      it where it was put. */
  lemma SlideEndKept(newTime: real, fixedTime: real, duration: real)
    requires 0.0 <= fixedTime && fixedTime + MinSelectionWidth <= newTime <= duration
    ensures SlideSelection(newTime, fixedTime, false, duration) == (fixedTime, newTime)
  {
  }

  /** The manager of one audio file's view, with the last selection and
      view range it computed. */
  class AudioRangeManager {
    var audioDuration: real
    var lastSelection: (real, real)
    var lastViewRange: (real, real)

    /** The audio is at least one millisecond long. */
    predicate Valid()
      reads this
    {
      audioDuration >= 1.0
    }

    /** `__init__(audio_duration)`: the duration raised to one
        millisecond, the first five seconds selected and the first ten
        seconds in view. */
    constructor (duration: real)
      ensures Valid()
      ensures audioDuration == Max(1.0, duration)
      ensures lastSelection == (0.0, Min(5000.0, audioDuration))
      ensures lastViewRange == (0.0, Min(10000.0, audioDuration))
    {
      var d := Max(1.0, duration);
      audioDuration, lastSelection, lastViewRange := d, (0.0, Min(5000.0, d)), (0.0, Min(10000.0, d));
    }

    /** `get_optimal_view_range(selection)`: caches the validated
        selection and the view, which starts inside the audio and holds
        the selection. */
    method GetOptimalViewRange(selection: (real, real)) returns (viewStart: real, viewEnd: real)
      requires Valid()
      modifies this
      ensures Valid() && audioDuration == old(audioDuration)
      ensures lastSelection == ValidateTimeRange(selection, audioDuration)
      ensures (viewStart, viewEnd) == OptimalViewRange(selection, audioDuration)
      ensures lastViewRange == (viewStart, viewEnd)
      ensures 0.0 <= viewStart <= lastSelection.0 && lastSelection.1 <= viewEnd
    {
      var selected := ValidateTimeRange(selection, audioDuration);
      var view := OptimalViewRange(selection, audioDuration);
      lastSelection, lastViewRange := selected, view;
      viewStart, viewEnd := view.0, view.1;
    }

    /** `calculate_view_range_on_slide(new_time, fixed_time,
        is_start_adjustment)`: the view of the selection the slider move
        makes. */
    method CalculateViewRangeOnSlide(newTime: real, fixedTime: real, isStartAdjustment: bool)
      returns (viewStart: real, viewEnd: real)
      requires Valid()
      modifies this
      ensures Valid() && audioDuration == old(audioDuration)
      ensures lastSelection == ValidateTimeRange(SlideSelection(newTime, fixedTime, isStartAdjustment, audioDuration), audioDuration)
      ensures (viewStart, viewEnd) == OptimalViewRange(SlideSelection(newTime, fixedTime, isStartAdjustment, audioDuration), audioDuration)
      ensures lastViewRange == (viewStart, viewEnd)
    {
      var selection := SlideSelection(newTime, fixedTime, isStartAdjustment, audioDuration);
      lastSelection := selection;
      viewStart, viewEnd := GetOptimalViewRange(selection);
    }

    /** `calculate_optimal_zoom(start_time, end_time)`: the older name of
        `get_optimal_view_range`. */
    method CalculateOptimalZoom(startTime: real, endTime: real) returns (viewStart: real, viewEnd: real)
      requires Valid()
      modifies this
      ensures Valid() && audioDuration == old(audioDuration)
      ensures lastSelection == ValidateTimeRange((startTime, endTime), audioDuration)
      ensures (viewStart, viewEnd) == OptimalViewRange((startTime, endTime), audioDuration)
      ensures lastViewRange == (viewStart, viewEnd)
    {
      viewStart, viewEnd := GetOptimalViewRange((startTime, endTime));
    }
  }
}
