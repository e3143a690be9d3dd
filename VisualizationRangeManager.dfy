/** The older view-range manager of the audio visualisation: the initial
    view around a subtitle's time span and the view that follows a slider
    while a bound of the span is dragged. Times are exact milliseconds. */
module VisualizationRangeManager {

  function Max(a: real, b: real): real { if a >= b then a else b }

  function Min(a: real, b: real): real { if a <= b then a else b }

  /** `_calculate_view_width(duration)`: four times a short span but at
      least two seconds, three times a middle one, twice a long one. */
  function ViewWidth(duration: real): (w: real)
    ensures w >= 2000.0
    ensures duration >= 0.0 ==> w >= 2.0 * duration
    ensures duration < 1000.0 ==> w == Max(2000.0, 4.0 * duration)
    ensures 1000.0 <= duration < 5000.0 ==> w == 3.0 * duration
    ensures duration >= 5000.0 ==> w == 2.0 * duration
  {
    if duration < 1000.0 then Max(2000.0, duration * 4.0)
    else if duration < 5000.0 then duration * 3.0
    else duration * 2.0
  }

  /** `calculate_initial_view_range(start_time, end_time)` for audio of
      `audioDuration`: a view of the computed width centred on the span,
      moved to hold the span with a tenth of the width to spare. */
  function InitialViewRange(startTime: real, endTime: real, audioDuration: real): (r: (real, real))
    ensures r.0 >= 0.0 && r.1 <= audioDuration
    ensures startTime >= 0.0 ==> r.0 <= startTime
    ensures endTime <= audioDuration ==> r.1 >= endTime
  {
    var width := ViewWidth(endTime - startTime);
    var center := (startTime + endTime) / 2.0;
    var start1 := Max(0.0, center - width / 2.0);
    var end1 := Min(audioDuration, center + width / 2.0);
    var start2 := if startTime < start1 then Max(0.0, startTime - width * 0.1) else start1;
    var end2 := if endTime > end1 then Min(audioDuration, endTime + width * 0.1) else end1;
    (start2, end2)
  }

  /** A span well inside long audio is shown centred in a view of the
      computed width. */
  lemma InitialViewCentred(startTime: real, endTime: real, audioDuration: real)
    requires 0.0 <= startTime <= endTime
    requires (startTime + endTime) / 2.0 - ViewWidth(endTime - startTime) / 2.0 >= 0.0
    requires (startTime + endTime) / 2.0 + ViewWidth(endTime - startTime) / 2.0 <= audioDuration
    ensures InitialViewRange(startTime, endTime, audioDuration).1
      - InitialViewRange(startTime, endTime, audioDuration).0 == ViewWidth(endTime - startTime)
  {
  }

  /** The selection during a drag: the moved time is the start or the end. */
  function SlideSpan(newTime: real, fixedTime: real, isStartAdjustment: bool): (span: (real, real))
    ensures isStartAdjustment ==> span == (newTime, fixedTime)
    ensures !isStartAdjustment ==> span == (fixedTime, newTime)
  {
    if isStartAdjustment then (newTime, fixedTime) else (fixedTime, newTime)
  }

  /** The view width after a drag: narrower when the span got shorter than
      the last one (at least one second), wider when it got longer (at most
      the audio), else as it was. The ratio against the last duration, at
      least one, is compared by its numerator. */
  function SlideWidth(currentDuration: real, lastDuration: real, currentWidth: real, audioDuration: real): (w: real)
    ensures currentDuration < Max(lastDuration, 1.0) ==> w == Max(1000.0, currentWidth * 0.8)
    ensures currentDuration > Max(lastDuration, 1.0) ==> w == Min(audioDuration, currentWidth * 1.2)
    ensures currentDuration == Max(lastDuration, 1.0) ==> w == currentWidth
    ensures currentWidth >= 0.0 && audioDuration >= 0.0 ==> w >= 0.0
  {
    var divisor := Max(lastDuration, 1.0);
    if currentDuration < divisor then Max(1000.0, currentWidth * 0.8)
    else if currentDuration > divisor then Min(audioDuration, currentWidth * 1.2)
    else currentWidth
  }

  /** The ratio `current / max(last, 1)` is below, above or at one exactly
      when the current duration is below, above or at the divisor. */
  lemma RatioAgainstOne(current: real, last: real)
    ensures current / Max(last, 1.0) < 1.0 <==> current < Max(last, 1.0)
    ensures current / Max(last, 1.0) > 1.0 <==> current > Max(last, 1.0)
  {
    var d := Max(last, 1.0);
    var q := current / d;
    assert q * d == current;
    if q < 1.0 {
      assert q * d < 1.0 * d;
    }
    if q > 1.0 {
      assert q * d > 1.0 * d;
    }
  }

  /** The view after a drag of width `width`: the fixed bound a fifth of
      the width inside its side, then moved so that the dragged span shows,
      the end taking precedence. */
  function SlideView(span: (real, real), fixedTime: real, isStartAdjustment: bool, width: real, audioDuration: real): (r: (real, real))
    ensures r.0 >= 0.0
    ensures width >= 0.0 && span.1 <= audioDuration ==> r.1 >= span.1
  {
    var (start1, end1) :=
      if isStartAdjustment then
        var e := Min(audioDuration, fixedTime + width * 0.2);
        (Max(0.0, e - width), e)
      else
        var s := Max(0.0, fixedTime - width * 0.2);
        (s, Min(audioDuration, s + width));
    var (start2, end2) :=
      if span.0 < start1 then
        var s := Max(0.0, span.0 - width * 0.1);
        (s, s + width)
      else (start1, end1);
    if span.1 > end2 then
      var e := Min(audioDuration, span.1 + width * 0.1);
      (Max(0.0, e - width), e)
    else (start2, end2)
  }

  /** The dragged start stays visible only as long as the span is narrower
      than the view: with a span of three seconds in a view of one second
      the start falls outside. */
  lemma LongSpanHidesStart()
    ensures SlideView((0.0, 3000.0), 3000.0, true, 1000.0, 10000.0) == (2100.0, 3100.0)
  {
  }

  /** The manager of one audio file's view, with the last span duration
      and view it computed. */
  class VisualizationRangeManager {
    var audioDuration: real
    var lastSelectionDuration: real
    var lastViewRange: (real, real)

    /** `__init__(audio_duration)`: no span yet and the whole audio in
        view. */
    constructor (duration: real)
      ensures audioDuration == duration
      ensures lastSelectionDuration == 0.0
      ensures lastViewRange == (0.0, duration)
    {
      audioDuration, lastSelectionDuration, lastViewRange := duration, 0.0, (0.0, duration);
    }

    /** `calculate_initial_view_range(start_time, end_time)`. */
    function CalculateInitialViewRange(startTime: real, endTime: real): (r: (real, real))
      reads this
      ensures r.0 >= 0.0 && r.1 <= audioDuration
      ensures r == InitialViewRange(startTime, endTime, audioDuration)
    {
      InitialViewRange(startTime, endTime, audioDuration)
    }

    /** `calculate_view_range_on_slide(new_time, fixed_time,
        is_start_adjustment, current_view_range)`: the view for the dragged
        span, which starts inside the audio and shows the span's end; the
        span's duration and the view are remembered. */
    method CalculateViewRangeOnSlide(newTime: real, fixedTime: real, isStartAdjustment: bool, currentViewRange: (real, real))
      returns (viewStart: real, viewEnd: real)
      modifies this
      ensures audioDuration == old(audioDuration)
      ensures var span := SlideSpan(newTime, fixedTime, isStartAdjustment);
        var width := SlideWidth(span.1 - span.0, old(lastSelectionDuration), currentViewRange.1 - currentViewRange.0, audioDuration);
        (viewStart, viewEnd) == SlideView(span, fixedTime, isStartAdjustment, width, audioDuration)
      ensures lastSelectionDuration == SlideSpan(newTime, fixedTime, isStartAdjustment).1 - SlideSpan(newTime, fixedTime, isStartAdjustment).0
      ensures lastViewRange == (viewStart, viewEnd)
      ensures viewStart >= 0.0
      ensures (currentViewRange.0 <= currentViewRange.1 && audioDuration >= 0.0 &&
               SlideSpan(newTime, fixedTime, isStartAdjustment).1 <= audioDuration) ==> viewEnd >= SlideSpan(newTime, fixedTime, isStartAdjustment).1
    {
      var span := SlideSpan(newTime, fixedTime, isStartAdjustment);
      var currentDuration := span.1 - span.0;
      var width := SlideWidth(currentDuration, lastSelectionDuration, currentViewRange.1 - currentViewRange.0, audioDuration);
      var view := SlideView(span, fixedTime, isStartAdjustment, width, audioDuration);
      lastSelectionDuration, lastViewRange := currentDuration, view;
      viewStart, viewEnd := view.0, view.1;
    }
  }
}
