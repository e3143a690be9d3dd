/** The segmentation service of the split dialog: the time span of one
    subtitle shared out over its text lines in proportion to their length,
    the numbering of the resulting parts, and the check of a time range.
    Times are subtitle ordinals in milliseconds, given already parsed; the
    `ValueError` that parsing a malformed time string raises is not part of
    this model. */
module Segmentation {
  import opened Wrappers
  import opened Strings

  /** One line of a split: its text and its start and end time. */
  datatype Segment<T> = Segment(text: string, start: T, end: T)

  /** A split part numbered for the tree update. */
  datatype Numbered<T> = Numbered(index: int, text: string, start: T, end: T)

  /** The lines that are not blank, stripped, in their order. */
  function ValidLines(lines: seq<string>): (r: seq<string>)
    ensures |r| <= |lines|
    ensures forall i :: 0 <= i < |r| ==> r[i] != ""
  {
    if |lines| == 0 then []
    else
      var rest := ValidLines(lines[1..]);
      if Strip(lines[0]) != "" then [Strip(lines[0])] + rest else rest
  }

  /** The number of characters of the lines. */
  function TotalChars(ts: seq<string>): nat {
    if |ts| == 0 then 0 else TotalChars(ts[..|ts| - 1]) + |ts[|ts| - 1]|
  }

  /** The divisor of the proportion: the character count, at least one. */
  function CharCount(ts: seq<string>): (c: nat)
    ensures c >= 1 && c >= TotalChars(ts)
  {
    if TotalChars(ts) == 0 then 1 else TotalChars(ts)
  }

  /** Python's `int(a / b)` for `b > 0`: the quotient truncated toward zero
      (Dafny's `/` floors, which differs for a negative `a`). */
  function TruncDiv(a: int, b: int): (q: int)
    requires b > 0
    ensures a >= 0 ==> q >= 0
    ensures a <= 0 ==> q <= 0
  {
    if a >= 0 then a / b else -((-a) / b)
  }

  /** The truncated quotient lies within one divisor of the exact one, on
      the side of zero. */
  lemma TruncDivBounds(a: int, b: int)
    requires b > 0
    ensures a >= 0 ==> 0 <= a - TruncDiv(a, b) * b < b
    ensures a < 0 ==> 0 <= TruncDiv(a, b) * b - a < b
  {
  }

  /** The time a non-final line of `len` characters gets out of `total`
      milliseconds shared over `chars` characters. */
  function Duration(total: int, len: nat, chars: nat): int
    requires chars >= 1
  {
    TruncDiv(total * len, chars)
  }

  /** A share of a non-negative span is non-negative and, times the
      divisor, at most the exact share. */
  lemma ShareBounds(total: int, len: nat, chars: nat)
    requires total >= 0 && chars >= 1
    ensures 0 <= Duration(total, len, chars)
    ensures Duration(total, len, chars) * chars <= total * len
  {
    assert total * len >= 0;
    TruncDivBounds(total * len, chars);
  }

  lemma Distribute(a: int, b: int, c: int)
    ensures (a + b) * c == a * c + b * c
    ensures c * (a + b) == c * a + c * b
  {
  }

  lemma MultiplyMonotone(a: int, b: int, c: int)
    requires a >= 0 && b <= c
    ensures a * b <= a * c
  {
  }

  /** The time taken by the first `i` lines. */
  function Elapsed(ts: seq<string>, total: int, i: nat): int
    requires i <= |ts|
  {
    if i == 0 then 0 else Elapsed(ts, total, i - 1) + Duration(total, |ts[i - 1]|, CharCount(ts))
  }

  /** Segment `k` of the lines `ts` over `[start, end]`: it starts where
      the previous lines' time ends, and the last one ends at `end`. */
  function SegmentAt(ts: seq<string>, start: int, end: int, k: nat): (g: Segment<int>)
    requires k < |ts|
    ensures g.text == ts[k]
    ensures k == |ts| - 1 ==> g.end == end
  {
    var s := start + Elapsed(ts, end - start, k);
    Segment(ts[k], s, if k == |ts| - 1 then end else s + Duration(end - start, |ts[k]|, CharCount(ts)))
  }

  /** What `generate_time_segments(lines, start, end)` returns. */
  function TimeSegments(lines: seq<string>, start: int, end: int): (r: seq<Segment<int>>)
    ensures |r| == |ValidLines(lines)|
  {
    var ts := ValidLines(lines);
    seq(|ts|, k requires 0 <= k < |ts| => SegmentAt(ts, start, end, k))
  }

  /** `generate_time_segments(lines, start_time, end_time)` on the parsed
      times: one segment per valid line, each starting at the previous
      one's end. */
  method GenerateTimeSegments(lines: seq<string>, startTime: int, endTime: int)
    returns (results: seq<Segment<int>>)
    ensures results == TimeSegments(lines, startTime, endTime)
  {
    var validLines := ValidLines(lines);
    if |validLines| == 0 {
      return [];
    }
    var totalDuration := endTime - startTime;
    var totalChars: int := TotalChars(validLines);
    if totalChars == 0 {
      totalChars := 1;
    }
    results := [];
    var currentTime := startTime;
    var i := 0;
    while i < |validLines|
      invariant 0 <= i <= |validLines|
      invariant |results| == i
      invariant forall k :: 0 <= k < i ==> results[k] == SegmentAt(validLines, startTime, endTime, k)
      invariant i < |validLines| ==> currentTime == startTime + Elapsed(validLines, totalDuration, i)
    {
      var lineText := validLines[i];
      var nextTime;
      if i == |validLines| - 1 {
        nextTime := endTime;
      } else {
        nextTime := currentTime + Duration(totalDuration, |lineText|, totalChars);
      }
      results := results + [Segment(lineText, currentTime, nextTime)];
      currentTime := nextTime;
      i := i + 1;
    }
  }

  /** One segment per non-blank line, in order, with its stripped text. */
  lemma SegmentsTexts(lines: seq<string>, start: int, end: int)
    ensures var r := TimeSegments(lines, start, end); var ts := ValidLines(lines);
      |r| == |ts| && forall i :: 0 <= i < |r| ==> r[i].text == ts[i]
  {
  }

  /** Blank lines are ignored: when every line is blank there are no
      segments. */
  lemma {:induction false} AllBlankNoSegments(lines: seq<string>, start: int, end: int)
    requires forall i :: 0 <= i < |lines| ==> Strip(lines[i]) == ""
    ensures ValidLines(lines) == [] && TimeSegments(lines, start, end) == []
  {
    if |lines| > 0 {
      assert forall i :: 0 <= i < |lines[1..]| ==> lines[1..][i] == lines[i + 1];
      AllBlankNoSegments(lines[1..], start, end);
    }
  }

  /** The first segment starts at `start` and the last ends at `end`. */
  lemma SegmentsEnds(lines: seq<string>, start: int, end: int)
    ensures var r := TimeSegments(lines, start, end);
      |r| > 0 ==> r[0].start == start && r[|r| - 1].end == end
  {
  }

  /** Each segment ends where the next one starts, and a non-final line
      lasts its share of the span. */
  lemma SegmentsContiguous(lines: seq<string>, start: int, end: int)
    ensures var r := TimeSegments(lines, start, end); var ts := ValidLines(lines);
      forall i :: 0 <= i < |r| - 1 ==>
        r[i].end == r[i + 1].start && r[i].end - r[i].start == Duration(end - start, |ts[i]|, CharCount(ts))
  {
    var r := TimeSegments(lines, start, end);
    var ts := ValidLines(lines);
    forall i | 0 <= i < |r| - 1
      ensures r[i].end == r[i + 1].start
      ensures r[i].end - r[i].start == Duration(end - start, |ts[i]|, CharCount(ts))
    {
      SegmentStep(ts, start, end, i);
    }
  }

  lemma SegmentStep(ts: seq<string>, start: int, end: int, i: nat)
    requires i + 1 < |ts|
    ensures SegmentAt(ts, start, end, i).end == SegmentAt(ts, start, end, i + 1).start
    ensures SegmentAt(ts, start, end, i).end - SegmentAt(ts, start, end, i).start ==
            Duration(end - start, |ts[i]|, CharCount(ts))
  {
  }

  /** Truncating each share separately loses time: the first `i` lines
      take at most their characters' share of the span. */
  lemma {:induction false} ElapsedBound(ts: seq<string>, total: int, i: nat)
    requires total >= 0 && i <= |ts|
    ensures 0 <= Elapsed(ts, total, i)
    ensures Elapsed(ts, total, i) * CharCount(ts) <= total * TotalChars(ts[..i])
  {
    if i > 0 {
      ElapsedBound(ts, total, i - 1);
      var c := CharCount(ts);
      var e := Elapsed(ts, total, i - 1);
      var l := |ts[i - 1]|;
      var d := Duration(total, l, c);
      var p := TotalChars(ts[..i - 1]);
      ShareBounds(total, l, c);
      assert ts[..i][..i - 1] == ts[..i - 1];
      assert TotalChars(ts[..i]) == p + l;
      assert Elapsed(ts, total, i) == e + d;
      Distribute(e, d, c);
      Distribute(p, l, total);
    }
  }

  /** A non-negative share is non-negative, so the elapsed time grows with
      each line. */
  lemma ElapsedMonotone(ts: seq<string>, total: int, i: nat)
    requires total >= 0 && i < |ts|
    ensures Elapsed(ts, total, i) <= Elapsed(ts, total, i + 1)
  {
    ShareBounds(total, |ts[i]|, CharCount(ts));
  }

  /** No line takes more than the whole span. */
  lemma ElapsedWithinSpan(ts: seq<string>, total: int, i: nat)
    requires total >= 0 && i <= |ts|
    ensures 0 <= Elapsed(ts, total, i) <= total
  {
    ElapsedBound(ts, total, i);
    TotalCharsPrefix(ts, i);
    WithinWhole(Elapsed(ts, total, i), total, TotalChars(ts[..i]), CharCount(ts));
  }

  /** A time at most the share of `t` out of `c >= t` characters is at most
      the whole span. */
  lemma WithinWhole(e: int, total: int, t: int, c: int)
    requires total >= 0 && c >= 1 && 0 <= t <= c && e * c <= total * t
    ensures e <= total
  {
    MultiplyMonotone(total, t, c);
    if e > total {
      MultiplyMonotone(c, total + 1, e);
      Distribute(total, 1, c);
    }
  }

  lemma {:induction false} TotalCharsPrefix(ts: seq<string>, i: nat)
    requires i <= |ts|
    ensures TotalChars(ts[..i]) <= TotalChars(ts)
    decreases |ts| - i
  {
    if i < |ts| {
      TotalCharsPrefix(ts, i + 1);
      assert ts[..i + 1][..i] == ts[..i];
    } else {
      assert ts[..i] == ts;
    }
  }

  /** Over a span that does not run backwards every segment lies inside
      it and runs forwards. */
  lemma SegmentsWithinSpan(lines: seq<string>, start: int, end: int)
    requires start <= end
    ensures var r := TimeSegments(lines, start, end);
      forall i :: 0 <= i < |r| ==> start <= r[i].start <= r[i].end <= end
  {
    var r := TimeSegments(lines, start, end);
    var ts := ValidLines(lines);
    forall i | 0 <= i < |r|
      ensures start <= r[i].start <= r[i].end <= end
    {
      ElapsedWithinSpan(ts, end - start, i);
      if i < |r| - 1 {
        ElapsedWithinSpan(ts, end - start, i + 1);
        ElapsedMonotone(ts, end - start, i);
      }
    }
  }

  /** `process_split_result(split_result, original_index)`: part `i` keeps
      its text and times and is numbered `original_index + i`. */
  method ProcessSplitResult<T>(splitResult: seq<Segment<T>>, originalIndex: int)
    returns (processed: seq<Numbered<T>>)
    ensures |processed| == |splitResult|
    ensures forall i :: 0 <= i < |splitResult| ==>
      processed[i] == Numbered(originalIndex + i, splitResult[i].text, splitResult[i].start, splitResult[i].end)
  {
    processed := [];
    var i := 0;
    while i < |splitResult|
      invariant 0 <= i <= |splitResult| && |processed| == i
      invariant forall k :: 0 <= k < i ==>
        processed[k] == Numbered(originalIndex + k, splitResult[k].text, splitResult[k].start, splitResult[k].end)
    {
      var newIndex := if i > 0 then originalIndex + i else originalIndex;
      processed := processed + [Numbered(newIndex, splitResult[i].text, splitResult[i].start, splitResult[i].end)];
      i := i + 1;
    }
  }

  const EmptyTimeMessage: string := "開始時間或結束時間為空"
  const OrderMessage: string := "結束時間必須大於開始時間"
  const ParseMessage: string := "時間格式解析錯誤："

  /** `validate_time_range(start, end)` with `parse_time` as `parse`
      (a `Failure` is its `ValueError`): valid exactly when both strings
      are non-empty, both parse, and the end comes after the start. */
  function ValidateTimeRange(startTime: string, endTime: string, parse: string -> Result<int>)
    : (r: (bool, string))
    ensures r.0 <==> startTime != "" && endTime != "" && parse(startTime).Success? && parse(endTime).Success? &&
                     parse(startTime).value < parse(endTime).value
    ensures r.0 <==> r.1 == ""
    ensures (startTime == "" || endTime == "") ==> r == (false, EmptyTimeMessage)
  {
    if startTime == "" || endTime == "" then (false, EmptyTimeMessage)
    else match (parse(startTime), parse(endTime))
      case (Failure(e), _) => (false, ParseMessage + e)
      case (Success(_), Failure(e)) => (false, ParseMessage + e)
      case (Success(s), Success(e)) => if e <= s then (false, OrderMessage) else (true, "")
  }
}
