/** The column table of the alignment tree and the allocation of the
    available width: the fixed columns keep their width, the stretchable
    ones share what is left in proportion to their weight. */
module Columns {
  import opened Wrappers

  /** The configuration of one column. */
  datatype ColumnSpec = ColumnSpec(width: int, stretch: bool, anchor: string, weight: int)

  /** The columns the tree can show, with their fixed or minimum width. */
  const ColumnTable: map<string, ColumnSpec> := map[
    "V.O" := ColumnSpec(50, false, "center", 0),
    "Index" := ColumnSpec(50, false, "center", 0),
    "Start" := ColumnSpec(100, false, "center", 0),
    "End" := ColumnSpec(100, false, "center", 0),
    "SRT Text" := ColumnSpec(180, true, "w", 3),
    "Word Text" := ColumnSpec(180, true, "w", 3),
    "Match" := ColumnSpec(200, true, "center", 2),
    "V/X" := ColumnSpec(50, false, "center", 0)
  ]

  /** The message of the `KeyError` an unknown column name raises. */
  const KeyErrorMessage := "KeyError"

  /** Every requested column is in the table. */
  predicate AllKnown(columns: seq<string>) {
    forall i :: 0 <= i < |columns| ==> columns[i] in ColumnTable
  }

  /** Every configured weight is non-negative. */
  lemma WeightsNonNegative(c: string)
    requires c in ColumnTable
    ensures ColumnTable[c].weight >= 0 && ColumnTable[c].width >= 0
  {
  }

  /** The summed width of the requested non-stretch columns, each
      occurrence counted. */
  function FixedWidth(columns: seq<string>): (w: int)
    requires AllKnown(columns)
    ensures w >= 0
  {
    if |columns| == 0 then 0
    else
      var spec := ColumnTable[columns[0]];
      WeightsNonNegative(columns[0]);
      (if spec.stretch then 0 else spec.width) + FixedWidth(columns[1..])
  }

  /** The summed weight of the requested stretch columns, each occurrence
      counted. */
  function TotalWeight(columns: seq<string>): (w: int)
    requires AllKnown(columns)
    ensures w >= 0
  {
    if |columns| == 0 then 0
    else
      var spec := ColumnTable[columns[0]];
      WeightsNonNegative(columns[0]);
      (if spec.stretch then spec.weight else 0) + TotalWeight(columns[1..])
  }

  /** The width left over for the stretch columns, never negative. */
  function Stretchable(totalWidth: int, columns: seq<string>): (s: int)
    requires AllKnown(columns)
    ensures s >= 0
    ensures s >= totalWidth - FixedWidth(columns)
    ensures s == 0 || s == totalWidth - FixedWidth(columns)
  {
    var rest := totalWidth - FixedWidth(columns);
    if rest > 0 then rest else 0
  }

  /** The proportional share of a stretch column; the widths are
      non-negative, so truncating the quotient is flooring it. */
  function Share(stretchable: int, weight: int, totalWeight: int): (s: int)
    requires totalWeight > 0
    ensures stretchable >= 0 && weight >= 0 ==> s >= 0
  {
    stretchable * weight / totalWeight
  }

  /** The width one column gets. */
  function ColumnWidth(spec: ColumnSpec, stretchable: int, totalWeight: int): (w: int)
    ensures !spec.stretch ==> w == spec.width
    ensures spec.stretch && totalWeight <= 0 ==> w == spec.width
    ensures spec.stretch && totalWeight > 0 ==>
      w >= spec.width && w >= Share(stretchable, spec.weight, totalWeight)
    ensures spec.stretch && totalWeight > 0 ==>
      w == spec.width || w == Share(stretchable, spec.weight, totalWeight)
  {
    if spec.stretch && totalWeight > 0 then
      var share := Share(stretchable, spec.weight, totalWeight);
      if share > spec.width then share else spec.width
    else spec.width
  }

  /** `calculate_column_widths(tree, total_width, columns)`: a `KeyError`
      for a column not in the table, otherwise a width for each requested
      column. */
  function CalculateColumnWidths(totalWidth: int, columns: seq<string>): (r: Result<map<string, int>>)
    ensures r.Success? <==> AllKnown(columns)
    ensures r.Failure? ==> r.error == KeyErrorMessage
    ensures r.Success? ==> r.value.Keys == set i | 0 <= i < |columns| :: columns[i]
    ensures r.Success? ==> forall i :: 0 <= i < |columns| ==>
      r.value[columns[i]] ==
      ColumnWidth(ColumnTable[columns[i]], Stretchable(totalWidth, columns), TotalWeight(columns))
  {
    if !AllKnown(columns) then Failure(KeyErrorMessage)
    else
      var stretchable := Stretchable(totalWidth, columns);
      var totalWeight := TotalWeight(columns);
      Success(map c | c in (set i | 0 <= i < |columns| :: columns[i]) ::
        ColumnWidth(ColumnTable[c], stretchable, totalWeight))
  }

  /** Every column gets at least its configured width; a fixed column gets
      exactly that, a stretch column at least its share. */
  lemma WidthsAtLeastConfigured(totalWidth: int, columns: seq<string>, i: int)
    requires AllKnown(columns) && 0 <= i < |columns|
    ensures CalculateColumnWidths(totalWidth, columns).value[columns[i]] >= ColumnTable[columns[i]].width
    ensures !ColumnTable[columns[i]].stretch ==>
      CalculateColumnWidths(totalWidth, columns).value[columns[i]] == ColumnTable[columns[i]].width
    ensures ColumnTable[columns[i]].stretch && TotalWeight(columns) > 0 ==>
      CalculateColumnWidths(totalWidth, columns).value[columns[i]] >=
      Share(Stretchable(totalWidth, columns), ColumnTable[columns[i]].weight, TotalWeight(columns))
  {
  }

  /** The summed shares of the requested stretch columns, each occurrence
      counted. */
  function ShareSum(columns: seq<string>, stretchable: int, totalWeight: int): int
    requires AllKnown(columns) && totalWeight > 0
  {
    if |columns| == 0 then 0
    else
      var spec := ColumnTable[columns[0]];
      (if spec.stretch then Share(stretchable, spec.weight, totalWeight) else 0)
      + ShareSum(columns[1..], stretchable, totalWeight)
  }

  /** A floored share times the divisor is at most the dividend. */
  lemma ShareTimesDivisor(s: int, w: int, t: int)
    requires s >= 0 && w >= 0 && t > 0
    ensures Share(s, w, t) * t <= s * w
  {
  }

  lemma Distribute(a: int, b: int, c: int)
    ensures (a + b) * c == a * c + b * c
    ensures c * (a + b) == c * a + c * b
  {
  }

  lemma CancelFactor(x: int, s: int, w: int)
    requires w > 0 && x * w <= s * w
    ensures x <= s
  {
  }

  /** Scaled by the total weight, the shares are bounded by the stretchable
      width times the weight they cover. */
  lemma {:induction false} ShareSumScaled(columns: seq<string>, s: int, t: int)
    requires AllKnown(columns) && s >= 0 && t > 0
    ensures ShareSum(columns, s, t) * t <= s * TotalWeight(columns)
  {
    if |columns| > 0 {
      var spec := ColumnTable[columns[0]];
      var rest := columns[1..];
      assert AllKnown(rest);
      ShareSumScaled(rest, s, t);
      WeightsNonNegative(columns[0]);
      var q := if spec.stretch then Share(s, spec.weight, t) else 0;
      var w := if spec.stretch then spec.weight else 0;
      if spec.stretch {
        ShareTimesDivisor(s, spec.weight, t);
      }
      assert q * t <= s * w;
      var r := ShareSum(rest, s, t);
      Distribute(q, r, t);
      Distribute(w, TotalWeight(rest), s);
      assert ShareSum(columns, s, t) == q + r;
      assert TotalWeight(columns) == w + TotalWeight(rest);
    }
  }

  /** The proportional shares never exceed the stretchable width: only the
      minimum widths can make the stretch columns wider than the space left. */
  lemma SharesFit(totalWidth: int, columns: seq<string>)
    requires AllKnown(columns) && TotalWeight(columns) > 0
    ensures ShareSum(columns, Stretchable(totalWidth, columns), TotalWeight(columns))
      <= Stretchable(totalWidth, columns)
  {
    var s := Stretchable(totalWidth, columns);
    var t := TotalWeight(columns);
    ShareSumScaled(columns, s, t);
    CancelFactor(ShareSum(columns, s, t), s, t);
  }

  /** Three of the columns on a 600-pixel tree: `Index` keeps 50, and the
      remaining 550 go 3 : 2 to `SRT Text` and `Match`. */
  lemma ColumnsExample()
    ensures CalculateColumnWidths(600, ["Index", "SRT Text", "Match"])
      == Success(map["Index" := 50, "SRT Text" := 330, "Match" := 220])
  {
    var cs := ["Index", "SRT Text", "Match"];
    assert AllKnown(cs);
    assert FixedWidth(cs) == 50 by {
      assert cs[1..][1..] == ["Match"];
    }
    assert TotalWeight(cs) == 5 by {
      assert cs[1..][1..] == ["Match"];
    }
    var r := CalculateColumnWidths(600, cs).value;
    assert r[cs[0]] == 50 && r[cs[1]] == 330 && r[cs[2]] == 220;
    var m := map["Index" := 50, "SRT Text" := 330, "Match" := 220];
    assert r.Keys == m.Keys;
    assert forall k | k in m :: r[k] == m[k];
    assert r == m;
  }
}
