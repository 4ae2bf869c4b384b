/** linechart.py: the mean work-life balance per (level, years to promotion) over all
    records, recast to the ordered levels and filtered by the level selection; unlike
    line.py, an empty selection shows everything. */
module LineChart {
  import opened Table
  import opened GroupBy
  import opened Ordering
  import opened Pipeline

  function ChartKeep(selected: seq<string>): LevelPoint -> bool
  {
    (q: LevelPoint) => "All" in selected || selected == [] || (q.level.Some? && q.level.value in selected)
  }

  /** `if "All" in selected_levels or not selected_levels: all, else isin(selected)`. */
  function ChartSelect(points: seq<LevelPoint>, selected: seq<string>): (r: seq<LevelPoint>)
    ensures "All" in selected || selected == [] ==> r == points
    ensures forall q :: q in r <==> q in points && ("All" in selected || selected == [] || (q.level.Some? && q.level.value in selected))
    ensures IsSubsequence(r, points)
  {
    WhereKeepsOrder(points, ChartKeep(selected));
    if "All" in selected || selected == [] then
      WhereAll(points, ChartKeep(selected));
      Where(points, ChartKeep(selected))
    else
      Where(points, ChartKeep(selected))
  }

  /** The plotted table: every point with a level is a selected level of the fixed order
      and carries the mean balance of its (level, years) group; every record on a selected
      level of the order has its point; no (level, years) pair is plotted twice. */
  function LineChartData(rows: seq<Record>, selected: seq<string>): (r: seq<LevelPoint>)
    ensures forall q :: q in r && q.level.Some? ==>
      && q.level.value in JobLevelsOrder
      && ("All" in selected || selected == [] || q.level.value in selected)
      && IsMeanPoint(rows, LevelYears, q.level.value, q)
    ensures forall x :: x in rows && x.jobLevel in JobLevelsOrder && ("All" in selected || selected == [] || x.jobLevel in selected) ==>
      exists q :: q in r && q.level == Some(x.jobLevel) && q.at == x.yearsToPromotion
    ensures forall i, j :: 0 <= i < j < |r| && r[i].level.Some? && r[i].level == r[j].level ==> r[i].at != r[j].at
  {
    var p := RecastMeans(rows, LevelYears);
    var r := ChartSelect(p, selected);
    ChartPoints(rows, p, r, selected);
    ChartCover(rows, p, r, selected);
    SubsequenceKeepsDistinct(r, p);
    r
  }

  lemma ChartPoints(rows: seq<Record>, p: seq<LevelPoint>, r: seq<LevelPoint>, selected: seq<string>)
    requires p == RecastMeans(rows, LevelYears)
    requires forall q :: q in r ==> q in p && ("All" in selected || selected == [] || (q.level.Some? && q.level.value in selected))
    ensures forall q :: q in r && q.level.Some? ==>
      && q.level.value in JobLevelsOrder
      && ("All" in selected || selected == [] || q.level.value in selected)
      && IsMeanPoint(rows, LevelYears, q.level.value, q)
  {
    forall q | q in r && q.level.Some?
      ensures q.level.value in JobLevelsOrder && IsMeanPoint(rows, LevelYears, q.level.value, q)
    {
      var i :| 0 <= i < |p| && p[i] == q;
    }
  }

  lemma ChartCover(rows: seq<Record>, p: seq<LevelPoint>, r: seq<LevelPoint>, selected: seq<string>)
    requires forall x :: x in rows && x.jobLevel in JobLevelsOrder ==>
      exists i :: 0 <= i < |p| && p[i].level == Some(x.jobLevel) && p[i].at == x.yearsToPromotion
    requires forall q :: q in r <==> q in p && ("All" in selected || selected == [] || (q.level.Some? && q.level.value in selected))
    ensures forall x :: x in rows && x.jobLevel in JobLevelsOrder && ("All" in selected || selected == [] || x.jobLevel in selected) ==>
      exists q :: q in r && q.level == Some(x.jobLevel) && q.at == x.yearsToPromotion
  {
    forall x | x in rows && x.jobLevel in JobLevelsOrder && ("All" in selected || selected == [] || x.jobLevel in selected)
      ensures exists q :: q in r && q.level == Some(x.jobLevel) && q.at == x.yearsToPromotion
    {
      var i :| 0 <= i < |p| && p[i].level == Some(x.jobLevel) && p[i].at == x.yearsToPromotion;
      assert p[i] in r;
    }
  }
}
