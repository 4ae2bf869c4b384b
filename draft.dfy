/** draftcuaple.py: the KPI summary, the sunburst (module SunburstData), the line chart
    of mean work-life balance per years to promotion, and the per-level bar and area
    charts of entrepreneurship shares whose width and annotation font size adapt to
    the number of ages shown. */
module Draft {
  import opened Table
  import opened GroupBy
  import opened Ordering
  import opened Pipeline

  // ---------------------------------------------------------------------------
  // Chart sizing

  /** `FONT_SIZES`: annotation font size by number of ages on the x axis. */
  const FontSizes: map<int, int> :=
    map[1 := 20, 2 := 18, 3 := 16, 4 := 14, 5 := 12, 6 := 11, 7 := 10, 8 := 9, 9 := 8, 10 := 7]

  /** `get_font_size(n)`: the tabulated size, 6 for any count outside the table. The
      default is smaller than every tabulated size. */
  function FontSize(n: int): (f: int)
    ensures 6 <= f <= 20
    ensures f == 6 <==> n !in FontSizes
  {
    if n in FontSizes then FontSizes[n] else 6
  }

  /** More ages never give a larger font. */
  lemma FontSizeNonIncreasing(a: int, b: int)
    requires 1 <= a <= b
    ensures FontSize(b) <= FontSize(a)
  {
    if b <= 10 {
      assert a in FontSizes && b in FontSizes;
      assert FontSizes[a] == 22 - 2 * a || (a >= 6 && FontSizes[a] == 17 - a);
      assert FontSizes[b] == 22 - 2 * b || (b >= 6 && FontSizes[b] == 17 - b);
    }
  }

  /** `max(400, min(1200, 50 * k + 100))`: 50 pixels per age plus a margin, clamped to
      [400, 1200]; the clamp is inactive exactly for 6 to 22 ages. */
  function ChartWidth(k: int): (w: int)
    ensures 400 <= w <= 1200
    ensures w == 50 * k + 100 <==> 6 <= k <= 22
    ensures k <= 6 ==> w == 400
    ensures k >= 22 ==> w == 1200
  {
    var raw := 50 * k + 100;
    var capped := if raw < 1200 then raw else 1200;
    if capped > 400 then capped else 400
  }

  lemma ChartWidthMonotone(a: int, b: int)
    requires a <= b
    ensures ChartWidth(a) <= ChartWidth(b)
  {
  }

  // ---------------------------------------------------------------------------
  // KPI summary

  /** The four metrics at the top of the page. */
  datatype Kpis = Kpis(avgSalary: real, pctEntrepreneurs: real, avgWorkLife: real, avgYearsToPromotion: real)

  function SalaryOf(r: Record): real { r.startingSalary }
  function YearsAsReal(r: Record): real { r.yearsToPromotion as real }
  predicate IsEntrepreneur(r: Record) { r.entrepreneurship == "Yes" }

  /** `c` of `n` as a percentage: within [0, 100], 100 only for all, 0 only for none. */
  function PercentOf(c: nat, n: nat): (p: real)
    requires 0 < n && c <= n
    ensures p * n as real == 100.0 * c as real
    ensures 0.0 <= p <= 100.0
    ensures p == 100.0 <==> c == n
    ensures p == 0.0 <==> c == 0
  {
    var p := 100.0 * c as real / n as real;
    assert p * n as real == 100.0 * c as real;
    p
  }

  /** The column means and the percentage of 'Yes' entrepreneurs. On an empty table
      every mean is NaN, modelled as no summary. */
  function SummaryKpis(rows: seq<Record>): (k: Option<Kpis>)
    ensures k.None? <==> rows == []
    ensures k.Some? ==>
      && k.value.avgSalary == Average(Column(rows, SalaryOf))
      && k.value.avgWorkLife == Average(Column(rows, BalanceOf))
      && k.value.avgYearsToPromotion == Average(Column(rows, YearsAsReal))
      && |Where(rows, IsEntrepreneur)| <= |rows|
      && k.value.pctEntrepreneurs == PercentOf(|Where(rows, IsEntrepreneur)|, |rows|)
      && 0.0 <= k.value.pctEntrepreneurs <= 100.0
      && (k.value.pctEntrepreneurs == 100.0 <==> forall x :: x in rows ==> x.entrepreneurship == "Yes")
      && (k.value.pctEntrepreneurs == 0.0 <==> forall x :: x in rows ==> x.entrepreneurship != "Yes")
  {
    if rows == [] then None
    else
      var yes := |Where(rows, IsEntrepreneur)|;
      WhereLength(rows, IsEntrepreneur);
      Some(Kpis(
        Average(Column(rows, SalaryOf)),
        PercentOf(yes, |rows|),
        Average(Column(rows, BalanceOf)),
        Average(Column(rows, YearsAsReal))))
  }

  /** The average work-life balance lies within any range that holds every rating. */
  lemma WorkLifeKpiInRange(rows: seq<Record>, lo: real, hi: real)
    requires rows != []
    requires forall x :: x in rows ==> lo <= x.workLifeBalance <= hi
    ensures lo <= SummaryKpis(rows).value.avgWorkLife <= hi
  {
    var col := Column(rows, BalanceOf);
    forall v | v in col ensures lo <= v <= hi {
      var i :| 0 <= i < |col| && col[i] == v;
      assert rows[i] in rows;
    }
    AverageBounds(col, lo, hi);
  }

  // ---------------------------------------------------------------------------
  // Line chart

  /** `avg_balance[level.isin(selected_levels_line)]` and one trace per selected level
      in the fixed order: every trace point is a mean balance per (level, years to
      promotion) group, and every record on a traced level has its point there. */
  function DraftLineTraces(rows: seq<Record>, selected: seq<string>): (t: seq<Trace<LevelPoint>>)
    ensures forall l :: l in Column(t, TraceLevel) <==> l in JobLevelsOrder && l in selected
    ensures AscendingBy(Column(t, TraceLevel), LevelRank)
    ensures forall i, q :: 0 <= i < |t| && q in t[i].points ==> IsMeanPoint(rows, LevelYears, t[i].level, q)
    ensures forall i, x :: 0 <= i < |t| && x in rows && x.jobLevel == t[i].level ==>
      exists q :: q in t[i].points && q.at == x.yearsToPromotion
    ensures forall i, a, b :: 0 <= i < |t| && 0 <= a < b < |t[i].points| ==> t[i].points[a].at != t[i].points[b].at
  {
    var p := RecastMeans(rows, LevelYears);
    var points := Where(p, LevelIn(selected));
    var t := LevelTraces(points, IsSelected(selected));
    CoverThroughFilter(rows, LevelYears, p, points, IsSelected(selected));
    MeanTracePoints(rows, LevelYears, points, IsSelected(selected), t);
    MeanTraceCover(rows, LevelYears, points, IsSelected(selected), t);
    SelectedTraceAts(p, selected, t);
    t
  }

  lemma SelectedTraceAts(p: seq<LevelPoint>, selected: seq<string>, t: seq<Trace<LevelPoint>>)
    requires forall i, j :: 0 <= i < j < |p| && p[i].level.Some? && p[i].level == p[j].level ==> p[i].at != p[j].at
    requires t == LevelTraces(Where(p, LevelIn(selected)), IsSelected(selected))
    ensures forall i, a, b :: 0 <= i < |t| && 0 <= a < b < |t[i].points| ==> t[i].points[a].at != t[i].points[b].at
  {
    WhereKeepsOrder(p, LevelIn(selected));
    TraceAtsDistinct(p, Where(p, LevelIn(selected)), t);
  }

  // ---------------------------------------------------------------------------
  // Bar and area charts

  /** `get_entrepreneurship_grouped`: the share table of the Yes/No records. Each key
      once, each a Yes or No key with its count and within-cell share among the Yes/No
      records, and every Yes/No record's key present. */
  function EntrepreneurshipGrouped(rows: seq<Record>): (g: seq<Shared<LevelAgeStatus>>)
    ensures forall i, j :: 0 <= i < j < |g| ==> g[i].key != g[j].key
    ensures forall y :: y in g ==> (y.key.status == "Yes" || y.key.status == "No") && ShareRow(YesNoRows(rows), y)
    ensures forall x :: x in rows && IsYesNo(x) ==> exists y :: y in g && y.key == KeyOf(x)
  {
    var bar := YesNoRows(rows);
    var g := EntrepreneurshipShares(bar);
    GroupedKeys(rows, bar, g);
    g
  }

  lemma GroupedKeys(rows: seq<Record>, bar: seq<Record>, g: seq<Shared<LevelAgeStatus>>)
    requires forall x :: x in bar <==> x in rows && (x.entrepreneurship == "Yes" || x.entrepreneurship == "No")
    requires forall x :: x in bar ==> exists i :: 0 <= i < |g| && g[i].key == KeyOf(x)
    requires forall i :: 0 <= i < |g| ==> g[i].key in Column(bar, KeyOf) && ShareRow(bar, g[i])
    ensures forall y :: y in g ==> (y.key.status == "Yes" || y.key.status == "No") && ShareRow(bar, y)
    ensures forall x :: x in rows && IsYesNo(x) ==> exists y :: y in g && y.key == KeyOf(x)
  {
    ColumnMembers(bar, KeyOf);
    forall y | y in g ensures (y.key.status == "Yes" || y.key.status == "No") && ShareRow(bar, y) {
      var i :| 0 <= i < |g| && g[i] == y;
      var x :| x in bar && KeyOf(x) == y.key;
    }
    forall x | x in rows && IsYesNo(x) ensures exists y :: y in g && y.key == KeyOf(x) {
      assert x in bar;
      var i :| 0 <= i < |g| && g[i].key == KeyOf(x);
      assert g[i] in g;
    }
  }

  function BarKeep(levels: seq<string>, lo: int, hi: int, statuses: seq<string>): Shared<LevelAgeStatus> -> bool
  {
    (y: Shared<LevelAgeStatus>) => y.key.level in levels && Between(lo, hi, y.key.age) && y.key.status in statuses
  }

  /** The sidebar filter on the grouped table: selected level, age within the slider
      range (inclusive), selected status. */
  function BarFilter(grouped: seq<Shared<LevelAgeStatus>>, levels: seq<string>, lo: int, hi: int, statuses: seq<string>)
    : (r: seq<Shared<LevelAgeStatus>>)
    ensures forall y :: y in r <==>
      y in grouped && y.key.level in levels && lo <= y.key.age <= hi && y.key.status in statuses
    ensures IsSubsequence(r, grouped)
  {
    WhereKeepsOrder(grouped, BarKeep(levels, lo, hi, statuses));
    Where(grouped, BarKeep(levels, lo, hi, statuses))
  }

  /** What is drawn for one visible level: the "No data" note, or the two charts with
      their data, x-axis ages, width and annotation font size. */
  datatype LevelView =
    | Missing(level: string)
    | Charts(level: string, data: seq<Shared<LevelAgeStatus>>, ages: seq<int>, width: int, fontSize: int)

  function ViewLevel(v: LevelView): string { v.level }

  function OnLevel(level: string): Shared<LevelAgeStatus> -> bool
  {
    (y: Shared<LevelAgeStatus>) => y.key.level == level
  }

  /** The view of one level: its rows, their distinct ages in ascending order, and the
      width and font size those ages call for. */
  function ViewOf(level: string, filtered: seq<Shared<LevelAgeStatus>>): (v: LevelView)
    ensures v.level == level
    ensures v.Missing? <==> forall y :: y in filtered ==> y.key.level != level
    ensures v.Charts? ==>
      && (forall y :: y in v.data <==> y in filtered && y.key.level == level)
      && StrictlyAscending(v.ages)
      && (forall a :: a in v.ages <==> exists y :: y in v.data && y.key.age == a)
      && 1 <= |v.ages|
      && v.width == ChartWidth(|v.ages|)
      && v.fontSize == FontSize(|v.ages|)
  {
    var data := Where(filtered, OnLevel(level));
    if data == [] then Missing(level)
    else
      assert data[0] in data;
      var ages := SortedUnique(Column(data, SharedAge));
      ColumnMembers(data, SharedAge);
      Charts(level, data, ages, ChartWidth(|ages|), FontSize(|ages|))
  }

  function ViewsFor(levels: seq<string>, filtered: seq<Shared<LevelAgeStatus>>): (vs: seq<LevelView>)
    ensures |vs| == |levels|
    ensures forall i :: 0 <= i < |levels| ==> vs[i] == ViewOf(levels[i], filtered)
  {
    if levels == [] then [] else [ViewOf(levels[0], filtered)] + ViewsFor(levels[1..], filtered)
  }

  /** The views of the visible levels: one per level present, each level once, each
      drawn as charts since a visible level has rows. */
  lemma VisibleViews(visible: seq<string>, filtered: seq<Shared<LevelAgeStatus>>, vs: seq<LevelView>)
    requires NoDup(visible)
    requires forall l :: l in visible <==> exists y :: y in filtered && y.key.level == l
    requires |vs| == |visible|
    requires forall i :: 0 <= i < |visible| ==> vs[i] == ViewOf(visible[i], filtered)
    ensures NoDup(Column(vs, ViewLevel))
    ensures forall l :: l in Column(vs, ViewLevel) <==> exists y :: y in filtered && y.key.level == l
    ensures forall i :: 0 <= i < |vs| ==> vs[i].Charts? && vs[i] == ViewOf(vs[i].level, filtered)
  {
    forall i | 0 <= i < |vs| ensures Column(vs, ViewLevel)[i] == visible[i] {
      assert vs[i].level == visible[i];
    }
    assert Column(vs, ViewLevel) == visible;
    forall i | 0 <= i < |vs| ensures vs[i].Charts? {
      assert visible[i] in visible;
    }
  }

  /** `visible_levels = filtered['Current_Job_Level'].unique()` and the loop over them:
      no filtered row means the warning (no views); otherwise one view per level present,
      each level once, and never the "No data" note, since a visible level has rows. */
  function DraftCharts(filtered: seq<Shared<LevelAgeStatus>>): (v: Option<seq<LevelView>>)
    ensures v.None? <==> filtered == []
    ensures v.Some? ==> NoDup(Column(v.value, ViewLevel))
    ensures v.Some? ==> forall l :: l in Column(v.value, ViewLevel) <==> exists y :: y in filtered && y.key.level == l
    ensures v.Some? ==> forall i :: 0 <= i < |v.value| ==> v.value[i].Charts? && v.value[i] == ViewOf(v.value[i].level, filtered)
  {
    var visible := Distinct(Column(filtered, SharedLevel));
    ColumnMembers(filtered, SharedLevel);
    if visible == [] then
      None
    else
      var vs := ViewsFor(visible, filtered);
      VisibleViews(visible, filtered, vs);
      Some(vs)
  }
}
