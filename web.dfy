/** web.py: the line chart of mean work-life balance per years to promotion, the
    sunburst (module SunburstData) and the stacked bar chart of entrepreneurship
    shares with its sidebar filters and per-level panels. */
module Web {
  import opened Table
  import opened GroupBy
  import opened Ordering
  import opened Pipeline

  // ---------------------------------------------------------------------------
  // Line chart (pivot table)

  function MeanOn(level: string): Averaged<LevelAt> -> bool
  {
    (a: Averaged<LevelAt>) => a.key.level == level
  }

  /** `level in df_line.columns`: some record has the level. */
  function LevelPresent(rows: seq<Record>): string -> bool
  {
    (l: string) => exists x :: x in rows && x.jobLevel == l
  }

  /** The levels of Entry, Mid, Senior, Executive that some record has, in that order. */
  function PresentLevels(rows: seq<Record>): (r: seq<string>)
    ensures forall l :: l in r <==> l in JobLevelsOrder && exists x :: x in rows && x.jobLevel == l
    ensures AscendingBy(r, LevelRank)
  {
    JobLevelsAscending();
    WhereAscending(JobLevelsOrder, LevelPresent(rows), LevelRank);
    Where(JobLevelsOrder, LevelPresent(rows))
  }

  /** `pivot_table(index='Years_to_Promotion', columns='Current_Job_Level',
      values='Work_Life_Balance')` and the trace loop over the level colours: one trace
      per level of Entry, Mid, Senior, Executive that some record has, in that order;
      each trace is non-empty and plots, per years-to-promotion value of that level,
      the mean balance of exactly the records with that level and that value. */
  function PivotTraces(rows: seq<Record>): (t: seq<Trace<Averaged<LevelAt>>>)
    ensures forall l :: l in Column(t, TraceLevel) <==> l in JobLevelsOrder && exists x :: x in rows && x.jobLevel == l
    ensures AscendingBy(Column(t, TraceLevel), LevelRank)
    ensures forall i :: 0 <= i < |t| ==> t[i].points != []
    ensures forall i :: 0 <= i < |t| ==> forall a :: a in t[i].points ==>
      && a.key.level == t[i].level
      && Where(rows, HasKey(LevelYears, a.key)) != []
      && a.mean == Average(Column(Where(rows, HasKey(LevelYears, a.key)), BalanceOf))
  {
    var m := MeanBy(rows, LevelYears, BalanceOf);
    var shown := PresentLevels(rows);
    var t := TracesFor(shown, m, MeanOn);
    assert Column(t, TraceLevel) == shown;
    PivotTracesNonEmpty(rows, m, shown);
    PivotTracesMeans(rows, m, shown);
    t
  }

  /** Every shown level has a non-empty trace. */
  lemma PivotTracesNonEmpty(rows: seq<Record>, m: seq<Averaged<LevelAt>>, shown: seq<string>)
    requires forall x :: x in rows ==> exists j :: 0 <= j < |m| && m[j].key == LevelYears(x)
    requires forall l :: l in shown ==> exists x :: x in rows && x.jobLevel == l
    ensures forall i :: 0 <= i < |shown| ==> TracesFor(shown, m, MeanOn)[i].points != []
  {
    var t := TracesFor(shown, m, MeanOn);
    forall i | 0 <= i < |shown| ensures t[i].points != [] {
      assert shown[i] in shown;
      var x :| x in rows && x.jobLevel == shown[i];
      PivotPointsPresent(m, LevelYears(x));
    }
  }

  /** Every point of a trace is the group mean of its (level, years) pair. */
  lemma PivotTracesMeans(rows: seq<Record>, m: seq<Averaged<LevelAt>>, shown: seq<string>)
    requires m == MeanBy(rows, LevelYears, BalanceOf)
    ensures forall i :: 0 <= i < |shown| ==> forall a :: a in TracesFor(shown, m, MeanOn)[i].points ==>
      && a.key.level == shown[i]
      && Where(rows, HasKey(LevelYears, a.key)) != []
      && a.mean == Average(Column(Where(rows, HasKey(LevelYears, a.key)), BalanceOf))
  {
    forall i | 0 <= i < |shown| {
      PivotPointsMean(rows, m, shown[i]);
    }
  }

  /** A level that some group key has gets a non-empty trace. */
  lemma PivotPointsPresent(m: seq<Averaged<LevelAt>>, k: LevelAt)
    requires exists j :: 0 <= j < |m| && m[j].key == k
    ensures Where(m, MeanOn(k.level)) != []
  {
    var j :| 0 <= j < |m| && m[j].key == k;
    assert m[j] in Where(m, MeanOn(k.level));
  }

  /** Each point of a level's trace is a group mean on that level. */
  lemma PivotPointsMean(rows: seq<Record>, m: seq<Averaged<LevelAt>>, l: string)
    requires m == MeanBy(rows, LevelYears, BalanceOf)
    ensures forall a :: a in Where(m, MeanOn(l)) ==>
      && a.key.level == l
      && Where(rows, HasKey(LevelYears, a.key)) != []
      && a.mean == Average(Column(Where(rows, HasKey(LevelYears, a.key)), BalanceOf))
  {
    forall a | a in Where(m, MeanOn(l))
      ensures Where(rows, HasKey(LevelYears, a.key)) != []
      ensures a.mean == Average(Column(Where(rows, HasKey(LevelYears, a.key)), BalanceOf))
    {
      assert a in m;
      var k :| 0 <= k < |m| && m[k] == a;
    }
  }

  // ---------------------------------------------------------------------------
  // Stacked bar chart

  /** An entry of the 'Ages' multiselect: the 'ALL' option or one age. */
  datatype AgeOption = AllAges | AgeIs(age: int)

  function LevelStatusIn(levels: seq<string>, statuses: seq<string>): Shared<LevelAgeStatus> -> bool
  {
    (y: Shared<LevelAgeStatus>) => y.key.level in levels && y.key.status in statuses
  }

  function LevelAgeStatusIn(levels: seq<string>, ages: seq<AgeOption>, statuses: seq<string>): Shared<LevelAgeStatus> -> bool
  {
    (y: Shared<LevelAgeStatus>) => y.key.level in levels && AgeIs(y.key.age) in ages && y.key.status in statuses
  }

  /** The sidebar filter on the grouped table: level and status are membership tests;
      'ALL' among the selected ages lifts the age constraint even when single ages are
      selected too, otherwise the age must be selected. */
  function WebFilter(grouped: seq<Shared<LevelAgeStatus>>, levels: seq<string>, ages: seq<AgeOption>, statuses: seq<string>)
    : (r: seq<Shared<LevelAgeStatus>>)
    ensures forall y :: y in r <==>
      && y in grouped && y.key.level in levels && y.key.status in statuses
      && (AllAges in ages || AgeIs(y.key.age) in ages)
    ensures IsSubsequence(r, grouped)
  {
    if AllAges in ages then
      WhereKeepsOrder(grouped, LevelStatusIn(levels, statuses));
      Where(grouped, LevelStatusIn(levels, statuses))
    else
      WhereKeepsOrder(grouped, LevelAgeStatusIn(levels, ages, statuses));
      Where(grouped, LevelAgeStatusIn(levels, ages, statuses))
  }

  /** web.py:227-260 end to end: the bars shown are rows of the share table of the
      Yes/No records; each keeps the count of its key and the share it has in its full
      (level, age) cell of Yes/No records, whatever the filters removed; and every
      Yes/No record passing the filters has its key among the bars. */
  function WebBars(rows: seq<Record>, levels: seq<string>, ages: seq<AgeOption>, statuses: seq<string>)
    : (r: seq<Shared<LevelAgeStatus>>)
    ensures forall y :: y in r ==>
      && (y.key.status == "Yes" || y.key.status == "No")
      && y.key.level in levels && y.key.status in statuses
      && (AllAges in ages || AgeIs(y.key.age) in ages)
      && ShareRow(YesNoRows(rows), y)
    ensures forall x ::
      (x in rows && IsYesNo(x) && x.jobLevel in levels && x.entrepreneurship in statuses
       && (AllAges in ages || AgeIs(x.age) in ages)) ==> exists y :: y in r && y.key == KeyOf(x)
  {
    var bar := YesNoRows(rows);
    var g := EntrepreneurshipShares(bar);
    var r := WebFilter(g, levels, ages, statuses);
    PickedShares(bar, g, r);
    PickedYesNo(rows, g, r);
    SharesCoverYesNo(rows, g);
    FilterCovers(rows, g, levels, ages, statuses);
    r
  }

  /** Rows picked from the share table of the Yes/No records are Yes/No keys. */
  lemma PickedYesNo(rows: seq<Record>, g: seq<Shared<LevelAgeStatus>>, r: seq<Shared<LevelAgeStatus>>)
    requires g == EntrepreneurshipShares(YesNoRows(rows))
    requires forall y :: y in r ==> y in g
    ensures forall y :: y in r ==> y.key.status == "Yes" || y.key.status == "No"
  {
    var bar := YesNoRows(rows);
    ColumnMembers(bar, KeyOf);
    forall y | y in r ensures y.key.status == "Yes" || y.key.status == "No" {
      var i :| 0 <= i < |g| && g[i] == y;
      var x :| x in bar && KeyOf(x) == y.key;
    }
  }

  lemma SharesCoverYesNo(rows: seq<Record>, g: seq<Shared<LevelAgeStatus>>)
    requires g == EntrepreneurshipShares(YesNoRows(rows))
    ensures forall x :: x in rows && IsYesNo(x) ==> exists i :: 0 <= i < |g| && g[i].key == KeyOf(x)
  {
    forall x | x in rows && IsYesNo(x) ensures exists i :: 0 <= i < |g| && g[i].key == KeyOf(x) {
      assert x in YesNoRows(rows);
    }
  }

  lemma FilterCovers(rows: seq<Record>, g: seq<Shared<LevelAgeStatus>>, levels: seq<string>, ages: seq<AgeOption>, statuses: seq<string>)
    requires forall x :: x in rows && IsYesNo(x) ==> exists i :: 0 <= i < |g| && g[i].key == KeyOf(x)
    ensures forall x ::
      (x in rows && IsYesNo(x) && x.jobLevel in levels && x.entrepreneurship in statuses
       && (AllAges in ages || AgeIs(x.age) in ages)) ==> exists y :: y in WebFilter(g, levels, ages, statuses) && y.key == KeyOf(x)
  {
    var r := WebFilter(g, levels, ages, statuses);
    forall x | x in rows && IsYesNo(x) && x.jobLevel in levels && x.entrepreneurship in statuses
      && (AllAges in ages || AgeIs(x.age) in ages)
      ensures exists y :: y in r && y.key == KeyOf(x)
    {
      var i :| 0 <= i < |g| && g[i].key == KeyOf(x);
      assert g[i] in r;
    }
  }

  // ---------------------------------------------------------------------------
  // Per-level panels

  /** A chart panel for one level, or the "No data" message. */
  datatype Panel<P> = NoData(level: string) | Chart(level: string, rows: seq<P>)

  function PanelLevel<P>(p: Panel<P>): string { p.level }

  function SharesOn(level: string): Shared<LevelAgeStatus> -> bool
  {
    (y: Shared<LevelAgeStatus>) => y.key.level == level
  }

  function PanelsFor(levels: seq<string>, filtered: seq<Shared<LevelAgeStatus>>): (p: seq<Panel<Shared<LevelAgeStatus>>>)
    ensures |p| == |levels|
    ensures forall i :: 0 <= i < |levels| ==>
      && p[i].level == levels[i]
      && (p[i].NoData? <==> forall y :: y in filtered ==> y.key.level != levels[i])
      && (p[i].Chart? ==> forall y :: y in p[i].rows <==> y in filtered && y.key.level == levels[i])
  {
    if levels == [] then []
    else
      var data := Where(filtered, SharesOn(levels[0]));
      var first := if data == [] then NoData(levels[0]) else Chart(levels[0], data);
      assert data != [] ==> data[0] in data;
      [first] + PanelsFor(levels[1..], filtered)
  }

  /** `for i, lvl in enumerate(levels_to_show)`: one panel per selected level, in the
      fixed job-level order; a level with no filtered row gets the "No data" message,
      any other level a chart of exactly its filtered rows. */
  function WebPanels(filtered: seq<Shared<LevelAgeStatus>>, selectedLevels: seq<string>)
    : (p: seq<Panel<Shared<LevelAgeStatus>>>)
    ensures forall l :: l in Column(p, PanelLevel) <==> l in JobLevelsOrder && l in selectedLevels
    ensures AscendingBy(Column(p, PanelLevel), LevelRank)
    ensures forall i :: 0 <= i < |p| ==>
      && (p[i].NoData? <==> forall y :: y in filtered ==> y.key.level != p[i].level)
      && (p[i].Chart? ==> forall y :: y in p[i].rows <==> y in filtered && y.key.level == p[i].level)
  {
    var levels := LevelsToShow(selectedLevels);
    var p := PanelsFor(levels, filtered);
    assert Column(p, PanelLevel) == levels;
    p
  }
}
