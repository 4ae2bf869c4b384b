/** line.py: the mean work-life balance per (level, age) over the records in the age
    range, recast to the ordered levels, filtered by the level selection unless "All" is
    selected, and drawn as one line per level in the fixed order. */
module Line {
  import opened Table
  import opened GroupBy
  import opened Ordering
  import opened Pipeline

  /** The age slider, from the youngest to the oldest record; none on an empty table
      (`int(NaN)` raises). */
  function LineSlider(rows: seq<Record>): (b: Option<(int, int)>)
    ensures b.None? <==> rows == []
    ensures b.Some? ==> (exists x :: x in rows && x.age == b.value.0) && (exists x :: x in rows && x.age == b.value.1)
    ensures b.Some? ==> forall x :: x in rows ==> b.value.0 <= x.age <= b.value.1
  {
    ColumnMembers(rows, AgeOf);
    Bounds(Column(rows, AgeOf))
  }

  /** With the slider at its default range, the age filter keeps every record. */
  lemma DefaultLineRangeKeepsAll(rows: seq<Record>)
    requires rows != []
    ensures LineAgeFilter(rows, LineSlider(rows).value.0, LineSlider(rows).value.1) == rows
  {
    var b := LineSlider(rows).value;
    WhereAll(rows, AgeBetween(b.0, b.1));
  }

  /** `df[df['Age'].between(lo, hi)]`, applied before averaging. */
  function LineAgeFilter(rows: seq<Record>, lo: int, hi: int): (r: seq<Record>)
    ensures forall x :: x in r <==> x in rows && lo <= x.age <= hi
    ensures forall x :: Occ(r, x) == if lo <= x.age <= hi then Occ(rows, x) else 0
    ensures IsSubsequence(r, rows)
  {
    WhereKeepsOrder(rows, AgeBetween(lo, hi));
    Where(rows, AgeBetween(lo, hi))
  }

  function SelectedOrAll(selected: seq<string>): LevelPoint -> bool
  {
    (q: LevelPoint) => "All" in selected || (q.level.Some? && q.level.value in selected)
  }

  /** `if "All" not in selected_levels: avg = avg[level.isin(selected_levels)]`: "All"
      keeps every point, including those whose level became missing; otherwise a point
      stays only if its level is selected, so an empty selection keeps nothing. */
  function LineSelect(points: seq<LevelPoint>, selected: seq<string>): (r: seq<LevelPoint>)
    ensures "All" in selected ==> r == points
    ensures forall q :: q in r <==> q in points && ("All" in selected || (q.level.Some? && q.level.value in selected))
    ensures IsSubsequence(r, points)
    ensures selected == [] ==> r == []
  {
    WhereKeepsOrder(points, SelectedOrAll(selected));
    if "All" in selected then
      WhereAll(points, SelectedOrAll(selected));
      Where(points, SelectedOrAll(selected))
    else if selected == [] then
      WhereNone(points, SelectedOrAll(selected));
      Where(points, SelectedOrAll(selected))
    else
      Where(points, SelectedOrAll(selected))
  }

  /** The loop's condition: the level is selected (or "All" is) and has rows to draw. */
  function ShowLine(selected: seq<string>, points: seq<LevelPoint>): string -> bool
  {
    (l: string) => ("All" in selected || l in selected) && Where(points, PointOn(l)) != []
  }

  /** Every point of the recast mean table with a level comes from a record of that level. */
  lemma RecastPointsHaveRecords(df: seq<Record>, key: Record -> LevelAt, p: seq<LevelPoint>)
    requires forall x :: key(x).level == x.jobLevel
    requires forall i :: 0 <= i < |p| && p[i].level.Some? ==> Where(df, HasKey(key, LevelAt(p[i].level.value, p[i].at))) != []
    ensures forall q :: q in p && q.level.Some? ==> exists x :: x in df && x.jobLevel == q.level.value
  {
    forall q | q in p && q.level.Some? ensures exists x :: x in df && x.jobLevel == q.level.value {
      var i :| 0 <= i < |p| && p[i] == q;
      var group := Where(df, HasKey(key, LevelAt(q.level.value, q.at)));
      assert group[0] in group;
      assert key(group[0]) == LevelAt(q.level.value, q.at);
    }
  }

  /** A level of the fixed order that is shown has plotted rows exactly when some record
      in the age range has that level. */
  lemma LevelHasPoints(df: seq<Record>, p: seq<LevelPoint>, points: seq<LevelPoint>, selected: seq<string>, l: string)
    requires forall x :: x in df && x.jobLevel in JobLevelsOrder ==> exists q :: q in p && q.level == Some(x.jobLevel)
    requires forall q :: q in p && q.level.Some? ==> exists x :: x in df && x.jobLevel == q.level.value
    requires forall q :: q in points <==> q in p && ("All" in selected || (q.level.Some? && q.level.value in selected))
    requires l in JobLevelsOrder && ("All" in selected || l in selected)
    ensures Where(points, PointOn(l)) != [] <==> exists x :: x in df && x.jobLevel == l
  {
    var w := Where(points, PointOn(l));
    if x :| x in df && x.jobLevel == l {
      var q :| q in p && q.level == Some(x.jobLevel);
      assert q in w;
    }
    if w != [] {
      assert w[0] in w;
    }
  }

  /** Each trace of the loop is non-empty. */
  lemma ShownTracesNonEmpty(points: seq<LevelPoint>, show: string -> bool, t: seq<Trace<LevelPoint>>)
    requires forall l :: show(l) ==> Where(points, PointOn(l)) != []
    requires t == LevelTraces(points, show)
    ensures forall i :: 0 <= i < |t| ==> t[i].points != []
  {
    forall i | 0 <= i < |t| ensures t[i].points != [] {
      assert Column(t, TraceLevel)[i] == t[i].level;
      var w := Where(points, PointOn(t[i].level));
      assert w[0] in w;
      assert w[0] in t[i].points;
    }
  }

  /** The levels the loop draws: those of the fixed order that are selected (or "All"
      is) and that some record in the age range has. */
  lemma LineLevels(rows: seq<Record>, lo: int, hi: int, selected: seq<string>,
                   df: seq<Record>, p: seq<LevelPoint>, points: seq<LevelPoint>, t: seq<Trace<LevelPoint>>)
    requires forall x :: x in df <==> x in rows && lo <= x.age <= hi
    requires forall x :: x in df && x.jobLevel in JobLevelsOrder ==>
      exists i :: 0 <= i < |p| && p[i].level == Some(x.jobLevel) && p[i].at == x.age
    requires forall q :: q in p && q.level.Some? ==> exists x :: x in df && x.jobLevel == q.level.value
    requires forall q :: q in points <==> q in p && ("All" in selected || (q.level.Some? && q.level.value in selected))
    requires t == LevelTraces(points, ShowLine(selected, points))
    ensures forall l :: l in Column(t, TraceLevel) <==>
      l in JobLevelsOrder && ("All" in selected || l in selected) && exists x :: x in rows && x.jobLevel == l && lo <= x.age <= hi
    ensures selected == [] ==> t == []
  {
    forall x | x in df && x.jobLevel in JobLevelsOrder ensures exists q :: q in p && q.level == Some(x.jobLevel) {
      var i :| 0 <= i < |p| && p[i].level == Some(x.jobLevel) && p[i].at == x.age;
      assert p[i] in p;
    }
    forall l | l in JobLevelsOrder && ("All" in selected || l in selected)
      ensures ShowLine(selected, points)(l) <==> exists x :: x in rows && x.jobLevel == l && lo <= x.age <= hi
    {
      LevelHasPoints(df, p, points, selected, l);
    }
    assert selected == [] ==> |Column(t, TraceLevel)| == |t| == 0;
  }

  /** The points of each drawn line: none is empty, each is the mean balance of its
      (level, age) group of records in the range, and every such record has its point. */
  lemma LineTracePoints(rows: seq<Record>, lo: int, hi: int, selected: seq<string>,
                        points: seq<LevelPoint>, t: seq<Trace<LevelPoint>>)
    requires points == LineSelect(RecastMeans(LineAgeFilter(rows, lo, hi), LevelAge), selected)
    requires t == LevelTraces(points, ShowLine(selected, points))
    ensures forall i :: 0 <= i < |t| ==> t[i].points != []
    ensures forall i, q :: 0 <= i < |t| && q in t[i].points ==> IsMeanPoint(LineAgeFilter(rows, lo, hi), LevelAge, t[i].level, q)
    ensures forall i, x :: 0 <= i < |t| && x in rows && lo <= x.age <= hi && x.jobLevel == t[i].level ==>
      exists q :: q in t[i].points && q.at == x.age
  {
    var df := LineAgeFilter(rows, lo, hi);
    var p := RecastMeans(df, LevelAge);
    var show := ShowLine(selected, points);
    CoverThroughFilter(df, LevelAge, p, points, show);
    MeanTracePoints(df, LevelAge, points, show, t);
    MeanTraceCover(df, LevelAge, points, show, t);
    ShownTracesNonEmpty(points, show, t);
  }

  /** The levels drawn, in the fixed order. */
  lemma LineTraceLevels(rows: seq<Record>, lo: int, hi: int, selected: seq<string>,
                        points: seq<LevelPoint>, t: seq<Trace<LevelPoint>>)
    requires points == LineSelect(RecastMeans(LineAgeFilter(rows, lo, hi), LevelAge), selected)
    requires t == LevelTraces(points, ShowLine(selected, points))
    ensures forall l :: l in Column(t, TraceLevel) <==>
      l in JobLevelsOrder && ("All" in selected || l in selected) && exists x :: x in rows && x.jobLevel == l && lo <= x.age <= hi
    ensures AscendingBy(Column(t, TraceLevel), LevelRank)
    ensures selected == [] ==> t == []
  {
    var df := LineAgeFilter(rows, lo, hi);
    var p := RecastMeans(df, LevelAge);
    RecastPointsHaveRecords(df, LevelAge, p);
    LineLevels(rows, lo, hi, selected, df, p, points, t);
  }

  /** The chart: one line per level of Entry, Mid, Senior, Executive, in that order,
      exactly for the levels that are selected (or "All" is) and that some record in the
      age range has; each point is the mean balance of its (level, age) group of records
      in the range, and every record in the range on a drawn level has its point. */
  function LineTraces(rows: seq<Record>, lo: int, hi: int, selected: seq<string>): (t: seq<Trace<LevelPoint>>)
    ensures forall l :: l in Column(t, TraceLevel) <==>
      l in JobLevelsOrder && ("All" in selected || l in selected) && exists x :: x in rows && x.jobLevel == l && lo <= x.age <= hi
    ensures AscendingBy(Column(t, TraceLevel), LevelRank)
    ensures forall i :: 0 <= i < |t| ==> t[i].points != []
    ensures forall i, q :: 0 <= i < |t| && q in t[i].points ==> IsMeanPoint(LineAgeFilter(rows, lo, hi), LevelAge, t[i].level, q)
    ensures forall i, x :: 0 <= i < |t| && x in rows && lo <= x.age <= hi && x.jobLevel == t[i].level ==>
      exists q :: q in t[i].points && q.at == x.age
    ensures selected == [] ==> t == []
  {
    var points := LineSelect(RecastMeans(LineAgeFilter(rows, lo, hi), LevelAge), selected);
    var t := LevelTraces(points, ShowLine(selected, points));
    LineTracePoints(rows, lo, hi, selected, points, t);
    LineTraceLevels(rows, lo, hi, selected, points, t);
    t
  }
}
