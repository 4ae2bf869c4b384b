/** donut.py up to the gender counts: the Yes/No restriction, the level, age and status
    filters, the "enough data" guard and `value_counts` of the gender column. */
module Donut {
  import opened Table
  import opened GroupBy
  import opened Pipeline
  import opened GraphTab

  /** Every condition of the filter chain at once, the Yes/No restriction included. */
  function DonutKeep(level: string, lo: int, hi: int, status: string): Record -> bool
  {
    (x: Record) => IsYesNo(x) && x.jobLevel == level && Between(lo, hi, x.age) && (status == "All" || x.entrepreneurship == status)
  }

  function YesNoLevelAge(level: string, lo: int, hi: int): Record -> bool
  {
    (x: Record) => IsYesNo(x) && x.jobLevel == level && Between(lo, hi, x.age)
  }

  function StatusIs(status: string): Record -> bool
  {
    (x: Record) => x.entrepreneurship == status
  }

  /** The Yes/No restriction, then `level == selected`, then the inclusive age range,
      then, unless 'All' is chosen, `status == selected`: one mask over the loaded table. */
  function DonutFilter(rows: seq<Record>, level: string, lo: int, hi: int, status: string): (r: seq<Record>)
    ensures r == Where(rows, DonutKeep(level, lo, hi, status))
    ensures forall x :: x in r <==>
      && x in rows
      && (x.entrepreneurship == "Yes" || x.entrepreneurship == "No")
      && x.jobLevel == level
      && lo <= x.age <= hi
      && (status == "All" || x.entrepreneurship == status)
    ensures IsSubsequence(r, rows)
  {
    var df := YesNoRows(rows);
    assert df == Where(rows, IsYesNo);
    var f := Where(Where(df, LevelIs(level)), AgeBetween(lo, hi));
    WhereWhere(df, LevelIs(level), AgeBetween(lo, hi), LevelAgeKeep(level, lo, hi));
    WhereWhere(rows, IsYesNo, LevelAgeKeep(level, lo, hi), YesNoLevelAge(level, lo, hi));
    WhereKeepsOrder(rows, DonutKeep(level, lo, hi, status));
    if status != "All" then
      WhereWhere(rows, YesNoLevelAge(level, lo, hi), StatusIs(status), DonutKeep(level, lo, hi, status));
      Where(f, StatusIs(status))
    else
      WhereSameCondition(rows, YesNoLevelAge(level, lo, hi), DonutKeep(level, lo, hi, status));
      f
  }

  /** With the status choices 'All', 'Yes' and 'No' the donut chain selects the same rows
      as graphtab.py's chain with every gender: restricting to Yes/No first and then
      skipping the status filter for 'All' is the same as expanding 'All' to Yes and No. */
  lemma DonutMatchesGraphFilter(rows: seq<Record>, level: string, lo: int, hi: int, status: string)
    requires status in ["All", "Yes", "No"]
    ensures DonutFilter(rows, level, lo, hi, status) == GraphFilter(rows, "All", level, lo, hi, status)
  {
    WhereSameCondition(rows, DonutKeep(level, lo, hi, status), GraphKeep("All", level, lo, hi, status));
  }

  /** A gender value, or a missing one, occurs in the column exactly when some selected
      record has it. */
  ghost predicate GenderColumn(filtered: seq<Record>, col: seq<Option<string>>)
  {
    && (forall g :: Some(g) in col <==> exists x :: x in filtered && x.gender == Some(g))
    && (None in col <==> exists x :: x in filtered && x.gender.None?)
  }

  lemma KnownGenders(filtered: seq<Record>)
    ensures GenderColumn(filtered, Column(filtered, GenderOf))
  {
    ColumnMembers(filtered, GenderOf);
  }

  /** Two different known genders in a gender column. */
  ghost predicate TwoGenders(col: seq<Option<string>>)
  {
    exists a, b :: Some(a) in col && Some(b) in col && a != b
  }

  /** `nunique() < 2` counts known genders only: it holds exactly when the column does
      not show two different known genders. */
  lemma {:induction false} NuniqueBelowTwo(col: seq<Option<string>>)
    ensures |Distinct(Present(col))| < 2 <==> !TwoGenders(col)
  {
    var d := Distinct(Present(col));
    if |d| >= 2 {
      assert d[0] in d && d[1] in d;
      assert Some(d[0]) in col && Some(d[1]) in col;
    }
    if TwoGenders(col) {
      var a, b :| Some(a) in col && Some(b) in col && a != b;
      assert a in d && b in d;
    }
  }

  /** The guard and the gender counts: nothing when the selection is empty or shows fewer
      than two known genders; otherwise one count per known gender, at least two of them,
      each the number of selected rows with that gender, summing to the selected rows with
      a known gender (all of them when no gender is missing). */
  function GenderSummary(filtered: seq<Record>): (r: Option<seq<Counted<string>>>)
    ensures r.None? <==> filtered == [] || !TwoGenders(Column(filtered, GenderOf))
    ensures r.Some? ==> |r.value| >= 2 && CountsGenders(filtered, Column(filtered, GenderOf), r.value)
  {
    var col := Column(filtered, GenderOf);
    NuniqueBelowTwo(col);
    if filtered == [] || |Distinct(Present(col))| < 2 then None
    else
      GenderSummaryCounts(filtered);
      Some(ValueCounts(col))
  }

  lemma GenderSummaryCounts(filtered: seq<Record>)
    requires TwoGenders(Column(filtered, GenderOf))
    ensures |ValueCounts(Column(filtered, GenderOf))| >= 2
    ensures CountsGenders(filtered, Column(filtered, GenderOf), ValueCounts(Column(filtered, GenderOf)))
  {
    var col := Column(filtered, GenderOf);
    KnownGenders(filtered);
    GenderCounts(filtered, col, ValueCounts(col));
  }

  /** What the gender counts say about the selected records: the `value_counts()` of
      their gender column, with one key per known gender among them, summing to the
      selected rows with a known gender (all of them when no gender is missing). */
  ghost predicate CountsGenders(filtered: seq<Record>, col: seq<Option<string>>, counts: seq<Counted<string>>)
  {
    && CountsOf(col, counts)
    && (forall g :: (exists x :: x in filtered && x.gender == Some(g)) <==>
         exists i :: 0 <= i < |counts| && counts[i].key == g)
    && Total(counts) == |filtered| - Occ(col, None)
    && ((forall x :: x in filtered ==> x.gender.Some?) ==> Total(counts) == |filtered|)
  }

  /** `value_counts()` of a gender column showing two known genders, in terms of the
      selected records. */
  lemma GenderCounts(filtered: seq<Record>, col: seq<Option<string>>, counts: seq<Counted<string>>)
    requires |col| == |filtered|
    requires TwoGenders(col)
    requires GenderColumn(filtered, col)
    requires CountsOf(col, counts)
    ensures |counts| >= 2
    ensures CountsGenders(filtered, col, counts)
  {
    var a, b :| Some(a) in col && Some(b) in col && a != b;
    var i :| 0 <= i < |counts| && counts[i].key == a;
    var j :| 0 <= j < |counts| && counts[j].key == b;
    assert i != j;
    if forall x :: x in filtered ==> x.gender.Some? {
      OccPositive(col, None);
    }
  }
}
