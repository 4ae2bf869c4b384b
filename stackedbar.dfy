/** stackedbarchart.py: the gender filter runs before grouping, so every count and share
    is over the selected genders only; the level, status and age filters run on the
    grouped table afterwards. */
module StackedBar {
  import opened Table
  import opened GroupBy
  import opened Ordering
  import opened Pipeline

  function GenderAmong(genders: seq<string>): Record -> bool
  {
    (x: Record) => x.gender.Some? && x.gender.value in genders
  }

  /** `df[df['Gender'].isin(selected_genders)]`: a missing gender is never selected. */
  function ByGenders(rows: seq<Record>, genders: seq<string>): (r: seq<Record>)
    ensures forall x :: x in r <==> x in rows && x.gender.Some? && x.gender.value in genders
    ensures forall x :: Occ(r, x) == if x.gender.Some? && x.gender.value in genders then Occ(rows, x) else 0
    ensures IsSubsequence(r, rows)
  {
    WhereKeepsOrder(rows, GenderAmong(genders));
    Where(rows, GenderAmong(genders))
  }

  /** `df_grouped`: the share table of the rows with a selected gender. Every count is
      the number of such rows with the key, and every share is a fraction of such rows. */
  function StackedGrouped(rows: seq<Record>, genders: seq<string>): (g: seq<Shared<LevelAgeStatus>>)
    ensures forall i, j :: 0 <= i < j < |g| ==> g[i].key != g[j].key
    ensures forall x :: x in rows && x.gender.Some? && x.gender.value in genders ==>
      exists i :: 0 <= i < |g| && g[i].key == KeyOf(x)
    ensures forall i :: 0 <= i < |g| ==> ShareRow(ByGenders(rows, genders), g[i])
    ensures genders == [] ==> g == []
  {
    var df := ByGenders(rows, genders);
    var g := EntrepreneurshipShares(df);
    if genders == [] then
      WhereNone(rows, GenderAmong(genders));
      g
    else
      g
  }

  function LevelStatusAge(level: string, statuses: seq<string>, lo: int, hi: int): Shared<LevelAgeStatus> -> bool
  {
    (y: Shared<LevelAgeStatus>) => y.key.level == level && y.key.status in statuses && Between(lo, hi, y.key.age)
  }

  function LevelStatus(level: string, statuses: seq<string>): Shared<LevelAgeStatus> -> bool
  {
    (y: Shared<LevelAgeStatus>) => y.key.level == level && y.key.status in statuses
  }

  /** The final filter on the grouped table: the selected level, a selected status and
      an age in the slider range. */
  function StackedFilter(grouped: seq<Shared<LevelAgeStatus>>, level: string, statuses: seq<string>, lo: int, hi: int)
    : (r: seq<Shared<LevelAgeStatus>>)
    ensures forall y :: y in r <==> y in grouped && y.key.level == level && y.key.status in statuses && lo <= y.key.age <= hi
    ensures IsSubsequence(r, grouped)
  {
    WhereKeepsOrder(grouped, LevelStatusAge(level, statuses, lo, hi));
    Where(grouped, LevelStatusAge(level, statuses, lo, hi))
  }

  /** The age slider, from the youngest to the oldest age of the grouped table; none on
      an empty table (`int(NaN)` raises). */
  function StackedSlider(grouped: seq<Shared<LevelAgeStatus>>): (b: Option<(int, int)>)
    ensures b.None? <==> grouped == []
    ensures b.Some? ==> (exists y :: y in grouped && y.key.age == b.value.0) && (exists y :: y in grouped && y.key.age == b.value.1)
    ensures b.Some? ==> forall y :: y in grouped ==> b.value.0 <= y.key.age <= b.value.1
  {
    ColumnMembers(grouped, SharedAge);
    Bounds(Column(grouped, SharedAge))
  }

  /** With the slider at its default range the age condition removes nothing: only the
      level and status conditions select. */
  lemma DefaultSliderKeepsAges(grouped: seq<Shared<LevelAgeStatus>>, level: string, statuses: seq<string>)
    requires grouped != []
    ensures StackedFilter(grouped, level, statuses, StackedSlider(grouped).value.0, StackedSlider(grouped).value.1)
         == Where(grouped, LevelStatus(level, statuses))
  {
    var b := StackedSlider(grouped).value;
    WhereSameCondition(grouped, LevelStatusAge(level, statuses, b.0, b.1), LevelStatus(level, statuses));
  }

  /** The bars end to end: each shown row is a key of the selected level, statuses and
      ages, counted over the selected genders, with its share of its whole (level, age)
      cell of those genders; every row of a selected gender meeting the filters has its
      key among them. */
  function StackedBars(rows: seq<Record>, genders: seq<string>, level: string, statuses: seq<string>, lo: int, hi: int)
    : (r: seq<Shared<LevelAgeStatus>>)
    ensures forall y :: y in r ==>
      && y.key.level == level && y.key.status in statuses && lo <= y.key.age <= hi
      && ShareRow(ByGenders(rows, genders), y)
    ensures forall x ::
      (x in rows && x.gender.Some? && x.gender.value in genders
       && x.jobLevel == level && x.entrepreneurship in statuses && lo <= x.age <= hi)
      ==> exists y :: y in r && y.key == KeyOf(x)
  {
    var df := ByGenders(rows, genders);
    var g := EntrepreneurshipShares(df);
    var r := StackedFilter(g, level, statuses, lo, hi);
    PickedShares(df, g, r);
    assert forall x :: x in rows && x.gender.Some? && x.gender.value in genders ==> x in df;
    StackedCover(rows, genders, g, level, statuses, lo, hi);
    r
  }

  lemma StackedCover(rows: seq<Record>, genders: seq<string>, g: seq<Shared<LevelAgeStatus>>,
                     level: string, statuses: seq<string>, lo: int, hi: int)
    requires forall x :: x in rows && x.gender.Some? && x.gender.value in genders ==>
      exists i :: 0 <= i < |g| && g[i].key == KeyOf(x)
    ensures forall x ::
      (x in rows && x.gender.Some? && x.gender.value in genders
       && x.jobLevel == level && x.entrepreneurship in statuses && lo <= x.age <= hi)
      ==> exists y :: y in StackedFilter(g, level, statuses, lo, hi) && y.key == KeyOf(x)
  {
    var r := StackedFilter(g, level, statuses, lo, hi);
    forall x | x in rows && x.gender.Some? && x.gender.value in genders
      && x.jobLevel == level && x.entrepreneurship in statuses && lo <= x.age <= hi
      ensures exists y :: y in r && y.key == KeyOf(x)
    {
      var i :| 0 <= i < |g| && g[i].key == KeyOf(x);
      assert g[i] in r;
    }
  }

  /** `if filtered.empty: message else ages = sorted(filtered['Age'].unique())`: no ages
      for an empty selection; otherwise the distinct ages of the shown rows, ascending. */
  function StackedAges(filtered: seq<Shared<LevelAgeStatus>>): (a: Option<seq<int>>)
    ensures a.None? <==> filtered == []
    ensures a.Some? ==> StrictlyAscending(a.value) && a.value != []
    ensures a.Some? ==> forall age :: age in a.value <==> exists y :: y in filtered && y.key.age == age
  {
    if filtered == [] then None
    else
      ColumnMembers(filtered, SharedAge);
      Some(SortedUnique(Column(filtered, SharedAge)))
  }
}
