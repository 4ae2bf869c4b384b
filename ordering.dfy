/** The explicit orders the dashboards impose: the fixed job-level order
    Entry < Mid < Senior < Executive, the ordered categorical recast of the level
    column, and `sorted(col.unique())` on integer columns. */
module Ordering {
  import opened Table
  import opened GroupBy

  /** `JOB_LEVELS_ORDER` / `order_levels` / `job_levels_order`. */
  const JobLevelsOrder: seq<string> := ["Entry", "Mid", "Senior", "Executive"]

  /** Position of a level in `JobLevelsOrder`; levels outside it come last. */
  function LevelRank(level: string): int
  {
    if level == "Entry" then 0
    else if level == "Mid" then 1
    else if level == "Senior" then 2
    else if level == "Executive" then 3
    else 4
  }

  /** The fixed order lists each level once, by increasing rank. */
  lemma JobLevelsAscending()
    ensures AscendingBy(JobLevelsOrder, LevelRank)
  {
    forall i, j | 0 <= i < j < |JobLevelsOrder|
      ensures LevelRank(JobLevelsOrder[i]) < LevelRank(JobLevelsOrder[j])
    {
      assert LevelRank(JobLevelsOrder[i]) == i;
      assert LevelRank(JobLevelsOrder[j]) == j;
    }
  }

  function IsSelected(selected: seq<string>): string -> bool
  {
    level => level in selected
  }

  /** `[lvl for lvl in order_levels if lvl in selected_levels]`: the selected levels,
      each once, in the fixed job-level order. */
  function LevelsToShow(selected: seq<string>): (r: seq<string>)
    ensures forall l :: l in r <==> l in JobLevelsOrder && l in selected
    ensures AscendingBy(r, LevelRank)
    ensures NoDup(r)
  {
    JobLevelsAscending();
    WhereAscending(JobLevelsOrder, IsSelected(selected), LevelRank);
    Where(JobLevelsOrder, IsSelected(selected))
  }

  /** `pd.Categorical(level, categories=job_levels_order, ordered=True)`: a level in the
      fixed order keeps its value, any other value becomes missing. */
  function AsLevel(level: string): (c: Option<string>)
    ensures c.Some? <==> level in JobLevelsOrder
    ensures c.Some? ==> c.value == level
  {
    if level in JobLevelsOrder then Some(level) else None
  }

  predicate StrictlyAscending(s: seq<int>)
  {
    forall i, j :: 0 <= i < j < |s| ==> s[i] < s[j]
  }

  /** Inserts `x` into a strictly ascending sequence unless it is already there. */
  function InsertUnique(x: int, s: seq<int>): (r: seq<int>)
    requires StrictlyAscending(s)
    ensures StrictlyAscending(r)
    ensures forall y :: y in r <==> y == x || y in s
    ensures |r| <= |s| + 1
  {
    if s == [] then [x]
    else if x < s[0] then
      assert forall y :: y in s ==> x < y;
      ConsAscending(x, s);
      [x] + s
    else if x == s[0] then s
    else
      assert s == [s[0]] + s[1..];
      var rest := InsertUnique(x, s[1..]);
      assert forall y :: y in rest ==> s[0] < y;
      ConsAscending(s[0], rest);
      [s[0]] + rest
  }

  /** A value below every element of a strictly ascending sequence can go in front. */
  lemma ConsAscending(a: int, t: seq<int>)
    requires StrictlyAscending(t)
    requires forall y :: y in t ==> a < y
    ensures StrictlyAscending([a] + t)
  {
    var s := [a] + t;
    forall i, j | 0 <= i < j < |s| ensures s[i] < s[j] {
      assert s[j] == t[j - 1];
      if i == 0 {
        assert t[j - 1] in t;
      } else {
        assert s[i] == t[i - 1];
      }
    }
  }

  /** `sorted(col.unique())`: the distinct values, strictly ascending. */
  function SortedUnique(xs: seq<int>): (r: seq<int>)
    ensures StrictlyAscending(r)
    ensures forall y :: y in r <==> y in xs
    ensures |r| <= |xs|
    ensures xs != [] ==> r != []
  {
    if xs == [] then []
    else
      assert xs == [xs[0]] + xs[1..];
      InsertUnique(xs[0], SortedUnique(xs[1..]))
  }
}
