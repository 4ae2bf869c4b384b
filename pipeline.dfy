/** The filter / group / aggregate steps that several dashboard scripts repeat: the
    Yes/No entrepreneurship restriction, the count-and-share table over
    (job level, age, entrepreneurship), inclusive age ranges and slider bounds, group
    means of a numeric column, the ordered recast of the job level and the per-level
    chart traces. */
module Pipeline {
  import opened Table
  import opened GroupBy
  import opened Ordering

  // ---------------------------------------------------------------------------
  // Column projections

  function AgeOf(r: Record): int { r.age }
  function StatusOf(r: Record): string { r.entrepreneurship }
  function GenderOf(r: Record): Option<string> { r.gender }
  function FieldOf(r: Record): Option<string> { Some(r.fieldOfStudy) }
  function BalanceOf(r: Record): real { r.workLifeBalance }

  // ---------------------------------------------------------------------------
  // df[df['Entrepreneurship'].isin(['Yes', 'No'])]

  predicate IsYesNo(r: Record)
  {
    r.entrepreneurship in ["Yes", "No"]
  }

  /** The records whose entrepreneurship status is 'Yes' or 'No', each as often as it
      occurs and in the original order; every other status is dropped. */
  function YesNoRows(rows: seq<Record>): (r: seq<Record>)
    ensures forall x :: x in r <==> x in rows && (x.entrepreneurship == "Yes" || x.entrepreneurship == "No")
    ensures forall x :: Occ(r, x) == if IsYesNo(x) then Occ(rows, x) else 0
    ensures IsSubsequence(r, rows)
  {
    assert forall x :: IsYesNo(x) <==> (x.entrepreneurship == "Yes" || x.entrepreneurship == "No");
    WhereKeepsOrder(rows, IsYesNo);
    Where(rows, IsYesNo)
  }

  // ---------------------------------------------------------------------------
  // Count and share per (Current_Job_Level, Age, Entrepreneurship)

  datatype LevelAgeStatus = LevelAgeStatus(level: string, age: int, status: string)

  /** A job level paired with an integer column (age or years to promotion). */
  datatype LevelAt = LevelAt(level: string, at: int)

  function KeyOf(r: Record): LevelAgeStatus { LevelAgeStatus(r.jobLevel, r.age, r.entrepreneurship) }
  function CellOfKey(k: LevelAgeStatus): LevelAt { LevelAt(k.level, k.age) }
  function LevelAge(r: Record): LevelAt { LevelAt(r.jobLevel, r.age) }

  /** Number of records with exactly key `k`. */
  function KeyCount(rows: seq<Record>, k: LevelAgeStatus): nat
  {
    Occ(Column(rows, KeyOf), k)
  }

  /** Number of records in the (level, age) cell `c`. */
  function CellCount(rows: seq<Record>, c: LevelAt): nat
  {
    Occ(Column(rows, LevelAge), c)
  }

  /** A row of the share table over `rows`: its count is the number of records with its
      key, at most the size of its (level, age) cell, and its share is that count over
      the cell size, a fraction in (0, 1]. */
  predicate ShareRow(rows: seq<Record>, y: Shared<LevelAgeStatus>)
  {
    && 1 <= y.count == KeyCount(rows, y.key) <= CellCount(rows, CellOfKey(y.key))
    && y.percentage == y.count as real / CellCount(rows, CellOfKey(y.key)) as real
    && 0.0 < y.percentage <= 1.0
  }

  /** `groupby(['Current_Job_Level', 'Age', 'Entrepreneurship']).size()` followed by
      `groupby(['Current_Job_Level', 'Age'])['Count'].transform(lambda x: x / x.sum())`:
      one row per key some record has, its count, and the fraction of the records of
      its (level, age) cell that have this status. */
  function EntrepreneurshipShares(rows: seq<Record>): (g: seq<Shared<LevelAgeStatus>>)
    ensures forall i, j :: 0 <= i < j < |g| ==> g[i].key != g[j].key
    ensures forall x :: x in rows ==> exists i :: 0 <= i < |g| && g[i].key == KeyOf(x)
    ensures forall i :: 0 <= i < |g| ==>
      g[i].key in Column(rows, KeyOf) && ShareRow(rows, g[i])
  {
    var keys := Column(rows, KeyOf);
    ColumnCompose(rows, KeyOf, CellOfKey, LevelAge);
    ColumnMembers(rows, KeyOf);
    var g := WithinParent(keys, CellOfKey);
    KeySharesAreShareRows(rows, keys, g);
    g
  }

  /** The within-cell shares of the key column are rows of the share table. */
  lemma KeySharesAreShareRows(rows: seq<Record>, keys: seq<LevelAgeStatus>, g: seq<Shared<LevelAgeStatus>>)
    requires keys == Column(rows, KeyOf)
    requires Column(keys, CellOfKey) == Column(rows, LevelAge)
    requires forall i :: 0 <= i < |g| ==>
      && 1 <= g[i].count == Occ(keys, g[i].key) <= Occ(Column(keys, CellOfKey), CellOfKey(g[i].key))
      && g[i].percentage == g[i].count as real / Occ(Column(keys, CellOfKey), CellOfKey(g[i].key)) as real
      && 0.0 < g[i].percentage <= 1.0
    ensures forall i :: 0 <= i < |g| ==> ShareRow(rows, g[i])
  {
    forall i | 0 <= i < |g| ensures ShareRow(rows, g[i]) {
      assert Occ(Column(keys, CellOfKey), CellOfKey(g[i].key)) == CellCount(rows, CellOfKey(g[i].key));
    }
  }

  function SharedLevel(y: Shared<LevelAgeStatus>): string { y.key.level }
  function SharedAge(y: Shared<LevelAgeStatus>): int { y.key.age }

  /** Within every (level, age) cell that has records, the shares add up to 1. */
  lemma SharesSumToOne(rows: seq<Record>, c: LevelAt)
    requires exists x :: x in rows && LevelAge(x) == c
    ensures CellShare(EntrepreneurshipShares(rows), CellOfKey, c) == 1.0
  {
    var x :| x in rows && LevelAge(x) == c;
    var i :| 0 <= i < |rows| && rows[i] == x;
    ColumnCompose(rows, KeyOf, CellOfKey, LevelAge);
    assert Column(Column(rows, KeyOf), CellOfKey)[i] == c;
    PercentagesSumToOne(Column(rows, KeyOf), CellOfKey, c);
  }

  /** The counts add up to the number of records grouped. */
  lemma SharesCountAll(rows: seq<Record>)
    ensures SharedTotal(EntrepreneurshipShares(rows)) == |rows|
  {
    WithinParentTotal(Column(rows, KeyOf), CellOfKey);
  }

  /** When every record has the same status, each cell holds a single key and every
      share is 1. */
  lemma SingleStatusSharesAreWhole(rows: seq<Record>, status: string)
    requires forall x :: x in rows ==> x.entrepreneurship == status
    ensures forall i :: 0 <= i < |EntrepreneurshipShares(rows)| ==> EntrepreneurshipShares(rows)[i].percentage == 1.0
  {
    var keys := Column(rows, KeyOf);
    forall k | k in keys ensures k.status == status {
      var i :| 0 <= i < |keys| && keys[i] == k;
      assert rows[i] in rows;
    }
    WithinParentWhole(keys, CellOfKey);
  }

  /** Rows picked from the share table after grouping, by whatever filter, keep the
      count of their key and the share they had in their full cell: filtering never
      renormalises. */
  lemma PickedShares(rows: seq<Record>, g: seq<Shared<LevelAgeStatus>>, r: seq<Shared<LevelAgeStatus>>)
    requires g == EntrepreneurshipShares(rows)
    requires forall y :: y in r ==> y in g
    ensures forall y :: y in r ==> ShareRow(rows, y)
  {
    forall y | y in r ensures ShareRow(rows, y) {
      var i :| 0 <= i < |g| && g[i] == y;
    }
  }

  // ---------------------------------------------------------------------------
  // Inclusive ranges and slider bounds

  /** `Series.between(lo, hi)`: inclusive at both ends. */
  predicate Between(lo: int, hi: int, x: int)
  {
    lo <= x <= hi
  }

  function AgeBetween(lo: int, hi: int): Record -> bool
  {
    (x: Record) => Between(lo, hi, x.age)
  }

  /** `(int(col.min()), int(col.max()))`: the slider bounds; an empty column has none
      (`int(NaN)` raises). */
  function Bounds(xs: seq<int>): (b: Option<(int, int)>)
    ensures b.None? <==> xs == []
    ensures b.Some? ==> b.value.0 in xs && b.value.1 in xs
    ensures b.Some? ==> forall x :: x in xs ==> b.value.0 <= x <= b.value.1
  {
    if xs == [] then None
    else
      var rest := Bounds(xs[1..]);
      assert xs == [xs[0]] + xs[1..];
      if rest.None? then Some((xs[0], xs[0]))
      else
        var lo := if xs[0] < rest.value.0 then xs[0] else rest.value.0;
        var hi := if xs[0] > rest.value.1 then xs[0] else rest.value.1;
        Some((lo, hi))
  }

  /** The slider's default range, from the minimum to the maximum of the column it is
      applied to, removes no row. */
  lemma DefaultRangeKeepsAll<T(!new)>(rows: seq<T>, age: T -> int, keep: T -> bool)
    requires Bounds(Column(rows, age)).Some?
    requires forall x :: keep(x) == Between(Bounds(Column(rows, age)).value.0, Bounds(Column(rows, age)).value.1, age(x))
    ensures Where(rows, keep) == rows
  {
    ColumnMembers(rows, age);
    WhereAll(rows, keep);
  }

  // ---------------------------------------------------------------------------
  // groupby(keys)[value].mean()

  /** The records whose key under `key` is `k`. */
  function HasKey<K(==)>(key: Record -> K, k: K): Record -> bool
  {
    (x: Record) => key(x) == k
  }

  /** `groupby(key)[val].mean().reset_index()` over records: one row per key some record
      has, holding the mean of `val` over exactly the records with that key. */
  function MeanBy<K(==,!new)>(rows: seq<Record>, key: Record -> K, val: Record -> real): (m: seq<Averaged<K>>)
    ensures forall i, j :: 0 <= i < j < |m| ==> m[i].key != m[j].key
    ensures forall x :: x in rows ==> exists i :: 0 <= i < |m| && m[i].key == key(x)
    ensures forall i :: 0 <= i < |m| ==>
      && Where(rows, HasKey(key, m[i].key)) != []
      && m[i].mean == Average(Column(Where(rows, HasKey(key, m[i].key)), val))
  {
    var keys := Column(rows, key);
    ColumnMembers(rows, key);
    var m := GroupMean(keys, Column(rows, val));
    forall i | 0 <= i < |m|
      ensures Where(rows, HasKey(key, m[i].key)) != []
      ensures m[i].mean == Average(Column(Where(rows, HasKey(key, m[i].key)), val))
    {
      ValuesAtWhere(rows, key, val, m[i].key, HasKey(key, m[i].key));
    }
    m
  }

  /** Each group mean lies between the smallest and the largest value of its group. */
  lemma MeanByWithinBounds<K(!new)>(rows: seq<Record>, key: Record -> K, val: Record -> real, i: nat, lo: real, hi: real)
    requires i < |MeanBy(rows, key, val)|
    requires forall x :: x in rows && key(x) == MeanBy(rows, key, val)[i].key ==> lo <= val(x) <= hi
    ensures lo <= MeanBy(rows, key, val)[i].mean <= hi
  {
    var k := MeanBy(rows, key, val)[i].key;
    var group := Where(rows, HasKey(key, k));
    var vs := Column(group, val);
    forall v | v in vs ensures lo <= v <= hi {
      var j :| 0 <= j < |vs| && vs[j] == v;
      assert group[j] in group;
    }
    AverageBounds(vs, lo, hi);
  }

  function YearsOf(r: Record): int { r.yearsToPromotion }

  function LevelYears(r: Record): LevelAt { LevelAt(r.jobLevel, r.yearsToPromotion) }

  // ---------------------------------------------------------------------------
  // Ordered recast of the level column and per-level traces

  /** A row of a mean-balance table after `Current_Job_Level` became an ordered
      categorical: a missing level is `None`. */
  datatype LevelPoint = LevelPoint(level: Option<string>, at: int, balance: real)

  /** `avg['Current_Job_Level'] = pd.Categorical(..., categories=JOB_LEVELS_ORDER)`. */
  function Recast(m: seq<Averaged<LevelAt>>): (p: seq<LevelPoint>)
    ensures |p| == |m|
    ensures forall i :: 0 <= i < |m| ==>
      && (p[i].level.Some? <==> m[i].key.level in JobLevelsOrder)
      && (p[i].level.Some? ==> p[i].level.value == m[i].key.level)
      && p[i].at == m[i].key.at && p[i].balance == m[i].mean
  {
    if m == [] then []
    else [LevelPoint(AsLevel(m[0].key.level), m[0].key.at, m[0].mean)] + Recast(m[1..])
  }

  /** `col.isin(selected)` on the categorical level column: a missing level matches
      nothing. */
  function LevelIn(selected: seq<string>): LevelPoint -> bool
  {
    (p: LevelPoint) => p.level.Some? && p.level.value in selected
  }

  /** `data[data['Current_Job_Level'] == level]`. */
  function PointOn(level: string): LevelPoint -> bool
  {
    (p: LevelPoint) => p.level == Some(level)
  }

  /** One chart trace: a level and the rows plotted for it. */
  datatype Trace<P> = Trace(level: string, points: seq<P>)

  /** One trace per level of `levels`, in that order, each holding the rows on its level. */
  function TracesFor<P(!new)>(levels: seq<string>, points: seq<P>, on: string -> P -> bool): (t: seq<Trace<P>>)
    ensures |t| == |levels|
    ensures forall i :: 0 <= i < |levels| ==> t[i].level == levels[i] && t[i].points == Where(points, on(levels[i]))
  {
    if levels == [] then []
    else [Trace(levels[0], Where(points, on(levels[0])))] + TracesFor(levels[1..], points, on)
  }

  function TraceLevel<P>(t: Trace<P>): string { t.level }

  /** `for level in JOB_LEVELS_ORDER: if show(level): add_trace(points on level)`: one
      trace per level of the fixed order that `show` accepts, in that order, each
      holding exactly the points on its level. */
  function LevelTraces(points: seq<LevelPoint>, show: string -> bool): (t: seq<Trace<LevelPoint>>)
    ensures forall l :: l in Column(t, TraceLevel) <==> l in JobLevelsOrder && show(l)
    ensures AscendingBy(Column(t, TraceLevel), LevelRank)
    ensures forall i :: 0 <= i < |t| ==> forall p :: p in t[i].points <==> p in points && p.level == Some(t[i].level)
    ensures forall i :: 0 <= i < |t| ==> IsSubsequence(t[i].points, points)
  {
    var levels := Where(JobLevelsOrder, show);
    JobLevelsAscending();
    WhereAscending(JobLevelsOrder, show, LevelRank);
    var t := TracesFor(levels, points, PointOn);
    assert Column(t, TraceLevel) == levels;
    forall i | 0 <= i < |t| ensures IsSubsequence(t[i].points, points) {
      WhereKeepsOrder(points, PointOn(levels[i]));
    }
    t
  }

  /** Traces drawn from a row filter of a table with at most one point per (level, `at`)
      pair never repeat an `at` value within one trace. */
  lemma TraceAtsDistinct(p: seq<LevelPoint>, points: seq<LevelPoint>, t: seq<Trace<LevelPoint>>)
    requires IsSubsequence(points, p)
    requires forall i, j :: 0 <= i < j < |p| && p[i].level.Some? && p[i].level == p[j].level ==> p[i].at != p[j].at
    requires forall i :: 0 <= i < |t| ==> IsSubsequence(t[i].points, points)
    requires forall i, q :: 0 <= i < |t| && q in t[i].points ==> q.level == Some(t[i].level)
    ensures forall i, a, b :: 0 <= i < |t| && 0 <= a < b < |t[i].points| ==> t[i].points[a].at != t[i].points[b].at
  {
    SubsequenceKeepsDistinct(points, p);
    forall i, a, b | 0 <= i < |t| && 0 <= a < b < |t[i].points|
      ensures t[i].points[a].at != t[i].points[b].at
    {
      SubsequenceKeepsDistinct(t[i].points, points);
      assert t[i].points[a] in t[i].points && t[i].points[b] in t[i].points;
    }
  }

  /** A row filter keeps at most one point per (level, years) pair when its input does. */
  lemma {:induction false} SubsequenceKeepsDistinct(r: seq<LevelPoint>, p: seq<LevelPoint>)
    requires IsSubsequence(r, p)
    requires forall i, j :: 0 <= i < j < |p| && p[i].level.Some? && p[i].level == p[j].level ==> p[i].at != p[j].at
    ensures forall i, j :: 0 <= i < j < |r| && r[i].level.Some? && r[i].level == r[j].level ==> r[i].at != r[j].at
    decreases |p|
  {
    if r != [] {
      if r[0] == p[0] {
        SubsequenceKeepsDistinct(r[1..], p[1..]);
        SubsequenceMembers(r[1..], p[1..]);
        forall j | 0 < j < |r| && r[0].level.Some? && r[0].level == r[j].level ensures r[0].at != r[j].at {
          assert r[j] == r[1..][j - 1];
          assert r[1..][j - 1] in r[1..];
          var k :| 0 <= k < |p[1..]| && p[1..][k] == r[j];
          assert p[k + 1] == r[j];
        }
        forall i, j | 0 < i < j < |r| && r[i].level.Some? && r[i].level == r[j].level ensures r[i].at != r[j].at {
          assert r[i] == r[1..][i - 1] && r[j] == r[1..][j - 1];
        }
      } else {
        SubsequenceKeepsDistinct(r, p[1..]);
      }
    }
  }

  lemma {:induction false} SubsequenceMembers(r: seq<LevelPoint>, p: seq<LevelPoint>)
    requires IsSubsequence(r, p)
    ensures forall q :: q in r ==> q in p
    decreases |p|
  {
    if r != [] {
      if r[0] == p[0] {
        SubsequenceMembers(r[1..], p[1..]);
        assert forall q :: q in r ==> q == r[0] || q in r[1..];
      } else {
        SubsequenceMembers(r, p[1..]);
      }
    }
  }

  /** `groupby(['Current_Job_Level', at])['Work_Life_Balance'].mean()` followed by the
      ordered recast of the level column: every record whose level is in the fixed order
      has a point for its (level, `at`) pair; a point with a level holds the mean balance
      of exactly the records with that level and that `at` value, and no two such points
      share the pair. */
  function RecastMeans(rows: seq<Record>, key: Record -> LevelAt): (p: seq<LevelPoint>)
    requires forall x :: key(x).level == x.jobLevel
    ensures forall x :: x in rows && x.jobLevel in JobLevelsOrder ==>
      exists i :: 0 <= i < |p| && p[i].level == Some(x.jobLevel) && p[i].at == key(x).at
    ensures forall i :: 0 <= i < |p| && p[i].level.Some? ==>
      && p[i].level.value in JobLevelsOrder
      && Where(rows, HasKey(key, LevelAt(p[i].level.value, p[i].at))) != []
      && p[i].balance == Average(Column(Where(rows, HasKey(key, LevelAt(p[i].level.value, p[i].at))), BalanceOf))
    ensures forall i, j :: 0 <= i < j < |p| && p[i].level.Some? && p[i].level == p[j].level ==> p[i].at != p[j].at
  {
    var m := MeanBy(rows, key, BalanceOf);
    forall x | x in rows && x.jobLevel in JobLevelsOrder
      ensures exists i :: 0 <= i < |Recast(m)| && Recast(m)[i].level == Some(x.jobLevel) && Recast(m)[i].at == key(x).at
    {
      RecastCovers(m, key(x));
    }
    Recast(m)
  }

  lemma RecastCovers(m: seq<Averaged<LevelAt>>, k: LevelAt)
    requires k.level in JobLevelsOrder
    requires exists i :: 0 <= i < |m| && m[i].key == k
    ensures exists i :: 0 <= i < |Recast(m)| && Recast(m)[i].level == Some(k.level) && Recast(m)[i].at == k.at
  {
    var i :| 0 <= i < |m| && m[i].key == k;
    assert Recast(m)[i].level == Some(k.level);
  }

  /** A plotted point on `level` holds the mean balance of the non-empty group of
      records that have that level and the point's `at` value. */
  predicate IsMeanPoint(rows: seq<Record>, key: Record -> LevelAt, level: string, q: LevelPoint)
  {
    && q.level == Some(level)
    && Where(rows, HasKey(key, LevelAt(level, q.at))) != []
    && q.balance == Average(Column(Where(rows, HasKey(key, LevelAt(level, q.at))), BalanceOf))
  }

  /** Traces drawn from rows of the recast mean table plot group means only. */
  lemma MeanTracePoints(rows: seq<Record>, key: Record -> LevelAt, points: seq<LevelPoint>, show: string -> bool,
                        t: seq<Trace<LevelPoint>>)
    requires forall x :: key(x).level == x.jobLevel
    requires forall q :: q in points ==> q in RecastMeans(rows, key)
    requires t == LevelTraces(points, show)
    ensures forall i, q :: 0 <= i < |t| && q in t[i].points ==> IsMeanPoint(rows, key, t[i].level, q)
  {
    var p := RecastMeans(rows, key);
    forall i, q | 0 <= i < |t| && q in t[i].points
      ensures IsMeanPoint(rows, key, t[i].level, q)
    {
      var j :| 0 <= j < |p| && p[j] == q;
    }
  }

  /** A record covered by the recast table is still covered after a filter that keeps
      every point of a shown level. */
  lemma CoverThroughFilter(rows: seq<Record>, key: Record -> LevelAt, p: seq<LevelPoint>, points: seq<LevelPoint>,
                           show: string -> bool)
    requires forall x :: x in rows && x.jobLevel in JobLevelsOrder ==>
      exists i :: 0 <= i < |p| && p[i].level == Some(x.jobLevel) && p[i].at == key(x).at
    requires forall q :: q in p && q.level.Some? && show(q.level.value) ==> q in points
    ensures forall x :: x in rows && x.jobLevel in JobLevelsOrder && show(x.jobLevel) ==>
      exists q :: q in points && q.level == Some(x.jobLevel) && q.at == key(x).at
  {
    forall x | x in rows && x.jobLevel in JobLevelsOrder && show(x.jobLevel)
      ensures exists q :: q in points && q.level == Some(x.jobLevel) && q.at == key(x).at
    {
      var i :| 0 <= i < |p| && p[i].level == Some(x.jobLevel) && p[i].at == key(x).at;
      assert p[i] in p;
    }
  }

  /** When the plotted rows keep a point for every record on a shown level, that
      record's (level, `at`) pair appears in its level's trace. */
  lemma MeanTraceCover(rows: seq<Record>, key: Record -> LevelAt, points: seq<LevelPoint>, show: string -> bool,
                       t: seq<Trace<LevelPoint>>)
    requires t == LevelTraces(points, show)
    requires forall x :: x in rows && x.jobLevel in JobLevelsOrder && show(x.jobLevel) ==>
      exists q :: q in points && q.level == Some(x.jobLevel) && q.at == key(x).at
    ensures forall i, x :: 0 <= i < |t| && x in rows && x.jobLevel == t[i].level ==>
      exists q :: q in t[i].points && q.at == key(x).at
  {
    forall i, x | 0 <= i < |t| && x in rows && x.jobLevel == t[i].level
      ensures exists q :: q in t[i].points && q.at == key(x).at
    {
      assert Column(t, TraceLevel)[i] == t[i].level;
      var q :| q in points && q.level == Some(x.jobLevel) && q.at == key(x).at;
      assert q in t[i].points;
    }
  }
}
