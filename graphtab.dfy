/** graphtab.py: a chain of sidebar filters that rebinds the table, then a tab with the
    entrepreneurship shares by age and the mean job offers by age and status, and a tab
    with per-category age densities and a donut of category counts. */
module GraphTab {
  import opened Table
  import opened GroupBy
  import opened Ordering
  import opened Pipeline

  // ---------------------------------------------------------------------------
  // Sidebar filters, each rebinding the table

  function GenderIs(gender: string): Record -> bool
  {
    (x: Record) => x.gender == Some(gender)
  }

  /** `if selected_gender != 'All': df = df[df['Gender'] == selected_gender]`; a missing
      gender never equals a selected one. */
  function ByGender(rows: seq<Record>, gender: string): (r: seq<Record>)
    ensures forall x :: x in r <==> x in rows && (gender == "All" || x.gender == Some(gender))
    ensures forall x :: Occ(r, x) == if gender == "All" || x.gender == Some(gender) then Occ(rows, x) else 0
    ensures IsSubsequence(r, rows)
  {
    if gender != "All" then
      WhereKeepsOrder(rows, GenderIs(gender));
      Where(rows, GenderIs(gender))
    else
      WhereAll(rows, GenderOrAll(gender));
      WhereKeepsOrder(rows, GenderOrAll(gender));
      rows
  }

  function GenderOrAll(gender: string): Record -> bool
  {
    (x: Record) => gender == "All" || x.gender == Some(gender)
  }

  function LevelIs(level: string): Record -> bool
  {
    (x: Record) => x.jobLevel == level
  }

  /** `df = df[df['Current_Job_Level'] == selected_level]`. */
  function ByLevel(rows: seq<Record>, level: string): (r: seq<Record>)
    ensures forall x :: x in r <==> x in rows && x.jobLevel == level
    ensures forall x :: Occ(r, x) == if x.jobLevel == level then Occ(rows, x) else 0
    ensures IsSubsequence(r, rows)
  {
    WhereKeepsOrder(rows, LevelIs(level));
    Where(rows, LevelIs(level))
  }

  /** The age slider over the rows left after the gender and level filters: from their
      youngest to their oldest age; none when no row is left (`int(NaN)` raises). */
  function AgeSlider(rows: seq<Record>, gender: string, level: string): (b: Option<(int, int)>)
    ensures b.None? <==> ByLevel(ByGender(rows, gender), level) == []
    ensures b.Some? ==> forall x :: x in ByLevel(ByGender(rows, gender), level) ==> b.value.0 <= x.age <= b.value.1
    ensures b.Some? ==> exists x :: x in ByLevel(ByGender(rows, gender), level) && x.age == b.value.0
    ensures b.Some? ==> exists x :: x in ByLevel(ByGender(rows, gender), level) && x.age == b.value.1
  {
    var left := ByLevel(ByGender(rows, gender), level);
    ColumnMembers(left, AgeOf);
    Bounds(Column(left, AgeOf))
  }

  /** The slider's default range removes no row. */
  lemma DefaultAgeRangeKeepsAll(rows: seq<Record>, gender: string, level: string)
    requires AgeSlider(rows, gender, level).Some?
    ensures Where(ByLevel(ByGender(rows, gender), level),
                  AgeBetween(AgeSlider(rows, gender, level).value.0, AgeSlider(rows, gender, level).value.1))
         == ByLevel(ByGender(rows, gender), level)
  {
    var left := ByLevel(ByGender(rows, gender), level);
    var b := AgeSlider(rows, gender, level).value;
    DefaultRangeKeepsAll(left, AgeOf, AgeBetween(b.0, b.1));
  }

  /** `['Yes', 'No'] if selected_status == 'All' else [selected_status]`. */
  function Statuses(status: string): (r: seq<string>)
    ensures forall s :: s in r <==> if status == "All" then s == "Yes" || s == "No" else s == status
    ensures status != "All" ==> |r| == 1
  {
    if status == "All" then ["Yes", "No"] else [status]
  }

  function StatusIn(statuses: seq<string>): Record -> bool
  {
    (x: Record) => x.entrepreneurship in statuses
  }

  /** All four conditions at once. */
  function GraphKeep(gender: string, level: string, lo: int, hi: int, status: string): Record -> bool
  {
    (x: Record) =>
      && (gender == "All" || x.gender == Some(gender))
      && x.jobLevel == level
      && Between(lo, hi, x.age)
      && x.entrepreneurship in Statuses(status)
  }

  function LevelAgeStatusKeep(level: string, lo: int, hi: int, status: string): Record -> bool
  {
    (x: Record) => x.jobLevel == level && Between(lo, hi, x.age) && x.entrepreneurship in Statuses(status)
  }

  function LevelAgeKeep(level: string, lo: int, hi: int): Record -> bool
  {
    (x: Record) => x.jobLevel == level && Between(lo, hi, x.age)
  }

  /** The four rebindings in order. The chain selects, in their original order, exactly
      the rows meeting all four conditions: it is one mask over the loaded table. */
  function GraphFilter(rows: seq<Record>, gender: string, level: string, lo: int, hi: int, status: string)
    : (r: seq<Record>)
    ensures r == Where(rows, GraphKeep(gender, level, lo, hi, status))
    ensures forall x :: x in r <==>
      && x in rows
      && (gender == "All" || x.gender == Some(gender))
      && x.jobLevel == level
      && lo <= x.age <= hi
      && (if status == "All" then x.entrepreneurship == "Yes" || x.entrepreneurship == "No" else x.entrepreneurship == status)
    ensures IsSubsequence(r, rows)
  {
    var g := ByGender(rows, gender);
    var r := Where(Where(Where(g, LevelIs(level)), AgeBetween(lo, hi)), StatusIn(Statuses(status)));
    WhereWhere(g, LevelIs(level), AgeBetween(lo, hi), LevelAgeKeep(level, lo, hi));
    WhereWhere(g, LevelAgeKeep(level, lo, hi), StatusIn(Statuses(status)), LevelAgeStatusKeep(level, lo, hi, status));
    GenderFirst(rows, gender, level, lo, hi, status);
    WhereKeepsOrder(rows, GraphKeep(gender, level, lo, hi, status));
    r
  }

  /** Filtering by gender first and by the other three conditions afterwards is one
      mask of all four. */
  lemma GenderFirst(rows: seq<Record>, gender: string, level: string, lo: int, hi: int, status: string)
    ensures Where(ByGender(rows, gender), LevelAgeStatusKeep(level, lo, hi, status))
         == Where(rows, GraphKeep(gender, level, lo, hi, status))
  {
    if gender != "All" {
      WhereWhere(rows, GenderIs(gender), LevelAgeStatusKeep(level, lo, hi, status), GraphKeep(gender, level, lo, hi, status));
    } else {
      WhereSameCondition(rows, LevelAgeStatusKeep(level, lo, hi, status), GraphKeep(gender, level, lo, hi, status));
    }
  }

  // ---------------------------------------------------------------------------
  // Tab 1: entrepreneurship shares and mean job offers

  /** The share table of the filtered rows covers the selected level only; each share
      is the fraction of its (level, age) cell, and a single selected status makes
      every share 1. */
  lemma GraphShares(rows: seq<Record>, gender: string, level: string, lo: int, hi: int, status: string,
                    g: seq<Shared<LevelAgeStatus>>)
    requires g == EntrepreneurshipShares(GraphFilter(rows, gender, level, lo, hi, status))
    ensures forall i :: 0 <= i < |g| ==> g[i].key.level == level && lo <= g[i].key.age <= hi
    ensures status != "All" ==> forall i :: 0 <= i < |g| ==> g[i].key.status == status && g[i].percentage == 1.0
  {
    var df := GraphFilter(rows, gender, level, lo, hi, status);
    forall i | 0 <= i < |g|
      ensures g[i].key.level == level && lo <= g[i].key.age <= hi
      ensures status != "All" ==> g[i].key.status == status
    {
      ColumnMembers(df, KeyOf);
      var x :| x in df && KeyOf(x) == g[i].key;
    }
    if status != "All" {
      SingleStatusSharesAreWhole(df, status);
    }
  }

  function Identity(a: int): int { a }

  predicate IsEven(a: int) { a % 2 == 0 }

  /** `[age for age in sorted(df_bar['Age'].unique()) if age % 2 == 0]`: the even ages
      of the share table, each once, ascending. */
  function EvenAges(grouped: seq<Shared<LevelAgeStatus>>): (r: seq<int>)
    ensures StrictlyAscending(r)
    ensures forall a :: a in r <==> a % 2 == 0 && exists y :: y in grouped && y.key.age == a
  {
    var ages := SortedUnique(Column(grouped, SharedAge));
    ColumnMembers(grouped, SharedAge);
    assert AscendingBy(ages, Identity);
    WhereAscending(ages, IsEven, Identity);
    var r := Where(ages, IsEven);
    assert AscendingBy(r, Identity);
    r
  }

  datatype AgeStatus = AgeStatus(age: int, status: string)

  function AgeStatusOf(r: Record): AgeStatus { AgeStatus(r.age, r.entrepreneurship) }

  function OffersOf(r: Record): real { r.jobOffers as real }

  /** One line of the job-offers chart: a status and its points. */
  datatype StatusTrace = StatusTrace(status: string, points: seq<Averaged<AgeStatus>>)

  function OnStatus(status: string): Averaged<AgeStatus> -> bool
  {
    (a: Averaged<AgeStatus>) => a.key.status == status
  }

  function StatusTraces(statuses: seq<string>, m: seq<Averaged<AgeStatus>>): (t: seq<StatusTrace>)
    ensures |t| == |statuses|
    ensures forall i :: 0 <= i < |statuses| ==> t[i] == StatusTrace(statuses[i], Where(m, OnStatus(statuses[i])))
  {
    if statuses == [] then [] else [StatusTrace(statuses[0], Where(m, OnStatus(statuses[0])))] + StatusTraces(statuses[1..], m)
  }

  /** A point of a status's line is a group mean for that status. */
  lemma OfferPointsAreMeans(rows: seq<Record>, m: seq<Averaged<AgeStatus>>, status: string)
    requires m == MeanBy(rows, AgeStatusOf, OffersOf)
    ensures forall a :: a in Where(m, OnStatus(status)) ==>
      && a.key.status == status
      && Where(rows, HasKey(AgeStatusOf, a.key)) != []
      && a.mean == Average(Column(Where(rows, HasKey(AgeStatusOf, a.key)), OffersOf))
  {
    forall a | a in Where(m, OnStatus(status))
      ensures Where(rows, HasKey(AgeStatusOf, a.key)) != []
      ensures a.mean == Average(Column(Where(rows, HasKey(AgeStatusOf, a.key)), OffersOf))
    {
      assert a in m;
      var k :| 0 <= k < |m| && m[k] == a;
    }
  }

  /** Every record of a status has its age on that status's line. */
  lemma OfferPointsCover(rows: seq<Record>, m: seq<Averaged<AgeStatus>>, status: string)
    requires forall x :: x in rows ==> exists i :: 0 <= i < |m| && m[i].key == AgeStatusOf(x)
    ensures forall x :: x in rows && x.entrepreneurship == status ==>
      exists a :: a in Where(m, OnStatus(status)) && a.key.age == x.age
  {
  }

  /** `df.groupby(['Age', 'Entrepreneurship'])['Job_Offers'].mean()` and one line per
      selected status: each point is the mean number of job offers of exactly the rows
      with that age and status, and every row of a selected status has its age on the
      line. */
  function OfferTraces(rows: seq<Record>, statuses: seq<string>): (t: seq<StatusTrace>)
    ensures |t| == |statuses|
    ensures forall i :: 0 <= i < |t| ==> t[i].status == statuses[i]
    ensures forall i, a :: 0 <= i < |t| && a in t[i].points ==>
      && a.key.status == statuses[i]
      && Where(rows, HasKey(AgeStatusOf, a.key)) != []
      && a.mean == Average(Column(Where(rows, HasKey(AgeStatusOf, a.key)), OffersOf))
    ensures forall i, x :: 0 <= i < |t| && x in rows && x.entrepreneurship == statuses[i] ==>
      exists a :: a in t[i].points && a.key.age == x.age
  {
    var m := MeanBy(rows, AgeStatusOf, OffersOf);
    var t := StatusTraces(statuses, m);
    forall i | 0 <= i < |t|
      ensures forall a :: a in t[i].points ==>
        && a.key.status == statuses[i]
        && Where(rows, HasKey(AgeStatusOf, a.key)) != []
        && a.mean == Average(Column(Where(rows, HasKey(AgeStatusOf, a.key)), OffersOf))
      ensures forall x :: x in rows && x.entrepreneurship == statuses[i] ==> exists a :: a in t[i].points && a.key.age == x.age
    {
      OfferPointsAreMeans(rows, m, statuses[i]);
      OfferPointsCover(rows, m, statuses[i]);
    }
    t
  }

  // ---------------------------------------------------------------------------
  // Tab 2: densities and donut

  /** The variable chosen for tab 2. */
  datatype Variable = GenderVar | FieldVar

  /** `df['Gender']` or `df['Field_of_Study']`; only genders can be missing. */
  function CategoryColumn(rows: seq<Record>, v: Variable): (c: seq<Option<string>>)
    ensures |c| == |rows|
    ensures forall i :: 0 <= i < |rows| ==> c[i] == if v.GenderVar? then rows[i].gender else Some(rows[i].fieldOfStudy)
  {
    if v.GenderVar? then Column(rows, GenderOf) else Column(rows, FieldOf)
  }

  function SeenTwice(col: seq<Option<string>>): string -> bool
  {
    (c: string) => Occ(col, Some(c)) > 1
  }

  /** `categories = col.dropna().unique()` and the `len(age_data) > 1` guard: the
      categories that get a density curve are exactly those with at least two rows,
      each once. */
  function DensityCategories(col: seq<Option<string>>): (r: seq<string>)
    ensures NoDup(r)
    ensures forall c :: c in r <==> Occ(col, Some(c)) >= 2
  {
    var cats := Distinct(Present(col));
    forall c | Occ(col, Some(c)) >= 2 ensures c in cats {
      OccPositive(col, Some(c));
    }
    var r := Where(cats, SeenTwice(col));
    NoDupWhere(cats, SeenTwice(col));
    r
  }

  lemma {:induction false} NoDupWhere<T(!new)>(s: seq<T>, keep: T -> bool)
    requires NoDup(s)
    ensures NoDup(Where(s, keep))
  {
    if s != [] {
      assert NoDup(s[1..]) by {
        forall i, j | 0 <= i < j < |s[1..]| ensures s[1..][i] != s[1..][j] {
          assert s[1..][i] == s[i + 1] && s[1..][j] == s[j + 1];
        }
      }
      NoDupWhere(s[1..], keep);
      var rest := Where(s[1..], keep);
      if keep(s[0]) {
        var r := [s[0]] + rest;
        forall i, j | 0 <= i < j < |r| ensures r[i] != r[j] {
          if i == 0 {
            assert r[j] in s[1..];
            var k :| 0 <= k < |s[1..]| && s[1..][k] == r[j];
            assert s[k + 1] == r[j];
          } else {
            assert r[i] == rest[i - 1] && r[j] == rest[j - 1];
          }
        }
      }
    }
  }

  /** `col.value_counts()` for the donut: one slice per category present, sized by its
      number of rows; the slices add up to the rows with the value present, which for
      fields of study is every row. */
  function CategoryCounts(rows: seq<Record>, v: Variable): (r: seq<Counted<string>>)
    ensures forall i, j :: 0 <= i < j < |r| ==> r[i].key != r[j].key
    ensures forall i :: 0 <= i < |r| ==> r[i].count == Occ(CategoryColumn(rows, v), Some(r[i].key)) >= 1
    ensures forall c :: Some(c) in CategoryColumn(rows, v) <==> exists i :: 0 <= i < |r| && r[i].key == c
    ensures Total(r) == |rows| - Occ(CategoryColumn(rows, v), None)
    ensures v.FieldVar? ==> Total(r) == |rows|
  {
    var col := CategoryColumn(rows, v);
    OccPositive(col, None);
    ValueCounts(col)
  }
}
