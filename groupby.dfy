/** The pandas aggregations the dashboards use: `unique()`, `groupby(keys).size()`,
    the within-parent percentage `groupby(parent)['Count'].transform(lambda x: x / x.sum())`,
    `groupby(keys)[v].mean()` and `value_counts()`.
    A group key is any value (usually a tuple of column values); the output of a
    group-by is a sequence of rows with distinct keys. pandas sorts that output by key;
    the model keeps the keys in order of first appearance, and every property below is
    about which keys occur and what they carry, not about their order. */
module GroupBy {
  import opened Table

  predicate NoDup<T(==)>(s: seq<T>)
  {
    forall i, j :: 0 <= i < j < |s| ==> s[i] != s[j]
  }

  /** `unique()`: the distinct values of `s`, in order of first appearance. */
  function Distinct<T(==,!new)>(s: seq<T>): (d: seq<T>)
    ensures NoDup(d)
    ensures forall x :: x in d <==> x in s
  {
    if s == [] then []
    else
      var init := s[..|s| - 1];
      var prefix := Distinct(init);
      assert s == init + [s[|s| - 1]];
      if s[|s| - 1] in prefix then prefix else prefix + [s[|s| - 1]]
  }

  // ---------------------------------------------------------------------------
  // groupby(keys).size()

  datatype Counted<K> = Counted(key: K, count: nat)

  /** One row per element of `ds`, counting its occurrences in `keys`. */
  function Tally<K(==,!new)>(ds: seq<K>, keys: seq<K>): (rows: seq<Counted<K>>)
    ensures |rows| == |ds|
    ensures forall i :: 0 <= i < |ds| ==> rows[i] == Counted(ds[i], Occ(keys, ds[i]))
  {
    if ds == [] then [] else [Counted(ds[0], Occ(keys, ds[0]))] + Tally(ds[1..], keys)
  }

  /** `groupby(keys).size().reset_index(name='Count')`: one row per key that occurs
      (keys with no record get no row), holding how many records have that key. */
  function Size<K(==,!new)>(keys: seq<K>): (rows: seq<Counted<K>>)
    ensures forall i, j :: 0 <= i < j < |rows| ==> rows[i].key != rows[j].key
    ensures forall i :: 0 <= i < |rows| ==>
      rows[i].key in keys && rows[i].count == Occ(keys, rows[i].key) && rows[i].count >= 1
    ensures forall k :: k in keys ==> exists i :: 0 <= i < |rows| && rows[i].key == k
  {
    var ds := Distinct(keys);
    forall k | k in keys ensures Occ(keys, k) >= 1 {
      OccPositive(keys, k);
    }
    Tally(ds, keys)
  }

  /** Sum of the counts of the rows whose key projects to `p` under `f`:
      `groupby(f)['Count'].sum()[p]`. */
  function CellTotal<K(==,!new), P(==)>(rows: seq<Counted<K>>, f: K -> P, p: P): nat
  {
    if rows == [] then 0
    else (if f(rows[0].key) == p then rows[0].count else 0) + CellTotal(rows[1..], f, p)
  }

  /** `Count.sum()` over all rows. */
  function Total<K>(rows: seq<Counted<K>>): nat
  {
    if rows == [] then 0 else rows[0].count + Total(rows[1..])
  }

  lemma {:induction false} TallyOfNothing<K(!new), P>(ds: seq<K>, f: K -> P, p: P)
    ensures CellTotal(Tally(ds, []), f, p) == 0
  {
    if ds != [] {
      TallyOfNothing(ds[1..], f, p);
    }
  }

  /** Adding one record with key `x` adds one to the cell of `f(x)`, provided `x` is listed once. */
  lemma {:induction false} TallyOfCons<K(!new), P>(ds: seq<K>, x: K, rest: seq<K>, f: K -> P, p: P)
    requires NoDup(ds)
    ensures CellTotal(Tally(ds, [x] + rest), f, p)
         == CellTotal(Tally(ds, rest), f, p) + (if x in ds && f(x) == p then 1 else 0)
  {
    assert ([x] + rest)[1..] == rest;
    if ds != [] {
      assert NoDup(ds[1..]) by {
        forall i, j | 0 <= i < j < |ds[1..]| ensures ds[1..][i] != ds[1..][j] {
          assert ds[1..][i] == ds[i + 1] && ds[1..][j] == ds[j + 1];
        }
      }
      TallyOfCons(ds[1..], x, rest, f, p);
      assert x == ds[0] ==> x !in ds[1..];
      assert x in ds <==> x == ds[0] || x in ds[1..];
    }
  }

  /** The counts of a tally over distinct keys that cover every record add up, cell by
      cell, to the number of records in that cell. */
  lemma {:induction false} TallyCellTotal<K(!new), P>(ds: seq<K>, keys: seq<K>, f: K -> P, p: P)
    requires NoDup(ds)
    requires forall k :: k in keys ==> k in ds
    ensures CellTotal(Tally(ds, keys), f, p) == Occ(Column(keys, f), p)
  {
    if keys == [] {
      TallyOfNothing(ds, f, p);
    } else {
      var x, rest := keys[0], keys[1..];
      assert keys == [x] + rest;
      TallyCellTotal(ds, rest, f, p);
      TallyOfCons(ds, x, rest, f, p);
      ColumnCons(x, rest, f);
    }
  }

  lemma {:induction false} TotalIsCellTotal<K(!new)>(rows: seq<Counted<K>>)
    ensures Total(rows) == CellTotal(rows, Whole, ())
  {
    if rows != [] {
      TotalIsCellTotal(rows[1..]);
    }
  }

  /** The projection that puts every key in the same single cell. */
  function Whole<K>(k: K): ()
  {
    ()
  }

  lemma {:induction false} WholeColumn<K(!new)>(keys: seq<K>)
    ensures Occ(Column(keys, Whole), ()) == |keys|
  {
    if keys != [] {
      WholeColumn(keys[1..]);
    }
  }

  /** The counts of `groupby(keys).size()` add up to the number of records grouped. */
  lemma SizeTotal<K(!new)>(keys: seq<K>)
    ensures Total(Size(keys)) == |keys|
  {
    TotalIsCellTotal(Size(keys));
    TallyCellTotal(Distinct(keys), keys, Whole, ());
    WholeColumn(keys);
  }

  /** Cell by cell, the counts of `groupby(keys).size()` add up to the number of records
      whose key projects to that cell. */
  lemma SizeCellTotal<K(!new), P>(keys: seq<K>, f: K -> P, p: P)
    ensures CellTotal(Size(keys), f, p) == Occ(Column(keys, f), p)
  {
    TallyCellTotal(Distinct(keys), keys, f, p);
  }

  lemma {:induction false} CellTotalAtLeast<K(!new), P>(rows: seq<Counted<K>>, i: nat, f: K -> P)
    requires i < |rows|
    ensures CellTotal(rows, f, f(rows[i].key)) >= rows[i].count
  {
    if i > 0 {
      CellTotalAtLeast(rows[1..], i - 1, f);
    }
  }

  // ---------------------------------------------------------------------------
  // Percentage within the parent cell

  datatype Shared<K> = Shared(key: K, count: nat, percentage: real)

  /** Each row of `rows` with its count divided by the total count of its parent cell,
      the cells being formed over `all`. */
  function Shares<K(==,!new), P(==)>(rows: seq<Counted<K>>, all: seq<Counted<K>>, parent: K -> P): (r: seq<Shared<K>>)
    requires forall i :: 0 <= i < |rows| ==> rows[i].count > 0 && CellTotal(all, parent, parent(rows[i].key)) >= rows[i].count
    ensures |r| == |rows|
    ensures forall i :: 0 <= i < |rows| ==>
      && r[i].key == rows[i].key && r[i].count == rows[i].count
      && r[i].percentage == rows[i].count as real / CellTotal(all, parent, parent(rows[i].key)) as real
  {
    if rows == [] then []
    else
      var t := CellTotal(all, parent, parent(rows[0].key));
      [Shared(rows[0].key, rows[0].count, rows[0].count as real / t as real)] + Shares(rows[1..], all, parent)
  }

  /** `size()` then `groupby(parent)['Count'].transform(lambda x: x / x.sum())`: one row
      per key that occurs, with its count and the fraction of its parent cell's records
      that have exactly this key. Percentages lie in (0, 1]. */
  function WithinParent<K(==,!new), P(==)>(keys: seq<K>, parent: K -> P): (r: seq<Shared<K>>)
    ensures forall i, j :: 0 <= i < j < |r| ==> r[i].key != r[j].key
    ensures forall k :: k in keys ==> exists i :: 0 <= i < |r| && r[i].key == k
    ensures forall i :: 0 <= i < |r| ==>
      && r[i].key in keys
      && 1 <= r[i].count == Occ(keys, r[i].key) <= Occ(Column(keys, parent), parent(r[i].key))
      && r[i].percentage == r[i].count as real / Occ(Column(keys, parent), parent(r[i].key)) as real
      && 0.0 < r[i].percentage <= 1.0
  {
    var counted := Size(keys);
    forall i | 0 <= i < |counted|
      ensures CellTotal(counted, parent, parent(counted[i].key)) >= counted[i].count
      ensures CellTotal(counted, parent, parent(counted[i].key)) == Occ(Column(keys, parent), parent(counted[i].key))
      ensures 0.0 < counted[i].count as real / CellTotal(counted, parent, parent(counted[i].key)) as real <= 1.0
    {
      CellTotalAtLeast(counted, i, parent);
      SizeCellTotal(keys, parent, parent(counted[i].key));
      FractionBounds(counted[i].count, CellTotal(counted, parent, parent(counted[i].key)));
    }
    Shares(counted, counted, parent)
  }

  lemma FractionBounds(c: nat, t: nat)
    requires 0 < c <= t
    ensures 0.0 < c as real / t as real <= 1.0
  {
  }

  lemma DivTimes(c: real, t: real)
    requires t != 0.0
    ensures c / t * t == c
  {
  }

  lemma TimesDistributes(a: real, b: real, t: real)
    ensures (a + b) * t == a * t + b * t
  {
  }

  /** Sum of the percentages of the rows in cell `p`. */
  function CellShare<K(==,!new), P(==)>(r: seq<Shared<K>>, parent: K -> P, p: P): real
  {
    if r == [] then 0.0
    else (if parent(r[0].key) == p then r[0].percentage else 0.0) + CellShare(r[1..], parent, p)
  }

  lemma {:induction false} SharesCellSum<K(!new), P>(rows: seq<Counted<K>>, all: seq<Counted<K>>, parent: K -> P, p: P)
    requires forall i :: 0 <= i < |rows| ==> rows[i].count > 0 && CellTotal(all, parent, parent(rows[i].key)) >= rows[i].count
    requires CellTotal(all, parent, p) > 0
    ensures CellShare(Shares(rows, all, parent), parent, p)
         == CellTotal(rows, parent, p) as real / CellTotal(all, parent, p) as real
  {
    var t := CellTotal(all, parent, p) as real;
    if rows == [] {
      assert 0.0 / t == 0.0;
    } else {
      var r := Shares(rows, all, parent);
      var rest := Shares(rows[1..], all, parent);
      assert r[1..] == rest;
      SharesCellSum(rows[1..], all, parent, p);
      var restTotal := CellTotal(rows[1..], parent, p) as real;
      if parent(rows[0].key) == p {
        assert r[0].percentage == rows[0].count as real / t;
        AddFractions(rows[0].count as real, restTotal, t);
      }
    }
  }

  lemma AddFractions(a: real, b: real, t: real)
    requires t != 0.0
    ensures a / t + b / t == (a + b) / t
  {
  }

  /** Within every non-empty parent cell, the percentages add up to 1. */
  lemma PercentagesSumToOne<K(!new), P>(keys: seq<K>, parent: K -> P, p: P)
    requires p in Column(keys, parent)
    ensures CellShare(WithinParent(keys, parent), parent, p) == 1.0
  {
    var counted := Size(keys);
    SharesOfSize(keys, parent);
    SizeCellTotal(keys, parent, p);
    OccPositive(Column(keys, parent), p);
    var t := CellTotal(counted, parent, p);
    assert t > 0;
    SharesCellSum(counted, counted, parent, p);
    WholeFraction(t as real);
  }

  lemma WholeFraction(t: real)
    requires t != 0.0
    ensures t / t == 1.0
  {
  }

  lemma SharesOfSize<K(!new), P>(keys: seq<K>, parent: K -> P)
    ensures forall i :: 0 <= i < |Size(keys)| ==>
      Size(keys)[i].count > 0 && CellTotal(Size(keys), parent, parent(Size(keys)[i].key)) >= Size(keys)[i].count
    ensures WithinParent(keys, parent) == Shares(Size(keys), Size(keys), parent)
  {
    var counted := Size(keys);
    forall i | 0 <= i < |counted|
      ensures CellTotal(counted, parent, parent(counted[i].key)) >= counted[i].count
    {
      CellTotalAtLeast(counted, i, parent);
    }
  }

  /** Sum of the counts of a table of shares. */
  function SharedTotal<K>(r: seq<Shared<K>>): nat
  {
    if r == [] then 0 else r[0].count + SharedTotal(r[1..])
  }

  lemma {:induction false} SharesTotal<K(!new), P>(rows: seq<Counted<K>>, all: seq<Counted<K>>, parent: K -> P)
    requires forall i :: 0 <= i < |rows| ==> rows[i].count > 0 && CellTotal(all, parent, parent(rows[i].key)) >= rows[i].count
    ensures SharedTotal(Shares(rows, all, parent)) == Total(rows)
  {
    if rows != [] {
      assert Shares(rows, all, parent)[1..] == Shares(rows[1..], all, parent);
      SharesTotal(rows[1..], all, parent);
    }
  }

  /** The counts of a within-parent table add up to the number of records. */
  lemma WithinParentTotal<K(!new), P>(keys: seq<K>, parent: K -> P)
    ensures SharedTotal(WithinParent(keys, parent)) == |keys|
  {
    SharesOfSize(keys, parent);
    SharesTotal(Size(keys), Size(keys), parent);
    SizeTotal(keys);
  }

  /** If no other key shares `k`'s parent cell, the cell holds exactly the records with key `k`. */
  lemma {:induction false} OccColumnInjective<K, P>(keys: seq<K>, parent: K -> P, k: K)
    requires forall h :: h in keys && parent(h) == parent(k) ==> h == k
    ensures Occ(Column(keys, parent), parent(k)) == Occ(keys, k)
  {
    if keys != [] {
      assert keys == [keys[0]] + keys[1..];
      ColumnCons(keys[0], keys[1..], parent);
      OccColumnInjective(keys[1..], parent, k);
    }
  }

  /** When the parent cell determines the whole key, each cell holds one key and every
      percentage is 1. */
  lemma WithinParentWhole<K(!new), P>(keys: seq<K>, parent: K -> P)
    requires forall a, b :: a in keys && b in keys && parent(a) == parent(b) ==> a == b
    ensures forall i :: 0 <= i < |WithinParent(keys, parent)| ==> WithinParent(keys, parent)[i].percentage == 1.0
  {
    var r := WithinParent(keys, parent);
    forall i | 0 <= i < |r| ensures r[i].percentage == 1.0 {
      OccColumnInjective(keys, parent, r[i].key);
      WholeFraction(r[i].count as real);
    }
  }

  // ---------------------------------------------------------------------------
  // groupby(keys)[value].mean()

  datatype Averaged<K> = Averaged(key: K, mean: real)

  /** `Series.sum()`. */
  function Sum(s: seq<real>): real
  {
    if s == [] then 0.0 else s[0] + Sum(s[1..])
  }

  /** `Series.mean()` of a non-empty column. */
  function Average(s: seq<real>): real
    requires s != []
  {
    Sum(s) / |s| as real
  }

  lemma {:induction false} SumBounds(s: seq<real>, lo: real, hi: real)
    requires forall v :: v in s ==> lo <= v <= hi
    ensures |s| as real * lo <= Sum(s) <= |s| as real * hi
  {
    if s != [] {
      var t := s[1..];
      assert forall v :: v in t ==> v in s;
      SumBounds(t, lo, hi);
      var n := |t| as real;
      var m := |s| as real;
      assert m == n + 1.0;
      assert s[0] in s;
      TimesDistributes(n, 1.0, lo);
      TimesDistributes(n, 1.0, hi);
      assert m * lo == n * lo + lo;
      assert m * hi == n * hi + hi;
      assert Sum(s) == s[0] + Sum(t);
    }
  }

  /** A mean lies between any lower and upper bound of the values it averages, in
      particular between their minimum and maximum. */
  lemma AverageBounds(s: seq<real>, lo: real, hi: real)
    requires s != []
    requires forall v :: v in s ==> lo <= v <= hi
    ensures lo <= Average(s) <= hi
  {
    var n := |s| as real;
    SumBounds(s, lo, hi);
    DivTimes(Sum(s), n);
    ScaledBounds(Average(s), n, lo, hi);
  }

  lemma ScaledBounds(m: real, n: real, lo: real, hi: real)
    requires n > 0.0 && n * lo <= m * n <= n * hi
    ensures lo <= m <= hi
  {
  }

  /** The values of the records whose key is `k`, in their original order. */
  function ValuesAt<K(==,!new)>(keys: seq<K>, vals: seq<real>, k: K): (r: seq<real>)
    requires |keys| == |vals|
    ensures |r| == Occ(keys, k)
  {
    if keys == [] then []
    else if keys[0] == k then [vals[0]] + ValuesAt(keys[1..], vals[1..], k)
    else ValuesAt(keys[1..], vals[1..], k)
  }

  lemma {:induction false} ValuesAtBounds<K(!new)>(keys: seq<K>, vals: seq<real>, k: K, lo: real, hi: real)
    requires |keys| == |vals|
    requires forall i :: 0 <= i < |keys| && keys[i] == k ==> lo <= vals[i] <= hi
    ensures forall v :: v in ValuesAt(keys, vals, k) ==> lo <= v <= hi
  {
    if keys != [] {
      forall i | 0 <= i < |keys[1..]| && keys[1..][i] == k ensures lo <= vals[1..][i] <= hi {
        assert keys[i + 1] == k && vals[1..][i] == vals[i + 1];
      }
      ValuesAtBounds(keys[1..], vals[1..], k, lo, hi);
    }
  }

  function Means<K(==,!new)>(ds: seq<K>, keys: seq<K>, vals: seq<real>): (r: seq<Averaged<K>>)
    requires |keys| == |vals|
    requires forall d :: d in ds ==> Occ(keys, d) > 0
    ensures |r| == |ds|
    ensures forall i :: 0 <= i < |ds| ==> r[i] == Averaged(ds[i], Average(ValuesAt(keys, vals, ds[i])))
  {
    if ds == [] then []
    else [Averaged(ds[0], Average(ValuesAt(keys, vals, ds[0])))] + Means(ds[1..], keys, vals)
  }

  /** `groupby(keys)[value].mean().reset_index()`: one row per key that occurs, holding
      the arithmetic mean of the values of exactly the records with that key. */
  function GroupMean<K(==,!new)>(keys: seq<K>, vals: seq<real>): (r: seq<Averaged<K>>)
    requires |keys| == |vals|
    ensures forall i, j :: 0 <= i < j < |r| ==> r[i].key != r[j].key
    ensures forall k :: k in keys ==> exists i :: 0 <= i < |r| && r[i].key == k
    ensures forall i :: 0 <= i < |r| ==>
      && r[i].key in keys
      && |ValuesAt(keys, vals, r[i].key)| == Occ(keys, r[i].key) > 0
      && r[i].mean == Average(ValuesAt(keys, vals, r[i].key))
  {
    var ds := Distinct(keys);
    forall d | d in ds ensures Occ(keys, d) > 0 {
      OccPositive(keys, d);
    }
    Means(ds, keys, vals)
  }

  /** The values `ValuesAt` collects for key `k` are the value column of the records with key `k`. */
  lemma {:induction false} ValuesAtWhere<T(!new), K(!new)>(rows: seq<T>, key: T -> K, val: T -> real, k: K, keep: T -> bool)
    requires forall x :: keep(x) == (key(x) == k)
    ensures ValuesAt(Column(rows, key), Column(rows, val), k) == Column(Where(rows, keep), val)
  {
    if rows != [] {
      assert rows == [rows[0]] + rows[1..];
      ColumnCons(rows[0], rows[1..], key);
      ColumnCons(rows[0], rows[1..], val);
      ValuesAtWhere(rows[1..], key, val, k, keep);
      if keep(rows[0]) {
        ColumnCons(rows[0], Where(rows[1..], keep), val);
      }
    }
  }

  /** Each group mean lies between any bounds of the values of its group: between the
      group's minimum and maximum. */
  lemma MeanWithinBounds<K(!new)>(keys: seq<K>, vals: seq<real>, i: nat, lo: real, hi: real)
    requires |keys| == |vals|
    requires i < |GroupMean(keys, vals)|
    requires forall j :: 0 <= j < |keys| && keys[j] == GroupMean(keys, vals)[i].key ==> lo <= vals[j] <= hi
    ensures lo <= GroupMean(keys, vals)[i].mean <= hi
  {
    var k := GroupMean(keys, vals)[i].key;
    ValuesAtBounds(keys, vals, k, lo, hi);
    AverageBounds(ValuesAt(keys, vals, k), lo, hi);
  }

  // ---------------------------------------------------------------------------
  // value_counts()

  /** The present values of a column with missing cells: what `dropna()` leaves. */
  function Present<T(==,!new)>(col: seq<Option<T>>): (r: seq<T>)
    ensures |r| <= |col|
    ensures forall x :: x in r <==> Some(x) in col
  {
    if col == [] then []
    else
      var rest := Present(col[1..]);
      assert col == [col[0]] + col[1..];
      if col[0].Some? then [col[0].value] + rest else rest
  }

  lemma {:induction false} PresentOcc<T(!new)>(col: seq<Option<T>>, x: T)
    ensures Occ(Present(col), x) == Occ(col, Some(x))
  {
    if col != [] {
      PresentOcc(col[1..], x);
      var rest := Present(col[1..]);
      if col[0].Some? {
        assert ([col[0].value] + rest)[1..] == rest;
      }
    }
  }

  lemma {:induction false} PresentCount<T(!new)>(col: seq<Option<T>>)
    ensures |Present(col)| == |col| - Occ(col, None)
  {
    if col != [] {
      PresentCount(col[1..]);
    }
  }

  /** What `value_counts()` promises: each value once, exactly the values present, each
      counted by its occurrences (so at least once), missing cells not counted. */
  ghost predicate CountsOf<T(!new)>(col: seq<Option<T>>, r: seq<Counted<T>>)
  {
    && (forall i, j :: 0 <= i < j < |r| ==> r[i].key != r[j].key)
    && (forall x :: Some(x) in col <==> exists i :: 0 <= i < |r| && r[i].key == x)
    && (forall i :: 0 <= i < |r| ==> r[i].count == Occ(col, Some(r[i].key)) >= 1)
    && Total(r) == |col| - Occ(col, None)
  }

  /** `value_counts()`: one count per value that occurs, missing cells ignored. */
  function ValueCounts<T(==,!new)>(col: seq<Option<T>>): (r: seq<Counted<T>>)
    ensures CountsOf(col, r)
  {
    forall x ensures Occ(Present(col), x) == Occ(col, Some(x)) {
      PresentOcc(col, x);
    }
    var present := Present(col);
    SizeTotal(present);
    PresentCount(col);
    Size(present)
  }
}
