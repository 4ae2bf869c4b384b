/** The career-outcomes table the dashboards load from the spreadsheet, and the
    row-selection operations (`df[mask]`, `df[col]`) every script applies to it.
    A data frame is a sequence of records; a column is a sequence of values. */
module Table {

  datatype Option<T> = None | Some(value: T)

  /** One row of the spreadsheet, restricted to the columns the scripts read.
      Gender is the one column the scripts treat as possibly empty (they drop
      missing genders before listing, counting or comparing them). */
  datatype Record = Record(
    age: int,
    gender: Option<string>,
    jobLevel: string,
    fieldOfStudy: string,
    entrepreneurship: string,
    startingSalary: real,
    yearsToPromotion: int,
    workLifeBalance: real,
    jobOffers: int,
    universityGpa: real)

  /** Number of occurrences of `x` in `s`: the multiset view of a column. */
  function Occ<T(==)>(s: seq<T>, x: T): nat
  {
    if s == [] then 0 else (if s[0] == x then 1 else 0) + Occ(s[1..], x)
  }

  lemma {:induction false} OccPositive<T>(s: seq<T>, x: T)
    ensures x in s <==> Occ(s, x) > 0
  {
    if s != [] {
      OccPositive(s[1..], x);
      assert s == [s[0]] + s[1..];
    }
  }

  lemma {:induction false} OccAppend<T>(a: seq<T>, b: seq<T>, x: T)
    ensures Occ(a + b, x) == Occ(a, x) + Occ(b, x)
  {
    if a == [] {
      assert a + b == b;
    } else {
      assert (a + b)[0] == a[0];
      assert (a + b)[1..] == a[1..] + b;
      OccAppend(a[1..], b, x);
    }
  }

  /** `df[col]` (or `df[col].apply(f)`): the column obtained by applying `f` to every row. */
  function Column<T, U>(rows: seq<T>, f: T -> U): (c: seq<U>)
    ensures |c| == |rows|
    ensures forall i :: 0 <= i < |rows| ==> c[i] == f(rows[i])
  {
    if rows == [] then [] else [f(rows[0])] + Column(rows[1..], f)
  }

  lemma ColumnCons<T, U>(x: T, rest: seq<T>, f: T -> U)
    ensures Column([x] + rest, f) == [f(x)] + Column(rest, f)
  {
    assert ([x] + rest)[1..] == rest;
  }

  /** Projecting twice is projecting once through the composite. */
  lemma {:induction false} ColumnCompose<T, U, V>(rows: seq<T>, g: T -> U, h: U -> V, f: T -> V)
    requires forall x :: f(x) == h(g(x))
    ensures Column(Column(rows, g), h) == Column(rows, f)
  {
  }

  /** Boolean-mask selection `df[mask]`: exactly the rows satisfying `keep`, each as often
      as it occurs in `rows`, in their original order. */
  function Where<T(!new)>(rows: seq<T>, keep: T -> bool): (r: seq<T>)
    ensures |r| <= |rows|
    ensures forall x :: x in r <==> x in rows && keep(x)
    ensures forall x :: Occ(r, x) == if keep(x) then Occ(rows, x) else 0
  {
    if rows == [] then []
    else if keep(rows[0]) then
      var rest := Where(rows[1..], keep);
      assert ([rows[0]] + rest)[1..] == rest;
      [rows[0]] + rest
    else Where(rows[1..], keep)
  }

  /** `a` is `b` with some elements left out and the rest in their original order. */
  predicate IsSubsequence<T(==)>(a: seq<T>, b: seq<T>)
    decreases |b|
  {
    a == [] || (b != [] && if a[0] == b[0] then IsSubsequence(a[1..], b[1..]) else IsSubsequence(a, b[1..]))
  }

  lemma {:induction false} WhereKeepsOrder<T(!new)>(rows: seq<T>, keep: T -> bool)
    ensures IsSubsequence(Where(rows, keep), rows)
  {
    if rows != [] {
      WhereKeepsOrder(rows[1..], keep);
      var rest := Where(rows[1..], keep);
      if keep(rows[0]) {
        assert ([rows[0]] + rest)[1..] == rest;
      } else if rest != [] {
        SubsequenceOfTail(rest, rows);
      }
    }
  }

  /** Prepending an element to `b` keeps every subsequence of `b` a subsequence. */
  lemma {:induction false} SubsequenceOfTail<T>(a: seq<T>, b: seq<T>)
    requires b != [] && IsSubsequence(a, b[1..])
    ensures IsSubsequence(a, b)
    decreases |b|, 0
  {
    if a != [] && a[0] == b[0] {
      SubsequenceDropHead(a, b[1..]);
    }
  }

  lemma {:induction false} SubsequenceDropHead<T>(a: seq<T>, c: seq<T>)
    requires a != [] && IsSubsequence(a, c)
    ensures IsSubsequence(a[1..], c)
    decreases |c|, 1
  {
    if a[0] != c[0] {
      SubsequenceDropHead(a, c[1..]);
    }
    if a[1..] != [] {
      SubsequenceOfTail(a[1..], c);
    }
  }

  /** Filtering twice is filtering once by the conjunction: the scripts' chains of
      rebinding `df = df[...]` select exactly the rows meeting every condition. */
  lemma {:induction false} WhereWhere<T(!new)>(rows: seq<T>, p: T -> bool, q: T -> bool, pq: T -> bool)
    requires forall x :: pq(x) == (p(x) && q(x))
    ensures Where(Where(rows, p), q) == Where(rows, pq)
  {
    if rows != [] {
      WhereWhere(rows[1..], p, q, pq);
      if p(rows[0]) {
        var rest := Where(rows[1..], p);
        assert Where(rows, p) == [rows[0]] + rest;
        assert ([rows[0]] + rest)[1..] == rest;
      }
    }
  }

  /** A condition every row meets removes nothing. */
  lemma {:induction false} WhereAll<T(!new)>(rows: seq<T>, keep: T -> bool)
    requires forall x :: x in rows ==> keep(x)
    ensures Where(rows, keep) == rows
  {
    if rows != [] {
      WhereAll(rows[1..], keep);
      assert rows == [rows[0]] + rows[1..];
    }
  }

  /** A condition no row meets removes everything. */
  lemma {:induction false} WhereNone<T(!new)>(rows: seq<T>, keep: T -> bool)
    requires forall x :: x in rows ==> !keep(x)
    ensures Where(rows, keep) == []
  {
    if rows != [] {
      WhereNone(rows[1..], keep);
    }
  }

  /** The ranks of the elements strictly increase from left to right. */
  predicate AscendingBy<T>(s: seq<T>, rank: T -> int)
  {
    forall i, j :: 0 <= i < j < |s| ==> rank(s[i]) < rank(s[j])
  }

  /** Selecting rows keeps them in their order. */
  lemma {:induction false} WhereAscending<T(!new)>(rows: seq<T>, keep: T -> bool, rank: T -> int)
    requires AscendingBy(rows, rank)
    ensures AscendingBy(Where(rows, keep), rank)
  {
    if rows != [] {
      assert AscendingBy(rows[1..], rank) by {
        forall i, j | 0 <= i < j < |rows[1..]| ensures rank(rows[1..][i]) < rank(rows[1..][j]) {
          assert rows[1..][i] == rows[i + 1] && rows[1..][j] == rows[j + 1];
        }
      }
      WhereAscending(rows[1..], keep, rank);
      var rest := Where(rows[1..], keep);
      if keep(rows[0]) {
        var r := [rows[0]] + rest;
        forall i, j | 0 <= i < j < |r| ensures rank(r[i]) < rank(r[j]) {
          if i == 0 {
            assert r[j] in rows[1..];
          } else {
            assert r[i] == rest[i - 1] && r[j] == rest[j - 1];
          }
        }
      }
    }
  }

  /** Selecting rows by a condition every row with value `u` meets leaves the number of
      rows with value `u` unchanged. */
  lemma {:induction false} OccColumnWhere<T(!new), U>(rows: seq<T>, keep: T -> bool, f: T -> U, u: U)
    requires forall x :: f(x) == u ==> keep(x)
    ensures Occ(Column(Where(rows, keep), f), u) == Occ(Column(rows, f), u)
  {
    if rows != [] {
      assert rows == [rows[0]] + rows[1..];
      ColumnCons(rows[0], rows[1..], f);
      OccColumnWhere(rows[1..], keep, f, u);
      if keep(rows[0]) {
        ColumnCons(rows[0], Where(rows[1..], keep), f);
      }
    }
  }

  /** The values of a column are exactly the projections of the rows. */
  lemma ColumnMembers<T, U>(rows: seq<T>, f: T -> U)
    ensures forall x :: x in rows ==> f(x) in Column(rows, f)
    ensures forall u :: u in Column(rows, f) ==> exists x :: x in rows && f(x) == u
  {
    var c := Column(rows, f);
    forall x | x in rows ensures f(x) in c {
      var i :| 0 <= i < |rows| && rows[i] == x;
      assert c[i] == f(x);
    }
    forall u | u in c ensures exists x :: x in rows && f(x) == u {
      var i :| 0 <= i < |c| && c[i] == u;
      assert rows[i] in rows;
    }
  }

  /** A selection keeps every row exactly when every row passes, and keeps none
      exactly when none does. */
  lemma {:induction false} WhereLength<T(!new)>(rows: seq<T>, keep: T -> bool)
    ensures |Where(rows, keep)| == |rows| <==> forall x :: x in rows ==> keep(x)
    ensures |Where(rows, keep)| == 0 <==> forall x :: x in rows ==> !keep(x)
  {
    if rows != [] {
      WhereLength(rows[1..], keep);
      assert rows == [rows[0]] + rows[1..];
    }
  }

  /** Two conditions that agree on every row select the same rows. */
  lemma {:induction false} WhereSameCondition<T(!new)>(rows: seq<T>, p: T -> bool, q: T -> bool)
    requires forall x :: x in rows ==> p(x) == q(x)
    ensures Where(rows, p) == Where(rows, q)
  {
    if rows != [] {
      assert forall x :: x in rows[1..] ==> x in rows;
      WhereSameCondition(rows[1..], p, q);
    }
  }

  /** Selecting over a table extended by one row appends that row exactly when it is
      kept: a mask applied front to back builds `Where` row by row. */
  lemma {:induction false} WhereSnoc<T(!new)>(rows: seq<T>, x: T, keep: T -> bool)
    ensures Where(rows + [x], keep) == Where(rows, keep) + (if keep(x) then [x] else [])
  {
    if rows != [] {
      assert (rows + [x])[1..] == rows[1..] + [x];
      WhereSnoc(rows[1..], x, keep);
    } else {
      assert rows + [x] == [x];
    }
  }
}
