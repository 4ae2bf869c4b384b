/** scatter.py: the GPA group column, the option list, the salary slider and the
    salary-range mask narrowed by the chosen GPA group with `&=`. */
module Scatter {
  import opened Table
  import opened GroupBy
  import opened Binning

  /** `["All"] + df["GPA_Group"].cat.categories.tolist()`: "All" first, then the four
      GPA groups in ascending bin order, no option twice. */
  function GpaOptions(): (r: seq<string>)
    ensures |r| == 5 && r[0] == "All" && r[1..] == GpaGroups
    ensures NoDup(r)
  {
    ["All"] + GpaGroups
  }

  /** `int(x)` on a float: truncation toward zero. */
  function Trunc(r: real): (n: int)
    ensures 0.0 <= r ==> 0 <= n && n as real <= r < n as real + 1.0
    ensures r < 0.0 ==> n <= 0 && n as real - 1.0 < r <= n as real
  {
    if r >= 0.0 then r.Floor else -((-r).Floor)
  }

  /** Least and greatest value of a non-empty column of reals. */
  function RealBounds(xs: seq<real>): (b: Option<(real, real)>)
    ensures b.None? <==> xs == []
    ensures b.Some? ==> b.value.0 in xs && b.value.1 in xs
    ensures b.Some? ==> forall v :: v in xs ==> b.value.0 <= v <= b.value.1
  {
    if xs == [] then None
    else
      var rest := RealBounds(xs[1..]);
      assert xs == [xs[0]] + xs[1..];
      if rest.None? then Some((xs[0], xs[0]))
      else
        var lo := if xs[0] < rest.value.0 then xs[0] else rest.value.0;
        var hi := if xs[0] > rest.value.1 then xs[0] else rest.value.1;
        Some((lo, hi))
  }

  /** Truncation never swaps two values, and keeps a whole number as it is. */
  lemma TruncMonotone(a: real, b: real)
    requires a <= b
    ensures Trunc(a) <= Trunc(b)
  {
  }

  lemma TruncWhole(r: real)
    requires r == r.Floor as real
    ensures Trunc(r) as real == r
  {
    if r < 0.0 {
      assert -r == (-(r.Floor)) as real;
      assert (-r).Floor == -(r.Floor);
    }
  }

  function SalaryOf(x: Record): real { x.startingSalary }

  /** `(int(min), int(max))` of the salary column: none on an empty table. */
  function SalarySlider(rows: seq<Record>): (b: Option<(int, int)>)
    ensures b.None? <==> rows == []
    ensures b.Some? ==> exists lo, hi ::
      && lo in Column(rows, SalaryOf) && hi in Column(rows, SalaryOf)
      && (forall v :: v in Column(rows, SalaryOf) ==> lo <= v <= hi)
      && b.value == (Trunc(lo), Trunc(hi))
    ensures b.Some? ==> forall x :: x in rows && x.startingSalary == x.startingSalary.Floor as real ==>
      b.value.0 as real <= x.startingSalary <= b.value.1 as real
  {
    var c := Column(rows, SalaryOf);
    ColumnMembers(rows, SalaryOf);
    match RealBounds(c)
    case None => None
    case Some(b) =>
      SliderCovers(rows, b.0, b.1);
      Some((Trunc(b.0), Trunc(b.1)))
  }

  lemma SliderCovers(rows: seq<Record>, lo: real, hi: real)
    requires forall x :: x in rows ==> lo <= x.startingSalary <= hi
    ensures forall x :: x in rows && x.startingSalary == x.startingSalary.Floor as real ==>
      Trunc(lo) as real <= x.startingSalary <= Trunc(hi) as real
  {
    forall x | x in rows && x.startingSalary == x.startingSalary.Floor as real
      ensures Trunc(lo) as real <= x.startingSalary <= Trunc(hi) as real
    {
      TruncMonotone(lo, x.startingSalary);
      TruncMonotone(x.startingSalary, hi);
      TruncWhole(x.startingSalary);
    }
  }

  /** `Starting_Salary.between(lo, hi)`, inclusive at both ends. */
  predicate SalaryIn(lo: int, hi: int, x: Record)
  {
    lo as real <= x.startingSalary <= hi as real
  }

  /** `GPA_Group == selected`: false for a record without a group. */
  predicate InGroup(selected: string, x: Record)
  {
    GpaGroup(x.universityGpa) == Some(selected)
  }

  /** The whole mask: the salary in the inclusive range and, unless "All" is chosen, the
      record's GPA group equal to the chosen one. */
  function ScatterKeep(lo: int, hi: int, selected: string): Record -> bool
  {
    (x: Record) => SalaryIn(lo, hi, x) && (selected == "All" || InGroup(selected, x))
  }

  /** `mask = salary.between(lo, hi)`, `mask &= (GPA_Group == selected)` unless "All" is
      chosen, then `df[mask]`: exactly the records meeting the whole mask, in order. */
  method ScatterFilter(rows: seq<Record>, lo: int, hi: int, selected: string) returns (filtered: seq<Record>)
    ensures filtered == Where(rows, ScatterKeep(lo, hi, selected))
    ensures forall x :: x in filtered <==>
      && x in rows
      && lo as real <= x.startingSalary <= hi as real
      && (selected == "All" || GpaGroup(x.universityGpa) == Some(selected))
    ensures IsSubsequence(filtered, rows)
  {
    var mask := new bool[|rows|];
    for i := 0 to |rows|
      invariant forall k :: 0 <= k < i ==> mask[k] == SalaryIn(lo, hi, rows[k])
    {
      mask[i] := SalaryIn(lo, hi, rows[i]);
    }
    if selected != "All" {
      for i := 0 to |rows|
        invariant forall k :: 0 <= k < i ==> mask[k] == (SalaryIn(lo, hi, rows[k]) && InGroup(selected, rows[k]))
        invariant forall k :: i <= k < |rows| ==> mask[k] == SalaryIn(lo, hi, rows[k])
      {
        mask[i] := mask[i] && InGroup(selected, rows[i]);
      }
    }
    filtered := Masked(rows, mask, ScatterKeep(lo, hi, selected));
    WhereKeepsOrder(rows, ScatterKeep(lo, hi, selected));
  }

  /** `df[mask]`: the rows whose mask entry is set, in order; when the mask is a condition
      evaluated on every row, that is the rows meeting the condition. */
  method Masked(rows: seq<Record>, mask: array<bool>, keep: Record -> bool) returns (filtered: seq<Record>)
    requires mask.Length == |rows|
    requires forall k :: 0 <= k < |rows| ==> mask[k] == keep(rows[k])
    ensures filtered == Where(rows, keep)
  {
    filtered := [];
    for i := 0 to |rows|
      invariant filtered == Where(rows[..i], keep)
    {
      assert rows[..i + 1] == rows[..i] + [rows[i]];
      WhereSnoc(rows[..i], rows[i], keep);
      if mask[i] {
        filtered := filtered + [rows[i]];
      }
    }
    assert rows[..|rows|] == rows;
  }

  /** With the slider at its default range and "All" chosen nothing is filtered out, as
      long as every salary is a whole number (the bounds are truncated to integers). */
  lemma DefaultScatterKeepsAll(rows: seq<Record>)
    requires rows != []
    requires forall x :: x in rows ==> x.startingSalary == x.startingSalary.Floor as real
    ensures Where(rows, ScatterKeep(SalarySlider(rows).value.0, SalarySlider(rows).value.1, "All")) == rows
  {
    var b := SalarySlider(rows).value;
    WhereAll(rows, ScatterKeep(b.0, b.1, "All"));
  }
}
