/** The fixed bin tables the dashboards use to turn a number into a category label:
    salary brackets (lower bound inclusive) and GPA brackets (`pd.cut`, upper bound
    inclusive, lowest edge included). Labels use the en dash U+2013. */
module Binning {
  import opened Table

  const Under30K: string := "<30K"
  const From30KTo50K: string := "30K\U{2013}50K"
  const From50KTo70K: string := "50K\U{2013}70K"
  const Over70K: string := "70K+"

  /** The salary groups, lowest bracket first. */
  const SalaryGroups: seq<string> := [Under30K, From30KTo50K, From50KTo70K, Over70K]

  /** `categorize_salary`: every salary falls in exactly one of four half-open brackets
      with lower-inclusive thresholds 30000, 50000 and 70000. */
  function CategorizeSalary(salary: real): (g: string)
    ensures g in SalaryGroups
    ensures g == Under30K <==> salary < 30000.0
    ensures g == From30KTo50K <==> 30000.0 <= salary < 50000.0
    ensures g == From50KTo70K <==> 50000.0 <= salary < 70000.0
    ensures g == Over70K <==> 70000.0 <= salary
  {
    if salary < 30000.0 then Under30K
    else if salary < 50000.0 then From30KTo50K
    else if salary < 70000.0 then From50KTo70K
    else Over70K
  }

  /** Position of a salary group in `SalaryGroups`. */
  function SalaryRank(g: string): nat
  {
    if g == Under30K then 0 else if g == From30KTo50K then 1 else if g == From50KTo70K then 2 else 3
  }

  /** A higher salary never falls in a lower bracket. */
  lemma CategorizeSalaryMonotone(a: real, b: real)
    requires a <= b
    ensures SalaryRank(CategorizeSalary(a)) <= SalaryRank(CategorizeSalary(b))
  {
  }

  const Gpa20To25: string := "2.0\U{2013}2.5"
  const Gpa25To30: string := "2.5\U{2013}3.0"
  const Gpa30To35: string := "3.0\U{2013}3.5"
  const Gpa35To40: string := "3.5\U{2013}4.0"

  /** The categories of the GPA groups, in ascending bin order (`cat.categories`). */
  const GpaGroups: seq<string> := [Gpa20To25, Gpa25To30, Gpa30To35, Gpa35To40]

  /** `pd.cut(gpa, bins=[2.0, 2.5, 3.0, 3.5, 4.0], include_lowest=True)`: right-closed
      bins, the lowest edge included; a GPA outside [2.0, 4.0] gets no group. */
  function GpaGroup(gpa: real): (g: Option<string>)
    ensures g.None? <==> gpa < 2.0 || 4.0 < gpa
    ensures g.Some? ==> g.value in GpaGroups
    ensures g == Some(Gpa20To25) <==> 2.0 <= gpa <= 2.5
    ensures g == Some(Gpa25To30) <==> 2.5 < gpa <= 3.0
    ensures g == Some(Gpa30To35) <==> 3.0 < gpa <= 3.5
    ensures g == Some(Gpa35To40) <==> 3.5 < gpa <= 4.0
  {
    if gpa < 2.0 || 4.0 < gpa then None
    else if gpa <= 2.5 then Some(Gpa20To25)
    else if gpa <= 3.0 then Some(Gpa25To30)
    else if gpa <= 3.5 then Some(Gpa30To35)
    else Some(Gpa35To40)
  }
}
