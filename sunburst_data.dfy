/** The sunburst table (`get_sunburst_data` and its inline copies): records grouped by
    (Entrepreneurship, Field_of_Study, Salary_Group), each group's count as a
    percentage of all records, the entrepreneurship and field totals as percentages,
    the `Ent_Field` colour key, and the colour map keyed the same way. */
module SunburstData {
  import opened Table
  import opened GroupBy
  import opened Binning

  datatype SunburstKey = SunburstKey(ent: string, field: string, salaryGroup: string)
  datatype EntField = EntField(ent: string, field: string)

  /** The key a record is grouped under, its salary group computed by `categorize_salary`. */
  function SunburstKeyOf(r: Record): SunburstKey
  {
    SunburstKey(r.entrepreneurship, r.fieldOfStudy, CategorizeSalary(r.startingSalary))
  }

  function EntOfKey(k: SunburstKey): string { k.ent }
  function EntFieldOfKey(k: SunburstKey): EntField { EntField(k.ent, k.field) }
  function EntOf(r: Record): string { r.entrepreneurship }
  function EntFieldOf(r: Record): EntField { EntField(r.entrepreneurship, r.fieldOfStudy) }

  /** `f"{ent} - {field}"`: the key both the `Ent_Field` column and the colour map use. */
  function EntFieldKey(ent: string, field: string): string
  {
    ent + " - " + field
  }

  /** `count / total * 100`. */
  function Percent(count: nat, total: nat): real
    requires total > 0
  {
    count as real / total as real * 100.0
  }

  lemma AddPercents(a: nat, b: nat, t: nat)
    requires t > 0
    ensures Percent(a, t) + Percent(b, t) == Percent(a + b, t)
  {
    AddFractions(a as real, b as real, t as real);
    TimesDistributes(a as real / t as real, b as real / t as real, 100.0);
  }

  lemma WholePercent(t: nat)
    requires t > 0
    ensures Percent(t, t) == 100.0
  {
    WholeFraction(t as real);
  }

  /** One row of the sunburst table. Percentages are exact (the `.round(2)` of the
      labels is not modelled). */
  datatype SunburstRow = SunburstRow(
    key: SunburstKey,
    count: nat,
    percentage: real,
    entPercentage: real,
    fieldPercentage: real,
    entField: string)

  /** Adds the percentage, entrepreneurship-total and field-total columns to the grouped
      counts `rows`, the totals being taken over `all`. */
  function Label(rows: seq<Counted<SunburstKey>>, all: seq<Counted<SunburstKey>>, total: nat): (r: seq<SunburstRow>)
    requires total > 0 || rows == []
    ensures |r| == |rows|
    ensures forall i :: 0 <= i < |rows| ==>
      && total > 0
      && r[i].key == rows[i].key && r[i].count == rows[i].count
      && r[i].percentage == Percent(rows[i].count, total)
      && r[i].entPercentage == Percent(CellTotal(all, EntOfKey, rows[i].key.ent), total)
      && r[i].fieldPercentage == Percent(CellTotal(all, EntFieldOfKey, EntFieldOfKey(rows[i].key)), total)
      && r[i].entField == EntFieldKey(rows[i].key.ent, rows[i].key.field)
  {
    if rows == [] then []
    else
      var k := rows[0].key;
      [SunburstRow(k, rows[0].count, Percent(rows[0].count, total),
        Percent(CellTotal(all, EntOfKey, k.ent), total),
        Percent(CellTotal(all, EntFieldOfKey, EntFieldOfKey(k)), total),
        EntFieldKey(k.ent, k.field))]
      + Label(rows[1..], all, total)
  }

  /** `get_sunburst_data` (and sunburst.py:33-49, web.py:148-166): returns the table and
      `total_count`. The total is the number of records; there is one row per
      (entrepreneurship, field, salary group) some record has; its count is the number of
      such records; its percentage is that count over the total, times 100; the
      entrepreneurship and field percentages are the shares of all records with the
      row's entrepreneurship value, and with its (entrepreneurship, field) pair, so rows
      sharing them carry the same value. */
  function SunburstTable(rows: seq<Record>): (d: (seq<SunburstRow>, nat))
    ensures d.1 == |rows|
    ensures forall i, j :: 0 <= i < j < |d.0| ==> d.0[i].key != d.0[j].key
    ensures forall x :: x in rows ==> exists i :: 0 <= i < |d.0| && d.0[i].key == SunburstKeyOf(x)
    ensures forall i :: 0 <= i < |d.0| ==>
      && |rows| > 0
      && d.0[i].count == Occ(Column(rows, SunburstKeyOf), d.0[i].key) >= 1
      && d.0[i].percentage == Percent(d.0[i].count, |rows|)
      && d.0[i].entPercentage == Percent(Occ(Column(rows, EntOf), d.0[i].key.ent), |rows|)
      && d.0[i].fieldPercentage == Percent(Occ(Column(rows, EntFieldOf), EntFieldOfKey(d.0[i].key)), |rows|)
      && d.0[i].entField == EntFieldKey(d.0[i].key.ent, d.0[i].key.field)
  {
    var keys := Column(rows, SunburstKeyOf);
    var counted := Size(keys);
    var total := Total(counted);
    SizeTotal(keys);
    ColumnMembers(rows, SunburstKeyOf);
    NestedTotals(rows);
    (Label(counted, counted, total), total)
  }

  /** The entrepreneurship and field totals taken over the grouped counts are the
      numbers of records with that value. */
  lemma NestedTotals(rows: seq<Record>)
    ensures forall e :: CellTotal(Size(Column(rows, SunburstKeyOf)), EntOfKey, e) == Occ(Column(rows, EntOf), e)
    ensures forall p :: CellTotal(Size(Column(rows, SunburstKeyOf)), EntFieldOfKey, p) == Occ(Column(rows, EntFieldOf), p)
  {
    var keys := Column(rows, SunburstKeyOf);
    ColumnCompose(rows, SunburstKeyOf, EntOfKey, EntOf);
    ColumnCompose(rows, SunburstKeyOf, EntFieldOfKey, EntFieldOf);
    forall e ensures CellTotal(Size(keys), EntOfKey, e) == Occ(Column(rows, EntOf), e) {
      SizeCellTotal(keys, EntOfKey, e);
    }
    forall p ensures CellTotal(Size(keys), EntFieldOfKey, p) == Occ(Column(rows, EntFieldOf), p) {
      SizeCellTotal(keys, EntFieldOfKey, p);
    }
  }

  /** Sum of the `Percentage` column. */
  function PercentSum(d: seq<SunburstRow>): real
  {
    if d == [] then 0.0 else d[0].percentage + PercentSum(d[1..])
  }

  lemma {:induction false} LabelPercentSum(rows: seq<Counted<SunburstKey>>, all: seq<Counted<SunburstKey>>, total: nat)
    requires total > 0
    ensures PercentSum(Label(rows, all, total)) == Percent(Total(rows), total)
  {
    if rows == [] {
      assert Percent(0, total) == 0.0;
    } else {
      var r := Label(rows, all, total);
      assert r[1..] == Label(rows[1..], all, total);
      LabelPercentSum(rows[1..], all, total);
      AddPercents(rows[0].count, Total(rows[1..]), total);
    }
  }

  /** Before rounding, the percentages of the sunburst rows add up to 100. */
  lemma PercentagesSumTo100(rows: seq<Record>)
    requires rows != []
    ensures PercentSum(SunburstTable(rows).0) == 100.0
  {
    var keys := Column(rows, SunburstKeyOf);
    var counted := Size(keys);
    SizeTotal(keys);
    LabelPercentSum(counted, counted, |rows|);
    WholePercent(|rows|);
  }

  predicate HasEnt(e: string, r: Record)
  {
    r.entrepreneurship == e
  }

  function WithEnt(e: string): Record -> bool
  {
    (r: Record) => HasEnt(e, r)
  }

  lemma {:induction false} WithEntCount(rows: seq<Record>, e: string)
    ensures |Where(rows, WithEnt(e))| == Occ(Column(rows, EntOf), e)
  {
    if rows != [] {
      assert rows == [rows[0]] + rows[1..];
      ColumnCons(rows[0], rows[1..], EntOf);
      WithEntCount(rows[1..], e);
    }
  }

  /** `field_totals` restricted to one entrepreneurship value `e`: one row per field
      studied by some record with value `e`, counting the records with that
      (entrepreneurship, field) pair. */
  function FieldTotals(rows: seq<Record>, e: string): (f: seq<Counted<EntField>>)
    ensures forall i, j :: 0 <= i < j < |f| ==> f[i].key != f[j].key
    ensures forall x :: x in rows && x.entrepreneurship == e ==> exists i :: 0 <= i < |f| && f[i].key == EntFieldOf(x)
    ensures forall i :: 0 <= i < |f| ==>
      f[i].key.ent == e && f[i].count == Occ(Column(rows, EntFieldOf), f[i].key) >= 1
  {
    var sub := Where(rows, WithEnt(e));
    ColumnMembers(sub, EntFieldOf);
    var f := Size(Column(sub, EntFieldOf));
    forall i | 0 <= i < |f| ensures f[i].key.ent == e && f[i].count == Occ(Column(rows, EntFieldOf), f[i].key) {
      var x :| x in sub && EntFieldOf(x) == f[i].key;
      OccColumnWhere(rows, WithEnt(e), EntFieldOf, f[i].key);
    }
    f
  }

  /** Each entrepreneurship total is the sum of its field totals. */
  lemma EntTotalIsSumOfFieldTotals(rows: seq<Record>, e: string)
    ensures Total(FieldTotals(rows, e)) == Occ(Column(rows, EntOf), e)
  {
    SizeTotal(Column(Where(rows, WithEnt(e)), EntFieldOf));
    WithEntCount(rows, e);
  }

  /** Sum of `count / total * 100` over grouped counts. */
  function CountPercentSum<K>(c: seq<Counted<K>>, total: nat): real
    requires total > 0
  {
    if c == [] then 0.0 else Percent(c[0].count, total) + CountPercentSum(c[1..], total)
  }

  lemma {:induction false} CountPercentSumIsTotal<K>(c: seq<Counted<K>>, total: nat)
    requires total > 0
    ensures CountPercentSum(c, total) == Percent(Total(c), total)
  {
    if c == [] {
      assert Percent(0, total) == 0.0;
    } else {
      CountPercentSumIsTotal(c[1..], total);
      AddPercents(c[0].count, Total(c[1..]), total);
    }
  }

  /** Before rounding, the field percentages under one entrepreneurship value add up to
      that value's percentage. */
  lemma FieldPercentagesSumToEntPercentage(rows: seq<Record>, e: string)
    requires rows != []
    ensures CountPercentSum(FieldTotals(rows, e), |rows|) == Percent(Occ(Column(rows, EntOf), e), |rows|)
  {
    CountPercentSumIsTotal(FieldTotals(rows, e), |rows|);
    EntTotalIsSumOfFieldTotals(rows, e);
  }

  // ---------------------------------------------------------------------------
  // color_map

  /** Keys built from one entrepreneurship value and different fields differ. */
  lemma EntFieldKeyInjective(ent: string, f: string, g: string)
    requires EntFieldKey(ent, f) == EntFieldKey(ent, g)
    ensures f == g
  {
    var n := |ent| + 3;
    assert f == EntFieldKey(ent, f)[n..];
    assert g == EntFieldKey(ent, g)[n..];
  }

  /** A 'Yes' key is never a 'No' key, and neither is a root label. */
  lemma EntFieldKeysDistinct(f: string, g: string)
    ensures EntFieldKey("Yes", f) != EntFieldKey("No", g)
    ensures EntFieldKey("Yes", f) != "Yes" && EntFieldKey("Yes", f) != "No"
    ensures EntFieldKey("No", g) != "Yes" && EntFieldKey("No", g) != "No"
  {
    assert EntFieldKey("Yes", f)[0] == 'Y';
    assert EntFieldKey("No", g)[0] == 'N';
    assert |EntFieldKey("Yes", f)| >= 6 && |EntFieldKey("No", g)| >= 5;
  }

  /** `for field, color in colors.items(): color_map[f"{ent} - {field}"] = color`:
      every field of `colors` gets its colour under the key `ent - field`; every other
      entry of `m0` is kept. */
  method AddColors(m0: map<string, string>, ent: string, colors: map<string, string>) returns (m: map<string, string>)
    ensures forall f :: f in colors ==> EntFieldKey(ent, f) in m && m[EntFieldKey(ent, f)] == colors[f]
    ensures forall k :: k in m0 && (forall f :: f in colors ==> k != EntFieldKey(ent, f)) ==> k in m && m[k] == m0[k]
    ensures forall k :: k in m ==> k in m0 || exists f :: f in colors && k == EntFieldKey(ent, f)
  {
    m := m0;
    var pending := colors.Keys;
    while pending != {}
      invariant pending <= colors.Keys
      invariant forall f :: f in colors && f !in pending ==> EntFieldKey(ent, f) in m && m[EntFieldKey(ent, f)] == colors[f]
      invariant forall k :: k in m0 && (forall f :: f in colors ==> k != EntFieldKey(ent, f)) ==> k in m && m[k] == m0[k]
      invariant forall k :: k in m ==> k in m0 || exists f :: f in colors && k == EntFieldKey(ent, f)
      decreases |pending|
    {
      var f :| f in pending;
      forall g | g in colors && g != f ensures EntFieldKey(ent, g) != EntFieldKey(ent, f) {
        if EntFieldKey(ent, g) == EntFieldKey(ent, f) {
          EntFieldKeyInjective(ent, g, f);
        }
      }
      m := m[EntFieldKey(ent, f) := colors[f]];
      pending := pending - {f};
    }
  }

  /** The colour map of the sunburst: each field of the 'Yes' palette under
      'Yes - field', each field of the 'No' palette under 'No - field', and the two
      roots 'Yes' and 'No'; nothing else. */
  method ColorMap(yesColors: map<string, string>, noColors: map<string, string>, yesRoot: string, noRoot: string)
    returns (m: map<string, string>)
    ensures forall f :: f in yesColors ==> EntFieldKey("Yes", f) in m && m[EntFieldKey("Yes", f)] == yesColors[f]
    ensures forall f :: f in noColors ==> EntFieldKey("No", f) in m && m[EntFieldKey("No", f)] == noColors[f]
    ensures "Yes" in m && m["Yes"] == yesRoot && "No" in m && m["No"] == noRoot
    ensures forall k :: k in m ==>
      || k == "Yes" || k == "No"
      || (exists f :: f in yesColors && k == EntFieldKey("Yes", f))
      || (exists f :: f in noColors && k == EntFieldKey("No", f))
  {
    var yes := AddColors(map[], "Yes", yesColors);
    forall k, g | k in yes && g in noColors ensures k != EntFieldKey("No", g) {
      var f :| f in yesColors && k == EntFieldKey("Yes", f);
      EntFieldKeysDistinct(f, g);
    }
    m := AddColors(yes, "No", noColors);
    forall k | k in m && k !in yes ensures k != "Yes" && k != "No" {
      var g :| g in noColors && k == EntFieldKey("No", g);
      EntFieldKeysDistinct("", g);
    }
    forall f | f in yesColors ensures EntFieldKey("Yes", f) != "Yes" && EntFieldKey("Yes", f) != "No" {
      EntFieldKeysDistinct(f, "");
    }
    forall g | g in noColors ensures EntFieldKey("No", g) != "Yes" && EntFieldKey("No", g) != "No" {
      EntFieldKeysDistinct("", g);
    }
    m := m["Yes" := yesRoot]["No" := noRoot];
  }
}
