# Education and career dashboards — a Dafny model

The repository is a set of Streamlit dashboard scripts over one table of career
records: age, gender, current job level, field of study, entrepreneurship status,
starting salary, years to promotion, work-life balance, job offers and university GPA.
Each script runs a small pandas pipeline and hands the result to Plotly. The pipeline
filters the records by the sidebar choices, groups them, counts or averages each group,
and turns the counts into shares. This project models those pipelines and proves what
they compute.

- The scripts are `web.py`, `draftcuaple.py`, `graphtab.py`, `sunburst.py`,
  `stackedbarchart.py`, `line.py`, `linechart.py`, `donut.py` and `scatter.py`.
- A table is a `seq<Record>` in file order.
- Boolean indexing `df[mask]` is `Table.Where`. `Table.Where` keeps the selected rows in
  order and with their multiplicities.
- `groupby(...).size()` is `GroupBy.Size` and `value_counts()` is `GroupBy.ValueCounts`.
- `groupby(...).mean()` is `Pipeline.MeanBy`.
- A share within a parent group, `transform(lambda x: x / x.sum())`, is
  `GroupBy.WithinParent`.
- Percentages are exact `real` values.

Shared modules:

- `Table`: records, columns, selection and order.
- `GroupBy`: distinct values, counting, shares and means.
- `Binning`: the salary brackets and the GPA bins.
- `Ordering`: the fixed job-level order, its categorical recast, and sorted unique
  ages.
- `Pipeline`: steps several scripts repeat. These are:
  - the Yes/No restriction;
  - the (level, age, status) share table;
  - slider bounds;
  - group means;
  - per-level traces.
- `SunburstData`: the sunburst table and its colour map.

Each script then has its own module: `Web`, `Draft`, `GraphTab`, `StackedBar`, `Line`,
`LineChart`, `Donut` and `Scatter`. `sunburst.py` is covered by `SunburstData`.

Inputs and outputs become values:

- The loaded spreadsheet is an input sequence.
- Widget values are parameters.
- A chart is the data it would be drawn from. For a line chart, that is one trace per
  line.

Where a script works by updating state step by step, the model does the same. The
colour map is filled by loops in a `map`-returning method. The scatter mask is an
`array<bool>` narrowed in place. Everything else is functions.

## Model

| member | source | states |
|---|---|---|
| Table.Where | web.py:227 | boolean indexing keeps exactly the rows meeting the condition, never more rows than it was given, each kept row as often as in the input |
| Table.WhereKeepsOrder | web.py:227 | the selected rows appear in their original order (a subsequence of the table) |
| Table.WhereWhere | graphtab.py:24-41 | two successive row filters select the same rows as one filter on the conjunction |
| Table.WhereLength | stackedbarchart.py:54 | the selection is as long as the table iff every row is kept, and empty iff no row is |
| Binning.CategorizeSalary | web.py:138-146 | every salary gets exactly one of the four brackets, with lower-inclusive thresholds 30000, 50000 and 70000 |
| Binning.CategorizeSalaryMonotone | sunburst.py:22-30 | a higher salary never falls in a lower bracket |
| Binning.GpaGroup | scatter.py:14-19 | right-closed GPA bins with the lowest edge included: [2.0,2.5], (2.5,3.0], (3.0,3.5], (3.5,4.0]; a GPA outside [2.0,4.0] gets no group |
| Ordering.JobLevelsAscending | draftcuaple.py:7 | the level order Entry, Mid, Senior, Executive is strictly ascending by rank |
| Ordering.AsLevel | linechart.py:20-23 | the ordered categorical recast keeps a level of the order and makes any other level missing |
| Ordering.LevelsToShow | web.py:263-264 | the panel levels are exactly the selected levels of the fixed order, in that order, each once |
| Ordering.SortedUnique | stackedbarchart.py:57 | `sorted(unique())`: strictly ascending, the same values, non-empty when the input is |
| GroupBy.Distinct | graphtab.py:132 | `unique()`: no duplicates and exactly the values of the column |
| GroupBy.Size | sunburst.py:36 | one row per key that occurs, each with the number of records having that key |
| GroupBy.SizeTotal | sunburst.py:37 | the group counts add up to the number of records |
| GroupBy.WithinParent | draftcuaple.py:74-75 | the count of every key, and its share of its parent group's count, a fraction in (0, 1] |
| GroupBy.PercentagesSumToOne | draftcuaple.py:75 | within every parent group that has records, the shares add up to exactly 1 |
| GroupBy.WithinParentWhole | graphtab.py:59 | when each parent group holds one key only, every share is 1 |
| GroupBy.GroupMean | linechart.py:13-17 | one row per key that occurs, holding the mean of the values of the records with that key |
| GroupBy.MeanWithinBounds | line.py:43-47 | a group mean lies between any lower and upper bound of the group's values |
| GroupBy.AverageBounds | draftcuaple.py:142 | the mean of a non-empty column lies between any bounds of its values |
| GroupBy.ValueCounts | graphtab.py:167 | one count per value present, each equal to its number of occurrences; missing cells are not counted, so the counts add up to the non-missing cells |
| Pipeline.YesNoRows | web.py:227 | exactly the records whose status is Yes or No, each as often as before, in order |
| Pipeline.EntrepreneurshipShares | draftcuaple.py:74-75 | one row per (level, age, status) that occurs; its count is the number of such records and its share is that count over its (level, age) cell, in (0, 1]; every record's key is present |
| Pipeline.SharesSumToOne | web.py:247 | within every (level, age) cell that has records, the status shares add up to 1 |
| Pipeline.SharesCountAll | web.py:246 | the counts of the share table add up to the number of records |
| Pipeline.SingleStatusSharesAreWhole | graphtab.py:38-41 | if every record has the same status, every share is 1 |
| Pipeline.PickedShares | web.py:249-260 | any rows picked from the share table keep their counts and their within-cell shares |
| Pipeline.Bounds | graphtab.py:33 | `(min, max)` of a column: none on an empty column (`int(NaN)` raises), otherwise two values of the column bounding all of it |
| Pipeline.DefaultRangeKeepsAll | draftcuaple.py:171-172 | an age filter at the default slider range keeps every row |
| Pipeline.MeanBy | draftcuaple.py:62-67 | one row per key that occurs; its mean is the mean of the values of exactly the records with that key |
| Pipeline.MeanByWithinBounds | line.py:43-47 | every group mean lies between any bounds of the contributing values |
| Pipeline.Recast | draftcuaple.py:68 | the recast keeps each row's key and mean and makes a level outside the order missing |
| Pipeline.LevelTraces | line.py:68-79 | one trace per level of the fixed order that the condition accepts, in that order, each holding exactly the points on its level, in table order |
| Pipeline.RecastMeans | draftcuaple.py:62-69 | every record on a level of the order has its (level, key) point; every point with a level is the mean of a non-empty group; no (level, key) pair twice |
| Pipeline.MeanTracePoints | line.py:70-71 | every point a trace draws from the recast mean table is the mean of its group |
| Pipeline.MeanTraceCover | line.py:69-71 | every record on a drawn level has its point in that level's trace |
| SunburstData.SunburstTable | sunburst.py:33-49 | one row per (status, field, salary group) that occurs, with its count, count/total·100, the status and field totals as percentages of all records, and the `"<status> - <field>"` key; total = number of records |
| SunburstData.NestedTotals | web.py:154-159 | the per-status and per-(status, field) sums of the group counts equal the record counts of those parents |
| SunburstData.PercentagesSumTo100 | web.py:150-152 | the percentages of the sunburst rows add up to exactly 100 |
| SunburstData.FieldTotals | draftcuaple.py:51 | one total per field within a status, each the number of records with that status and field |
| SunburstData.EntTotalIsSumOfFieldTotals | draftcuaple.py:46-51 | the field totals of a status add up to that status's record count |
| SunburstData.FieldPercentagesSumToEntPercentage | sunburst.py:41-42 | the field percentages within a status add up to that status's percentage |
| SunburstData.EntFieldKeyInjective | sunburst.py:49 | two fields under one status never share a colour key |
| SunburstData.EntFieldKeysDistinct | sunburst.py:76-82 | a Yes key, a No key and the two root keys never collide |
| SunburstData.AddColors | web.py:189-192 | one inner loop: every field gets its colour under its `"<status> - <field>"` key, every other entry is kept, no other key is added |
| SunburstData.ColorMap | sunburst.py:75-82 | the colour map holds every Yes and No field colour under its key plus the two root colours, and no other key |
| Web.PresentLevels | web.py:73-77 | the pivot's level columns: the levels of the order that some record has, in order |
| Web.PivotTraces | web.py:73-97 | one trace per level of the order present in the data, in order, none empty; every point is a (level, years) mean over exactly the records with that level and years |
| Web.WebFilter | web.py:249-260 | a share row is kept iff its level and status are selected and either 'ALL' or its age is selected; order kept |
| Web.WebBars | web.py:227-260 | every bar is a selected Yes/No key with its count among the Yes/No records and its share of its (level, age) cell; every qualifying Yes/No record has its bar |
| Web.PanelsFor | web.py:268-273 | one panel per level; a "no data" panel exactly when no filtered row has that level, otherwise exactly that level's rows |
| Web.WebPanels | web.py:263-273 | panels for exactly the selected levels of the order, in order, each "no data" iff no filtered row has its level |
| Draft.FontSize | draftcuaple.py:78-79 | `FONT_SIZES.get(n, 6)`: a size in [6, 20], and 6 exactly when n has no entry |
| Draft.FontSizeNonIncreasing | draftcuaple.py:19 | more ages never give a larger font |
| Draft.ChartWidth | draftcuaple.py:259 | the width is clamped to [400, 1200] and equals 50·k+100 exactly when 6 ≤ k ≤ 22 |
| Draft.ChartWidthMonotone | draftcuaple.py:259 | more ages never give a narrower chart |
| Draft.SummaryKpis | draftcuaple.py:140-143 | no KPIs for an empty table; otherwise the three means and the entrepreneur percentage, which is in [0, 100], 100 iff every record is Yes and 0 iff none is |
| Draft.WorkLifeKpiInRange | draftcuaple.py:142 | the mean work-life balance stays within any bounds of the individual values |
| Draft.DraftLineTraces | draftcuaple.py:203-221 | traces for exactly the selected levels of the order, in order (an empty one included); every point is a (level, years) mean, every record on a traced level has its point, and no trace repeats a years value |
| Draft.EntrepreneurshipGrouped | draftcuaple.py:72-76 | the share table of the Yes/No records: each key once, only Yes and No keys, each with its count and within-cell share among the Yes/No records, and every Yes/No record's key present |
| Draft.BarFilter | draftcuaple.py:242-246 | a share row is kept iff its level is selected, its age is in the inclusive range and its status is selected |
| Draft.ViewOf | draftcuaple.py:253-260 | a level's view holds exactly its rows, its distinct ages ascending, width ChartWidth and font FontSize of the number of ages; no view data iff no rows |
| Draft.DraftCharts | draftcuaple.py:248-257 | nothing for an empty selection; otherwise one chart per level present, each once, never the "no data" branch |
| GraphTab.ByGender | graphtab.py:22-25 | 'All' keeps every row; otherwise only rows with that known gender, each as often as in the input and in input order |
| GraphTab.ByLevel | graphtab.py:28-30 | only rows of the chosen level, each as often as in the input and in input order |
| GraphTab.AgeSlider | graphtab.py:33-34 | none when gender and level leave no rows; otherwise the youngest and oldest age of those rows |
| GraphTab.DefaultAgeRangeKeepsAll | graphtab.py:34-35 | the default slider range removes no row |
| GraphTab.Statuses | graphtab.py:40 | 'All' expands to Yes and No; any other choice is itself alone |
| GraphTab.GraphFilter | graphtab.py:24-41 | the four rebindings select, in order, exactly the rows meeting all four conditions |
| GraphTab.GraphShares | graphtab.py:54-59 | every share row has the chosen level and an age in range; a single status gives shares of exactly 1 |
| GraphTab.EvenAges | graphtab.py:62-63 | the even ages of the share table, each once, ascending |
| GraphTab.OfferTraces | graphtab.py:91-104 | one trace per selected status in order; every point is the mean job offers of its (age, status) group; every record of that status has its point |
| GraphTab.DensityCategories | graphtab.py:131-142 | the categories that get a density curve: each once, exactly those with at least two rows |
| GraphTab.CategoryCounts | graphtab.py:166-177 | one count per category present; gender counts skip missing genders, field counts add up to all rows |
| StackedBar.ByGenders | stackedbarchart.py:20-24 | exactly the rows with a selected known gender, each as often as in the input, in order |
| StackedBar.StackedGrouped | stackedbarchart.py:27-32 | counts and shares over the selected genders only; no gender selected gives no rows |
| StackedBar.StackedFilter | stackedbarchart.py:46-50 | a share row is kept iff it has the chosen level, a selected status and an age in range |
| StackedBar.StackedSlider | stackedbarchart.py:39-40 | none on an empty share table; otherwise the youngest and the oldest age of its rows, both attained |
| StackedBar.DefaultSliderKeepsAges | stackedbarchart.py:39-50 | at the default range only the level and status conditions select |
| StackedBar.StackedBars | stackedbarchart.py:20-50 | every bar is a chosen level, status and age, counted over the selected genders; every qualifying record has its bar |
| StackedBar.StackedAges | stackedbarchart.py:54-57 | nothing for an empty selection; otherwise its distinct ages, ascending |
| Line.LineSlider | line.py:30-37 | none on an empty table; otherwise the youngest and oldest age |
| Line.DefaultLineRangeKeepsAll | line.py:30-40 | the default slider range keeps every record |
| Line.LineAgeFilter | line.py:40 | exactly the records with lo ≤ age ≤ hi, each as often as in the input, in order |
| Line.LineSelect | line.py:56-57 | 'All' keeps every point; otherwise only points on a selected level, so an empty selection keeps none |
| Line.LevelHasPoints | line.py:68-71 | a shown level has rows to draw iff some record in the age range has that level |
| Line.LineTraces | line.py:40-79 | lines for exactly the selected levels of the order that some record in the age range has, in order, none empty; each point is a (level, age) mean over the records in range; no selection gives no lines |
| LineChart.ChartSelect | linechart.py:33-36 | 'All' or an empty selection keeps every point; otherwise only points on a selected level; never adds a row |
| LineChart.LineChartData | linechart.py:13-36 | every plotted point with a level is a selected level of the order and a (level, years) mean; every record on a selected level has its point; no (level, years) pair twice |
| Pipeline.SubsequenceKeepsDistinct | linechart.py:36 | a row filter never duplicates a (level, years) pair |
| Donut.DonutFilter | donut.py:16-38 | exactly the Yes/No records of the chosen level and inclusive age range and, unless 'All', of the chosen status |
| Donut.DonutMatchesGraphFilter | donut.py:37-38 | with status choices All/Yes/No the donut filter selects the same rows as graphtab.py's filter with every gender |
| Donut.NuniqueBelowTwo | donut.py:41 | `nunique() < 2` holds iff the selection does not show two different known genders |
| Donut.GenderSummary | donut.py:41-47 | nothing when the selection is empty or has fewer than two known genders; otherwise at least two counts, one per known gender, adding up to the rows with a known gender |
| Scatter.GpaOptions | scatter.py:22 | "All" followed by the four GPA groups in bin order, no option twice |
| Scatter.Trunc | scatter.py:25 | `int()` truncates toward zero |
| Scatter.SalarySlider | scatter.py:25 | none on an empty table; otherwise the truncations toward zero of the smallest and the largest salary, which enclose every whole-number salary |
| Scatter.ScatterFilter | scatter.py:29-32 | the `&=` mask selects exactly the records with lo ≤ salary ≤ hi and, unless "All", the chosen GPA group, in order |
| Scatter.Masked | scatter.py:32 | `df[mask]` for a mask evaluated row by row is the selection by that condition |
| Scatter.DefaultScatterKeepsAll | scatter.py:25-31 | at the default range with "All", every record is kept when salaries are whole numbers |

## Left out

- Streamlit and Plotly are not modelled. That covers page setup, widgets, columns,
  tabs, messages, figure construction, colours, hover text, axes and annotations. Widget
  values are parameters; a chart is the data it is drawn from.
- Loading the spreadsheet is not modelled, including the `os.path.exists` check in
  `line.py`. The table is an input sequence.
- Kernel density estimates (`gaussian_kde`, `np.linspace`) and the OLS trendline are
  not modelled; these are floating-point numerics. Only the "more than one row" guard of
  the density loop is kept.
- Rounding (`.round(2)`, `round(...)`) and the label strings with `<br>` and `%` are not
  modelled. Percentages are exact rationals.
- Missing cells are modelled for Gender only, and for the two computed columns (the GPA
  group and the recast job level). Other columns are taken to be complete.
- Row order of `groupby` and `value_counts` output is not modelled. Grouped rows come in
  first-seen order and properties are stated over keys and counts. The explicit orders
  are modelled: the level order and `sorted`.
- The `sorted(...unique())` option lists of strings (gender, job level) are not modelled.
  The chosen option is a parameter, and string ordering is not modelled.
- `web.py`'s age options are strings (`'ALL'` and `str(age)`) parsed back with `int`.
  They are modelled as the datatype `Web.AgeOption`; the string round trip is not.
- `Web.PivotTraces`: the pivot table's missing (NaN) cells, where a level has no record
  for a years value, are not modelled. Each trace holds only the points that exist.
- `Web.PivotTraces`: the `levels` dictionary is iterated in insertion order, which is the
  fixed level order; the model uses that order directly.
- `Draft` in-place mutation: `get_sunburst_data` adds `Salary_Group` to the caller's
  table. The model computes the group from each record instead.
- `COLOR_MAP_ENT` and the colour dictionaries are literal constants. Only the key scheme
  and the way the map is filled are modelled, not the hex values.
- `sunburst.py`'s outer loop over `[('Yes', …), ('No', …)]` is modelled as two calls of
  `SunburstData.AddColors` inside `SunburstData.ColorMap`.
- `stackedbarchart.py` lines 80-95 are not modelled. That line chart refers to a `fig`
  that is never defined (line 90), so it raises `NameError`.
- `donut.py` after line 47 is not modelled. The file stops inside a `make_subplots` call.
- `Scatter.SalarySlider` promises that its bounds enclose a salary only for whole-number
  salaries. With a fractional maximum salary the truncated upper bound lies below it, and
  the default range would exclude that record.
- The salary slider's step of 1000 is not modelled. It only affects which values the
  widget offers.
- `GraphTab.OfferTraces`, `Web.PivotTraces`, `Line.LineTraces`: colours and the trace
  styling are not modelled.
- `homepage.py` and `homepage/homepage.py` are not part of this model. They hold page
  styling and navigation state only.
