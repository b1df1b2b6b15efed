# pay-gap: a verified model of the data-shaping core

`pay_gap.py` draws a three-panel chart of the gender pay gap in the
Netherlands. The data comes from two CBS StatLine datasets: pay gap by age
bracket (81901NED) and pay gap by industry sector (81920NED). Between reading
the files and drawing, the script reshapes two in-memory tables. This project
models that reshaping in Dafny and proves what it computes:

- **Category filters.** Each table keeps only the rows whose code is a key of
  the fixed `characteristics` table (11 age brackets and the Total code 10000)
  or of the `sectors` table (15 SBI 2008 sectors).
- **Period normalisation.** Each CBS period label such as `"2015JJ00"` is cut
  to its first four characters and read as an integer with Python's `int`.
- **Year alignment.** Both tables are restricted to the years
  `max(min age year, min sector year)` to `min(max age year, max sector year)`.
- **Panel data.**
  - The Total series.
  - The end year: the last of the distinct age periods.
  - The non-Total age rows of the end year, with the eleven bracket labels.
  - The dark/medium colour of each age bar.
  - The sector rows of the end year, sorted by descending Difference and
    labelled with their sector names.
  - The panel titles.

A table is a `seq<Row<P>>`. A row has a period, a category code and the
Difference: women's hourly wage as a whole percentage of men's. The period
type `P` is `string` as read and `int` once normalised. Difference is only
compared, so it is an `int`.

Modules, in dependency order:

- `Results`: `Option` and `Result`.
- `Sequences`: boolean-mask selection `Filter`. It is characterised by
  `IsSelection`: the order-preserving subsequence of exactly the matching
  elements.
- `Sorting`: a key-ordered sort with permutation lemmas.
- `Codes`: the three constant tables.
- `Tables`: rows, columns, and the two category filters.
- `PyInt`: Python's `int(text)` and `str(n)` on decimal integers.
- `Periods`: normalisation, as a method with a loop, proved equal to a
  recursive definition.
- `Align`: pandas' `min`/`max` with NaN, Python's built-in `max`/`min`, and
  the year window.
- `Panels`: `unique()`, the end year, and the three panels.
- `PayGap`: `main`, as a method with its loop over the two tables.

## Behaviour the model follows from the code

Some readings of what the program does are natural but wrong. The model follows
the code in each case:

- **End year.** The end year is the last distinct period in table order: the
  year whose first occurrence comes last (`Panels.EndYearFirstAppearsLast`).
  It is the greatest year when the age table is sorted by period
  (`Panels.EndYearOfSortedTable`), but not in general
  (`Panels.EndYearOfDescendingPair`).
- **Dark bars.** Every age value equal to the maximum gets the dark colour, not
  only the first one (`Panels.ColorsMarkEveryTie`).
- **Age bar order.** Only the labels are put in code order (pay_gap.py:165).
  The bar widths stay in the order the file lists the end year's bracket rows
  (pay_gap.py:164), so `Panels.PlotGapPerAgeSelects` gives the widths in table
  order against the labels `AgeCategories()`. A bar carries its own bracket's
  label only when the file lists each year's brackets in ascending code order.
- **Sector order.** The sector bars are in non-increasing order of Difference,
  not strictly decreasing. The order among equal Differences is not promised.
- **Alignment.** Both tables are limited to one common window, but their
  earliest and latest years need not then agree. Ages {2008, 2012} and sectors
  {2010, 2013} leave ages {2012} and sectors {2010}
  (`Align.AlignYearsKeepsUnequalBounds`). The earliest and latest years do
  agree when both bounds occur in both tables (`Align.AlignYearsSharedBounds`).
  The converse is not proved.
- **Empty tables.** pandas gives NaN as the min and max of an empty column.
  Python's `max(a, b)` replaces `a` by `b` only when `b > a`, and `min` only
  when `b < a`, so both keep `a` when `b` is NaN. As a result, in the model
  (the program may already raise at line 72 on an empty table; see the `apply`
  line under "## Left out"):
  - an empty age table empties both tables;
  - an empty sector table leaves the age table whole.

## Model

| member | source | states |
|---|---|---|
| Codes.CharacteristicKeysListTheTable | pay_gap.py:20-35 | the listed age codes are exactly the keys of the characteristics table, and the Total code 10000 is one of them |
| Codes.SortedCharacteristicCodes | pay_gap.py:165 | `sorted(characteristics.keys())` is 10000 first, then the bracket codes 10690 to 10790 in ascending order |
| Tables.ReadAgeData | pay_gap.py:94 | every kept row has a code that is a key of the characteristics table |
| Tables.ReadAgeDataSelects | pay_gap.py:94 | the filtered age table is exactly the subsequence of rows whose code is a characteristics key, in input order, each row unchanged |
| Tables.ReadSectorData | pay_gap.py:109 | every kept row has a code that is a key of the sectors table, so a later `sectors[code]` lookup is defined |
| Tables.ReadSectorDataSelects | pay_gap.py:109 | the filtered sector table is exactly the subsequence of rows whose code is a sectors key, in input order, each row unchanged |
| Sequences.Filter | pay_gap.py:94 | a mask selection is no longer than its input, and holds only input elements that pass the mask |
| Sequences.SelectionUnique | pay_gap.py:78-79 | at most one sequence is the order-preserving subsequence of the matching rows, so the selection lemmas pin the result down |
| Sequences.FilterFilter | pay_gap.py:163-164 | applying one mask and then another is the same as applying their conjunction once |
| Sorting.SortBy | pay_gap.py:177 | a sort returns as many elements as it is given, in ascending order of the key |
| Sorting.SortByPermutes | pay_gap.py:177 | a sort only reorders: its result holds each element as often as the input does |
| PyInt.NatToString | pay_gap.py:170 | `str` of a non-negative integer is a non-empty string of digits, with no leading zero unless the number is 0 |
| PyInt.IntToString | pay_gap.py:170 | `str(n)` starts with a minus sign exactly when `n` is negative; the rest is digits without a leading zero unless `n` is 0 |
| PyInt.ParseInt | pay_gap.py:72 | `int(text)` succeeds only on text that holds a digit and otherwise only digits, the six whitespace characters, signs and underscores; any other character, such as a letter or U+001C to U+001F, makes it raise |
| PyInt.ParseIntToString | pay_gap.py:170 | `int(str(n)) == n` for every integer `n`, so each title's year can be read back |
| PyInt.ParseIntIgnoresSpaces | pay_gap.py:72 | a space, tab, line feed, vertical tab, form feed or carriage return added before or after the text does not change what `int` reads |
| PyInt.ParseIntRejectsLetters | pay_gap.py:72 | `int("20JJ")`, `int("")` and `int("\x1c5")` raise, and `int("2_0")` reads 20 |
| Periods.Normalize | pay_gap.py:71-72 | on success there is one row per input row; on failure the reported position is a row whose label's first four characters are not a number |
| Periods.NormalizeSpec | pay_gap.py:71-72 | normalisation succeeds iff every label's first four characters read as an integer; on success it keeps the row count and order, and each row gets that integer as its period with code and Difference unchanged; on failure it reports the first bad row |
| Periods.NormalizePeriods | pay_gap.py:71-72 | the loop over the rows computes exactly the normalised table, or the first bad row |
| Periods.PeriodYear | pay_gap.py:72 | `int(label[0:4])` reads only the first four characters: it yields a year only when they hold a digit and nothing but digits, the six whitespace characters, signs and underscores |
| Periods.CbsLabelYear | pay_gap.py:72 | a label made of a four-digit year and any suffix, such as "2015JJ00", yields that year |
| Align.SeriesMin | pay_gap.py:75 | `min()` is NaN exactly for an empty column, and otherwise is a value of the column that no value is below |
| Align.SeriesMax | pay_gap.py:76 | `max()` is NaN exactly for an empty column, and otherwise is a value of the column that no value exceeds |
| Align.PyMax | pay_gap.py:75 | Python's `max(a, b)` is the greater of two numbers, and is `a` when either argument is NaN |
| Align.PyMin | pay_gap.py:76 | Python's `min(a, b)` is the lesser of two numbers, and is `a` when either argument is NaN |
| Align.MinYear | pay_gap.py:75 | `min_year` is NaN exactly when the age table is empty; otherwise it is a year of one of the tables, not before the earliest age year nor, when there are sector rows, the earliest sector year; with no sector rows it is the earliest age year |
| Align.MaxYear | pay_gap.py:76 | `max_year` is NaN exactly when the age table is empty; otherwise it is a year of one of the tables, not after the latest age year nor, when there are sector rows, the latest sector year; with no sector rows it is the latest age year |
| Align.AlignYears | pay_gap.py:78-79 | each aligned table has no more rows than its input, and holds only rows of its input whose year lies in [`min_year`, `max_year`] |
| Align.AlignYearsSelects | pay_gap.py:75-79 | for two non-empty tables the window is [the later of the two earliest years, the earlier of the two latest years], and each aligned table is exactly the order-preserving subsequence of its rows inside the window |
| Align.AlignYearsDisjoint | pay_gap.py:75-79 | when the later of the two earliest years is after the earlier of the two latest years, both aligned tables are empty |
| Align.AlignYearsEmptyAge | pay_gap.py:75-79 | an empty age table makes both aligned tables empty |
| Align.AlignYearsEmptySector | pay_gap.py:75-79 | an empty sector table leaves a non-empty age table unchanged |
| Align.AlignYearsKeepsUnequalBounds | pay_gap.py:75-79 | ages 2008, 2012 and sectors 2010, 2013 align to ages [2012] and sectors [2010], whose earliest years differ |
| Align.AlignYearsSharedBounds | pay_gap.py:75-79 | when both window bounds occur in both tables, the two aligned tables have the same earliest year and the same latest year, namely the bounds |
| Align.WindowBounds | pay_gap.py:78-79 | filtering to [lo, hi] when lo and hi both occur leaves a table whose least year is lo and greatest is hi |
| Panels.Unique | pay_gap.py:115 | `unique()` holds each value of the column exactly once and nothing else |
| Panels.UniqueInFirstAppearanceOrder | pay_gap.py:115 | `unique()` lists the values in the order of their first occurrence |
| Panels.EndYear | pay_gap.py:162 | `periods[-1]` fails exactly for an empty list, and otherwise is one of the periods |
| Panels.EndYearFirstAppearsLast | pay_gap.py:162 | `periods[-1]` of a non-empty table is a year of the table, and no year first occurs later than it does |
| Panels.EndYearOfSortedTable | pay_gap.py:162 | for a table sorted by period, `periods[-1]` is the last row's year, which is the greatest |
| Panels.EndYearOfDescendingPair | pay_gap.py:162 | for two rows with descending years, `periods[-1]` is the smaller year, not the maximum |
| Panels.PlotTotalGap | pay_gap.py:146-158 | the Total panel's bars stand at the periods, with at most one height per age row, under the title "Total per year" |
| Panels.PlotTotalGapSelects | pay_gap.py:147-148 | the Total panel's bars stand at the periods, and their heights are the Differences of exactly the Total rows, in table order |
| Panels.Colors | pay_gap.py:167 | one colour per value; colour i is dark iff no value exceeds value i, i.e. iff it equals the maximum |
| Panels.ColorsMarkEveryTie | pay_gap.py:167 | a non-empty panel has a dark bar, and equal values get equal colours, so every tie for the maximum is dark |
| Panels.BracketCodesInTableOrder | pay_gap.py:165 | the sorted age codes without Total are the eleven bracket codes in ascending order |
| Panels.AgeCategoriesInCodeOrder | pay_gap.py:165 | the age labels are "15 to 20", "20 to 25", …, "65 to 75", in that order, without "Total" |
| Panels.PlotGapPerAge | pay_gap.py:161-170 | there is no age panel exactly when there is no period; otherwise the panel has one position per label, one colour per bar, and at most one bar per age row |
| Panels.PlotGapPerAgeSelects | pay_gap.py:161-170 | with no period there is no panel; otherwise the bar widths are the Differences of exactly the non-Total rows of the end year, in table order, the labels are `AgeCategories()`, the positions are 0 to n-1 with one per label, a bar is dark exactly when no bar is wider, and the title is "By age, " and the end year |
| Panels.EndYearBySector | pay_gap.py:176-177 | the end-year sector rows, reordered: a permutation of the rows with that period, in non-increasing order of Difference |
| Panels.PlotGapPerSector | pay_gap.py:174-183 | there is no sector panel exactly when there is no period; otherwise the panel has one position, label and colour per bar, and bar widths that never increase down the panel |
| Panels.PlotGapPerSectorSorts | pay_gap.py:174-182 | with no period there is no panel; otherwise the bars show a permutation of exactly the end year's sector rows in non-increasing order of Difference, with labels `sectors[code]` in that order, positions 0 to n-1, all medium |
| Panels.ShowPlots | pay_gap.py:114-138 | the model's `show_plots` yields a chart exactly when the age table has a row |
| Panels.ShowPlotsTitlesShareEndYear | pay_gap.py:114-138 | the model's chart exists iff the age table has a row; its year axis lists each age year once; both bar titles print the same end year, an age year, in a form `int` reads back |
| PayGap.NormalizeKeepsCodes | pay_gap.py:71-72 | normalisation keeps every code, so the sector rows stay within the sectors table |
| PayGap.Analysis | pay_gap.py:63-81 | a reported period error names a kept row of that dataset whose label's first four characters are not a number |
| PayGap.RunAnalysis | pay_gap.py:63-81 | `main`, with its loop over the two tables, computes exactly the analysis result: the first period error, or the chart of the aligned tables |
| PayGap.AnalysisReportsFirstBadPeriod | pay_gap.py:71-72 | the run fails on the age table iff some kept age label is not a number, and it reports the first such row; it fails on the sector table iff every age label is a number and some kept sector label is not, again at the first such row |
| PayGap.Draw | pay_gap.py:75-81 | once both tables are read, the model's only failure is `periods[-1]`, and it occurs exactly when the aligned age table is empty |
| PayGap.DrawTitlesYearInBothTables | pay_gap.py:75-81 | both titles print the end year of the aligned age table; it is a year of the age table, and when the sector table has rows it lies between their earliest and latest year |
| PayGap.AnalysisTitlesYearOfAgeRow | pay_gap.py:63-81 | end to end: both titles print the year read from the label of a row of the age file whose code is in the characteristics table |

## Left out

- Reading the CSV files (`pd.read_csv`, `path.join`, pay_gap.py:88 and 103) is file I/O. The model starts from rows whose columns are already renamed. Codes and Differences in the files are taken to be integers.
- Everything drawn by matplotlib and seaborn is a display side effect in libraries outside the model: layout, tick parameters, the figure title and caption, axis limits and ticks, axis inversion, the red line at 100 and its z-order, `savefig` and `show`. The panels are modelled only as the data handed to `bar`/`barh`.
- The palette's RGB values are library data; the two colours used for bars are the values `Dark` and `Med`.
- The text on each Total bar (pay_gap.py:153-155) depends on floating-point geometry and float-to-int truncation.
- The Total panel passes the periods and the Total series to `ax.bar` without checking that their lengths agree (pay_gap.py:148). The age panel likewise pairs eleven positions with however many values the end year has (pay_gap.py:166-168). What matplotlib does on a mismatch is not modelled: the panel records both sequences as they are.
- `plot_100_line` reads `bars[0]`, which raises IndexError for a panel with no bar, such as an empty sector panel (pay_gap.py:197). The model still returns the chart in that case.
- `DataFrame.apply` on a table with no rows returns an empty frame rather than a series (pay_gap.py:72). Assigning that frame to the `Period` column may then raise, depending on the pandas version. The model instead treats normalising an empty table as giving an empty table, so the outcomes listed under "Empty tables" above are those of the model, which the program may not reach.
- `int` also accepts non-ASCII digits and non-ASCII whitespace. The model covers ASCII text only, which is what CBS labels contain.
- Periods.NormalizePeriods: builds a new table instead of overwriting the `Period` column in place, because the row type changes from text periods to integer years. The loop over the rows and the loop over both tables are kept.
- Panels.EndYearBySector: orders equal Differences by a stable insertion sort, while pandas' default quicksort does not promise any order among ties. The contract therefore states only a permutation in non-increasing order.
- The module-level call of `main()` (pay_gap.py:202) is the entry point, modelled by `PayGap.RunAnalysis`.
