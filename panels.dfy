/** The data behind the three panels of the chart: the years on the axis, the
    Total series, and the rows, labels and colours of the two bar panels. */
module Panels {
  import opened Results
  import opened Sequences
  import opened Sorting
  import opened PyInt
  import opened Codes
  import opened Tables
  import opened Align

  // ---------------------------------------------------------------------
  // The periods and the end year
  // ---------------------------------------------------------------------

  /** pandas' `Series.unique()`: the distinct values in order of first appearance. */
  function Unique(column: seq<int>): (u: seq<int>)
    ensures forall x :: x in u <==> x in column
    ensures forall i, j :: 0 <= i < j < |u| ==> u[i] != u[j]
  {
    if column == [] then []
    else
      var p, last := column[..|column| - 1], column[|column| - 1];
      assert column == p + [last];
      var u := Unique(p);
      if last in u then u else u + [last]
  }

  /** The position at which `x` first occurs in `s`. */
  function FirstIndex(s: seq<int>, x: int): (i: nat)
    requires x in s
    ensures i < |s| && s[i] == x
    ensures forall j :: 0 <= j < i ==> s[j] != x
  {
    if s[0] == x then 0 else 1 + FirstIndex(s[1..], x)
  }

  lemma FirstIndexInPrefix(p: seq<int>, last: int, x: int)
    requires x in p
    ensures FirstIndex(p + [last], x) == FirstIndex(p, x)
  {
    var a, b := FirstIndex(p + [last], x), FirstIndex(p, x);
    assert (p + [last])[b] == x;
    assert a <= b;
    assert p[a] == x;
  }

  /** `unique()` lists the values in the order in which they first occur. */
  lemma {:induction false} UniqueInFirstAppearanceOrder(s: seq<int>)
    ensures forall i, j :: 0 <= i < j < |Unique(s)| ==>
      FirstIndex(s, Unique(s)[i]) < FirstIndex(s, Unique(s)[j])
  {
    if s != [] {
      var p, last := s[..|s| - 1], s[|s| - 1];
      assert s == p + [last];
      UniqueInFirstAppearanceOrder(p);
      var up := Unique(p);
      forall x | x in up
        ensures FirstIndex(s, x) == FirstIndex(p, x) < |p|
      {
        FirstIndexInPrefix(p, last, x);
      }
      if last !in up {
        assert FirstIndex(s, last) == |p|;
        assert Unique(s) == up + [last];
        forall i, j | 0 <= i < j < |Unique(s)|
          ensures FirstIndex(s, Unique(s)[i]) < FirstIndex(s, Unique(s)[j])
        {
          assert Unique(s)[i] == up[i] && up[i] in up;
          if j < |up| {
            assert Unique(s)[j] == up[j] && up[j] in up;
          }
        }
      } else {
        forall i, j | 0 <= i < j < |up|
          ensures FirstIndex(s, up[i]) < FirstIndex(s, up[j])
        {
          assert up[i] in up && up[j] in up;
        }
      }
    }
  }

  /** `periods[-1]`; `None` for an empty list (IndexError). */
  function EndYear(periods: seq<int>): (y: Option<int>)
    ensures y.None? <==> periods == []
    ensures y.Some? ==> y.value in periods
  {
    if periods == [] then None else Some(periods[|periods| - 1])
  }

  /** The end year of a non-empty table is the year of the table whose first
      occurrence comes last, not necessarily its greatest year. */
  lemma EndYearFirstAppearsLast(t: seq<Row<int>>)
    requires t != []
    ensures EndYear(Unique(Years(t))).Some?
    ensures var y := EndYear(Unique(Years(t))).value;
            && y in Years(t)
            && forall x :: x in Years(t) ==> FirstIndex(Years(t), x) <= FirstIndex(Years(t), y)
  {
    var s := Years(t);
    assert s[0] in s;
    var u := Unique(s);
    UniqueInFirstAppearanceOrder(s);
    forall x | x in s
      ensures FirstIndex(s, x) <= FirstIndex(s, u[|u| - 1])
    {
      var k :| 0 <= k < |u| && u[k] == x;
    }
  }

  lemma {:induction false} UniqueOfSortedEndsWithLast(s: seq<int>)
    requires s != []
    requires forall i, j :: 0 <= i < j < |s| ==> s[i] <= s[j]
    ensures Unique(s) != [] && Unique(s)[|Unique(s)| - 1] == s[|s| - 1]
  {
    var p, last := s[..|s| - 1], s[|s| - 1];
    assert s == p + [last];
    SortedPrefix(s);
    var up := Unique(p);
    if last in up {
      assert last in p;
      UniqueOfSortedEndsWithLast(p);
      assert Unique(s) == up;
    } else {
      assert Unique(s) == up + [last];
    }
  }

  /** Dropping the last element of a sorted sequence keeps it sorted, and a
      last element that occurs earlier equals the one before it. */
  lemma SortedPrefix(s: seq<int>)
    requires s != []
    requires forall i, j :: 0 <= i < j < |s| ==> s[i] <= s[j]
    ensures var p := s[..|s| - 1];
      && (forall i, j :: 0 <= i < j < |p| ==> p[i] <= p[j])
      && (s[|s| - 1] in p ==> p[|p| - 1] == s[|s| - 1])
  {
    var p := s[..|s| - 1];
    assert forall i :: 0 <= i < |p| ==> p[i] == s[i];
    if s[|s| - 1] in p {
      var k :| 0 <= k < |p| && p[k] == s[|s| - 1];
      assert s[k] <= s[|p| - 1] <= s[|s| - 1];
    }
  }

  /** For a table in ascending order of period, the end year is its last and greatest year. */
  lemma EndYearOfSortedTable(t: seq<Row<int>>)
    requires t != []
    requires forall i, j :: 0 <= i < j < |t| ==> t[i].period <= t[j].period
    ensures EndYear(Unique(Years(t))) == Some(t[|t| - 1].period)
    ensures forall r :: r in t ==> r.period <= t[|t| - 1].period
  {
    var s := Years(t);
    assert |s| == |t| && forall i :: 0 <= i < |t| ==> s[i] == t[i].period;
    assert forall i, j :: 0 <= i < j < |s| ==> s[i] <= s[j];
    UniqueOfSortedEndsWithLast(s);
    forall r | r in t
      ensures r.period <= t[|t| - 1].period
    {
      var k :| 0 <= k < |t| && t[k] == r;
    }
  }

  /** A table whose periods descend has its least year as end year. */
  lemma EndYearOfDescendingPair(r1: Row<int>, r2: Row<int>)
    requires r1.period > r2.period
    ensures EndYear(Unique(Years([r1, r2]))) == Some(r2.period)
  {
    assert Years([r1, r2]) == [r1.period, r2.period];
    assert [r1.period, r2.period][..1] == [r1.period];
    assert [r1.period][..0] == [];
  }

  // ---------------------------------------------------------------------
  // Row masks used by the panels
  // ---------------------------------------------------------------------

  predicate IsTotal(r: Row<int>)
  {
    r.code == TotalCode
  }

  predicate IsBracket(code: int)
  {
    code != TotalCode
  }

  predicate IsBracketRow(r: Row<int>)
  {
    IsBracket(r.code)
  }

  /** The mask `Period == year`. */
  function InYear(year: int): (keep: Row<int> -> bool)
    ensures forall r :: keep(r) == (r.period == year)
  {
    (r: Row<int>) => r.period == year
  }

  /** The rows of an age bracket (not Total) in the given year. */
  function BracketInYear(year: int): (keep: Row<int> -> bool)
    ensures forall r :: keep(r) == (r.period == year && IsBracketRow(r))
  {
    (r: Row<int>) => r.period == year && IsBracketRow(r)
  }

  function NegatedDifference(r: Row<int>): int
  {
    -r.difference
  }

  /** `0, 1, ..., n - 1`, as `np.arange(n)`. */
  function Range(n: nat): seq<int>
  {
    seq(n, i => i)
  }

  // ---------------------------------------------------------------------
  // Panel data
  // ---------------------------------------------------------------------

  datatype Shade = Dark | Med

  /** Bars along the year axis, with their heights and the panel title. */
  datatype TotalPanel = TotalPanel(years: seq<int>, heights: seq<int>, title: string)

  /** Horizontal bars: their positions, widths, tick labels, colours and title. */
  datatype HBarPanel =
    HBarPanel(positions: seq<int>, widths: seq<int>, labels: seq<string>, colors: seq<Shade>, title: string)

  datatype Chart = Chart(total: TotalPanel, byAge: HBarPanel, bySector: HBarPanel)

  /** The dark colour for every value equal to the maximum, the medium one elsewhere. */
  function Colors(values: seq<int>): (shades: seq<Shade>)
    ensures |shades| == |values|
    ensures forall i :: 0 <= i < |values| ==>
      (shades[i] == Dark <==> forall j :: 0 <= j < |values| ==> values[j] <= values[i])
  {
    if values == [] then []
    else
      var top := SeriesMax(values).value;
      assert forall i :: 0 <= i < |values| ==> values[i] in values;
      seq(|values|, i requires 0 <= i < |values| => if values[i] == top then Dark else Med)
  }

  /** Some bar is dark, and equal values get the same colour: every tie for
      the maximum is dark, not only the first. */
  lemma ColorsMarkEveryTie(values: seq<int>)
    ensures values != [] ==> Dark in Colors(values)
    ensures forall i, j :: 0 <= i < |values| && 0 <= j < |values| && values[i] == values[j] ==>
      Colors(values)[i] == Colors(values)[j]
  {
    if values != [] {
      var top := SeriesMax(values).value;
      var k :| 0 <= k < |values| && values[k] == top;
      assert Colors(values)[k] == Dark;
    }
  }

  /** The age codes other than Total, in ascending order. */
  function BracketCodes(): seq<int>
  {
    Filter(IsBracket, SortedCharacteristicKeys())
  }

  lemma DropTotal(keys: seq<int>, brackets: seq<int>)
    requires keys == [TotalCode] + brackets
    requires forall i :: 0 <= i < |brackets| ==> brackets[i] != TotalCode
    ensures Filter(IsBracket, keys) == brackets
  {
    FilterRejectedHead(IsBracket, TotalCode, brackets);
    FilterAll(IsBracket, brackets);
  }

  lemma BracketCodesInTableOrder()
    ensures BracketCodes() == CharacteristicKeys[..11]
  {
    assert SortedCharacteristicKeys() == [TotalCode] + CharacteristicKeys[..11] by {
      SortedCharacteristicCodes();
    }
    assert forall i :: 0 <= i < 11 ==> CharacteristicKeys[i] != TotalCode;
    DropTotal(SortedCharacteristicKeys(), CharacteristicKeys[..11]);
  }

  /** The label of each age code. */
  function Labels(codes: seq<int>): seq<string>
    requires forall i :: 0 <= i < |codes| ==> codes[i] in Characteristics
  {
    seq(|codes|, i requires 0 <= i < |codes| => Characteristics[codes[i]])
  }

  /** `[characteristics[key] for key in sorted(characteristics.keys()) if key != total_code]`. */
  function AgeCategories(): seq<string>
  {
    BracketCodesLabelled();
    Labels(BracketCodes())
  }

  /** Every bracket code is a key of the characteristics table, since sorting
      the keys only reorders them. */
  lemma BracketCodesLabelled()
    ensures forall i :: 0 <= i < |BracketCodes()| ==> BracketCodes()[i] in Characteristics
  {
    var sorted := SortedCharacteristicKeys();
    SortByPermutes(CharacteristicKeys, Identity);
    CharacteristicKeysListTheTable();
    forall i | 0 <= i < |BracketCodes()|
      ensures BracketCodes()[i] in Characteristics
    {
      var c := BracketCodes()[i];
      assert c in BracketCodes();
      assert c in multiset(sorted);
      assert c in CharacteristicKeys;
    }
  }

  lemma BracketLabels(codes: seq<int>)
    requires codes == [10690, 10700, 10710, 10720, 10730, 10740, 10750, 10760, 10770, 10780, 10790]
    ensures forall i :: 0 <= i < |codes| ==> codes[i] in Characteristics
    ensures Labels(codes) == ["15 to 20", "20 to 25", "25 to 30", "30 to 35", "35 to 40",
                              "40 to 45", "45 to 50", "50 to 55", "55 to 60", "60 to 65", "65 to 75"]
  {
  }

  /** The age labels are the eleven brackets in ascending code order, without Total. */
  lemma AgeCategoriesInCodeOrder()
    ensures AgeCategories() == ["15 to 20", "20 to 25", "25 to 30", "30 to 35", "35 to 40",
                                "40 to 45", "45 to 50", "50 to 55", "55 to 60", "60 to 65", "65 to 75"]
  {
    BracketCodesInTableOrder();
    SortedCharacteristicCodes();
    BracketLabels(CharacteristicKeys[..11]);
  }

  /** The Total panel: one bar per period, its height the Difference of each Total row. */
  function PlotTotalGap(age: seq<Row<int>>, periods: seq<int>): (panel: TotalPanel)
    ensures panel.years == periods && |panel.heights| <= |age|
    ensures panel.title == "Total per year"
  {
    TotalPanel(periods, Differences(Filter(IsTotal, age)), "Total per year")
  }

  /** The bar heights are the Differences of exactly the Total rows, in table order. */
  lemma PlotTotalGapSelects(age: seq<Row<int>>, periods: seq<int>)
    ensures PlotTotalGap(age, periods).years == periods
    ensures exists rows: seq<Row<int>> :: IsSelection(rows, age, IsTotal) && PlotTotalGap(age, periods).heights == Differences(rows)
  {
    FilterSelects(IsTotal, age);
  }

  /** The age panel for the end year; `None` when there is no period. It has
      one position per label, at most one bar per age row, and one colour per bar. */
  function PlotGapPerAge(age: seq<Row<int>>, periods: seq<int>): (panel: Option<HBarPanel>)
    ensures panel.None? <==> periods == []
    ensures panel.Some? ==>
      && |panel.value.positions| == |panel.value.labels|
      && |panel.value.colors| == |panel.value.widths| <= |age|
  {
    match EndYear(periods)
    case None => None
    case Some(endYear) =>
      var endYearData := Filter(InYear(endYear), age);
      Some(AgeBars(Differences(Filter(IsBracketRow, endYearData)), AgeCategories(), endYear))
  }

  /** The horizontal bars of the age panel: the given values against the given labels. */
  function AgeBars(byAges: seq<int>, categories: seq<string>, endYear: int): HBarPanel
  {
    HBarPanel(Range(|categories|), byAges, categories, Colors(byAges), "By age, " + IntToString(endYear))
  }

  /** The age panel shows the Differences of exactly the non-Total rows of the
      end year, in table order, against the age labels, one position per
      label, the maximum (every tie of it) dark. */
  lemma PlotGapPerAgeSelects(age: seq<Row<int>>, periods: seq<int>)
    ensures PlotGapPerAge(age, periods).None? <==> periods == []
    ensures periods != [] ==>
      var panel := PlotGapPerAge(age, periods).value;
      var year := periods[|periods| - 1];
      var rows := Filter(BracketInYear(year), age);
      && IsSelection(rows, age, BracketInYear(year))
      && panel.widths == Differences(rows)
      && panel.labels == AgeCategories()
      && |panel.positions| == |panel.labels| && (forall i :: 0 <= i < |panel.labels| ==> panel.positions[i] == i)
      && |panel.colors| == |panel.widths|
      && (forall i :: 0 <= i < |panel.widths| ==>
            (panel.colors[i] == Dark <==> forall j :: 0 <= j < |panel.widths| ==> panel.widths[j] <= panel.widths[i]))
      && panel.title == "By age, " + IntToString(year)
  {
    if periods != [] {
      var year := periods[|periods| - 1];
      var rows := Filter(BracketInYear(year), age);
      AgePanelOfEndYear(age, periods);
      var panel := AgeBars(Differences(rows), AgeCategories(), year);
      assert PlotGapPerAge(age, periods).value == panel;
      AgeBarsShape(Differences(rows), AgeCategories(), year);
    }
  }

  /** The age panel is the bars of the end year's bracket rows. */
  lemma AgePanelOfEndYear(age: seq<Row<int>>, periods: seq<int>)
    requires periods != []
    ensures var year := periods[|periods| - 1];
      var rows := Filter(BracketInYear(year), age);
      && IsSelection(rows, age, BracketInYear(year))
      && PlotGapPerAge(age, periods) == Some(AgeBars(Differences(rows), AgeCategories(), year))
  {
    BracketRowsOfYear(age, periods[|periods| - 1]);
  }

  /** The age bars show the given values against the given labels. */
  lemma AgeBarsShape(byAges: seq<int>, categories: seq<string>, year: int)
    ensures var panel := AgeBars(byAges, categories, year);
      && panel.widths == byAges
      && panel.labels == categories
      && |panel.positions| == |panel.labels| && (forall i :: 0 <= i < |panel.labels| ==> panel.positions[i] == i)
      && |panel.colors| == |panel.widths|
      && (forall i :: 0 <= i < |panel.widths| ==>
            (panel.colors[i] == Dark <==> forall j :: 0 <= j < |panel.widths| ==> panel.widths[j] <= panel.widths[i]))
      && panel.title == "By age, " + IntToString(year)
  {
  }

  lemma BracketRowsOfYear(age: seq<Row<int>>, year: int)
    ensures Filter(IsBracketRow, Filter(InYear(year), age)) == Filter(BracketInYear(year), age)
    ensures IsSelection(Filter(BracketInYear(year), age), age, BracketInYear(year))
  {
    FilterFilter(InYear(year), IsBracketRow, BracketInYear(year), age);
    FilterSelects(BracketInYear(year), age);
  }

  lemma PermutedMembers<T>(a: seq<T>, b: seq<T>)
    requires multiset(a) == multiset(b)
    ensures forall x :: x in a ==> x in b
  {
    forall x | x in a
      ensures x in b
    {
      assert x in multiset(a);
    }
  }

  /** The horizontal bars of the sector panel, one per row in the given order. */
  function SectorBars(bySector: seq<Row<int>>, endYear: int): HBarPanel
    requires forall r :: r in bySector ==> r.code in Sectors
  {
    assert forall i :: 0 <= i < |bySector| ==> bySector[i] in bySector;
    var categories := seq(|bySector|, i requires 0 <= i < |bySector| => Sectors[bySector[i].code]);
    HBarPanel(Range(|categories|), Differences(bySector), categories,
              seq(|bySector|, i => Med), "By sector, " + IntToString(endYear))
  }

  /** `end_year_data.sort_values('Difference', ascending=False)`: the rows of
      the given year, a reordering of exactly those rows by non-increasing Difference. */
  function EndYearBySector(sector: seq<Row<int>>, year: int): (rows: seq<Row<int>>)
    ensures multiset(rows) == multiset(Filter(InYear(year), sector))
    ensures forall r :: r in rows ==> r in sector && r.period == year
    ensures forall i, j :: 0 <= i < j < |rows| ==> rows[i].difference >= rows[j].difference
  {
    var endYearData := Filter(InYear(year), sector);
    var bySector := SortBy(endYearData, NegatedDifference);
    SortByPermutes(endYearData, NegatedDifference);
    PermutedMembers(bySector, endYearData);
    assert forall i, j :: 0 <= i < j < |bySector| ==>
      NegatedDifference(bySector[i]) <= NegatedDifference(bySector[j]);
    bySector
  }

  /** The sector panel for the end year, sorted by descending Difference;
      `None` when there is no period. It has one position, label and colour per
      bar, and the bars never grow downwards. */
  function PlotGapPerSector(sector: seq<Row<int>>, periods: seq<int>): (panel: Option<HBarPanel>)
    requires forall r :: r in sector ==> r.code in Sectors
    ensures panel.None? <==> periods == []
    ensures panel.Some? ==>
      var p := panel.value;
      && |p.positions| == |p.labels| == |p.colors| == |p.widths|
      && forall i, j :: 0 <= i < j < |p.widths| ==> p.widths[i] >= p.widths[j]
  {
    match EndYear(periods)
    case None => None
    case Some(endYear) =>
      var rows := EndYearBySector(sector, endYear);
      assert forall r :: r in rows ==> r.code in Sectors;
      SectorBarsShowRows(rows, endYear);
      Some(SectorBars(rows, endYear))
  }

  /** The sector bars show the rows in the given order, each labelled with its
      sector name, at positions 0 to n - 1, all in the medium colour. */
  lemma SectorBarsShowRows(rows: seq<Row<int>>, year: int)
    requires forall r :: r in rows ==> r.code in Sectors
    ensures var panel := SectorBars(rows, year);
      && panel.widths == Differences(rows)
      && |panel.labels| == |rows|
      && (forall i :: 0 <= i < |rows| ==> rows[i].code in Sectors && panel.labels[i] == Sectors[rows[i].code])
      && |panel.positions| == |rows| && (forall i :: 0 <= i < |rows| ==> panel.positions[i] == i)
      && |panel.colors| == |rows| && (forall i :: 0 <= i < |rows| ==> panel.colors[i] == Med)
      && panel.title == "By sector, " + IntToString(year)
  {
    assert forall i :: 0 <= i < |rows| ==> rows[i] in rows;
  }

  /** The sector panel shows a reordering of exactly the end year's sector
      rows, by non-increasing Difference, each labelled with its sector name,
      at positions 0 to n - 1, all in the medium colour. */
  lemma PlotGapPerSectorSorts(sector: seq<Row<int>>, periods: seq<int>)
    requires forall r :: r in sector ==> r.code in Sectors
    ensures PlotGapPerSector(sector, periods).None? <==> periods == []
    ensures periods != [] ==>
      var panel := PlotGapPerSector(sector, periods).value;
      var year := periods[|periods| - 1];
      var rows := EndYearBySector(sector, year);
      && IsSelection(Filter(InYear(year), sector), sector, InYear(year))
      && multiset(rows) == multiset(Filter(InYear(year), sector))
      && (forall i, j :: 0 <= i < j < |rows| ==> rows[i].difference >= rows[j].difference)
      && panel.widths == Differences(rows)
      && |panel.labels| == |rows|
      && (forall i :: 0 <= i < |rows| ==> rows[i].code in Sectors && panel.labels[i] == Sectors[rows[i].code])
      && |panel.positions| == |rows| && (forall i :: 0 <= i < |rows| ==> panel.positions[i] == i)
      && |panel.colors| == |rows| && (forall i :: 0 <= i < |rows| ==> panel.colors[i] == Med)
  {
    if periods != [] {
      var year := periods[|periods| - 1];
      FilterSelects(InYear(year), sector);
      var rows := EndYearBySector(sector, year);
      SortedSectorBars(sector, year, rows);
      assert PlotGapPerSector(sector, periods) == Some(SectorBars(rows, year));
    }
  }

  /** The bars of the sorted end-year rows show those rows, in that order. */
  lemma SortedSectorBars(sector: seq<Row<int>>, year: int, rows: seq<Row<int>>)
    requires forall r :: r in sector ==> r.code in Sectors
    requires rows == EndYearBySector(sector, year)
    ensures forall r :: r in rows ==> r.code in Sectors
    ensures var panel := SectorBars(rows, year);
      && multiset(rows) == multiset(Filter(InYear(year), sector))
      && (forall i, j :: 0 <= i < j < |rows| ==> rows[i].difference >= rows[j].difference)
      && panel.widths == Differences(rows)
      && |panel.labels| == |rows|
      && (forall i :: 0 <= i < |rows| ==> rows[i].code in Sectors && panel.labels[i] == Sectors[rows[i].code])
      && |panel.positions| == |rows| && (forall i :: 0 <= i < |rows| ==> panel.positions[i] == i)
      && |panel.colors| == |rows| && (forall i :: 0 <= i < |rows| ==> panel.colors[i] == Med)
  {
    SectorBarsShowRows(rows, year);
  }

  /** `show_plots`: the periods are the distinct age years, and the three
      panels are drawn from them; `None` when there is no period. */
  function ShowPlots(age: seq<Row<int>>, sector: seq<Row<int>>): (chart: Option<Chart>)
    requires forall r :: r in sector ==> r.code in Sectors
    ensures chart.Some? <==> age != []
  {
    var periods := Unique(Years(age));
    assert age != [] ==> Years(age)[0] in periods;
    var total := PlotTotalGap(age, periods);
    var byAge := PlotGapPerAge(age, periods);
    var bySector := PlotGapPerSector(sector, periods);
    if byAge.None? || bySector.None? then None
    else Some(Chart(total, byAge.value, bySector.value))
  }

  /** The chart exists exactly when the age table has a row. Its year axis
      lists each age year once, and both bar-panel titles print the same end
      year, one of the age years, in a form `int` reads back. */
  lemma ShowPlotsTitlesShareEndYear(age: seq<Row<int>>, sector: seq<Row<int>>)
    requires forall r :: r in sector ==> r.code in Sectors
    ensures ShowPlots(age, sector).Some? <==> age != []
    ensures age != [] ==>
      var chart := ShowPlots(age, sector).value;
      var year := EndYear(Unique(Years(age))).value;
      && (forall y :: y in chart.total.years <==> y in Years(age))
      && (forall i, j :: 0 <= i < j < |chart.total.years| ==> chart.total.years[i] != chart.total.years[j])
      && year in Years(age)
      && |chart.byAge.title| >= 8 && ParseInt(chart.byAge.title[8..]) == Some(year)
      && |chart.bySector.title| >= 11 && ParseInt(chart.bySector.title[11..]) == Some(year)
  {
    var periods := Unique(Years(age));
    PlotGapPerAgeSelects(age, periods);
    PlotGapPerSectorSorts(sector, periods);
    if age != [] {
      assert Years(age)[0] in Years(age);
      var year := periods[|periods| - 1];
      assert year in periods;
      ParseIntToString(year);
      var chart := ShowPlots(age, sector).value;
      assert chart.byAge.title[8..] == IntToString(year);
      assert chart.bySector.title[11..] == IntToString(year);
    } else {
      assert Years(age) == [];
    }
  }
}
