/** `main`: read both datasets, turn their periods into years, restrict both
    to the years they share and draw the chart. */
module PayGap {
  import opened Results
  import opened Sequences
  import opened PyInt
  import opened Codes
  import opened Tables
  import opened Periods
  import opened Align
  import opened Panels

  datatype Dataset = AgeDataset | SectorDataset

  /** Why the script stops without a chart: a period label of the given
      dataset (at the given position among its kept rows) is not a number
      (ValueError), or the aligned age table has no period, so that
      `periods[-1]` fails (IndexError). */
  datatype Failure = PeriodNotInteger(dataset: Dataset, row: nat) | NoPeriods

  /** Normalisation keeps the code of every row. */
  lemma NormalizeKeepsCodes(read: seq<Row<string>>, codes: map<int, string>)
    requires forall r :: r in read ==> r.code in codes
    requires Normalize(read).Success?
    ensures forall r :: r in Normalize(read).value ==> r.code in codes
  {
    NormalizeSpec(read);
    var rows := Normalize(read).value;
    forall r | r in rows
      ensures r.code in codes
    {
      var i :| 0 <= i < |rows| && rows[i] == r;
      assert read[i] in read;
    }
  }

  /** The chart drawn from the two normalised tables, once restricted to
      their shared years. The only failure of the model at this stage is
      `periods[-1]` on an aligned age table without rows. */
  function Draw(age: seq<Row<int>>, sector: seq<Row<int>>): (r: Result<Chart, Failure>)
    requires forall r :: r in sector ==> r.code in Sectors
    ensures r.Success? || r == Failure(NoPeriods)
    ensures r == Failure(NoPeriods) <==> AlignYears(age, sector).0 == []
  {
    var aligned := AlignYears(age, sector);
    match ShowPlots(aligned.0, aligned.1)
    case None => Failure(NoPeriods)
    case Some(chart) => Success(chart)
  }

  /** What `main` computes from the rows of the two CSV files. A reported
      period error names a kept row of that dataset whose label has no year. */
  function Analysis(ageCsv: seq<Row<string>>, sectorCsv: seq<Row<string>>): (r: Result<Chart, Failure>)
    ensures r.Failure? && r.error.PeriodNotInteger? && r.error.dataset == AgeDataset ==>
      var age := ReadAgeData(ageCsv);
      r.error.row < |age| && PeriodYear(age[r.error.row].period).None?
    ensures r.Failure? && r.error.PeriodNotInteger? && r.error.dataset == SectorDataset ==>
      var sector := ReadSectorData(sectorCsv);
      r.error.row < |sector| && PeriodYear(sector[r.error.row].period).None?
  {
    match Normalize(ReadAgeData(ageCsv))
    case Failure(k) => Failure(PeriodNotInteger(AgeDataset, k))
    case Success(age) =>
      match Normalize(ReadSectorData(sectorCsv))
      case Failure(k) => Failure(PeriodNotInteger(SectorDataset, k))
      case Success(sector) =>
        NormalizeKeepsCodes(ReadSectorData(sectorCsv), Sectors);
        Draw(age, sector)
  }

  /** `main`, with its loop over the two tables. */
  method RunAnalysis(ageCsv: seq<Row<string>>, sectorCsv: seq<Row<string>>) returns (result: Result<Chart, Failure>)
    ensures result == Analysis(ageCsv, sectorCsv)
  {
    var frames := [ReadAgeData(ageCsv), ReadSectorData(sectorCsv)];
    var datasets := [AgeDataset, SectorDataset];
    var normalized: seq<seq<Row<int>>> := [];
    for k := 0 to 2
      invariant |normalized| == k
      invariant forall j :: 0 <= j < k ==> Normalize(frames[j]) == Success(normalized[j])
    {
      var r := NormalizePeriods(frames[k]);
      if r.Failure? {
        if k == 1 {
          assert Normalize(ReadAgeData(ageCsv)) == Success(normalized[0]);
        }
        return Failure(PeriodNotInteger(datasets[k], r.error));
      }
      normalized := normalized + [r.value];
    }
    NormalizeKeepsCodes(frames[1], Sectors);
    assert Normalize(ReadAgeData(ageCsv)) == Success(normalized[0]);
    assert Normalize(ReadSectorData(sectorCsv)) == Success(normalized[1]);
    result := Draw(normalized[0], normalized[1]);
  }

  /** A label that is not a number stops the script at the first such row of
      the age table, or, when every age label is a year, of the sector table. */
  lemma AnalysisReportsFirstBadPeriod(ageCsv: seq<Row<string>>, sectorCsv: seq<Row<string>>)
    ensures var age := ReadAgeData(ageCsv);
      var result := Analysis(ageCsv, sectorCsv);
      && ((result.Failure? && result.error.PeriodNotInteger? && result.error.dataset == AgeDataset)
            <==> exists i :: 0 <= i < |age| && PeriodYear(age[i].period).None?)
      && (result.Failure? && result.error.PeriodNotInteger? && result.error.dataset == AgeDataset ==>
            var k := result.error.row;
            k < |age| && PeriodYear(age[k].period).None?
            && forall i :: 0 <= i < k ==> PeriodYear(age[i].period).Some?)
    ensures var age, sector := ReadAgeData(ageCsv), ReadSectorData(sectorCsv);
      var result := Analysis(ageCsv, sectorCsv);
      && ((result.Failure? && result.error.PeriodNotInteger? && result.error.dataset == SectorDataset)
            <==> (forall i :: 0 <= i < |age| ==> PeriodYear(age[i].period).Some?)
                 && exists i :: 0 <= i < |sector| && PeriodYear(sector[i].period).None?)
      && (result.Failure? && result.error.PeriodNotInteger? && result.error.dataset == SectorDataset ==>
            var k := result.error.row;
            k < |sector| && PeriodYear(sector[k].period).None?
            && forall i :: 0 <= i < k ==> PeriodYear(sector[i].period).Some?)
  {
    NormalizeSpec(ReadAgeData(ageCsv));
    NormalizeSpec(ReadSectorData(sectorCsv));
  }

  /** A row kept by the alignment is a row of its table, and when the sector
      table has rows its year lies between two of their years. */
  lemma AlignedAgeRowInRange(age: seq<Row<int>>, sector: seq<Row<int>>, r: Row<int>)
    requires r in AlignYears(age, sector).0
    ensures r in age
    ensures sector != [] ==>
      && SeriesMin(Years(sector)).Num? && SeriesMin(Years(sector)).value <= r.period
      && SeriesMax(Years(sector)).Num? && r.period <= SeriesMax(Years(sector)).value
  {
    var keep := YearWindow(MinYear(age, sector), MaxYear(age, sector));
    assert r in Filter(keep, age);
    if sector != [] {
      YearsOfNonEmpty(sector);
      var lo, hi := SeriesMin(Years(sector)).value, SeriesMax(Years(sector)).value;
      assert lo in Years(sector) && lo <= r.period;
      assert hi in Years(sector) && r.period <= hi;
    }
  }

  /** A drawn chart titles both bar panels with the same year, one that some
      kept age row has and, when the sector table has rows, that lies within
      their years. */
  lemma DrawTitlesYearInBothTables(age: seq<Row<int>>, sector: seq<Row<int>>, chart: Chart)
    requires forall r :: r in sector ==> r.code in Sectors
    ensures Draw(age, sector) == Success(chart) ==> AlignYears(age, sector).0 != []
    ensures Draw(age, sector) == Success(chart) ==>
        var year := EndYear(Unique(Years(AlignYears(age, sector).0))).value;
        && |chart.byAge.title| >= 8 && ParseInt(chart.byAge.title[8..]) == Some(year)
        && |chart.bySector.title| >= 11 && ParseInt(chart.bySector.title[11..]) == Some(year)
        && year in Years(age)
        && (sector != [] ==>
              && (exists lo :: lo in Years(sector) && lo <= year)
              && (exists hi :: hi in Years(sector) && year <= hi))
  {
    if Draw(age, sector) == Success(chart) {
      var aligned := AlignYears(age, sector);
      assert forall r :: r in aligned.1 ==> r.code in Sectors;
      ShowPlotsTitlesShareEndYear(aligned.0, aligned.1);
      assert ShowPlots(aligned.0, aligned.1) == Some(chart);
      var year := EndYear(Unique(Years(aligned.0))).value;
      var j :| 0 <= j < |aligned.0| && Years(aligned.0)[j] == year;
      var r := aligned.0[j];
      AlignedAgeRowInRange(age, sector, r);
      var i :| 0 <= i < |age| && age[i] == r;
      assert Years(age)[i] == year;
      assert ParseInt(chart.byAge.title[8..]) == Some(year);
      assert ParseInt(chart.bySector.title[11..]) == Some(year);
      if sector != [] {
        var lo, hi := SeriesMin(Years(sector)).value, SeriesMax(Years(sector)).value;
        assert lo in Years(sector) && lo <= year;
        assert hi in Years(sector) && year <= hi;
      }
    }
  }

  /** End to end: both bar-panel titles print the year of a row of the age CSV
      whose characteristic is one of the table's. */
  lemma AnalysisTitlesYearOfAgeRow(ageCsv: seq<Row<string>>, sectorCsv: seq<Row<string>>, chart: Chart)
    ensures Analysis(ageCsv, sectorCsv) == Success(chart) ==>
      |chart.byAge.title| >= 8 && |chart.bySector.title| >= 11
    ensures Analysis(ageCsv, sectorCsv) == Success(chart) ==>
      exists r ::
        && r in ageCsv && r.code in Characteristics && PeriodYear(r.period).Some?
        && ParseInt(chart.byAge.title[8..]) == PeriodYear(r.period)
        && ParseInt(chart.bySector.title[11..]) == PeriodYear(r.period)
  {
    if Analysis(ageCsv, sectorCsv) == Success(chart) {
      var read := ReadAgeData(ageCsv);
      var age := Normalize(read).value;
      var sector := Normalize(ReadSectorData(sectorCsv)).value;
      NormalizeKeepsCodes(ReadSectorData(sectorCsv), Sectors);
      assert Draw(age, sector) == Success(chart);
      DrawnYearOfReadRow(read, age, sector, chart);
      var r :| && r in read && PeriodYear(r.period).Some?
               && ParseInt(chart.byAge.title[8..]) == PeriodYear(r.period)
               && ParseInt(chart.bySector.title[11..]) == PeriodYear(r.period);
      assert r in ageCsv && r.code in Characteristics;
    }
  }

  /** The year in the titles of a chart drawn from a normalised table is read
      from the label of one of the table's rows. */
  lemma DrawnYearOfReadRow(read: seq<Row<string>>, age: seq<Row<int>>, sector: seq<Row<int>>, chart: Chart)
    requires Normalize(read) == Success(age)
    requires forall r :: r in sector ==> r.code in Sectors
    requires Draw(age, sector) == Success(chart)
    ensures |chart.byAge.title| >= 8 && |chart.bySector.title| >= 11
    ensures exists r ::
      && r in read && PeriodYear(r.period).Some?
      && ParseInt(chart.byAge.title[8..]) == PeriodYear(r.period)
      && ParseInt(chart.bySector.title[11..]) == PeriodYear(r.period)
  {
    DrawTitlesYearInBothTables(age, sector, chart);
    var year := EndYear(Unique(Years(AlignYears(age, sector).0))).value;
    assert year in Years(age);
    var i :| 0 <= i < |age| && Years(age)[i] == year;
    NormalizedRowAt(read, i);
    var r := read[i];
    assert r in read;
    assert PeriodYear(r.period) == Some(year);
  }

  /** Row `i` of a normalised table carries the year of row `i`'s label. */
  lemma NormalizedRowAt(read: seq<Row<string>>, i: int)
    requires Normalize(read).Success? && 0 <= i < |Normalize(read).value|
    ensures i < |read| && PeriodYear(read[i].period) == Some(Normalize(read).value[i].period)
  {
    NormalizeSpec(read);
  }
}
