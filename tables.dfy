/** The two datasets as tables of rows, and the category filters applied when
    they are read. */
module Tables {
  import opened Sequences
  import opened Codes

  /** One observation with its columns renamed: the period, the category code
      (the Characteristic column of the age dataset, the Sector column of the
      sector dataset) and the Difference (women's hourly wage as a percentage
      of men's). `P` is `string` as read, `int` once the period is a year. */
  datatype Row<P> = Row(period: P, code: int, difference: int)

  /** The Period column. */
  function Years(table: seq<Row<int>>): seq<int>
  {
    seq(|table|, i requires 0 <= i < |table| => table[i].period)
  }

  /** The Difference column. */
  function Differences<P>(table: seq<Row<P>>): seq<int>
  {
    seq(|table|, i requires 0 <= i < |table| => table[i].difference)
  }

  predicate HasAgeCode(r: Row<string>)
  {
    r.code in Characteristics
  }

  predicate HasSectorCode(r: Row<string>)
  {
    r.code in Sectors
  }

  /** `df[df['Characteristic'].isin(characteristics)]` on the age dataset. */
  function ReadAgeData(table: seq<Row<string>>): (kept: seq<Row<string>>)
    ensures forall r :: r in kept ==> r.code in Characteristics
  {
    Filter(HasAgeCode, table)
  }

  /** `df[df['Sector'].isin(sectors)]` on the sector dataset. */
  function ReadSectorData(table: seq<Row<string>>): (kept: seq<Row<string>>)
    ensures forall r :: r in kept ==> r.code in Sectors
  {
    Filter(HasSectorCode, table)
  }

  /** The age filter keeps exactly the rows with a known age code, in order, unchanged. */
  lemma ReadAgeDataSelects(table: seq<Row<string>>)
    ensures IsSelection(ReadAgeData(table), table, HasAgeCode)
  {
    FilterSelects(HasAgeCode, table);
  }

  /** The sector filter keeps exactly the rows with a known sector code, in order, unchanged. */
  lemma ReadSectorDataSelects(table: seq<Row<string>>)
    ensures IsSelection(ReadSectorData(table), table, HasSectorCode)
  {
    FilterSelects(HasSectorCode, table);
  }
}
