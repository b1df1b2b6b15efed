/** Turning CBS period labels such as "2015JJ00" into years (pay_gap.py:71-72):
    each label is cut to its first four characters and read with `int`. */
module Periods {
  import opened Results
  import opened PyInt
  import opened Tables

  /** `int(label[0:4])`; `None` when that text is not a number (ValueError).
      Only the first four characters are read: a year is found only when they
      hold a digit and nothing but numerals. */
  function PeriodYear(text: string): (y: Option<int>)
    ensures y.Some? ==> forall i :: 0 <= i < |text| && i < 4 ==> IsNumeral(text[i])
    ensures y.Some? ==> exists i :: 0 <= i < |text| && i < 4 && IsDigit(text[i])
  {
    ParseInt(text[..if |text| < 4 then |text| else 4])
  }

  /** A row with its period label replaced by the year, if the label has one. */
  function WithYear(r: Row<string>): Option<Row<int>>
  {
    match PeriodYear(r.period)
    case None => None
    case Some(y) => Some(Row(y, r.code, r.difference))
  }

  /** The table with every period turned into a year, or the position of the
      first row whose period cannot be read. */
  function Normalize(table: seq<Row<string>>): (r: Result<seq<Row<int>>, nat>)
    ensures r.Success? ==> |r.value| == |table|
    ensures r.Failure? ==> r.error < |table| && PeriodYear(table[r.error].period).None?
  {
    if table == [] then Success([])
    else match WithYear(table[0])
      case None => Failure(0)
      case Some(row) =>
        match Normalize(table[1..])
        case Failure(k) => Failure(k + 1)
        case Success(rest) => Success([row] + rest)
  }

  /** Normalisation succeeds exactly when every label has a year; it then keeps
      the row count, the order, the code and the Difference of every row, and
      otherwise reports the first row that has none. */
  lemma {:induction false} NormalizeSpec(table: seq<Row<string>>)
    ensures Normalize(table).Success?
        <==> forall i :: 0 <= i < |table| ==> PeriodYear(table[i].period).Some?
    ensures Normalize(table).Success? ==>
      var rows := Normalize(table).value;
      && |rows| == |table|
      && forall i :: 0 <= i < |table| ==>
           rows[i] == Row(PeriodYear(table[i].period).value, table[i].code, table[i].difference)
    ensures Normalize(table).Failure? ==>
      var k := Normalize(table).error;
      && k < |table|
      && PeriodYear(table[k].period).None?
      && forall i :: 0 <= i < k ==> PeriodYear(table[i].period).Some?
  {
    if table != [] {
      var rest := table[1..];
      NormalizeSpec(rest);
      assert forall i :: 1 <= i < |table| ==> table[i] == rest[i - 1];
      if WithYear(table[0]).None? {
        assert Normalize(table) == Failure(0);
      } else {
        var row := WithYear(table[0]).value;
        assert row == Row(PeriodYear(table[0].period).value, table[0].code, table[0].difference);
        if Normalize(rest).Success? {
          assert Normalize(table) == Success([row] + Normalize(rest).value);
        } else {
          assert Normalize(table) == Failure(Normalize(rest).error + 1);
        }
      }
    }
  }

  /** The `df['Period'] = ...astype(int)` step: a loop over the rows that
      replaces each period label by its year. */
  method NormalizePeriods(table: seq<Row<string>>) returns (result: Result<seq<Row<int>>, nat>)
    ensures result == Normalize(table)
  {
    var rows: seq<Row<int>> := [];
    var i := 0;
    while i < |table|
      invariant 0 <= i <= |table|
      invariant |rows| == i
      invariant forall k :: 0 <= k < i ==> WithYear(table[k]) == Some(rows[k])
    {
      var row := WithYear(table[i]);
      if row.None? {
        NormalizeSpec(table);
        return Failure(i);
      }
      rows := rows + [row.value];
      i := i + 1;
    }
    NormalizeSpec(table);
    assert rows == Normalize(table).value;
    result := Success(rows);
  }

  /** A CBS label made of a four-digit year and any suffix ("2015JJ00") yields that year. */
  lemma CbsLabelYear(year: int, suffix: string)
    requires 1000 <= year <= 9999
    ensures PeriodYear(IntToString(year) + suffix) == Some(year)
  {
    assert NatToString(year) == NatToString(year / 10) + [DigitChar(year % 10)];
    assert NatToString(year / 10) == NatToString(year / 100) + [DigitChar(year / 10 % 10)];
    assert NatToString(year / 100) == NatToString(year / 1000) + [DigitChar(year / 100 % 10)];
    assert |NatToString(year / 1000)| == 1;
    var text := IntToString(year) + suffix;
    assert text[..4] == IntToString(year);
    ParseIntToString(year);
  }
}
