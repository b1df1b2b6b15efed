/** Restricting both tables to the years they share (pay_gap.py:75-79). */
module Align {
  import opened Sequences
  import opened Tables

  /** A value of pandas' `Series.min()`/`max()`: a year, or NaN for an empty column. */
  datatype Bound = NaN | Num(value: int)

  /** `column.min()`: NaN for an empty column, otherwise its least value. */
  function SeriesMin(column: seq<int>): (b: Bound)
    ensures b.NaN? <==> column == []
    ensures b.Num? ==> b.value in column && forall y :: y in column ==> b.value <= y
  {
    if column == [] then NaN
    else
      var rest := SeriesMin(column[1..]);
      assert column == [column[0]] + column[1..];
      if rest.Num? && rest.value < column[0] then rest else Num(column[0])
  }

  /** `column.max()`: NaN for an empty column, otherwise its greatest value. */
  function SeriesMax(column: seq<int>): (b: Bound)
    ensures b.NaN? <==> column == []
    ensures b.Num? ==> b.value in column && forall y :: y in column ==> y <= b.value
  {
    if column == [] then NaN
    else
      var rest := SeriesMax(column[1..]);
      assert column == [column[0]] + column[1..];
      if rest.Num? && rest.value > column[0] then rest else Num(column[0])
  }

  /** The greater and the lesser of two numbers. */
  function Max(a: int, b: int): int
  {
    if a < b then b else a
  }

  function Min(a: int, b: int): int
  {
    if a < b then a else b
  }

  /** Python's built-in `max(a, b)`: `b` replaces `a` only when `b > a`, and
      every comparison with NaN is false. So it is the greater of two numbers,
      and NaN in either place leaves the first argument. */
  function PyMax(a: Bound, b: Bound): (m: Bound)
    ensures a.Num? && b.Num? ==> m == Num(Max(a.value, b.value))
    ensures a.NaN? || b.NaN? ==> m == a
  {
    if a.Num? && b.Num? && b.value > a.value then b else a
  }

  /** Python's built-in `min(a, b)`: `b` replaces `a` only when `b < a`, so
      it is the lesser of two numbers, and NaN in either place leaves `a`. */
  function PyMin(a: Bound, b: Bound): (m: Bound)
    ensures a.Num? && b.Num? ==> m == Num(Min(a.value, b.value))
    ensures a.NaN? || b.NaN? ==> m == a
  {
    if a.Num? && b.Num? && b.value < a.value then b else a
  }

  /** Whether the row's year lies in [lo, hi]; never when a bound is NaN. */
  predicate InWindow(r: Row<int>, lo: Bound, hi: Bound)
  {
    lo.Num? && hi.Num? && lo.value <= r.period <= hi.value
  }

  /** The mask `(Period >= lo) & (Period <= hi)`; a comparison with NaN is false. */
  function YearWindow(lo: Bound, hi: Bound): (keep: Row<int> -> bool)
    ensures forall r :: keep(r) == InWindow(r, lo, hi)
  {
    (r: Row<int>) => InWindow(r, lo, hi)
  }

  /** The earliest year both tables cover, as `main` computes it: NaN exactly
      when the age table is empty, otherwise the later of the earliest age year
      and, when there are sector rows, the earliest sector year. */
  function MinYear(age: seq<Row<int>>, sector: seq<Row<int>>): (b: Bound)
    ensures b.NaN? <==> age == []
    ensures b.Num? ==> b.value in Years(age) || b.value in Years(sector)
    ensures b.Num? ==> SeriesMin(Years(age)).value <= b.value
    ensures b.Num? && sector != [] ==> SeriesMin(Years(sector)).value <= b.value
    ensures sector == [] ==> b == SeriesMin(Years(age))
  {
    PyMax(SeriesMin(Years(age)), SeriesMin(Years(sector)))
  }

  /** The latest year both tables cover, as `main` computes it: NaN exactly
      when the age table is empty, otherwise the earlier of the latest age year
      and, when there are sector rows, the latest sector year. */
  function MaxYear(age: seq<Row<int>>, sector: seq<Row<int>>): (b: Bound)
    ensures b.NaN? <==> age == []
    ensures b.Num? ==> b.value in Years(age) || b.value in Years(sector)
    ensures b.Num? ==> b.value <= SeriesMax(Years(age)).value
    ensures b.Num? && sector != [] ==> b.value <= SeriesMax(Years(sector)).value
    ensures sector == [] ==> b == SeriesMax(Years(age))
  {
    PyMin(SeriesMax(Years(age)), SeriesMax(Years(sector)))
  }

  /** Both tables filtered to the inclusive range [MinYear, MaxYear]: each
      keeps only rows of its own input, no more of them, and only rows whose
      year lies in that range. */
  function AlignYears(age: seq<Row<int>>, sector: seq<Row<int>>): (aligned: (seq<Row<int>>, seq<Row<int>>))
    ensures |aligned.0| <= |age| && |aligned.1| <= |sector|
    ensures forall r :: r in aligned.0 ==> r in age && InWindow(r, MinYear(age, sector), MaxYear(age, sector))
    ensures forall r :: r in aligned.1 ==> r in sector && InWindow(r, MinYear(age, sector), MaxYear(age, sector))
  {
    var keep := YearWindow(MinYear(age, sector), MaxYear(age, sector));
    (Filter(keep, age), Filter(keep, sector))
  }

  lemma YearsOfNonEmpty(t: seq<Row<int>>)
    requires t != []
    ensures Years(t) != [] && t[0].period in Years(t)
  {
    assert Years(t)[0] == t[0].period;
  }

  /** With two non-empty tables the window runs from the later of the two
      earliest years to the earlier of the two latest years, and each aligned table
      is exactly the rows of its input inside that window, in order. */
  lemma AlignYearsSelects(age: seq<Row<int>>, sector: seq<Row<int>>)
    requires age != [] && sector != []
    ensures var lo := Max(SeriesMin(Years(age)).value, SeriesMin(Years(sector)).value);
            var hi := Min(SeriesMax(Years(age)).value, SeriesMax(Years(sector)).value);
            && MinYear(age, sector) == Num(lo)
            && MaxYear(age, sector) == Num(hi)
            && IsSelection(AlignYears(age, sector).0, age, YearWindow(Num(lo), Num(hi)))
            && IsSelection(AlignYears(age, sector).1, sector, YearWindow(Num(lo), Num(hi)))
  {
    YearsOfNonEmpty(age);
    YearsOfNonEmpty(sector);
    var keep := YearWindow(MinYear(age, sector), MaxYear(age, sector));
    FilterSelects(keep, age);
    FilterSelects(keep, sector);
  }

  /** When the two year ranges do not overlap, both aligned tables are empty. */
  lemma AlignYearsDisjoint(age: seq<Row<int>>, sector: seq<Row<int>>)
    requires age != [] && sector != []
    requires Max(SeriesMin(Years(age)).value, SeriesMin(Years(sector)).value)
           > Min(SeriesMax(Years(age)).value, SeriesMax(Years(sector)).value)
    ensures AlignYears(age, sector) == ([], [])
  {
    YearsOfNonEmpty(age);
    YearsOfNonEmpty(sector);
    var keep := YearWindow(MinYear(age, sector), MaxYear(age, sector));
    FilterNone(keep, age);
    FilterNone(keep, sector);
  }

  /** An empty age table makes the lower bound NaN, which empties both tables. */
  lemma AlignYearsEmptyAge(sector: seq<Row<int>>)
    ensures AlignYears([], sector) == ([], [])
  {
    assert MinYear([], sector) == NaN;
    FilterNone(YearWindow(NaN, MaxYear([], sector)), sector);
  }

  /** An empty sector table leaves the age table whole: Python's `max` and
      `min` keep their first argument when the second is NaN. */
  lemma AlignYearsEmptySector(age: seq<Row<int>>)
    requires age != []
    ensures AlignYears(age, []) == (age, [])
  {
    YearsOfNonEmpty(age);
    var lo, hi := SeriesMin(Years(age)), SeriesMax(Years(age));
    assert MinYear(age, []) == lo && MaxYear(age, []) == hi;
    forall i | 0 <= i < |age|
      ensures YearWindow(lo, hi)(age[i])
    {
      assert Years(age)[i] == age[i].period && Years(age)[i] in Years(age);
    }
    FilterAll(YearWindow(lo, hi), age);
  }

  /** Alignment does not make the two tables cover the same years: ages
      {2008, 2012} and sectors {2010, 2013} give the window [2010, 2012],
      which leaves only 2012 of the ages and only 2010 of the sectors. */
  lemma AlignYearsKeepsUnequalBounds(a1: Row<int>, a2: Row<int>, s1: Row<int>, s2: Row<int>)
    requires a1.period == 2008 && a2.period == 2012
    requires s1.period == 2010 && s2.period == 2013
    ensures AlignYears([a1, a2], [s1, s2]) == ([a2], [s1])
  {
    PairBounds(a1, a2);
    PairBounds(s1, s2);
    assert MinYear([a1, a2], [s1, s2]) == Num(2010);
    assert MaxYear([a1, a2], [s1, s2]) == Num(2012);
    var keep := YearWindow(Num(2010), Num(2012));
    assert !keep(a1) && keep(a2) && keep(s1) && !keep(s2);
    FilterPair(keep, a1, a2);
    FilterPair(keep, s1, s2);
    assert AlignYears([a1, a2], [s1, s2]) == (Filter(keep, [a1, a2]), Filter(keep, [s1, s2]));
    assert Filter(keep, [a1, a2]) == [a2];
    assert Filter(keep, [s1, s2]) == [s1];
  }

  lemma PairBounds(x: Row<int>, y: Row<int>)
    requires x.period < y.period
    ensures SeriesMin(Years([x, y])) == Num(x.period)
    ensures SeriesMax(Years([x, y])) == Num(y.period)
  {
    assert Years([x, y]) == [x.period, y.period];
    assert [x.period, y.period][1..] == [y.period];
  }

  lemma FilterPair<T>(keep: T -> bool, x: T, y: T)
    ensures Filter(keep, [x, y]) == (if keep(x) then [x] else []) + (if keep(y) then [y] else [])
  {
    assert [x, y][..1] == [x];
    assert [x][..0] == [];
  }

  /** When the earliest and the latest shared year both occur in both tables,
      the aligned tables do share their earliest and latest year. */
  lemma AlignYearsSharedBounds(age: seq<Row<int>>, sector: seq<Row<int>>)
    requires age != [] && sector != []
    requires MinYear(age, sector).Num? && MaxYear(age, sector).Num?
    requires MinYear(age, sector).value in Years(age) && MinYear(age, sector).value in Years(sector)
    requires MaxYear(age, sector).value in Years(age) && MaxYear(age, sector).value in Years(sector)
    ensures var (a, s) := AlignYears(age, sector);
            && SeriesMin(Years(a)) == SeriesMin(Years(s)) == MinYear(age, sector)
            && SeriesMax(Years(a)) == SeriesMax(Years(s)) == MaxYear(age, sector)
  {
    var lo, hi := MinYear(age, sector), MaxYear(age, sector);
    YearsOfNonEmpty(age);
    YearsOfNonEmpty(sector);
    WindowBounds(age, lo.value, hi.value);
    WindowBounds(sector, lo.value, hi.value);
  }

  /** Filtering a table to [lo, hi] when both lo and hi occur in it gives a
      table whose earliest year is lo and whose latest year is hi. */
  lemma WindowBounds(t: seq<Row<int>>, lo: int, hi: int)
    requires lo in Years(t) && hi in Years(t) && lo <= hi
    ensures SeriesMin(Years(Filter(YearWindow(Num(lo), Num(hi)), t))) == Num(lo)
    ensures SeriesMax(Years(Filter(YearWindow(Num(lo), Num(hi)), t))) == Num(hi)
  {
    var keep := YearWindow(Num(lo), Num(hi));
    var w := Filter(keep, t);
    WindowKeeps(t, keep, lo, lo, hi);
    WindowKeeps(t, keep, hi, lo, hi);
    forall y | y in Years(w)
      ensures lo <= y <= hi
    {
      var k :| 0 <= k < |w| && Years(w)[k] == y;
      assert w[k] in w;
    }
    MinMaxOfBounded(Years(w), lo, hi);
  }

  /** A year of the table inside the window is a year of the filtered table. */
  lemma WindowKeeps(t: seq<Row<int>>, keep: Row<int> -> bool, y: int, lo: int, hi: int)
    requires keep == YearWindow(Num(lo), Num(hi))
    requires y in Years(t) && lo <= y <= hi
    ensures y in Years(Filter(keep, t))
  {
    var i :| 0 <= i < |t| && Years(t)[i] == y;
    FilterSelectsAt(keep, t);
    var idx := KeptIndices(keep, t);
    assert keep(t[i]);
    var a :| 0 <= a < |idx| && idx[a] == i;
    var w := Filter(keep, t);
    assert Years(w)[a] == y;
  }

  /** A column whose values lie in [lo, hi] and include both has minimum lo and maximum hi. */
  lemma MinMaxOfBounded(column: seq<int>, lo: int, hi: int)
    requires lo in column && hi in column
    requires forall y :: y in column ==> lo <= y <= hi
    ensures SeriesMin(column) == Num(lo) && SeriesMax(column) == Num(hi)
  {
  }
}
