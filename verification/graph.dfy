/** `get_graphs`: the number of articles per year for the CAIRN and the
    Le Monde corpus. Each bar chart is modelled by the distribution it
    draws. */
module Graph {
  import opened Options
  import opened Seqs
  import opened Tables
  import opened Sorting

  /** A CAIRN `annee` cell as the database returns it. */
  datatype YearCell = Number(value: real) | Text(text: string) | Missing

  /** `pd.to_numeric` on a text cell: `None` where it fails to parse. */
  type NumericParser = string -> Option<real>

  /** `pd.to_datetime(..., utc=True)` on a date cell followed by `.dt.year`:
      `None` where it fails to parse. */
  type YearParser = string -> Option<int>

  /** The threshold below which a CAIRN year is considered invalid. */
  const MinYear: int := 1000

  /** `astype(int)` on a float: truncation toward zero. */
  function Truncate(x: real): (n: int)
    ensures x >= 0.0 ==> n as real <= x < n as real + 1.0
    ensures x < 0.0 ==> n as real - 1.0 < x <= n as real
  {
    if x >= 0.0 then x.Floor else -((-x).Floor)
  }

  /** Truncating a whole number gives it back. */
  lemma TruncateWhole(n: int)
    ensures Truncate(n as real) == n
  {
  }

  /** `to_numeric(errors='coerce').fillna(0).astype(int)` on one cell. */
  function CoerceYear(cell: YearCell, numeric: NumericParser): (y: int)
    ensures cell.Missing? ==> y == 0
    ensures cell.Number? ==> y == Truncate(cell.value)
    ensures cell.Text? && numeric(cell.text).None? ==> y == 0
    ensures cell.Text? && numeric(cell.text).Some? ==> y == Truncate(numeric(cell.text).value)
  {
    match cell
    case Number(x) => Truncate(x)
    case Text(s) => if numeric(s).Some? then Truncate(numeric(s).value) else 0
    case Missing => 0
  }

  /** Every cell's coerced year, in row order. */
  function Coerced(cells: seq<YearCell>, numeric: NumericParser): (ys: seq<int>)
    ensures |ys| == |cells|
    ensures forall i :: 0 <= i < |ys| ==> ys[i] == CoerceYear(cells[i], numeric)
  {
    seq(|cells|, i requires 0 <= i < |cells| => CoerceYear(cells[i], numeric))
  }

  /** The CAIRN years that pass the `annee > 1000` filter, in row order. */
  function CairnYears(cells: seq<YearCell>, numeric: NumericParser): (ys: seq<int>)
    ensures |ys| <= |cells|
    ensures forall i :: 0 <= i < |ys| ==> ys[i] > MinYear
  {
    if cells == [] then []
    else
      var p := CairnYears(cells[..|cells| - 1], numeric);
      var y := CoerceYear(cells[|cells| - 1], numeric);
      if y > MinYear then p + [y] else p
  }

  /** A year survives as often as it is coerced from a cell when it is above
      the threshold, and never otherwise. */
  lemma CairnYearsCounts(cells: seq<YearCell>, numeric: NumericParser, y: int)
    ensures y > MinYear ==> multiset(CairnYears(cells, numeric))[y] == multiset(Coerced(cells, numeric))[y]
    ensures y <= MinYear ==> multiset(CairnYears(cells, numeric))[y] == 0
  {
    if y > MinYear {
      CairnYearsKept(cells, numeric, y);
    } else {
      assert y !in CairnYears(cells, numeric);
    }
  }

  /** The counting half of the above, by induction on the rows. */
  lemma {:induction false} CairnYearsKept(cells: seq<YearCell>, numeric: NumericParser, y: int)
    requires y > MinYear
    ensures multiset(CairnYears(cells, numeric))[y] == multiset(Coerced(cells, numeric))[y]
  {
    if cells != [] {
      var p := cells[..|cells| - 1];
      var last := CoerceYear(cells[|cells| - 1], numeric);
      CairnYearsKept(p, numeric, y);
      assert Coerced(cells, numeric) == Coerced(p, numeric) + [last];
      if last > MinYear {
        assert CairnYears(cells, numeric) == CairnYears(p, numeric) + [last];
      } else {
        assert CairnYears(cells, numeric) == CairnYears(p, numeric);
      }
    }
  }

  /** `pd.to_datetime(...)`, `dropna` and `.dt.year` on the Le Monde dates:
      the years of the dates that parse, in row order. A null date is
      dropped. */
  function LeMondeYears(dates: seq<Option<string>>, yearOf: YearParser): (ys: seq<int>)
    ensures |ys| <= |dates|
  {
    if dates == [] then []
    else
      var p := LeMondeYears(dates[..|dates| - 1], yearOf);
      var d := dates[|dates| - 1];
      if d.Some? && yearOf(d.value).Some? then p + [yearOf(d.value).value] else p
  }

  /** Every kept year is the year of some date that parses. */
  lemma {:induction false} LeMondeYearsSound(dates: seq<Option<string>>, yearOf: YearParser)
    ensures forall i :: 0 <= i < |LeMondeYears(dates, yearOf)| ==>
      exists j :: 0 <= j < |dates| && dates[j].Some? && yearOf(dates[j].value) == Some(LeMondeYears(dates, yearOf)[i])
  {
    if dates != [] {
      var p := dates[..|dates| - 1];
      var ys, py := LeMondeYears(dates, yearOf), LeMondeYears(p, yearOf);
      LeMondeYearsSound(p, yearOf);
      var d := dates[|dates| - 1];
      assert ys == (if d.Some? && yearOf(d.value).Some? then py + [yearOf(d.value).value] else py);
      forall i | 0 <= i < |ys|
        ensures exists j :: 0 <= j < |dates| && dates[j].Some? && yearOf(dates[j].value) == Some(ys[i])
      {
        if i < |py| {
          assert ys[i] == py[i];
          var j :| 0 <= j < |p| && p[j].Some? && yearOf(p[j].value) == Some(py[i]);
          assert dates[j] == p[j];
        } else {
          assert d.Some? && yearOf(d.value) == Some(ys[i]);
        }
      }
    } else {
      assert LeMondeYears(dates, yearOf) == [];
    }
  }

  /** The year parsed from each date, `None` for a null or unparseable one. */
  function ParsedYears(dates: seq<Option<string>>, yearOf: YearParser): (ys: seq<Option<int>>)
    ensures |ys| == |dates|
    ensures forall i :: 0 <= i < |ys| ==> (ys[i].Some? <==> dates[i].Some? && yearOf(dates[i].value).Some?)
    ensures forall i :: 0 <= i < |ys| && ys[i].Some? ==> ys[i].value == yearOf(dates[i].value).value
  {
    seq(|dates|, i requires 0 <= i < |dates| =>
      if dates[i].Some? then yearOf(dates[i].value) else None)
  }

  /** Every year is kept as often as a date parses to it, whatever the year:
      Le Monde applies no threshold. */
  lemma {:induction false} LeMondeYearsCounts(dates: seq<Option<string>>, yearOf: YearParser, y: int)
    ensures multiset(LeMondeYears(dates, yearOf))[y] == multiset(ParsedYears(dates, yearOf))[Some(y)]
  {
    if dates != [] {
      var p := dates[..|dates| - 1];
      LeMondeYearsCounts(p, yearOf, y);
      assert ParsedYears(dates, yearOf) == ParsedYears(p, yearOf) + [ParsedYears(dates, yearOf)[|dates| - 1]];
    }
  }

  /** `value_counts().sort_index()`: each year that occurs with the number of
      times it occurs, by ascending year. */
  function CountByYear(ys: seq<int>): (dist: Table<int, nat>)
    ensures StrictlyIncreasing(Keys(dist))
    ensures forall i :: 0 <= i < |dist| ==> dist[i].1 == multiset(ys)[dist[i].0] && dist[i].1 >= 1
    ensures forall i :: 0 <= i < |ys| ==> ys[i] in Keys(dist)
    ensures forall i :: 0 <= i < |dist| ==> dist[i].0 in ys
  {
    var years := SortedSet(ys);
    var dist := seq(|years|, i requires 0 <= i < |years| => (years[i], multiset(ys)[years[i]]));
    assert Keys(dist) == years;
    forall i | 0 <= i < |years|
      ensures years[i] in multiset(ys)
    {
      assert years[i] in years;
    }
    dist
  }

  /** The bars add up to the number of years counted. */
  lemma CountByYearTotal(ys: seq<int>)
    ensures ValueSum(CountByYear(ys)) == |ys|
  {
    var dist := CountByYear(ys);
    assert Distinct(Keys(dist)) by {
      StrictlyIncreasingDistinct(Keys(dist));
    }
    CountsConserved(dist, ys);
  }

  /** A strictly increasing sequence has no repetition. */
  lemma StrictlyIncreasingDistinct(s: seq<int>)
    requires StrictlyIncreasing(s)
    ensures Distinct(s)
  {
  }

  /** `get_graphs(df_cairn_light, df_mon_light)`, returning the Le Monde chart
      first. An empty frame gives `""` (`None`); a non-empty one gives a chart,
      empty when every row was filtered out. */
  function GetGraphs(cairn: seq<YearCell>, leMonde: seq<Option<string>>,
                     numeric: NumericParser, yearOf: YearParser): (r: (Option<Table<int, nat>>, Option<Table<int, nat>>))
    ensures r.0.None? <==> leMonde == []
    ensures r.1.None? <==> cairn == []
    ensures r.1.Some? ==> forall i :: 0 <= i < |r.1.value| ==> r.1.value[i].0 > MinYear
    ensures r.0.Some? ==> r.0.value == CountByYear(LeMondeYears(leMonde, yearOf))
    ensures r.1.Some? ==> r.1.value == CountByYear(CairnYears(cairn, numeric))
  {
    var mon := if leMonde == [] then None else Some(CountByYear(LeMondeYears(leMonde, yearOf)));
    var cai := if cairn == [] then None else Some(CountByYear(CairnYears(cairn, numeric)));
    (mon, cai)
  }

  /** The CAIRN bars count, year by year, the cells whose coerced year is
      that year, and together they count every cell above the threshold. */
  lemma CairnChartMeaning(cairn: seq<YearCell>, leMonde: seq<Option<string>>,
                          numeric: NumericParser, yearOf: YearParser, i: nat)
    requires cairn != []
    ensures var dist := GetGraphs(cairn, leMonde, numeric, yearOf).1.value;
      && ValueSum(dist) == |CairnYears(cairn, numeric)|
      && (i < |dist| ==> dist[i].1 == multiset(Coerced(cairn, numeric))[dist[i].0])
  {
    var ys := CairnYears(cairn, numeric);
    CountByYearTotal(ys);
    var dist := CountByYear(ys);
    if i < |dist| {
      CairnYearsCounts(cairn, numeric, dist[i].0);
    }
  }

  /** The Le Monde bars count, year by year, the dates that parse to that
      year, and together they count every parsed date. */
  lemma LeMondeChartMeaning(cairn: seq<YearCell>, leMonde: seq<Option<string>>,
                            numeric: NumericParser, yearOf: YearParser, i: nat)
    requires leMonde != []
    ensures var dist := GetGraphs(cairn, leMonde, numeric, yearOf).0.value;
      && ValueSum(dist) == |LeMondeYears(leMonde, yearOf)|
      && (i < |dist| ==> dist[i].1 == multiset(ParsedYears(leMonde, yearOf))[Some(dist[i].0)])
  {
    var ys := LeMondeYears(leMonde, yearOf);
    CountByYearTotal(ys);
    var dist := CountByYear(ys);
    if i < |dist| {
      LeMondeYearsCounts(leMonde, yearOf, dist[i].0);
    }
  }
}
