/**
  The year-by-year comparison chart (app2.js): rows of (Year, Field, Count)
  are pivoted into a `year -> label -> summed count` table, gender codes
  being spelled out, and the table becomes one trace per label with one
  value per year, 0 where the year lacks the label.
*/
module YearComparison {
  import opened Wrappers
  import opened Tallies
  import opened Sequences

  /** One row of the grouping query; `field` is None for a NULL `Field` column. */
  datatype ComparisonRow = ComparisonRow(year: string, field: Option<string>, count: int)

  /** The comparison field whose codes are relabelled. */
  const Gender: string := "GENDER"

  /** `genderLabels[code] || code`. */
  function GenderLabel(code: string): (r: string)
    ensures code == "M" ==> r == "Male"
    ensures code == "F" ==> r == "Female"
    ensures code == "U" ==> r == "Unknown"
    ensures code != "M" && code != "F" && code != "U" ==> r == code
  {
    match code
    case "M" => "Male"
    case "F" => "Female"
    case "U" => "Unknown"
    case _ => code
  }

  /**
    Lines 105-112: the label a row is counted under. A falsy `Field` (NULL or
    empty) is replaced by the `field` argument, which the gender table leaves
    as it is; for the gender comparison a code is spelled out.
  */
  function Label(row: ComparisonRow, field: string): (l: string)
    ensures (row.field.None? || row.field.value == "") ==> l == field
    ensures row.field.Some? && row.field.value != "" ==>
      l == if field == Gender then GenderLabel(row.field.value) else row.field.value
  {
    var value := if row.field.Some? && row.field.value != "" then row.field.value else field;
    if field == Gender then GenderLabel(value) else value
  }

  /** The nested `transformedData` object: year to label to summed count. */
  type Table = map<string, map<string, int>>

  /** `if (!t[y]) t[y] = {}; if (!t[y][l]) t[y][l] = 0; t[y][l] += count;` */
  function AddCell(t: Table, year: string, name: string, count: int): Table {
    t[year := AddTo(if year in t then t[year] else map[], name, count)]
  }

  /**
    Adding to a cell creates the year and the cell when they are missing, adds
    `count` to the cell, and leaves every other year and every other cell as it was.
  */
  lemma AddCellChanges(t: Table, year: string, name: string, count: int)
    ensures var r := AddCell(t, year, name, count);
      && r.Keys == t.Keys + {year}
      && (forall y | y in t && y != year :: r[y] == t[y])
      && r[year].Keys == (if year in t then t[year].Keys else {}) + {name}
      && r[year][name] == (if year in t && name in t[year] then t[year][name] else 0) + count
      && (forall l | year in t && l in t[year] && l != name :: r[year][l] == t[year][l])
  {
  }

  /** Lines 114-122: the statements that add `count` to the cell (`year`, `name`) of `t`. */
  method AccumulateCell(t: Table, year: string, name: string, count: int) returns (r: Table)
    ensures r == AddCell(t, year, name, count)
  {
    r := t;
    ghost var inner := if year in t then t[year] else map[];
    if year !in r {
      r := r[year := map[]];
    }
    assert r == t[year := inner];
    ghost var start := if name in inner then inner[name] else 0;
    if name !in r[year] || r[year][name] == 0 {
      r := r[year := r[year][name := 0]];
      assert r[year] == inner[name := start];
    } else {
      assert r[year] == inner[name := start];
    }
    r := r[year := r[year][name := r[year][name] + count]];
    assert r[year] == inner[name := start + count];
  }

  /** Lines 101-125: the table after the rows have been processed in order. */
  function Pivot(data: seq<ComparisonRow>, field: string): (t: Table)
    ensures forall y | y in t :: t[y] != map[]
    decreases |data|
  {
    if data == [] then map[]
    else
      var row := data[|data| - 1];
      AddCell(Pivot(data[..|data| - 1], field), row.year, Label(row, field), row.count)
  }

  /** Some row has year `year`. */
  ghost predicate HasYear(data: seq<ComparisonRow>, year: string) {
    exists i | 0 <= i < |data| :: data[i].year == year
  }

  /** Some row has year `year` and is counted under `name`. */
  ghost predicate HasCell(data: seq<ComparisonRow>, field: string, year: string, name: string) {
    exists i | 0 <= i < |data| :: data[i].year == year && Label(data[i], field) == name
  }

  /** The sum of `Count` over the rows with year `year` counted under `name`. */
  function CellSum(data: seq<ComparisonRow>, field: string, year: string, name: string): int
    decreases |data|
  {
    if data == [] then 0
    else
      var row := data[|data| - 1];
      CellSum(data[..|data| - 1], field, year, name)
        + (if row.year == year && Label(row, field) == name then row.count else 0)
  }

  /** The sum of `Count` over all rows. */
  function SumCounts(data: seq<ComparisonRow>): int
    decreases |data|
  {
    if data == [] then 0 else SumCounts(data[..|data| - 1]) + data[|data| - 1].count
  }

  /** The sum of the cells of each year. */
  ghost function YearSums(t: Table): map<string, int> {
    map y | y in t :: SumMap(t[y])
  }

  /** The sum of every cell of the table. */
  ghost function GrandTotal(t: Table): int {
    SumMap(YearSums(t))
  }

  /**
    The table has a year exactly when some row has it, a label under a year
    exactly when some row of that year is counted under it, and each cell holds
    the sum of the counts of its rows.
  */
  lemma {:induction false} PivotCells(data: seq<ComparisonRow>, field: string)
    ensures forall y :: y in Pivot(data, field) <==> HasYear(data, y)
    ensures forall y, l | y in Pivot(data, field) :: l in Pivot(data, field)[y] <==> HasCell(data, field, y, l)
    ensures forall y, l | y in Pivot(data, field) && l in Pivot(data, field)[y] ::
      Pivot(data, field)[y][l] == CellSum(data, field, y, l)
  {
    forall y
      ensures y in Pivot(data, field) <==> HasYear(data, y)
    {
      PivotCell(data, field, y, "");
    }
    forall y, l
      ensures y in Pivot(data, field) ==> (l in Pivot(data, field)[y] <==> HasCell(data, field, y, l))
      ensures y in Pivot(data, field) && l in Pivot(data, field)[y] ==> Pivot(data, field)[y][l] == CellSum(data, field, y, l)
    {
      PivotCell(data, field, y, l);
    }
  }

  /** One cell of the table, by induction on the rows. */
  lemma {:induction false} PivotCell(data: seq<ComparisonRow>, field: string, y: string, l: string)
    ensures y in Pivot(data, field) <==> HasYear(data, y)
    ensures y in Pivot(data, field) ==> (l in Pivot(data, field)[y] <==> HasCell(data, field, y, l))
    ensures (if y in Pivot(data, field) && l in Pivot(data, field)[y] then Pivot(data, field)[y][l] else 0)
      == CellSum(data, field, y, l)
    decreases |data|
  {
    if data != [] {
      var p, row := data[..|data| - 1], data[|data| - 1];
      assert data == p + [row];
      PivotCell(p, field, y, l);
      HasYearSnoc(p, row, y);
      HasCellSnoc(p, row, field, y, l);
    }
  }

  /** A year occurs in `p + [row]` when it occurs in `p` or is the year of `row`. */
  lemma HasYearSnoc(p: seq<ComparisonRow>, row: ComparisonRow, y: string)
    ensures HasYear(p + [row], y) <==> HasYear(p, y) || row.year == y
  {
    var data := p + [row];
    if HasYear(data, y) && row.year != y {
      var i :| 0 <= i < |data| && data[i].year == y;
      assert p[i] == data[i];
    }
    if HasYear(p, y) {
      var i :| 0 <= i < |p| && p[i].year == y;
      assert data[i] == p[i];
    }
    if row.year == y {
      assert data[|p|] == row;
    }
  }

  /** A cell occurs in `p + [row]` when it occurs in `p` or is the cell of `row`. */
  lemma HasCellSnoc(p: seq<ComparisonRow>, row: ComparisonRow, field: string, y: string, l: string)
    ensures HasCell(p + [row], field, y, l) <==> HasCell(p, field, y, l) || (row.year == y && Label(row, field) == l)
    ensures HasCell(p, field, y, l) ==> HasYear(p, y)
  {
    var data := p + [row];
    if HasCell(data, field, y, l) && !(row.year == y && Label(row, field) == l) {
      var i :| 0 <= i < |data| && data[i].year == y && Label(data[i], field) == l;
      assert p[i] == data[i];
    }
    if HasCell(p, field, y, l) {
      var i :| 0 <= i < |p| && p[i].year == y && Label(p[i], field) == l;
      assert data[i] == p[i];
    }
    if row.year == y && Label(row, field) == l {
      assert data[|p|] == row;
    }
  }

  /** A label that no row of the year is counted under sums to 0. */
  lemma {:induction false} CellSumOfAbsent(data: seq<ComparisonRow>, field: string, year: string, name: string)
    requires !HasCell(data, field, year, name)
    ensures CellSum(data, field, year, name) == 0
    decreases |data|
  {
    if data != [] {
      var p := data[..|data| - 1];
      assert !HasCell(p, field, year, name) by {
        forall i | 0 <= i < |p| ensures !(p[i].year == year && Label(p[i], field) == name) {
          assert p[i] == data[i];
        }
      }
      CellSumOfAbsent(p, field, year, name);
    }
  }

  /** Adding to one cell adds to the sum of that year and to no other. */
  lemma YearSumsAddCell(t: Table, year: string, name: string, count: int)
    ensures YearSums(AddCell(t, year, name, count)) == AddTo(YearSums(t), year, count)
  {
    var t' := AddCell(t, year, name, count);
    var sums := AddTo(YearSums(t), year, count);
    assert YearSums(t').Keys == sums.Keys;
    forall y | y in t'
      ensures YearSums(t')[y] == sums[y]
    {
      YearSumAddCell(t, year, name, count, y);
    }
  }

  /** The sum of one year after adding to one cell. */
  lemma YearSumAddCell(t: Table, year: string, name: string, count: int, y: string)
    requires y in AddCell(t, year, name, count)
    ensures SumMap(AddCell(t, year, name, count)[y]) == AddTo(YearSums(t), year, count)[y]
  {
    if y == year {
      SumMapAddTo(if year in t then t[year] else map[], name, count);
    }
  }

  /** Adding to one cell adds to the grand total. */
  lemma GrandTotalAddCell(t: Table, year: string, name: string, count: int)
    ensures GrandTotal(AddCell(t, year, name, count)) == GrandTotal(t) + count
  {
    YearSumsAddCell(t, year, name, count);
    SumMapAddTo(YearSums(t), year, count);
  }

  /** Together the cells hold the counts of all rows. */
  lemma {:induction false} PivotTotal(data: seq<ComparisonRow>, field: string)
    ensures GrandTotal(Pivot(data, field)) == SumCounts(data)
    decreases |data|
  {
    if data == [] {
      assert YearSums(map[]) == map[];
    } else {
      var p, row := data[..|data| - 1], data[|data| - 1];
      PivotTotal(p, field);
      GrandTotalAddCell(Pivot(p, field), row.year, Label(row, field), row.count);
    }
  }

  /** Lines 100-126: `transformData`, the `forEach` loop that fills the nested table. */
  method TransformData(data: seq<ComparisonRow>, field: string) returns (t: Table)
    ensures t == Pivot(data, field)
    ensures forall y :: y in t <==> HasYear(data, y)
    ensures forall y, l | y in t :: l in t[y] <==> HasCell(data, field, y, l)
    ensures forall y, l | y in t && l in t[y] :: t[y][l] == CellSum(data, field, y, l)
    ensures GrandTotal(t) == SumCounts(data)
  {
    t := map[];
    for i := 0 to |data|
      invariant t == Pivot(data[..i], field)
    {
      assert data[..i + 1][..i] == data[..i];
      var item := data[i];
      var year := item.year;
      var value := Label(item, field);
      t := AccumulateCell(t, year, value, item.count);
    }
    assert data[..|data|] == data;
    PivotCells(data, field);
    PivotTotal(data, field);
  }

  /** One trace of the chart: the years, a value per year, the label, and the Plotly trace options. */
  datatype Trace = Trace(x: seq<string>, y: seq<int>, name: string, kind: string, stackgroup: Option<string>)

  /**
    Line 134: every label that occurs under some year, once each, in the order
    `years.flatMap(year => Object.keys(t[year]))` meets them; `keysOf[y]` is
    the enumeration `Object.keys(t[y])` yields.
  */
  function UniqueLabels(t: Table, years: seq<string>, keysOf: map<string, seq<string>>): (labels: seq<string>)
    requires forall y | y in years :: y in t && y in keysOf && Enumerates(keysOf[y], t[y].Keys)
    ensures NoDup(labels)
    ensures forall l :: l in labels <==> exists y | y in years :: l in t[y]
  {
    var perYear := seq(|years|, i requires 0 <= i < |years| => keysOf[years[i]]);
    var flat := Concat(perYear);
    forall l
      ensures l in flat <==> exists y | y in years :: l in t[y]
    {
      if l in flat {
        var i :| 0 <= i < |perYear| && l in perYear[i];
        assert years[i] in years && l in keysOf[years[i]];
        assert Enumerates(keysOf[years[i]], t[years[i]].Keys);
        assert l in t[years[i]].Keys;
      }
      if exists y | y in years :: l in t[y] {
        var y :| y in years && l in t[y];
        var i :| 0 <= i < |years| && years[i] == y;
        assert Enumerates(keysOf[y], t[y].Keys);
        assert l in t[y].Keys;
        assert l in perYear[i];
      }
    }
    Distinct(flat)
  }

  /** `transformedData[year][label] || 0`. */
  function CellOrZero(t: Table, year: string, name: string): (c: int)
    requires year in t
    ensures name in t[year] ==> c == t[year][name]
    ensures name !in t[year] ==> c == 0
  {
    if name in t[year] then t[year][name] else 0
  }

  /**
    Lines 133-144: one trace per label, its `x` the years and its `y` the cell
    of each year, 0 where the year lacks the label.
  */
  function ComparisonTraces(t: Table, years: seq<string>, keysOf: map<string, seq<string>>, chartType: string): (traces: seq<Trace>)
    requires Enumerates(years, t.Keys)
    requires forall y | y in years :: y in keysOf && Enumerates(keysOf[y], t[y].Keys)
    ensures |traces| == |UniqueLabels(t, years, keysOf)|
    ensures forall k | 0 <= k < |traces| ::
      && traces[k].name == UniqueLabels(t, years, keysOf)[k]
      && traces[k].x == years
      && |traces[k].y| == |years|
      && (forall j | 0 <= j < |years| ::
            traces[k].y[j] == if traces[k].name in t[years[j]] then t[years[j]][traces[k].name] else 0)
      && traces[k].kind == (if chartType == "line" then "scatter" else "bar")
      && traces[k].stackgroup == (if chartType == "stackedBar" then Some("one") else None)
  {
    var labels := UniqueLabels(t, years, keysOf);
    seq(|labels|, k requires 0 <= k < |labels| =>
      Trace(
        years,
        seq(|years|, j requires 0 <= j < |years| => CellOrZero(t, years[j], labels[k])),
        labels[k],
        if chartType == "line" then "scatter" else "bar",
        if chartType == "stackedBar" then Some("one") else None))
  }

  /** The names of the traces, in order. */
  function TraceNames(traces: seq<Trace>): (r: seq<string>)
    ensures |r| == |traces| && forall k | 0 <= k < |traces| :: r[k] == traces[k].name
  {
    seq(|traces|, k requires 0 <= k < |traces| => traces[k].name)
  }

  /** The chart has one trace for each label some row is counted under, and no other. */
  lemma TracesCoverLabels(data: seq<ComparisonRow>, field: string, years: seq<string>,
                          keysOf: map<string, seq<string>>, chartType: string)
    requires Enumerates(years, Pivot(data, field).Keys)
    requires forall y | y in years :: y in keysOf && Enumerates(keysOf[y], Pivot(data, field)[y].Keys)
    ensures var names := TraceNames(ComparisonTraces(Pivot(data, field), years, keysOf, chartType));
      && NoDup(names)
      && forall l :: l in names <==> exists y :: HasCell(data, field, y, l)
  {
    var t := Pivot(data, field);
    var names := TraceNames(ComparisonTraces(t, years, keysOf, chartType));
    assert names == UniqueLabels(t, years, keysOf);
    PivotCells(data, field);
    forall l
      ensures l in names <==> exists y :: HasCell(data, field, y, l)
    {
      if exists y :: HasCell(data, field, y, l) {
        var y :| HasCell(data, field, y, l);
        assert HasYear(data, y);
        assert y in years && l in t[y];
      }
    }
  }

  /** Each value of a trace is the sum of the counts of the rows of that year and label, 0 when there are none. */
  lemma TraceValuesAreSums(data: seq<ComparisonRow>, field: string, years: seq<string>,
                           keysOf: map<string, seq<string>>, chartType: string)
    requires Enumerates(years, Pivot(data, field).Keys)
    requires forall y | y in years :: y in keysOf && Enumerates(keysOf[y], Pivot(data, field)[y].Keys)
    ensures var traces := ComparisonTraces(Pivot(data, field), years, keysOf, chartType);
      forall k, j | 0 <= k < |traces| && 0 <= j < |years| ::
        traces[k].y[j] == CellSum(data, field, years[j], traces[k].name)
  {
    var t := Pivot(data, field);
    var traces := ComparisonTraces(t, years, keysOf, chartType);
    PivotCells(data, field);
    forall k, j | 0 <= k < |traces| && 0 <= j < |years|
      ensures traces[k].y[j] == CellSum(data, field, years[j], traces[k].name)
    {
      if traces[k].name !in t[years[j]] {
        CellSumOfAbsent(data, field, years[j], traces[k].name);
      }
    }
  }
}
