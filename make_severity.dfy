/**
  The two charts of app4.js. The fatal-accident probability per vehicle make
  and year divides, for each (year, make) cell, the fatal-crash count by the
  total-crash count of the first matching query rows, with a zero guard. The
  crashes-per-severity chart pivots (year, severity, count) rows into one bar
  trace per severity level, with 0 for a missing cell, and names and colours
  each trace through two code tables.
*/
module MakeSeverity {
  import opened Wrappers
  import opened Sequences

  /** One row of a grouped query result: `[Year, key, count]`, the key a make or a severity code. */
  datatype KeyedRow<K> = KeyedRow(year: string, key: K, count: int)

  /** `r[0] === year && r[1] === key` */
  predicate Matches<K(==)>(row: KeyedRow<K>, year: string, key: K) {
    row.year == year && row.key == key
  }

  /** `rows.find(r => r[0] === year && r[1] === key)`: scans from the front. */
  function Find<K(==)>(rows: seq<KeyedRow<K>>, year: string, key: K): (found: Option<KeyedRow<K>>)
    ensures found.None? <==> Absent(rows, year, key)
    ensures found.Some? ==> found.value in rows && Matches(found.value, year, key)
    decreases |rows|
  {
    if rows == [] then None
    else if Matches(rows[0], year, key) then Some(rows[0])
    else
      assert forall i | 1 <= i < |rows| :: rows[i] == rows[1..][i - 1];
      Find(rows[1..], year, key)
  }

  /** The row `find` returns is the first matching one. */
  lemma {:induction false} FindIsFirst<K>(rows: seq<KeyedRow<K>>, year: string, key: K, i: int)
    requires 0 <= i < |rows| && Matches(rows[i], year, key)
    requires forall j | 0 <= j < i :: !Matches(rows[j], year, key)
    ensures Find(rows, year, key) == Some(rows[i])
    decreases i
  {
    if i > 0 {
      assert rows[1..][i - 1] == rows[i];
      FindIsFirst(rows[1..], year, key, i - 1);
    }
  }

  /** No two rows share a (year, key) pair, as a `GROUP BY Year, key` result guarantees. */
  predicate UniqueKeys<K(==)>(rows: seq<KeyedRow<K>>) {
    forall i, j | 0 <= i < j < |rows| :: !Matches(rows[j], rows[i].year, rows[i].key)
  }

  /** No row has the pair (`year`, `key`). */
  predicate Absent<K(==)>(rows: seq<KeyedRow<K>>, year: string, key: K) {
    forall i | 0 <= i < |rows| :: !Matches(rows[i], year, key)
  }

  /** `row ? row[2] : 0`: the count of the first matching row, or 0 when there is none. */
  function Cell<K(==)>(rows: seq<KeyedRow<K>>, year: string, key: K): (c: int)
    ensures Absent(rows, year, key) ==> c == 0
  {
    match Find(rows, year, key)
    case Some(row) => row.count
    case None => 0
  }

  /** A pair that some row has reads as the count of the first row with that pair. */
  lemma CellIsFirstMatch<K>(rows: seq<KeyedRow<K>>, year: string, key: K, i: int)
    requires 0 <= i < |rows| && Matches(rows[i], year, key)
    requires forall j | 0 <= j < i :: !Matches(rows[j], year, key)
    ensures Cell(rows, year, key) == rows[i].count
  {
    FindIsFirst(rows, year, key, i);
  }

  /** With unique (year, key) pairs, a cell holds the count of the one row that has its pair. */
  lemma CellOfUniqueRow<K>(rows: seq<KeyedRow<K>>, k: int)
    requires UniqueKeys(rows) && 0 <= k < |rows|
    ensures Cell(rows, rows[k].year, rows[k].key) == rows[k].count
  {
    forall j | 0 <= j < k
      ensures !Matches(rows[j], rows[k].year, rows[k].key)
    {
      assert !Matches(rows[k], rows[j].year, rows[j].key);
    }
    CellIsFirstMatch(rows, rows[k].year, rows[k].key, k);
  }

  /** `rows.map(row => row[0])` */
  function YearColumn<K>(rows: seq<KeyedRow<K>>): (ys: seq<string>)
    ensures |ys| == |rows| && forall i | 0 <= i < |rows| :: ys[i] == rows[i].year
  {
    seq(|rows|, i requires 0 <= i < |rows| => rows[i].year)
  }

  /** `rows.map(row => row[1])` */
  function KeyColumn<K>(rows: seq<KeyedRow<K>>): (ks: seq<K>)
    ensures |ks| == |rows| && forall i | 0 <= i < |rows| :: ks[i] == rows[i].key
  {
    seq(|rows|, i requires 0 <= i < |rows| => rows[i].key)
  }

  /** `[...new Set(rows.map(row => row[0]))]`: the years of the rows, once each, in order of first appearance. */
  function Years<K>(rows: seq<KeyedRow<K>>): (years: seq<string>)
    ensures NoDup(years)
    ensures forall y :: y in years <==> y in YearColumn(rows)
  {
    Distinct(YearColumn(rows))
  }

  /** The years are listed in the order in which they first appear in the rows. */
  lemma YearsInOrder<K>(rows: seq<KeyedRow<K>>, i: int, j: int)
    requires 0 <= i < j < |Years(rows)|
    ensures FirstIndex(YearColumn(rows), Years(rows)[i]) < FirstIndex(YearColumn(rows), Years(rows)[j])
  {
    DistinctInFirstAppearanceOrder(YearColumn(rows), i, j);
  }

  /**
    Line 85: `totalCrashes > 0 ? fatalCrashes / totalCrashes : 0`, the share
    of fatal crashes, as an exact quotient.
  */
  function FatalProbability(totalCrashes: int, fatalCrashes: int): (p: real)
    ensures totalCrashes <= 0 ==> p == 0.0
    ensures totalCrashes > 0 ==> p * totalCrashes as real == fatalCrashes as real
  {
    if totalCrashes > 0 then fatalCrashes as real / totalCrashes as real else 0.0
  }

  /** A share of fatal crashes that are among the crashes is a probability. */
  lemma FatalProbabilityBounds(totalCrashes: int, fatalCrashes: int)
    requires 0 <= fatalCrashes <= totalCrashes
    ensures 0.0 <= FatalProbability(totalCrashes, fatalCrashes) <= 1.0
  {
  }

  /** One bar trace of the probability chart: `{ x: years, y: values, type: 'bar', name: make }`. */
  datatype ProbabilityTrace = ProbabilityTrace(x: seq<string>, y: seq<real>, name: string)

  /**
    Lines 79-92: the trace of one make: over `years`, the fatal count over the
    total count of the first matching rows, 0 when the total is missing or not positive.
  */
  function MakeTrace(years: seq<string>, make: string, totalRows: seq<KeyedRow<string>>, fatalRows: seq<KeyedRow<string>>)
    : (trace: ProbabilityTrace)
    ensures trace.name == make && trace.x == years && |trace.y| == |years|
    ensures forall j | 0 <= j < |years| && Cell(totalRows, years[j], make) <= 0 :: trace.y[j] == 0.0
    ensures forall j | 0 <= j < |years| && Cell(totalRows, years[j], make) > 0 ::
      trace.y[j] * Cell(totalRows, years[j], make) as real == Cell(fatalRows, years[j], make) as real
  {
    var values := seq(|years|, j requires 0 <= j < |years| =>
      FatalProbability(Cell(totalRows, years[j], make), Cell(fatalRows, years[j], make)));
    ProbabilityTrace(years, values, make)
  }

  /** Lines 77-95: one trace per make of `topMakes`, in that order, over the years of the total-crash rows. */
  function PrepareData(topMakes: seq<string>, totalRows: seq<KeyedRow<string>>, fatalRows: seq<KeyedRow<string>>)
    : (data: seq<ProbabilityTrace>)
    ensures |data| == |topMakes|
    ensures forall i | 0 <= i < |data| :: data[i] == MakeTrace(Years(totalRows), topMakes[i], totalRows, fatalRows)
  {
    var years := Years(totalRows);
    seq(|topMakes|, i requires 0 <= i < |topMakes| => MakeTrace(years, topMakes[i], totalRows, fatalRows))
  }

  /**
    When no cell has more fatal crashes than crashes, every value of the
    probability chart lies between 0 and 1.
  */
  lemma PrepareDataProbabilities(topMakes: seq<string>, totalRows: seq<KeyedRow<string>>, fatalRows: seq<KeyedRow<string>>)
    requires forall year, make :: 0 <= Cell(fatalRows, year, make) <= Cell(totalRows, year, make)
    ensures forall i, j | 0 <= i < |topMakes| && 0 <= j < |Years(totalRows)| ::
      0.0 <= PrepareData(topMakes, totalRows, fatalRows)[i].y[j] <= 1.0
  {
    forall i, j | 0 <= i < |topMakes| && 0 <= j < |Years(totalRows)|
      ensures 0.0 <= PrepareData(topMakes, totalRows, fatalRows)[i].y[j] <= 1.0
    {
      ProbabilityCell(topMakes, totalRows, fatalRows, i, j);
    }
  }

  /** A cell with no more fatal crashes than crashes holds a probability. */
  lemma ProbabilityCell(topMakes: seq<string>, totalRows: seq<KeyedRow<string>>, fatalRows: seq<KeyedRow<string>>, i: int, j: int)
    requires 0 <= i < |topMakes| && 0 <= j < |Years(totalRows)|
    requires 0 <= Cell(fatalRows, Years(totalRows)[j], topMakes[i]) <= Cell(totalRows, Years(totalRows)[j], topMakes[i])
    ensures 0.0 <= PrepareData(topMakes, totalRows, fatalRows)[i].y[j] <= 1.0
  {
    var years := Years(totalRows);
    var trace := MakeTrace(years, topMakes[i], totalRows, fatalRows);
    assert PrepareData(topMakes, totalRows, fatalRows)[i] == trace;
    var total, fatal := Cell(totalRows, years[j], topMakes[i]), Cell(fatalRows, years[j], topMakes[i]);
    if total > 0 {
      assert trace.y[j] * total as real == fatal as real;
    }
  }

  /** Lines 189-200: the legend name of a severity code. */
  function SeverityLabel(severity: int): (l: string)
    ensures severity == 1 <==> l == "Fatal Accidents"
    ensures severity == 2 <==> l == "Serious Injury Accidents"
    ensures severity == 3 <==> l == "Other Injury Accidents"
    ensures severity !in {1, 2, 3} <==> l == "Non-Injury Accidents"
  {
    match severity
    case 1 => "Fatal Accidents"
    case 2 => "Serious Injury Accidents"
    case 3 => "Other Injury Accidents"
    case _ => "Non-Injury Accidents"
  }

  /** Lines 176-187: the bar colour of a severity code. */
  function ColorForSeverity(severity: int): (c: string)
    ensures severity == 1 <==> c == "green"
    ensures severity == 2 <==> c == "yellow"
    ensures severity == 3 <==> c == "red"
    ensures severity !in {1, 2, 3} <==> c == "gray"
  {
    match severity
    case 1 => "green"
    case 2 => "yellow"
    case 3 => "red"
    case _ => "gray"
  }

  /** The two tables partition the codes alike: a colour stands for exactly one legend name. */
  lemma ColorMatchesLabel(a: int, b: int)
    ensures ColorForSeverity(a) == ColorForSeverity(b) <==> SeverityLabel(a) == SeverityLabel(b)
  {
  }

  /** One bar trace of the severity chart, with its legend name and colour. */
  datatype SeverityTrace = SeverityTrace(x: seq<string>, y: seq<int>, name: string, color: string)

  /** `Array.from(new Set(rows.map(row => row[1])))`: the severity codes, once each, in order of first appearance. */
  function Severities(rows: seq<KeyedRow<int>>): (levels: seq<int>)
    ensures NoDup(levels)
    ensures forall s :: s in levels <==> s in KeyColumn(rows)
  {
    Distinct(KeyColumn(rows))
  }

  /** The severity levels are listed in the order in which they first appear in the rows. */
  lemma SeveritiesInOrder(rows: seq<KeyedRow<int>>, i: int, j: int)
    requires 0 <= i < j < |Severities(rows)|
    ensures FirstIndex(KeyColumn(rows), Severities(rows)[i]) < FirstIndex(KeyColumn(rows), Severities(rows)[j])
  {
    DistinctInFirstAppearanceOrder(KeyColumn(rows), i, j);
  }

  /** Lines 138-152: the trace of one severity level over `years`: each cell the count of the first matching row, or 0. */
  function LevelTrace(years: seq<string>, level: int, rows: seq<KeyedRow<int>>): (trace: SeverityTrace)
    ensures trace.name == SeverityLabel(level) && trace.color == ColorForSeverity(level)
    ensures trace.x == years && |trace.y| == |years|
    ensures forall j | 0 <= j < |years| :: trace.y[j] == Cell(rows, years[j], level)
  {
    SeverityTrace(years, seq(|years|, j requires 0 <= j < |years| => Cell(rows, years[j], level)),
                  SeverityLabel(level), ColorForSeverity(level))
  }

  /** Lines 134-153: one trace per severity level of the rows, over the years of the rows. */
  function SeverityTraces(rows: seq<KeyedRow<int>>): (data: seq<SeverityTrace>)
    ensures |data| == |Severities(rows)|
    ensures forall i | 0 <= i < |data| :: data[i] == LevelTrace(Years(rows), Severities(rows)[i], rows)
    ensures forall i | 0 <= i < |data| :: |data[i].y| == |Years(rows)|
  {
    var years, levels := Years(rows), Severities(rows);
    seq(|levels|, i requires 0 <= i < |levels| => LevelTrace(years, levels[i], rows))
  }

  /** With one row per (year, severity) pair, the cell of a row's year and level shows the row's count. */
  lemma SeverityCell(rows: seq<KeyedRow<int>>, i: int, j: int, k: int)
    requires UniqueKeys(rows)
    requires 0 <= i < |Severities(rows)| && 0 <= j < |Years(rows)| && 0 <= k < |rows|
    requires Severities(rows)[i] == rows[k].key && Years(rows)[j] == rows[k].year
    ensures SeverityTraces(rows)[i].y[j] == rows[k].count
  {
    assert SeverityTraces(rows)[i] == LevelTrace(Years(rows), Severities(rows)[i], rows);
    CellOfUniqueRow(rows, k);
  }

  /** A cell that no row has shows 0. */
  lemma EmptyCell(rows: seq<KeyedRow<int>>, i: int, j: int)
    requires 0 <= i < |Severities(rows)| && 0 <= j < |Years(rows)|
    requires Absent(rows, Years(rows)[j], Severities(rows)[i])
    ensures SeverityTraces(rows)[i].y[j] == 0
  {
    assert SeverityTraces(rows)[i] == LevelTrace(Years(rows), Severities(rows)[i], rows);
  }

  /** Every row's year and level label a column and a trace of the grid. */
  lemma RowsInGrid(rows: seq<KeyedRow<int>>)
    ensures forall k | 0 <= k < |rows| :: rows[k].year in Years(rows) && rows[k].key in Severities(rows)
  {
    forall k | 0 <= k < |rows|
      ensures rows[k].year in Years(rows) && rows[k].key in Severities(rows)
    {
      assert YearColumn(rows)[k] == rows[k].year && KeyColumn(rows)[k] == rows[k].key;
    }
  }

  /**
    With one row per (year, severity) pair, as the grouped query returns, the
    grid shows every row's count in the cell of its year and level, and 0 in
    every cell no row has.
  */
  lemma SeverityGrid(rows: seq<KeyedRow<int>>)
    requires UniqueKeys(rows)
    ensures forall k | 0 <= k < |rows| :: rows[k].year in Years(rows) && rows[k].key in Severities(rows)
    ensures forall i, j, k | 0 <= i < |Severities(rows)| && 0 <= j < |Years(rows)| && 0 <= k < |rows|
        && Severities(rows)[i] == rows[k].key && Years(rows)[j] == rows[k].year ::
      SeverityTraces(rows)[i].y[j] == rows[k].count
    ensures forall i, j | 0 <= i < |Severities(rows)| && 0 <= j < |Years(rows)|
        && Absent(rows, Years(rows)[j], Severities(rows)[i]) ::
      SeverityTraces(rows)[i].y[j] == 0
  {
    RowsInGrid(rows);
    forall i, j, k | 0 <= i < |Severities(rows)| && 0 <= j < |Years(rows)| && 0 <= k < |rows|
        && Severities(rows)[i] == rows[k].key && Years(rows)[j] == rows[k].year
      ensures SeverityTraces(rows)[i].y[j] == rows[k].count
    {
      SeverityCell(rows, i, j, k);
    }
    forall i, j | 0 <= i < |Severities(rows)| && 0 <= j < |Years(rows)|
        && Absent(rows, Years(rows)[j], Severities(rows)[i])
      ensures SeverityTraces(rows)[i].y[j] == 0
    {
      EmptyCell(rows, i, j);
    }
  }

  /**
    Lines 129-153: an empty result set list is the error 'Query returned no
    results'; otherwise the traces are built from the first result set.
  */
  function CrashesBySeverity(results: seq<seq<KeyedRow<int>>>): (r: Result<seq<SeverityTrace>, string>)
    ensures r.Failure? <==> |results| == 0
    ensures r.Failure? ==> r.error == "Query returned no results"
    ensures r.Success? ==> r.value == SeverityTraces(results[0])
  {
    if |results| == 0 then Failure("Query returned no results") else Success(SeverityTraces(results[0]))
  }
}
