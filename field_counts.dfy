/**
  The bar/pie chart of one accident field for one year (app1.js): the rows of
  the joined query are tallied by the value of the chosen field, accident times
  being bucketed to the hour, and the tally is listed from the rarest value to
  the most frequent one. Also the yearly summary: five summed columns renamed
  to display labels and listed from the largest value to the smallest.
*/
module FieldCounts {
  import opened Wrappers
  import opened Tallies
  import opened Sequences

  /** One row of the query result: column name to text value; a NULL column has no entry. */
  type Row = map<string, string>

  /** The field whose values are grouped by hour. */
  const AccidentTime: string := "ACCIDENT_TIME"

  /** `s.split(':')[0]`: the text before the first colon, or all of `s` when it has none. */
  function BeforeColon(s: string): (r: string)
    ensures |r| <= |s| && r == s[..|r|]
    ensures ':' !in r
    ensures |r| == |s| || s[|r|] == ':'
    decreases |s|
  {
    if s == [] || s[0] == ':' then [] else [s[0]] + BeforeColon(s[1..])
  }

  /** `value.split(':')[0] + ':00'`: a time such as 14:35:00 becomes the hour 14:00. */
  function HourBucket(time: string): (r: string)
    ensures |r| >= 3
    ensures var i := |r| - 3;
      && i <= |time| && r == time[..i] + ":00"
      && ':' !in time[..i]
      && (i == |time| || time[i] == ':')
  {
    BeforeColon(time) + ":00"
  }

  /** Text that has no colon before its end is its own first piece. */
  lemma {:induction false} BeforeColonOfPrefix(b: string, rest: string)
    requires ':' !in b
    requires rest == [] || rest[0] == ':'
    ensures BeforeColon(b + rest) == b
    decreases |b|
  {
    if b != [] {
      assert (b + rest)[1..] == b[1..] + rest;
      BeforeColonOfPrefix(b[1..], rest);
    }
  }

  /** Bucketing an hour again leaves it as it is. */
  lemma HourBucketIdempotent(time: string)
    ensures HourBucket(HourBucket(time)) == HourBucket(time)
  {
    BeforeColonOfPrefix(BeforeColon(time), ":00");
  }

  /**
    The key a row is counted under for `field`: the field's value, bucketed to
    the hour for `ACCIDENT_TIME`, or None when the value is falsy (NULL or the
    empty string) and the row is not counted.
  */
  function CountKey(row: Row, field: string): (k: Option<string>)
    ensures k.None? <==> field !in row || row[field] == ""
    ensures k.Some? && field != AccidentTime ==> k.value == row[field]
    ensures k.Some? && field == AccidentTime ==> k.value == HourBucket(row[field])
  {
    if field !in row then None
    else
      var value := if field == AccidentTime && row[field] != "" then HourBucket(row[field]) else row[field];
      if value != "" then Some(value) else None
  }

  /** The `counts` dictionary after the rows have been processed in order. */
  function Tally(rows: seq<Row>, field: string): (counts: map<string, int>)
    ensures forall k | k in counts :: counts[k] >= 1
    decreases |rows|
  {
    if rows == [] then map[]
    else
      var counts := Tally(rows[..|rows| - 1], field);
      match CountKey(rows[|rows| - 1], field)
      case None => counts
      case Some(k) => AddTo(counts, k, 1)
  }

  /** The number of rows counted under `k`. */
  function Occurrences(rows: seq<Row>, field: string, k: string): nat
    decreases |rows|
  {
    if rows == [] then 0
    else Occurrences(rows[..|rows| - 1], field, k) + (if CountKey(rows[|rows| - 1], field) == Some(k) then 1 else 0)
  }

  /** The number of rows whose value for `field` is truthy. */
  function TruthyRows(rows: seq<Row>, field: string): nat
    decreases |rows|
  {
    if rows == [] then 0
    else TruthyRows(rows[..|rows| - 1], field) + (if CountKey(rows[|rows| - 1], field).Some? then 1 else 0)
  }

  /** The tally holds exactly the keys some row is counted under, each with its number of rows. */
  lemma {:induction false} TallyCounts(rows: seq<Row>, field: string)
    ensures forall k :: k in Tally(rows, field) <==> Occurrences(rows, field, k) > 0
    ensures forall k | k in Tally(rows, field) :: Tally(rows, field)[k] == Occurrences(rows, field, k)
    decreases |rows|
  {
    if rows != [] {
      TallyCounts(rows[..|rows| - 1], field);
    }
  }

  /** A row with a falsy value leaves the tally as it was. */
  lemma FalsyRowIgnored(rows: seq<Row>, row: Row, field: string)
    requires field !in row || row[field] == ""
    ensures Tally(rows + [row], field) == Tally(rows, field)
  {
    assert (rows + [row])[..|rows|] == rows;
  }

  /** The counts add up to the number of rows with a truthy value. */
  lemma {:induction false} TallySum(rows: seq<Row>, field: string)
    ensures SumMap(Tally(rows, field)) == TruthyRows(rows, field)
    decreases |rows|
  {
    if rows != [] {
      var p := rows[..|rows| - 1];
      TallySum(p, field);
      match CountKey(rows[|rows| - 1], field)
      case None =>
      case Some(k) => SumMapAddTo(Tally(p, field), k, 1);
    }
  }

  /** Lines 52-61: the `forEach` loop that fills the `counts` dictionary. */
  method CountValues(rows: seq<Row>, field: string) returns (counts: map<string, int>)
    ensures counts == Tally(rows, field)
    ensures forall k :: k in counts <==> Occurrences(rows, field, k) > 0
    ensures forall k | k in counts :: counts[k] == Occurrences(rows, field, k) && counts[k] >= 1
    ensures SumMap(counts) == TruthyRows(rows, field)
  {
    counts := map[];
    for i := 0 to |rows|
      invariant counts == Tally(rows[..i], field)
    {
      assert rows[..i + 1][..i] == rows[..i];
      var row := rows[i];
      if field in row {
        var value := row[field];
        if field == AccidentTime && value != "" {
          value := HourBucket(value);
        }
        if value != "" {
          counts := counts[value := (if value in counts then counts[value] else 0) + 1];
        }
      }
    }
    assert rows[..|rows|] == rows;
    TallyCounts(rows, field);
    TallySum(rows, field);
  }

  /** One bar of the chart: `{ [field]: value, Count: count }`. */
  datatype FieldCount = FieldCount(value: string, count: int)

  /** The values of the bars, in order. */
  function BarValues(bars: seq<FieldCount>): (r: seq<string>)
    ensures |r| == |bars| && forall i | 0 <= i < |bars| :: r[i] == bars[i].value
  {
    seq(|bars|, i requires 0 <= i < |bars| => bars[i].value)
  }

  /**
    Line 65: the keys of `counts`, enumerated as `keys`, sorted by count with
    the comparator `counts[a] - counts[b]` and mapped to bars.
  */
  function CountsByFrequency(counts: map<string, int>, keys: seq<string>): (bars: seq<FieldCount>)
    requires Enumerates(keys, counts.Keys)
    ensures Enumerates(BarValues(bars), counts.Keys)
    ensures |bars| == |counts|
    ensures forall i | 0 <= i < |bars| :: bars[i].value in counts && bars[i].count == counts[bars[i].value]
    ensures forall i, j | 0 <= i < j < |bars| :: bars[i].count <= bars[j].count
  {
    var key := (k: string) => if k in counts then counts[k] else 0;
    var ordered := SortBy(keys, key);
    PermutationElements(keys, ordered);
    NoDupPermutation(keys, ordered);
    EnumerationSize(ordered, counts.Keys);
    var bars := seq(|ordered|, i requires 0 <= i < |ordered| => FieldCount(ordered[i], counts[ordered[i]]));
    assert BarValues(bars) == ordered;
    assert SortedBy(ordered, key);
    forall i, j | 0 <= i < j < |bars|
      ensures bars[i].count <= bars[j].count
    {
      assert key(ordered[i]) <= key(ordered[j]);
      assert ordered[i] in counts && ordered[j] in counts;
    }
    bars
  }

  /** One entry of the summary object: a display label and a summed value (None for SQL NULL). */
  datatype Entry = Entry(name: string, value: Option<int>)

  /** The value `v` stands for in the comparator's subtraction: NULL counts as 0. */
  function NumericValue(v: Option<int>): int {
    match v
    case None => 0
    case Some(n) => n
  }

  /**
    Lines 163-170: the label/value pairs of the summary, sorted with the
    comparator `b.value - a.value`, largest first.
  */
  function SortSummary(entries: seq<Entry>): (r: seq<Entry>)
    ensures multiset(r) == multiset(entries)
    ensures forall i, j | 0 <= i < j < |r| :: NumericValue(r[i].value) >= NumericValue(r[j].value)
  {
    var r := SortBy(entries, (e: Entry) => -NumericValue(e.value));
    assert forall i, j | 0 <= i < j < |r| :: -NumericValue(r[i].value) <= -NumericValue(r[j].value);
    r
  }

  /** The single row of the summing query: column name to sum; a NULL sum has no entry. */
  type SummaryRow = map<string, int>

  /** The five summed columns, in the order the query selects them. */
  const SumColumns: seq<string> :=
    ["NO_PERSONS", "NO_PERSONS_INJ_2", "NO_PERSONS_INJ_3", "NO_PERSONS_KILLED", "NO_PERSONS_NOT_INJ"]

  function Get(row: SummaryRow, column: string): Option<int> {
    if column in row then Some(row[column]) else None
  }

  /** The display labels of the summary entries, in order. */
  function Labels(entries: seq<Entry>): (r: seq<string>)
    ensures |r| == |entries| && forall i | 0 <= i < |entries| :: r[i] == entries[i].name
  {
    seq(|entries|, i requires 0 <= i < |entries| => entries[i].name)
  }

  /**
    Lines 108-114: the summed columns under their display labels, in the
    order of the object literal (the killed label keeps its `N0.` spelling).
  */
  function RenameSums(result: SummaryRow): (r: seq<Entry>)
    ensures |r| == |SumColumns| == 5
    ensures NoDup(Labels(r))
    ensures forall i | 0 <= i < 5 :: r[i].value == Get(result, SumColumns[i])
    ensures r[3] == Entry("N0. of people killed", Get(result, "NO_PERSONS_KILLED"))
  {
    [ Entry("No. of people involved", Get(result, "NO_PERSONS")),
      Entry("No. of people with a serious injury", Get(result, "NO_PERSONS_INJ_2")),
      Entry("No. of people with an other injury", Get(result, "NO_PERSONS_INJ_3")),
      Entry("N0. of people killed", Get(result, "NO_PERSONS_KILLED")),
      Entry("No. of people with no injuries", Get(result, "NO_PERSONS_NOT_INJ")) ]
  }

  /** Sorting the summary keeps its entries, so distinct labels stay distinct. */
  lemma SortSummaryKeepsEntries(entries: seq<Entry>)
    requires NoDup(Labels(entries))
    ensures var r := SortSummary(entries);
      && |r| == |entries|
      && (forall e :: e in r <==> e in entries)
      && NoDup(Labels(r))
  {
    var r := SortSummary(entries);
    PermutationElements(entries, r);
    forall i, j | 0 <= i < j < |r|
      ensures r[i].name != r[j].name
    {
      assert r[i] in entries && r[j] in entries;
      var a :| 0 <= a < |entries| && entries[a] == r[i];
      var b :| 0 <= b < |entries| && entries[b] == r[j];
      NoDupPermutation(entries, r);
      assert r[i] != r[j];
      assert a != b;
      assert Labels(entries)[a] != Labels(entries)[b];
    }
  }

  /**
    The summary chart of a year shows each of the five labels once, with the
    sum of its column, largest first.
  */
  lemma SummaryChart(result: SummaryRow)
    ensures var r := SortSummary(RenameSums(result));
      && |r| == 5
      && NoDup(Labels(r))
      && (forall e :: e in r <==> e in RenameSums(result))
      && (forall i, j | 0 <= i < j < 5 :: NumericValue(r[i].value) >= NumericValue(r[j].value))
  {
    var entries := RenameSums(result);
    SortSummaryKeepsEntries(entries);
  }
}
