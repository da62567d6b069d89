/**
  The three-level sunburst of people by year, sex and injury level (app3.js).
  A first pass sums `Count` per year and per "Year - SEX" label; a second pass
  emits the parallel `labels`/`parents`/`values` arrays: a year node (parent
  '') and a sex node (parent the year) the first time their label is met, and
  one leaf per row (parent the sex label, value the row's count).
*/
module InjurySunburst {
  import opened Wrappers
  import opened Tallies
  import opened Sequences

  /** One row of the grouping query; `sex` and `injury` are None for NULL columns. */
  datatype SunRow = SunRow(year: string, sex: Option<string>, injury: Option<string>, count: int)

  /** A value as a template literal writes it: NULL becomes the text `null`. */
  function Text(v: Option<string>): (t: string)
    ensures v.None? ==> t == "null"
    ensures v.Some? ==> t == v.value
  {
    match v
    case None => "null"
    case Some(s) => s
  }

  /** Lines 48 and 65: the label of a year node. */
  function YearLabel(r: SunRow): string {
    r.year
  }

  /** Lines 49 and 66: `${row.Year} - ${row.SEX}`. */
  function SexLabel(r: SunRow): string {
    r.year + " - " + Text(r.sex)
  }

  /** Line 67: `${row.Year} - ${row.SEX} - ${row.INJ_LEVEL_DESC}`. */
  function LeafLabel(r: SunRow): string {
    r.year + " - " + Text(r.sex) + " - " + Text(r.injury)
  }

  /**
    The labels nest: a sex label is its year label, ` - ` and the sex text, and
    a leaf label is its sex label, ` - ` and the injury text.
  */
  lemma LabelNesting(r: SunRow)
    ensures YearLabel(r) + " - " <= SexLabel(r) && SexLabel(r)[|YearLabel(r)| + 3..] == Text(r.sex)
    ensures SexLabel(r) + " - " <= LeafLabel(r) && LeafLabel(r)[|SexLabel(r)| + 3..] == Text(r.injury)
  {
  }

  /** The two levels the first pass sums over: `yearCounts` and `sexCounts`. */
  datatype Level = YearLevel | SexLevel

  function LevelLabel(level: Level, r: SunRow): string {
    match level
    case YearLevel => YearLabel(r)
    case SexLevel => SexLabel(r)
  }

  /** Lines 47-61: `yearCounts` or `sexCounts` after the rows have been processed in order. */
  function Totals(rows: seq<SunRow>, level: Level): map<string, int>
    decreases |rows|
  {
    if rows == [] then map[]
    else
      var r := rows[|rows| - 1];
      AddTo(Totals(rows[..|rows| - 1], level), LevelLabel(level, r), r.count)
  }

  /** The sum of `Count` over the rows whose label at `level` is `l`. */
  function LevelSum(rows: seq<SunRow>, level: Level, l: string): int
    decreases |rows|
  {
    if rows == [] then 0
    else
      var r := rows[|rows| - 1];
      LevelSum(rows[..|rows| - 1], level, l) + (if LevelLabel(level, r) == l then r.count else 0)
  }

  /** Some row has label `l` at `level`. */
  ghost predicate Occurs(rows: seq<SunRow>, level: Level, l: string) {
    exists r | r in rows :: LevelLabel(level, r) == l
  }

  /**
    The totals have an entry exactly for the labels of the rows, and each entry
    is the sum of the counts of the rows with that label (a label of no row sums to 0).
  */
  lemma {:induction false} TotalsAreSums(rows: seq<SunRow>, level: Level)
    ensures forall l :: l in Totals(rows, level) <==> Occurs(rows, level, l)
    ensures forall l :: (if l in Totals(rows, level) then Totals(rows, level)[l] else 0) == LevelSum(rows, level, l)
  {
    forall l
      ensures l in Totals(rows, level) <==> Occurs(rows, level, l)
      ensures (if l in Totals(rows, level) then Totals(rows, level)[l] else 0) == LevelSum(rows, level, l)
    {
      TotalOf(rows, level, l);
    }
  }

  /** The total of one label, by induction on the rows. */
  lemma {:induction false} TotalOf(rows: seq<SunRow>, level: Level, l: string)
    ensures l in Totals(rows, level) <==> Occurs(rows, level, l)
    ensures (if l in Totals(rows, level) then Totals(rows, level)[l] else 0) == LevelSum(rows, level, l)
    decreases |rows|
  {
    if rows != [] {
      var p, r := rows[..|rows| - 1], rows[|rows| - 1];
      assert rows == p + [r];
      TotalOf(p, level, l);
      OccursSnoc(p, r, level, l);
      assert Totals(rows, level) == AddTo(Totals(p, level), LevelLabel(level, r), r.count);
    }
  }

  /** Lines 47-61: the first pass. */
  method LevelTotals(rows: seq<SunRow>) returns (yearCounts: map<string, int>, sexCounts: map<string, int>)
    ensures yearCounts == Totals(rows, YearLevel) && sexCounts == Totals(rows, SexLevel)
    ensures forall y :: y in yearCounts <==> Occurs(rows, YearLevel, y)
    ensures forall y | y in yearCounts :: yearCounts[y] == LevelSum(rows, YearLevel, y)
    ensures forall s :: s in sexCounts <==> Occurs(rows, SexLevel, s)
    ensures forall s | s in sexCounts :: sexCounts[s] == LevelSum(rows, SexLevel, s)
  {
    yearCounts, sexCounts := map[], map[];
    for i := 0 to |rows|
      invariant yearCounts == Totals(rows[..i], YearLevel)
      invariant sexCounts == Totals(rows[..i], SexLevel)
    {
      assert rows[..i + 1][..i] == rows[..i];
      var row := rows[i];
      var yearLabel := row.year;
      var sexLabel := row.year + " - " + Text(row.sex);
      yearCounts := Accumulate(yearCounts, yearLabel, row.count);
      sexCounts := Accumulate(sexCounts, sexLabel, row.count);
    }
    assert rows[..|rows|] == rows;
    TotalsAreSums(rows, YearLevel);
    TotalsAreSums(rows, SexLevel);
  }

  /** The chart data: three arrays, one entry per node. */
  datatype Sunburst = Sunburst(labels: seq<string>, parents: seq<string>, values: seq<int>)

  predicate WellFormed(b: Sunburst) {
    |b.labels| == |b.parents| == |b.values|
  }

  /** `labels.push(l); parents.push(parent); values.push(value);` */
  function Push(b: Sunburst, l: string, parent: string, value: int): Sunburst {
    Sunburst(b.labels + [l], b.parents + [parent], b.values + [value])
  }

  /** `b` is what `c` held at an earlier point: the arrays only grow. */
  predicate IsPrefix(b: Sunburst, c: Sunburst) {
    && |b.labels| <= |c.labels| && b.labels == c.labels[..|b.labels|]
    && |b.parents| <= |c.parents| && b.parents == c.parents[..|b.parents|]
    && |b.values| <= |c.values| && b.values == c.values[..|b.values|]
  }

  /** The three labels of a row grow in length, so no two of them coincide. */
  lemma {:induction false} LabelLengths(r: SunRow)
    ensures |YearLabel(r)| < |SexLabel(r)| < |LeafLabel(r)|
  {
  }

  /** The totals have an entry for the year and the sex label of every row. */
  predicate Covered(rows: seq<SunRow>, yearCounts: map<string, int>, sexCounts: map<string, int>) {
    forall r | r in rows :: YearLabel(r) in yearCounts && SexLabel(r) in sexCounts
  }

  /** Lines 65-86: the nodes one row adds. */
  function EmitRow(b: Sunburst, r: SunRow, yearCounts: map<string, int>, sexCounts: map<string, int>): (c: Sunburst)
    requires WellFormed(b)
    requires YearLabel(r) in yearCounts && SexLabel(r) in sexCounts
    ensures WellFormed(c)
    ensures |b.labels| < |c.labels| <= |b.labels| + 3
  {
    var withYear := if YearLabel(r) in b.labels then b else Push(b, YearLabel(r), "", yearCounts[YearLabel(r)]);
    var withSex := if SexLabel(r) in withYear.labels then withYear
      else Push(withYear, SexLabel(r), YearLabel(r), sexCounts[SexLabel(r)]);
    Push(withSex, LeafLabel(r), SexLabel(r), r.count)
  }

  /** Lines 64-87: the second pass over the rows, in order. */
  function Emit(rows: seq<SunRow>, yearCounts: map<string, int>, sexCounts: map<string, int>): (b: Sunburst)
    requires Covered(rows, yearCounts, sexCounts)
    ensures WellFormed(b)
    ensures |rows| <= |b.labels| <= 3 * |rows|
    decreases |rows|
  {
    if rows == [] then Sunburst([], [], [])
    else
      var p := rows[..|rows| - 1];
      assert rows == p + [rows[|rows| - 1]];
      EmitRow(Emit(p, yearCounts, sexCounts), rows[|rows| - 1], yearCounts, sexCounts)
  }

  /** One row only appends: its year node if new, its sex node if new, then its leaf. */
  lemma {:induction false} EmitRowNodes(b: Sunburst, r: SunRow, yearCounts: map<string, int>, sexCounts: map<string, int>)
    requires WellFormed(b)
    requires YearLabel(r) in yearCounts && SexLabel(r) in sexCounts
    ensures IsPrefix(b, EmitRow(b, r, yearCounts, sexCounts))
    ensures LeafNode(EmitRow(b, r, yearCounts, sexCounts), |EmitRow(b, r, yearCounts, sexCounts).labels| - 1, r)
    ensures forall i | |b.labels| <= i < |EmitRow(b, r, yearCounts, sexCounts).labels| ::
      || YearNode(EmitRow(b, r, yearCounts, sexCounts), i, r, yearCounts)
      || SexNode(EmitRow(b, r, yearCounts, sexCounts), i, r, sexCounts)
      || LeafNode(EmitRow(b, r, yearCounts, sexCounts), i, r)
  {
  }

  /** One row adds its year, sex and leaf labels and no other. */
  lemma {:induction false} EmitRowLabels(b: Sunburst, r: SunRow, yearCounts: map<string, int>, sexCounts: map<string, int>)
    requires WellFormed(b)
    requires YearLabel(r) in yearCounts && SexLabel(r) in sexCounts
    ensures forall l :: l in EmitRow(b, r, yearCounts, sexCounts).labels <==> l in b.labels || RowLabel(r, l)
  {
  }

  /** Two growth steps are one. */
  lemma {:induction false} PrefixTransitive(a: Sunburst, b: Sunburst, c: Sunburst)
    requires IsPrefix(a, b) && IsPrefix(b, c)
    ensures IsPrefix(a, c)
  {
    assert c.labels[..|b.labels|][..|a.labels|] == c.labels[..|a.labels|];
    assert c.parents[..|b.parents|][..|a.parents|] == c.parents[..|a.parents|];
    assert c.values[..|b.values|][..|a.values|] == c.values[..|a.values|];
  }

  /** The second pass over `p + [r]` is the pass over `p` followed by row `r`. */
  lemma {:induction false} EmitSnoc(p: seq<SunRow>, r: SunRow, yearCounts: map<string, int>, sexCounts: map<string, int>)
    requires Covered(p + [r], yearCounts, sexCounts)
    ensures Covered(p, yearCounts, sexCounts)
    ensures Emit(p + [r], yearCounts, sexCounts) == EmitRow(Emit(p, yearCounts, sexCounts), r, yearCounts, sexCounts)
  {
    assert (p + [r])[..|p|] == p;
  }

  /** The first pass covers every row. */
  lemma {:induction false} TotalsCovered(rows: seq<SunRow>)
    ensures Covered(rows, Totals(rows, YearLevel), Totals(rows, SexLevel))
  {
    TotalsAreSums(rows, YearLevel);
    TotalsAreSums(rows, SexLevel);
    forall r | r in rows
      ensures YearLabel(r) in Totals(rows, YearLevel) && SexLabel(r) in Totals(rows, SexLevel)
    {
      assert LevelLabel(YearLevel, r) == YearLabel(r);
      assert LevelLabel(SexLevel, r) == SexLabel(r);
    }
  }

  /** Lines 39-87: the chart data of the query result. */
  function SunburstOf(rows: seq<SunRow>): (b: Sunburst)
    ensures WellFormed(b)
  {
    TotalsCovered(rows);
    Emit(rows, Totals(rows, YearLevel), Totals(rows, SexLevel))
  }

  /** Lines 63-87: the second pass, pushing into the three arrays. */
  method SecondPass(rows: seq<SunRow>, yearCounts: map<string, int>, sexCounts: map<string, int>)
    returns (labels: seq<string>, parents: seq<string>, values: seq<int>)
    requires Covered(rows, yearCounts, sexCounts)
    ensures Sunburst(labels, parents, values) == Emit(rows, yearCounts, sexCounts)
  {
    labels, parents, values := [], [], [];
    for i := 0 to |rows|
      invariant Covered(rows[..i], yearCounts, sexCounts)
      invariant Sunburst(labels, parents, values) == Emit(rows[..i], yearCounts, sexCounts)
    {
      assert rows[..i + 1] == rows[..i] + [rows[i]];
      EmitSnoc(rows[..i], rows[i], yearCounts, sexCounts);
      ghost var before := Sunburst(labels, parents, values);
      var row := rows[i];
      var yearLabel := row.year;
      var sexLabel := row.year + " - " + Text(row.sex);
      var injLevelLabel := row.year + " - " + Text(row.sex) + " - " + Text(row.injury);
      if yearLabel !in labels {
        labels := labels + [yearLabel];
        parents := parents + [""];
        values := values + [yearCounts[yearLabel]];
      }
      if sexLabel !in labels {
        labels := labels + [sexLabel];
        parents := parents + [yearLabel];
        values := values + [sexCounts[sexLabel]];
      }
      labels := labels + [injLevelLabel];
      parents := parents + [sexLabel];
      values := values + [row.count];
      assert Sunburst(labels, parents, values) == EmitRow(before, row, yearCounts, sexCounts);
    }
    assert rows[..|rows|] == rows;
  }

  /** Lines 39-87: both passes. */
  method BuildSunburst(rows: seq<SunRow>) returns (labels: seq<string>, parents: seq<string>, values: seq<int>)
    ensures Sunburst(labels, parents, values) == SunburstOf(rows)
    ensures |labels| == |parents| == |values|
  {
    var yearCounts, sexCounts := LevelTotals(rows);
    TotalsCovered(rows);
    labels, parents, values := SecondPass(rows, yearCounts, sexCounts);
  }

  /** Every non-empty parent is the label of an earlier node. */
  ghost predicate ParentsEarlier(b: Sunburst)
    requires WellFormed(b)
  {
    forall i | 0 <= i < |b.parents| && b.parents[i] != "" :: exists j | 0 <= j < i :: b.labels[j] == b.parents[i]
  }

  lemma {:induction false} PushParentEarlier(b: Sunburst, l: string, parent: string, value: int)
    requires WellFormed(b) && ParentsEarlier(b)
    requires parent == "" || parent in b.labels
    ensures ParentsEarlier(Push(b, l, parent, value))
  {
    var c := Push(b, l, parent, value);
    forall i | 0 <= i < |c.parents| && c.parents[i] != ""
      ensures exists j | 0 <= j < i :: c.labels[j] == c.parents[i]
    {
      if i < |b.parents| {
        var j :| 0 <= j < i && b.labels[j] == b.parents[i];
        assert c.labels[j] == b.labels[j];
      } else {
        var j := FirstIndex(b.labels, parent);
        assert c.labels[j] == parent;
      }
    }
  }

  /** Lines 64-87: a node's parent always comes before it, whatever the rows. */
  lemma {:induction false} EmitParentsEarlier(rows: seq<SunRow>, yearCounts: map<string, int>, sexCounts: map<string, int>)
    requires Covered(rows, yearCounts, sexCounts)
    ensures ParentsEarlier(Emit(rows, yearCounts, sexCounts))
    decreases |rows|
  {
    if rows != [] {
      var p, r := rows[..|rows| - 1], rows[|rows| - 1];
      assert rows == p + [r];
      EmitSnoc(p, r, yearCounts, sexCounts);
      EmitParentsEarlier(p, yearCounts, sexCounts);
      var b := Emit(p, yearCounts, sexCounts);
      var withYear := if YearLabel(r) in b.labels then b else Push(b, YearLabel(r), "", yearCounts[YearLabel(r)]);
      if YearLabel(r) !in b.labels {
        PushParentEarlier(b, YearLabel(r), "", yearCounts[YearLabel(r)]);
      }
      var withSex := if SexLabel(r) in withYear.labels then withYear
        else Push(withYear, SexLabel(r), YearLabel(r), sexCounts[SexLabel(r)]);
      if SexLabel(r) !in withYear.labels {
        PushParentEarlier(withYear, SexLabel(r), YearLabel(r), sexCounts[SexLabel(r)]);
      }
      PushParentEarlier(withSex, LeafLabel(r), SexLabel(r), r.count);
    }
  }

  /** `l` is the year, sex or leaf label of `r`. */
  predicate RowLabel(r: SunRow, l: string) {
    l == YearLabel(r) || l == SexLabel(r) || l == LeafLabel(r)
  }

  /** The labels are exactly the year, sex and leaf labels of the rows. */
  lemma {:induction false} EmitLabels(rows: seq<SunRow>, yearCounts: map<string, int>, sexCounts: map<string, int>)
    requires Covered(rows, yearCounts, sexCounts)
    ensures forall l :: l in Emit(rows, yearCounts, sexCounts).labels <==> exists r | r in rows :: RowLabel(r, l)
    decreases |rows|
  {
    if rows != [] {
      var p, r := rows[..|rows| - 1], rows[|rows| - 1];
      assert rows == p + [r];
      EmitSnoc(p, r, yearCounts, sexCounts);
      EmitLabels(p, yearCounts, sexCounts);
      EmitRowLabels(Emit(p, yearCounts, sexCounts), r, yearCounts, sexCounts);
      forall l
        ensures (exists x | x in rows :: RowLabel(x, l)) <==> (exists x | x in p :: RowLabel(x, l)) || RowLabel(r, l)
      {
        if exists x | x in rows :: RowLabel(x, l) {
          var x :| x in rows && RowLabel(x, l);
          assert x in p || x == r;
        }
      }
    }
  }

  /** Node `i` is the year node of `r`. */
  ghost predicate YearNode(b: Sunburst, i: int, r: SunRow, yearCounts: map<string, int>)
    requires WellFormed(b) && 0 <= i < |b.labels|
  {
    b.labels[i] == YearLabel(r) && b.parents[i] == "" && YearLabel(r) in yearCounts && b.values[i] == yearCounts[YearLabel(r)]
  }

  /** Node `i` is the sex node of `r`. */
  ghost predicate SexNode(b: Sunburst, i: int, r: SunRow, sexCounts: map<string, int>)
    requires WellFormed(b) && 0 <= i < |b.labels|
  {
    b.labels[i] == SexLabel(r) && b.parents[i] == YearLabel(r) && SexLabel(r) in sexCounts && b.values[i] == sexCounts[SexLabel(r)]
  }

  /** Node `i` is the leaf of `r`. */
  ghost predicate LeafNode(b: Sunburst, i: int, r: SunRow)
    requires WellFormed(b) && 0 <= i < |b.labels|
  {
    b.labels[i] == LeafLabel(r) && b.parents[i] == SexLabel(r) && b.values[i] == r.count
  }

  /** Node `i` is the year node, the sex node or the leaf of some row of `rows`. */
  ghost predicate NodeOfRows(b: Sunburst, i: int, rows: seq<SunRow>, yearCounts: map<string, int>, sexCounts: map<string, int>)
    requires WellFormed(b) && 0 <= i < |b.labels|
  {
    exists r | r in rows :: YearNode(b, i, r, yearCounts) || SexNode(b, i, r, sexCounts) || LeafNode(b, i, r)
  }

  /** Every node is the year node, the sex node or the leaf of some row. */
  lemma {:induction false} EmitNodes(rows: seq<SunRow>, yearCounts: map<string, int>, sexCounts: map<string, int>)
    requires Covered(rows, yearCounts, sexCounts)
    ensures forall i | 0 <= i < |Emit(rows, yearCounts, sexCounts).labels| ::
      NodeOfRows(Emit(rows, yearCounts, sexCounts), i, rows, yearCounts, sexCounts)
    decreases |rows|
  {
    if rows != [] {
      var p, r := rows[..|rows| - 1], rows[|rows| - 1];
      assert rows == p + [r];
      EmitSnoc(p, r, yearCounts, sexCounts);
      EmitNodes(p, yearCounts, sexCounts);
      var b := Emit(p, yearCounts, sexCounts);
      var c := EmitRow(b, r, yearCounts, sexCounts);
      EmitRowNodes(b, r, yearCounts, sexCounts);
      forall i | 0 <= i < |c.labels|
        ensures NodeOfRows(c, i, rows, yearCounts, sexCounts)
      {
        if i < |b.labels| {
          assert NodeOfRows(b, i, p, yearCounts, sexCounts);
          var r' :| r' in p && (YearNode(b, i, r', yearCounts) || SexNode(b, i, r', sexCounts) || LeafNode(b, i, r'));
          assert c.labels[i] == b.labels[i] && c.parents[i] == b.parents[i] && c.values[i] == b.values[i];
          assert r' in rows;
        } else {
          assert YearNode(c, i, r, yearCounts) || SexNode(c, i, r, sexCounts) || LeafNode(c, i, r);
          assert r in rows;
        }
      }
    }
  }

  /** `l` is never a leaf label, nor a label of the other interior level. */
  ghost predicate OnlyAt(rows: seq<SunRow>, level: Level, l: string) {
    forall r | r in rows :: LeafLabel(r) != l && (if level == YearLevel then SexLabel(r) else YearLabel(r)) != l
  }

  /** How often one row's nodes add the label `l`. */
  lemma {:induction false} EmitRowCount(b: Sunburst, r: SunRow, yearCounts: map<string, int>, sexCounts: map<string, int>, l: string)
    requires WellFormed(b)
    requires YearLabel(r) in yearCounts && SexLabel(r) in sexCounts
    ensures multiset(EmitRow(b, r, yearCounts, sexCounts).labels)[l] == multiset(b.labels)[l]
      + (if l == YearLabel(r) && l !in b.labels then 1 else 0)
      + (if l == SexLabel(r) && l !in b.labels then 1 else 0)
      + (if l == LeafLabel(r) then 1 else 0)
  {
    LabelLengths(r);
  }

  /**
    Lines 70-81: a year or sex label that no other kind of node shares is
    pushed once if some row has it and never otherwise.
  */
  lemma {:induction false} InteriorOnce(rows: seq<SunRow>, yearCounts: map<string, int>, sexCounts: map<string, int>,
                                        level: Level, l: string)
    requires Covered(rows, yearCounts, sexCounts)
    requires OnlyAt(rows, level, l)
    ensures multiset(Emit(rows, yearCounts, sexCounts).labels)[l] == if Occurs(rows, level, l) then 1 else 0
    decreases |rows|
  {
    if rows != [] {
      var p, r := rows[..|rows| - 1], rows[|rows| - 1];
      assert rows == p + [r];
      EmitSnoc(p, r, yearCounts, sexCounts);
      InteriorOnce(p, yearCounts, sexCounts, level, l);
      var b := Emit(p, yearCounts, sexCounts);
      EmitRowCount(b, r, yearCounts, sexCounts, l);
      assert l in b.labels <==> multiset(b.labels)[l] > 0;
      OccursSnoc(p, r, level, l);
    }
  }

  /** A label occurs in `p + [r]` when it occurs in `p` or is the label of `r`. */
  lemma {:induction false} OccursSnoc(p: seq<SunRow>, r: SunRow, level: Level, l: string)
    ensures Occurs(p + [r], level, l) <==> Occurs(p, level, l) || LevelLabel(level, r) == l
  {
    if Occurs(p + [r], level, l) && LevelLabel(level, r) != l {
      var x :| x in p + [r] && LevelLabel(level, x) == l;
      assert x in p;
    }
    if Occurs(p, level, l) {
      var x :| x in p && LevelLabel(level, x) == l;
      assert x in p + [r];
    }
  }

  /** Emitting a prefix of the rows yields a prefix of the arrays. */
  lemma {:induction false} EmitPrefix(rows: seq<SunRow>, k: int, yearCounts: map<string, int>, sexCounts: map<string, int>)
    requires Covered(rows, yearCounts, sexCounts) && 0 <= k <= |rows|
    ensures Covered(rows[..k], yearCounts, sexCounts)
    ensures IsPrefix(Emit(rows[..k], yearCounts, sexCounts), Emit(rows, yearCounts, sexCounts))
    decreases |rows|
  {
    if k == |rows| {
      assert rows[..k] == rows;
    } else {
      var p, r := rows[..|rows| - 1], rows[|rows| - 1];
      assert rows == p + [r];
      EmitSnoc(p, r, yearCounts, sexCounts);
      assert p[..k] == rows[..k];
      EmitPrefix(p, k, yearCounts, sexCounts);
      EmitRowNodes(Emit(p, yearCounts, sexCounts), r, yearCounts, sexCounts);
      PrefixTransitive(Emit(rows[..k], yearCounts, sexCounts), Emit(p, yearCounts, sexCounts), Emit(rows, yearCounts, sexCounts));
    }
  }

  /** The index at which the leaf of row `k` is pushed. */
  function LeafIndex(rows: seq<SunRow>, k: int, yearCounts: map<string, int>, sexCounts: map<string, int>): int
    requires Covered(rows, yearCounts, sexCounts) && 0 <= k < |rows|
  {
    EmitPrefix(rows, k + 1, yearCounts, sexCounts);
    |Emit(rows[..k + 1], yearCounts, sexCounts).labels| - 1
  }

  /** Lines 84-86: the node pushed last for row `k` is its leaf. */
  lemma {:induction false} LeafOfRow(rows: seq<SunRow>, k: int, yearCounts: map<string, int>, sexCounts: map<string, int>)
    requires Covered(rows, yearCounts, sexCounts) && 0 <= k < |rows|
    ensures 0 <= LeafIndex(rows, k, yearCounts, sexCounts) < |Emit(rows, yearCounts, sexCounts).labels|
    ensures LeafNode(Emit(rows, yearCounts, sexCounts), LeafIndex(rows, k, yearCounts, sexCounts), rows[k])
  {
    EmitPrefix(rows, k + 1, yearCounts, sexCounts);
    var q := rows[..k + 1];
    LastLeaf(q, yearCounts, sexCounts);
    assert q[|q| - 1] == rows[k];
    LeafInPrefix(Emit(q, yearCounts, sexCounts), Emit(rows, yearCounts, sexCounts), |Emit(q, yearCounts, sexCounts).labels| - 1, rows[k]);
  }

  /** The node pushed last is the leaf of the last row. */
  lemma {:induction false} LastLeaf(rows: seq<SunRow>, yearCounts: map<string, int>, sexCounts: map<string, int>)
    requires Covered(rows, yearCounts, sexCounts) && rows != []
    ensures LeafNode(Emit(rows, yearCounts, sexCounts), |Emit(rows, yearCounts, sexCounts).labels| - 1, rows[|rows| - 1])
  {
    var p, r := rows[..|rows| - 1], rows[|rows| - 1];
    assert rows == p + [r];
    EmitSnoc(p, r, yearCounts, sexCounts);
    EmitRowNodes(Emit(p, yearCounts, sexCounts), r, yearCounts, sexCounts);
  }

  /** A leaf stays a leaf as the arrays grow. */
  lemma {:induction false} LeafInPrefix(b: Sunburst, c: Sunburst, i: int, r: SunRow)
    requires WellFormed(b) && WellFormed(c) && IsPrefix(b, c) && 0 <= i < |b.labels|
    requires LeafNode(b, i, r)
    ensures LeafNode(c, i, r)
  {
    assert c.labels[i] == b.labels[i] && c.parents[i] == b.parents[i] && c.values[i] == b.values[i];
  }

  /** Each row pushes at least its leaf. */
  lemma {:induction false} EmitStep(rows: seq<SunRow>, j: int, yearCounts: map<string, int>, sexCounts: map<string, int>)
    requires Covered(rows, yearCounts, sexCounts) && 0 <= j < |rows|
    ensures Covered(rows[..j], yearCounts, sexCounts) && Covered(rows[..j + 1], yearCounts, sexCounts)
    ensures |Emit(rows[..j], yearCounts, sexCounts).labels| < |Emit(rows[..j + 1], yearCounts, sexCounts).labels|
  {
    EmitPrefix(rows, j + 1, yearCounts, sexCounts);
    assert rows[..j + 1] == rows[..j] + [rows[j]];
    EmitSnoc(rows[..j], rows[j], yearCounts, sexCounts);
  }

  /** The leaves come in the order of their rows. */
  lemma {:induction false} LeafOrder(rows: seq<SunRow>, k: int, k': int, yearCounts: map<string, int>, sexCounts: map<string, int>)
    requires Covered(rows, yearCounts, sexCounts) && 0 <= k < k' < |rows|
    ensures LeafIndex(rows, k, yearCounts, sexCounts) < LeafIndex(rows, k', yearCounts, sexCounts)
    decreases k' - k
  {
    EmitStep(rows, k', yearCounts, sexCounts);
    var before := |Emit(rows[..k'], yearCounts, sexCounts).labels|;
    assert LeafIndex(rows, k' - 1, yearCounts, sexCounts) == before - 1;
    assert LeafIndex(rows, k', yearCounts, sexCounts) == |Emit(rows[..k' + 1], yearCounts, sexCounts).labels| - 1;
    if k + 1 < k' {
      LeafOrder(rows, k, k' - 1, yearCounts, sexCounts);
    }
  }

  /**
    Lines 84-86: each row has its own leaf, in row order, labelled with the
    row's three values, under its sex label, with the row's count.
  */
  lemma {:induction false} Leaves(rows: seq<SunRow>, yearCounts: map<string, int>, sexCounts: map<string, int>)
    requires Covered(rows, yearCounts, sexCounts)
    ensures forall k | 0 <= k < |rows| ::
      && 0 <= LeafIndex(rows, k, yearCounts, sexCounts) < |Emit(rows, yearCounts, sexCounts).labels|
      && LeafNode(Emit(rows, yearCounts, sexCounts), LeafIndex(rows, k, yearCounts, sexCounts), rows[k])
    ensures forall k, k' | 0 <= k < k' < |rows| ::
      LeafIndex(rows, k, yearCounts, sexCounts) < LeafIndex(rows, k', yearCounts, sexCounts)
  {
    forall k | 0 <= k < |rows|
      ensures 0 <= LeafIndex(rows, k, yearCounts, sexCounts) < |Emit(rows, yearCounts, sexCounts).labels|
      ensures LeafNode(Emit(rows, yearCounts, sexCounts), LeafIndex(rows, k, yearCounts, sexCounts), rows[k])
    {
      LeafOfRow(rows, k, yearCounts, sexCounts);
    }
    forall k, k' | 0 <= k < k' < |rows|
      ensures LeafIndex(rows, k, yearCounts, sexCounts) < LeafIndex(rows, k', yearCounts, sexCounts)
    {
      LeafOrder(rows, k, k', yearCounts, sexCounts);
    }
  }

  /** The sum of the values of the nodes whose parent is `p`. */
  function ChildSum(parents: seq<string>, values: seq<int>, p: string): int
    requires |parents| == |values|
    decreases |parents|
  {
    if parents == [] then 0
    else
      var n := |parents| - 1;
      ChildSum(parents[..n], values[..n], p) + (if parents[n] == p then values[n] else 0)
  }

  lemma {:induction false} ChildSumPush(parents: seq<string>, values: seq<int>, parent: string, value: int, p: string)
    requires |parents| == |values|
    ensures ChildSum(parents + [parent], values + [value], p) == ChildSum(parents, values, p) + (if parent == p then value else 0)
  {
    assert (parents + [parent])[..|parents|] == parents;
    assert (values + [value])[..|values|] == values;
  }

  /** What the nodes one row adds contribute to the children of `s`. */
  lemma {:induction false} EmitRowChildSum(b: Sunburst, r: SunRow, yearCounts: map<string, int>, sexCounts: map<string, int>, s: string)
    requires WellFormed(b)
    requires YearLabel(r) in yearCounts && SexLabel(r) in sexCounts
    ensures var c := EmitRow(b, r, yearCounts, sexCounts);
      ChildSum(c.parents, c.values, s) == ChildSum(b.parents, b.values, s)
        + (if s == "" && YearLabel(r) !in b.labels then yearCounts[YearLabel(r)] else 0)
        + (if s == YearLabel(r) && SexLabel(r) !in b.labels then sexCounts[SexLabel(r)] else 0)
        + (if s == SexLabel(r) then r.count else 0)
  {
    LabelLengths(r);
    var withYear := if YearLabel(r) in b.labels then b else Push(b, YearLabel(r), "", yearCounts[YearLabel(r)]);
    if YearLabel(r) !in b.labels {
      ChildSumPush(b.parents, b.values, "", yearCounts[YearLabel(r)], s);
    }
    var withSex := if SexLabel(r) in withYear.labels then withYear
      else Push(withYear, SexLabel(r), YearLabel(r), sexCounts[SexLabel(r)]);
    if SexLabel(r) !in withYear.labels {
      ChildSumPush(withYear.parents, withYear.values, YearLabel(r), sexCounts[SexLabel(r)], s);
    }
    ChildSumPush(withSex.parents, withSex.values, SexLabel(r), r.count, s);
  }

  /** The children of `s`, which is no year label and not '', are the leaves of the rows with sex label `s`. */
  lemma {:induction false} SexChildren(rows: seq<SunRow>, yearCounts: map<string, int>, sexCounts: map<string, int>, s: string)
    requires Covered(rows, yearCounts, sexCounts)
    requires s != "" && forall r | r in rows :: YearLabel(r) != s
    ensures ChildSum(Emit(rows, yearCounts, sexCounts).parents, Emit(rows, yearCounts, sexCounts).values, s)
      == LevelSum(rows, SexLevel, s)
    decreases |rows|
  {
    if rows != [] {
      var p, r := rows[..|rows| - 1], rows[|rows| - 1];
      assert rows == p + [r];
      EmitSnoc(p, r, yearCounts, sexCounts);
      SexChildren(p, yearCounts, sexCounts, s);
      EmitRowChildSum(Emit(p, yearCounts, sexCounts), r, yearCounts, sexCounts, s);
    }
  }

  /** The sex labels of the rows of year `y`, in row order. */
  function SexLabelsOf(rows: seq<SunRow>, y: string): (ls: seq<string>)
    ensures forall l :: l in ls <==> exists r | r in rows :: r.year == y && SexLabel(r) == l
    decreases |rows|
  {
    if rows == [] then []
    else
      var p, r := rows[..|rows| - 1], rows[|rows| - 1];
      assert rows == p + [r];
      SexLabelsOf(p, y) + (if r.year == y then [SexLabel(r)] else [])
  }

  /** The sum of `m[l]` over the labels of `ls`. */
  function SumOver(ls: seq<string>, m: map<string, int>): int
    requires forall l | l in ls :: l in m
    decreases |ls|
  {
    if ls == [] then 0 else SumOver(ls[..|ls| - 1], m) + m[ls[|ls| - 1]]
  }

  /** Labels that a sex label can never be confused with. */
  ghost predicate SexLabelsSeparate(rows: seq<SunRow>) {
    forall a, b | a in rows && b in rows ::
      && SexLabel(a) != YearLabel(b)
      && SexLabel(a) != LeafLabel(b)
      && (SexLabel(a) == SexLabel(b) ==> a.year == b.year)
  }

  /** `[...new Set(s)]` meets one more value. */
  lemma {:induction false} DistinctSnoc(s: seq<string>, x: string)
    ensures Distinct(s + [x]) == if x in s then Distinct(s) else Distinct(s) + [x]
  {
    assert (s + [x])[..|s|] == s;
  }

  /** Summing over one more label. */
  lemma {:induction false} SumOverSnoc(ls: seq<string>, m: map<string, int>, x: string)
    requires forall l | l in ls :: l in m
    requires x in m
    ensures SumOver(ls + [x], m) == SumOver(ls, m) + m[x]
  {
    assert (ls + [x])[..|ls|] == ls;
  }

  /** With separate labels, the sex label of `r` is already a node exactly when an earlier row of its year has it. */
  lemma {:induction false} SexLabelSeen(p: seq<SunRow>, r: SunRow, yearCounts: map<string, int>, sexCounts: map<string, int>)
    requires Covered(p, yearCounts, sexCounts)
    requires SexLabelsSeparate(p + [r])
    ensures SexLabel(r) in Emit(p, yearCounts, sexCounts).labels <==> SexLabel(r) in SexLabelsOf(p, r.year)
  {
    EmitLabels(p, yearCounts, sexCounts);
    var l := SexLabel(r);
    if l in Emit(p, yearCounts, sexCounts).labels {
      var x :| x in p && RowLabel(x, l);
      assert x in p + [r] && r in p + [r];
      assert SexLabel(x) == l && x.year == r.year;
    }
    if l in SexLabelsOf(p, r.year) {
      var x :| x in p && x.year == r.year && SexLabel(x) == l;
      assert RowLabel(x, l);
    }
  }

  /** What one more row adds to the children of the year node `y`, and to the sum over the year's sex labels. */
  lemma {:induction false} YearChildStep(p: seq<SunRow>, r: SunRow, yearCounts: map<string, int>, sexCounts: map<string, int>, y: string)
    requires Covered(p + [r], yearCounts, sexCounts)
    requires SexLabelsSeparate(p + [r])
    requires y != "" && SexLabel(r) != y
    requires forall l | l in Distinct(SexLabelsOf(p, y)) :: l in sexCounts
    ensures Covered(p, yearCounts, sexCounts)
    ensures forall l | l in Distinct(SexLabelsOf(p + [r], y)) :: l in sexCounts
    ensures ChildSum(Emit(p + [r], yearCounts, sexCounts).parents, Emit(p + [r], yearCounts, sexCounts).values, y)
      - ChildSum(Emit(p, yearCounts, sexCounts).parents, Emit(p, yearCounts, sexCounts).values, y)
      == SumOver(Distinct(SexLabelsOf(p + [r], y)), sexCounts) - SumOver(Distinct(SexLabelsOf(p, y)), sexCounts)
  {
    var rows := p + [r];
    assert rows[..|rows| - 1] == p && rows[|rows| - 1] == r;
    EmitSnoc(p, r, yearCounts, sexCounts);
    EmitRowChildSum(Emit(p, yearCounts, sexCounts), r, yearCounts, sexCounts, y);
    var before := SexLabelsOf(p, y);
    if r.year == y {
      assert SexLabelsOf(rows, y) == before + [SexLabel(r)];
      SexLabelSeen(p, r, yearCounts, sexCounts);
      DistinctSnoc(before, SexLabel(r));
      SumOverSnoc(Distinct(before), sexCounts, SexLabel(r));
    } else {
      assert SexLabelsOf(rows, y) == before;
    }
  }

  /** Separate labels stay separate without the last row. */
  lemma {:induction false} SexLabelsSeparateDropLast(p: seq<SunRow>, r: SunRow)
    requires SexLabelsSeparate(p + [r])
    ensures SexLabelsSeparate(p)
  {
    forall a, b | a in p && b in p
      ensures SexLabel(a) != YearLabel(b) && SexLabel(a) != LeafLabel(b) && (SexLabel(a) == SexLabel(b) ==> a.year == b.year)
    {
      assert a in p + [r] && b in p + [r];
    }
  }

  /** The children of the year node `y` sum to the first-pass totals of that year's distinct sex labels; `YearChildNodes` and `SexNodes` say which nodes they are. */
  lemma {:induction false} YearChildren(rows: seq<SunRow>, yearCounts: map<string, int>, sexCounts: map<string, int>, y: string)
    requires Covered(rows, yearCounts, sexCounts)
    requires SexLabelsSeparate(rows)
    requires y != "" && forall r | r in rows :: SexLabel(r) != y
    ensures forall l | l in Distinct(SexLabelsOf(rows, y)) :: l in sexCounts
    ensures ChildSum(Emit(rows, yearCounts, sexCounts).parents, Emit(rows, yearCounts, sexCounts).values, y)
      == SumOver(Distinct(SexLabelsOf(rows, y)), sexCounts)
    decreases |rows|
  {
    if rows != [] {
      var p, r := rows[..|rows| - 1], rows[|rows| - 1];
      assert rows == p + [r];
      SexLabelsSeparateDropLast(p, r);
      YearChildren(p, yearCounts, sexCounts, y);
      YearChildStep(p, r, yearCounts, sexCounts, y);
    }
  }

  /** A node whose parent is the year `y` is the sex node of a row of that year. */
  lemma {:induction false} YearChildNodes(rows: seq<SunRow>, yearCounts: map<string, int>, sexCounts: map<string, int>, y: string)
    requires Covered(rows, yearCounts, sexCounts)
    requires y != "" && forall r | r in rows :: SexLabel(r) != y
    ensures var b := Emit(rows, yearCounts, sexCounts);
      forall i | 0 <= i < |b.labels| && b.parents[i] == y ::
        exists r | r in rows :: r.year == y && SexNode(b, i, r, sexCounts)
  {
    var b := Emit(rows, yearCounts, sexCounts);
    EmitNodes(rows, yearCounts, sexCounts);
    forall i | 0 <= i < |b.labels| && b.parents[i] == y
      ensures exists r | r in rows :: r.year == y && SexNode(b, i, r, sexCounts)
    {
      assert NodeOfRows(b, i, rows, yearCounts, sexCounts);
      var r :| r in rows && (YearNode(b, i, r, yearCounts) || SexNode(b, i, r, sexCounts) || LeafNode(b, i, r));
      assert SexNode(b, i, r, sexCounts);
    }
  }

  /** The sum of `Count` over the rows whose sex label is one of `ls`. */
  function SumIn(rows: seq<SunRow>, ls: seq<string>): int
    decreases |rows|
  {
    if rows == [] then 0
    else
      var r := rows[|rows| - 1];
      SumIn(rows[..|rows| - 1], ls) + (if SexLabel(r) in ls then r.count else 0)
  }

  lemma {:induction false} SumInAppend(rows: seq<SunRow>, ls: seq<string>, x: string)
    requires x !in ls
    ensures SumIn(rows, ls + [x]) == SumIn(rows, ls) + LevelSum(rows, SexLevel, x)
    decreases |rows|
  {
    if rows != [] {
      SumInAppend(rows[..|rows| - 1], ls, x);
    }
  }

  /** Summing the per-label sums of distinct labels sums the rows that carry one of them. */
  lemma {:induction false} SumOverSums(rows: seq<SunRow>, ls: seq<string>, m: map<string, int>)
    requires NoDup(ls)
    requires forall l | l in ls :: l in m && m[l] == LevelSum(rows, SexLevel, l)
    ensures SumOver(ls, m) == SumIn(rows, ls)
    decreases |ls|
  {
    if ls == [] {
      SumInNone(rows, ls);
    } else {
      var front, x := ls[..|ls| - 1], ls[|ls| - 1];
      assert ls == front + [x];
      SumOverSums(rows, front, m);
      SumInAppend(rows, front, x);
    }
  }

  lemma {:induction false} SumInNone(rows: seq<SunRow>, ls: seq<string>)
    requires ls == []
    ensures SumIn(rows, ls) == 0
    decreases |rows|
  {
    if rows != [] {
      SumInNone(rows[..|rows| - 1], ls);
    }
  }

  /** When the labels in `ls` are exactly the sex labels of the year `y`, they sum to the year's rows. */
  lemma {:induction false} SumInYear(rows: seq<SunRow>, ls: seq<string>, y: string)
    requires forall r | r in rows :: SexLabel(r) in ls <==> r.year == y
    ensures SumIn(rows, ls) == LevelSum(rows, YearLevel, y)
    decreases |rows|
  {
    if rows != [] {
      var p, r := rows[..|rows| - 1], rows[|rows| - 1];
      assert rows == p + [r];
      SumInYear(p, ls, y);
    }
  }

  /**
    The labels of the three kinds of node never collide, the year is never
    empty, and rows with the same sex label have the same year.
  */
  ghost predicate Separate(rows: seq<SunRow>) {
    && SexLabelsSeparate(rows)
    && forall a, b | a in rows && b in rows :: YearLabel(a) != "" && YearLabel(a) != LeafLabel(b)
  }

  /** A label of no row at a level sums to 0. */
  lemma {:induction false} LevelSumOfAbsent(rows: seq<SunRow>, level: Level, l: string)
    requires !Occurs(rows, level, l)
    ensures LevelSum(rows, level, l) == 0
  {
    TotalsAreSums(rows, level);
  }

  /** The dictionaries hold the level sums of `rows`, as the first pass leaves them. */
  ghost predicate HoldsSums(rows: seq<SunRow>, yearCounts: map<string, int>, sexCounts: map<string, int>) {
    && (forall l | l in yearCounts :: yearCounts[l] == LevelSum(rows, YearLevel, l))
    && (forall l | l in sexCounts :: sexCounts[l] == LevelSum(rows, SexLevel, l))
  }

  /** The first pass leaves the level sums. */
  lemma {:induction false} TotalsHoldSums(rows: seq<SunRow>)
    ensures Covered(rows, Totals(rows, YearLevel), Totals(rows, SexLevel))
    ensures HoldsSums(rows, Totals(rows, YearLevel), Totals(rows, SexLevel))
  {
    TotalsCovered(rows);
    TotalsAreSums(rows, YearLevel);
    TotalsAreSums(rows, SexLevel);
  }

  /** A node labelled with the year of `r` is that year's node. */
  lemma {:induction false} YearNodeAt(rows: seq<SunRow>, yearCounts: map<string, int>, sexCounts: map<string, int>, i: int, r: SunRow)
    requires Separate(rows) && Covered(rows, yearCounts, sexCounts) && HoldsSums(rows, yearCounts, sexCounts)
    requires r in rows && 0 <= i < |Emit(rows, yearCounts, sexCounts).labels|
    requires Emit(rows, yearCounts, sexCounts).labels[i] == YearLabel(r)
    ensures Emit(rows, yearCounts, sexCounts).parents[i] == ""
    ensures Emit(rows, yearCounts, sexCounts).values[i] == LevelSum(rows, YearLevel, YearLabel(r))
  {
    var b := Emit(rows, yearCounts, sexCounts);
    EmitNodes(rows, yearCounts, sexCounts);
    assert NodeOfRows(b, i, rows, yearCounts, sexCounts);
    var x :| x in rows && (YearNode(b, i, x, yearCounts) || SexNode(b, i, x, sexCounts) || LeafNode(b, i, x));
    assert YearNode(b, i, x, yearCounts);
  }

  /** The children of a year's node sum to the year's counts. */
  lemma {:induction false} YearChildSum(rows: seq<SunRow>, yearCounts: map<string, int>, sexCounts: map<string, int>, r: SunRow)
    requires Separate(rows) && Covered(rows, yearCounts, sexCounts) && HoldsSums(rows, yearCounts, sexCounts)
    requires r in rows
    ensures ChildSum(Emit(rows, yearCounts, sexCounts).parents, Emit(rows, yearCounts, sexCounts).values, YearLabel(r))
      == LevelSum(rows, YearLevel, YearLabel(r))
  {
    var y := YearLabel(r);
    YearChildren(rows, yearCounts, sexCounts, y);
    var ls := Distinct(SexLabelsOf(rows, y));
    SumOverSums(rows, ls, sexCounts);
    forall x | x in rows
      ensures SexLabel(x) in ls <==> x.year == y
    {
      if SexLabel(x) in ls {
        var x' :| x' in rows && x'.year == y && SexLabel(x') == SexLabel(x);
      }
    }
    SumInYear(rows, ls, y);
  }

  /** With separate labels, a year of the rows is pushed once. */
  lemma {:induction false} YearOnce(rows: seq<SunRow>, r: SunRow)
    requires Separate(rows) && r in rows
    ensures multiset(SunburstOf(rows).labels)[YearLabel(r)] == 1
  {
    TotalsCovered(rows);
    InteriorOnce(rows, Totals(rows, YearLevel), Totals(rows, SexLevel), YearLevel, YearLabel(r));
    assert LevelLabel(YearLevel, r) == YearLabel(r);
  }

  /** With separate labels, the node of a year hangs from the root, with the year's sum, the sum of its children. */
  lemma {:induction false} YearNodeOf(rows: seq<SunRow>, i: int, r: SunRow)
    requires Separate(rows) && r in rows
    requires 0 <= i < |SunburstOf(rows).labels| && SunburstOf(rows).labels[i] == YearLabel(r)
    ensures SunburstOf(rows).parents[i] == ""
    ensures SunburstOf(rows).values[i] == LevelSum(rows, YearLevel, YearLabel(r))
    ensures SunburstOf(rows).values[i] == ChildSum(SunburstOf(rows).parents, SunburstOf(rows).values, YearLabel(r))
  {
    var yc, sc := Totals(rows, YearLevel), Totals(rows, SexLevel);
    TotalsHoldSums(rows);
    YearNodeAt(rows, yc, sc, i, r);
    YearChildSum(rows, yc, sc, r);
  }

  /**
    Lines 70-74: with separate labels, each year of the rows has exactly one
    node, with parent '', whose value is the sum of the year's counts and also
    the sum of the values of its children.
  */
  lemma {:induction false} YearNodes(rows: seq<SunRow>)
    requires Separate(rows)
    ensures var b := SunburstOf(rows);
      && (forall r | r in rows :: multiset(b.labels)[YearLabel(r)] == 1)
      && (forall i, r | 0 <= i < |b.labels| && r in rows && b.labels[i] == YearLabel(r) ::
            && b.parents[i] == ""
            && b.values[i] == LevelSum(rows, YearLevel, YearLabel(r))
            && b.values[i] == ChildSum(b.parents, b.values, b.labels[i]))
  {
    YearLabelsOnce(rows);
    YearNodeValues(rows);
  }

  /** Every year label of the rows is pushed once. */
  lemma {:induction false} YearLabelsOnce(rows: seq<SunRow>)
    requires Separate(rows)
    ensures forall r | r in rows :: multiset(SunburstOf(rows).labels)[YearLabel(r)] == 1
  {
    forall r | r in rows
      ensures multiset(SunburstOf(rows).labels)[YearLabel(r)] == 1
    {
      YearOnce(rows, r);
    }
  }

  /** Every node carrying a year label has the parent and the values of that label's node. */
  lemma {:induction false} YearNodeValues(rows: seq<SunRow>)
    requires Separate(rows)
    ensures var b := SunburstOf(rows);
      forall i, r | 0 <= i < |b.labels| && r in rows && b.labels[i] == YearLabel(r) ::
        && b.parents[i] == ""
        && b.values[i] == LevelSum(rows, YearLevel, YearLabel(r))
        && b.values[i] == ChildSum(b.parents, b.values, b.labels[i])
  {
    var b := SunburstOf(rows);
    forall i, r | 0 <= i < |b.labels| && r in rows && b.labels[i] == YearLabel(r)
      ensures b.parents[i] == ""
      ensures b.values[i] == LevelSum(rows, YearLevel, YearLabel(r))
      ensures b.values[i] == ChildSum(b.parents, b.values, b.labels[i])
    {
      YearNodeOf(rows, i, r);
    }
  }



  /** A node labelled with the sex label of `r` is that label's node. */
  lemma {:induction false} SexNodeAt(rows: seq<SunRow>, yearCounts: map<string, int>, sexCounts: map<string, int>, i: int, r: SunRow)
    requires Separate(rows) && Covered(rows, yearCounts, sexCounts) && HoldsSums(rows, yearCounts, sexCounts)
    requires r in rows && 0 <= i < |Emit(rows, yearCounts, sexCounts).labels|
    requires Emit(rows, yearCounts, sexCounts).labels[i] == SexLabel(r)
    ensures Emit(rows, yearCounts, sexCounts).parents[i] == YearLabel(r)
    ensures Emit(rows, yearCounts, sexCounts).values[i] == LevelSum(rows, SexLevel, SexLabel(r))
  {
    var b := Emit(rows, yearCounts, sexCounts);
    EmitNodes(rows, yearCounts, sexCounts);
    assert NodeOfRows(b, i, rows, yearCounts, sexCounts);
    var x :| x in rows && (YearNode(b, i, x, yearCounts) || SexNode(b, i, x, sexCounts) || LeafNode(b, i, x));
    assert SexNode(b, i, x, sexCounts);
    assert x.year == r.year;
  }

  /** With separate labels, a sex label of the rows is pushed once. */
  lemma {:induction false} SexOnce(rows: seq<SunRow>, r: SunRow)
    requires Separate(rows) && r in rows
    ensures multiset(SunburstOf(rows).labels)[SexLabel(r)] == 1
  {
    TotalsCovered(rows);
    InteriorOnce(rows, Totals(rows, YearLevel), Totals(rows, SexLevel), SexLevel, SexLabel(r));
    assert LevelLabel(SexLevel, r) == SexLabel(r);
  }

  /** With separate labels, the node of a sex label hangs from its year, with the label's sum, the sum of its children. */
  lemma {:induction false} SexNodeOf(rows: seq<SunRow>, i: int, r: SunRow)
    requires Separate(rows) && r in rows
    requires 0 <= i < |SunburstOf(rows).labels| && SunburstOf(rows).labels[i] == SexLabel(r)
    ensures SunburstOf(rows).parents[i] == YearLabel(r)
    ensures SunburstOf(rows).values[i] == LevelSum(rows, SexLevel, SexLabel(r))
    ensures SunburstOf(rows).values[i] == ChildSum(SunburstOf(rows).parents, SunburstOf(rows).values, SexLabel(r))
  {
    var yc, sc := Totals(rows, YearLevel), Totals(rows, SexLevel);
    TotalsHoldSums(rows);
    SexNodeAt(rows, yc, sc, i, r);
    SexChildren(rows, yc, sc, SexLabel(r));
  }

  /**
    Lines 77-81: with separate labels, each sex label of the rows has exactly
    one node, whose parent is its year and whose value is the sum of the counts
    of its rows and also the sum of the values of its children.
  */
  lemma {:induction false} SexNodes(rows: seq<SunRow>)
    requires Separate(rows)
    ensures var b := SunburstOf(rows);
      && (forall r | r in rows :: multiset(b.labels)[SexLabel(r)] == 1)
      && (forall i, r | 0 <= i < |b.labels| && r in rows && b.labels[i] == SexLabel(r) ::
            && b.parents[i] == YearLabel(r)
            && b.values[i] == LevelSum(rows, SexLevel, SexLabel(r))
            && b.values[i] == ChildSum(b.parents, b.values, b.labels[i]))
  {
    SexLabelsOnce(rows);
    SexNodeValues(rows);
  }

  /** Every sex label of the rows is pushed once. */
  lemma {:induction false} SexLabelsOnce(rows: seq<SunRow>)
    requires Separate(rows)
    ensures forall r | r in rows :: multiset(SunburstOf(rows).labels)[SexLabel(r)] == 1
  {
    forall r | r in rows
      ensures multiset(SunburstOf(rows).labels)[SexLabel(r)] == 1
    {
      SexOnce(rows, r);
    }
  }

  /** Every node carrying a sex label has the parent and the values of that label's node. */
  lemma {:induction false} SexNodeValues(rows: seq<SunRow>)
    requires Separate(rows)
    ensures var b := SunburstOf(rows);
      forall i, r | 0 <= i < |b.labels| && r in rows && b.labels[i] == SexLabel(r) ::
        && b.parents[i] == YearLabel(r)
        && b.values[i] == LevelSum(rows, SexLevel, SexLabel(r))
        && b.values[i] == ChildSum(b.parents, b.values, b.labels[i])
  {
    var b := SunburstOf(rows);
    forall i, r | 0 <= i < |b.labels| && r in rows && b.labels[i] == SexLabel(r)
      ensures b.parents[i] == YearLabel(r)
      ensures b.values[i] == LevelSum(rows, SexLevel, SexLabel(r))
      ensures b.values[i] == ChildSum(b.parents, b.values, b.labels[i])
    {
      SexNodeOf(rows, i, r);
    }
  }



  /** With separate labels, a leaf has no children. */
  lemma {:induction false} LeavesHaveNoChildren(rows: seq<SunRow>)
    requires Separate(rows)
    ensures forall r | r in rows :: ChildSum(SunburstOf(rows).parents, SunburstOf(rows).values, LeafLabel(r)) == 0
  {
    var yc, sc := Totals(rows, YearLevel), Totals(rows, SexLevel);
    TotalsCovered(rows);
    forall r | r in rows
      ensures ChildSum(SunburstOf(rows).parents, SunburstOf(rows).values, LeafLabel(r)) == 0
    {
      SexChildren(rows, yc, sc, LeafLabel(r));
      LevelSumOfAbsent(rows, SexLevel, LeafLabel(r));
    }
  }

  /** The chart data of the rows: equal lengths and every parent before its child. */
  lemma {:induction false} SunburstShape(rows: seq<SunRow>)
    ensures var b := SunburstOf(rows);
      && |b.labels| == |b.parents| == |b.values|
      && ParentsEarlier(b)
  {
    TotalsCovered(rows);
    EmitParentsEarlier(rows, Totals(rows, YearLevel), Totals(rows, SexLevel));
  }

  /**
    The query's years are four characters long (`strftime('%Y', ...)`) and the
    sex codes contain no '-', which is enough for the labels to be separate.
  */
  lemma {:induction false} SeparateWhenYearsHaveFourChars(rows: seq<SunRow>)
    requires forall r | r in rows :: |r.year| == 4 && '-' !in Text(r.sex)
    ensures Separate(rows)
  {
    forall a, b | a in rows && b in rows
      ensures SexLabel(a) != LeafLabel(b)
      ensures SexLabel(a) == SexLabel(b) ==> a.year == b.year
    {
      var sa, sb := Text(a.sex), Text(b.sex);
      assert SexLabel(a)[..4] == a.year && SexLabel(a)[7..] == sa;
      assert SexLabel(b)[..4] == b.year;
      assert LeafLabel(b)[..4] == b.year && LeafLabel(b)[7..] == sb + " - " + Text(b.injury);
      assert (sb + " - " + Text(b.injury))[|sb| + 1] == '-';
    }
  }
}
