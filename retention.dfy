/** The retention computation from sheet to matrix: the required-column
    check, preparation, activity-column selection and ordering, the
    per-cohort aggregation loop that fills `cohort_data`, and the assembly
    of the matrix with its `Total usuarios`, `Mes 0` ... `Mes K-1` columns. */
module RetentionMatrix {
  import opened Wrappers
  import opened Seqs
  import opened Sheet
  import opened Columns
  import opened Cohorts
  import opened Labels

  /** Why the computation stops without a matrix. `MissingRequiredColumns`
      carries the column names the error message lists. `ShapeMismatch` is
      what `DataFrame.from_dict` raises when its longest row does not have
      one entry per column label. */
  datatype Halt = MissingRequiredColumns(listed: seq<string>) | NoActivityColumns | ShapeMismatch

  /** The retention DataFrame: column labels, the index (one cohort key per
      row) and the rows. A cell is `None` where pandas filled a short row
      with NaN. */
  datatype Matrix = Matrix(header: seq<string>, cohorts: seq<Date>, rows: seq<seq<Option<real>>>)

  /** The value `cohort_data[cohorte]` must hold for a group `g`: its
      distinct-user count, then one retention fraction per ordered activity
      column. */
  predicate IsCohortRow(row: seq<real>, g: seq<Record>, cols: seq<string>) {
    && |row| == 1 + |cols|
    && row[0] == Total(g) as real
    && forall i :: 0 <= i < |cols| ==> row[1 + i] == Retention(g, cols[i])
  }

  /** A matrix row that holds the cohort row of `g`, with no NaN filler. */
  predicate IsCohortCells(cells: seq<Option<real>>, g: seq<Record>, cols: seq<string>) {
    && |cells| == 1 + |cols|
    && cells[0] == Some(Total(g) as real)
    && forall i :: 0 <= i < |cols| ==> cells[1 + i] == Some(Retention(g, cols[i]))
  }

  /** Lines 56-66: visits the cohorts in `groupby` order and, for each, stores
      its user count followed by its fraction at every offset. `order` is the
      insertion order of the dictionary. */
  method AggregateCohorts(recs: seq<Record>, cols: seq<string>) returns (order: seq<Date>, cohortData: map<Date, seq<real>>)
    ensures order == CohortKeys(recs)
    ensures forall k :: k in cohortData <==> k in order
    ensures forall k :: k in cohortData ==> IsCohortRow(cohortData[k], Group(recs, k), cols)
  {
    var keys := CohortKeys(recs);
    order, cohortData := [], map[];
    var j := 0;
    while j < |keys|
      invariant 0 <= j <= |keys|
      invariant order == keys[..j]
      invariant forall k :: k in cohortData <==> k in order
      invariant forall k :: k in cohortData ==> IsCohortRow(cohortData[k], Group(recs, k), cols)
    {
      var cohort := keys[j];
      var group := Group(recs, cohort);
      var total := |Users(group)|;
      cohortData := cohortData[cohort := [total as real]];
      var i := 0;
      while i < |cols|
        invariant 0 <= i <= |cols|
        invariant forall k :: k in cohortData <==> k in order || k == cohort
        invariant forall k :: k in cohortData && k != cohort ==> IsCohortRow(cohortData[k], Group(recs, k), cols)
        invariant |cohortData[cohort]| == 1 + i && cohortData[cohort][0] == Total(group) as real
        invariant forall i' :: 0 <= i' < i ==> cohortData[cohort][1 + i'] == Retention(group, cols[i'])
      {
        var active := |ActiveUsers(group, cols[i])|;
        var fraction := if total > 0 then active as real / total as real else 0.0;
        assert fraction == Retention(group, cols[i]);
        cohortData := cohortData[cohort := cohortData[cohort] + [fraction]];
        i := i + 1;
      }
      order := order + [cohort];
      j := j + 1;
    }
  }

  /** The dictionary's values, in insertion order. */
  function DictRows(order: seq<Date>, data: map<Date, seq<real>>): (rows: seq<seq<real>>)
    requires forall k :: k in order ==> k in data
    ensures |rows| == |order| && forall j :: 0 <= j < |order| ==> rows[j] == data[order[j]]
  {
    seq(|order|, j requires 0 <= j < |order| => data[order[j]])
  }

  /** The length of the longest row: the width pandas gives the frame before
      it compares that width with the column labels. */
  function Width(rows: seq<seq<real>>): (w: nat)
    ensures forall j :: 0 <= j < |rows| ==> |rows[j]| <= w
    ensures rows != [] ==> exists j :: 0 <= j < |rows| && |rows[j]| == w
    ensures rows == [] ==> w == 0
  {
    if rows == [] then 0
    else
      var w := Width(rows[1..]);
      assert forall j :: 1 <= j < |rows| ==> rows[j] == rows[1..][j - 1];
      if |rows[0]| >= w then |rows[0]| else w
  }

  /** A row widened to `width` cells, NaN after its own entries. */
  function Padded(row: seq<real>, width: nat): seq<Option<real>>
    requires |row| <= width
  {
    seq(width, i requires 0 <= i < width => if i < |row| then Some(row[i]) else None)
  }

  /** Builds the DataFrame of `pd.DataFrame.from_dict(..., orient='index',
      columns=...)`: one row per key in insertion order, each row padded with
      NaN to the longest row's length. It fails when the dictionary is not
      empty and that length is not the number of labels. */
  function FromDict(order: seq<Date>, data: map<Date, seq<real>>, header: seq<string>): (r: Result<Matrix, Halt>)
    requires forall k :: k in order ==> k in data
    ensures r.Ok? <==> (order == [] ||
      ((forall j :: 0 <= j < |order| ==> |data[order[j]]| <= |header|)
       && (exists j :: 0 <= j < |order| && |data[order[j]]| == |header|)))
    ensures r.Err? ==> r.error == ShapeMismatch
    ensures r.Ok? ==>
      && r.value.header == header && r.value.cohorts == order && |r.value.rows| == |order|
      && forall j :: 0 <= j < |order| ==>
        && |r.value.rows[j]| == |header|
        && (forall i :: 0 <= i < |data[order[j]]| ==> r.value.rows[j][i] == Some(data[order[j]][i]))
        && (forall i :: |data[order[j]]| <= i < |header| ==> r.value.rows[j][i] == None)
  {
    var rows := DictRows(order, data);
    if order != [] && Width(rows) != |header| then Err(ShapeMismatch)
    else
      assert forall j :: 0 <= j < |order| ==> |rows[j]| <= |header|;
      Ok(Matrix(header, order, seq(|order|, j requires 0 <= j < |order| => Padded(data[order[j]], |header|))))
  }

  /** A ragged dictionary is not refused: its short row is filled with NaN. */
  lemma RaggedDictIsPadded(k1: Date, k2: Date)
    requires k1 != k2
    ensures var r := FromDict([k1, k2], map[k1 := [1.0, 0.5], k2 := [1.0]], [TotalLabel, OffsetLabel(0)]);
      r.Ok? && r.value.rows == [[Some(1.0), Some(0.5)], [Some(1.0), None]]
  {
    var order, data, header := [k1, k2], map[k1 := [1.0, 0.5], k2 := [1.0]], [TotalLabel, OffsetLabel(0)];
    assert data[order[0]] == [1.0, 0.5] && data[order[1]] == [1.0];
    var r := FromDict(order, data, header);
    assert r.Ok?;
    assert r.value.rows[0] == [Some(1.0), Some(0.5)];
    assert r.value.rows[1] == [Some(1.0), None];
  }

  /** Every row of the matrix has one entry per column label. */
  predicate Rectangular(m: Matrix) {
    |m.rows| == |m.cohorts| && forall j :: 0 <= j < |m.rows| ==> |m.rows[j]| == |m.header|
  }

  /** Lines 28-70, from the uploaded table to the retention matrix.
      `invalidDates` is the condition of the warning at line 35. */
  method ComputeRetention(t: Table) returns (result: Result<Matrix, Halt>, invalidDates: bool)
    ensures !HasRequiredColumns(t.columns) ==>
      result == Err(MissingRequiredColumns(RequiredColumns)) && !invalidDates
    ensures HasRequiredColumns(t.columns) ==> invalidDates == HasInvalidDates(t.rows)
    ensures HasRequiredColumns(t.columns) && ActivityColumns(t.columns) == [] ==>
      result == Err(NoActivityColumns)
    ensures HasRequiredColumns(t.columns) && ActivityColumns(t.columns) != [] ==> result.Ok?
    ensures result.Ok? ==>
      var recs, cols, m := Prepare(t.rows), OrderActivityColumns(ActivityColumns(t.columns)), result.value;
      && Rectangular(m)
      && m.header == Header(|cols|)
      && m.cohorts == CohortKeys(recs)
      && (forall j :: 0 <= j < |m.rows| ==> IsCohortCells(m.rows[j], Group(recs, m.cohorts[j]), cols))
      && (forall j, i :: 0 <= j < |m.rows| && 1 <= i < |m.rows[j]| ==>
            m.rows[j][i].Some? && 0.0 <= m.rows[j][i].value <= 1.0)
  {
    invalidDates := false;
    if !(forall c :: c in RequiredColumns ==> c in t.columns) {
      return Err(MissingRequiredColumns(RequiredColumns)), invalidDates;
    }
    invalidDates := exists i :: 0 <= i < |t.rows| && t.rows[i].regDate.None?;
    var recs := Prepare(t.rows);
    var activity := ActivityColumns(ColumnsAfterPrepare(t.columns));
    ActivityIgnoresCohortColumn(t.columns);
    if |activity| == 0 {
      return Err(NoActivityColumns), invalidDates;
    }
    var cols := OrderActivityColumns(activity);
    var order, cohortData := AggregateCohorts(recs, cols);
    var header := Header(|cols|);
    AssembleCohortRows(recs, cols, order, cohortData);
    result := FromDict(order, cohortData, header);
  }

  /** Rows produced by the aggregation always fit the header, so the
      DataFrame is built, holds exactly those rows and needs no NaN filler. */
  lemma AssembleCohortRows(recs: seq<Record>, cols: seq<string>, order: seq<Date>, data: map<Date, seq<real>>)
    requires forall k :: k in data <==> k in order
    requires forall k :: k in data ==> IsCohortRow(data[k], Group(recs, k), cols)
    ensures var r := FromDict(order, data, Header(|cols|));
      && r.Ok?
      && Rectangular(r.value)
      && (forall j :: 0 <= j < |r.value.rows| ==> IsCohortCells(r.value.rows[j], Group(recs, r.value.cohorts[j]), cols))
      && (forall j, i :: 0 <= j < |r.value.rows| && 1 <= i < |r.value.rows[j]| ==>
            r.value.rows[j][i].Some? && 0.0 <= r.value.rows[j][i].value <= 1.0)
  {
    var header := Header(|cols|);
    HeaderSpec(|cols|);
    assert forall j :: 0 <= j < |order| ==> |data[order[j]]| == |header|;
    if order != [] {
      assert |data[order[0]]| == |header|;
    }
    var m := FromDict(order, data, header).value;
    forall j | 0 <= j < |m.rows|
      ensures IsCohortCells(m.rows[j], Group(recs, m.cohorts[j]), cols)
      ensures forall i :: 1 <= i < |m.rows[j]| ==> m.rows[j][i].Some? && 0.0 <= m.rows[j][i].value <= 1.0
    {
      var row := data[order[j]];
      CohortRowBounds(row, Group(recs, order[j]), cols);
      assert forall i :: 0 <= i < |row| ==> m.rows[j][i] == Some(row[i]);
    }
  }

  /** Every entry after the first of a cohort row is a fraction in [0, 1],
      and it is 0 at every offset when the cohort has no user ids. */
  lemma CohortRowBounds(row: seq<real>, g: seq<Record>, cols: seq<string>)
    requires IsCohortRow(row, g, cols)
    ensures forall i :: 1 <= i < |row| ==> 0.0 <= row[i] <= 1.0
    ensures Total(g) == 0 ==> forall i :: 1 <= i < |row| ==> row[i] == 0.0
    ensures row[0] == |Users(g)| as real && 0.0 <= row[0] <= |g| as real
  {
    TotalAtMostRows(g);
    forall i | 1 <= i < |row| ensures 0.0 <= row[i] <= 1.0 && (Total(g) == 0 ==> row[i] == 0.0) {
      assert row[1 + (i - 1)] == Retention(g, cols[i - 1]);
    }
  }
}
