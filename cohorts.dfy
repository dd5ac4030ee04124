/** Rows to cohorts: dropping rows whose registration date did not parse,
    keying each kept row by the first day of its registration month,
    grouping by that key in ascending order, and counting a group's distinct
    users and distinct active users. */
module Cohorts {
  import opened Wrappers
  import opened Sheet
  import opened Seqs

  /** A row kept by preparation: `Fecha registro` parsed, `Mes cohorte` added. */
  datatype Record = Record(user: Option<string>, registered: Date, cohort: Date, cells: map<string, Cell>)

  /** Line 38: the cohort key of a date is the first day of its month. */
  function CohortOf(d: Date): Date {
    Date(d.year, d.month, 1)
  }

  /** The cohort key ignores the day: two dates share a key exactly when they
      share year and month. The key is the first of the month, never after
      the date, and keying a key gives the key back. */
  lemma CohortKeySpec(a: Date, b: Date)
    ensures CohortOf(a) == CohortOf(b) <==> a.year == b.year && a.month == b.month
    ensures CohortOf(a).day == 1 && !Before(a, CohortOf(a))
    ensures CohortOf(CohortOf(a)) == CohortOf(a)
  {
  }

  function KeepRow(row: Row, d: Date): Record {
    Record(row.user, d, CohortOf(d), row.cells)
  }

  /** Lines 34-38: parse the dates, `dropna` on `Fecha registro`, add `Mes cohorte`. */
  function Prepare(rows: seq<Row>): (r: seq<Record>)
    ensures |r| <= |rows|
    ensures forall i :: 0 <= i < |r| ==> r[i].cohort == CohortOf(r[i].registered)
  {
    if rows == [] then []
    else
      (match rows[0].regDate
       case None => []
       case Some(d) => [KeepRow(rows[0], d)])
      + Prepare(rows[1..])
  }

  predicate DateParsed(row: Row) {
    row.regDate.Some?
  }

  /** One record per row whose date parsed. */
  lemma {:induction false} PreparedCount(rows: seq<Row>)
    ensures |Prepare(rows)| == |Filter(rows, DateParsed)|
  {
    if rows != [] {
      PreparedCount(rows[1..]);
    }
  }

  /** Line 35: some row's registration date did not parse. */
  predicate HasInvalidDates(rows: seq<Row>) {
    exists i :: 0 <= i < |rows| && rows[i].regDate.None?
  }

  /** Preparation keeps exactly the rows whose date parsed, each turned into
      its record, and nothing else. */
  lemma {:induction false} PrepareKeepsParsedRows(rows: seq<Row>)
    ensures forall i :: 0 <= i < |rows| && rows[i].regDate.Some? ==>
      KeepRow(rows[i], rows[i].regDate.value) in Prepare(rows)
    ensures forall rec :: rec in Prepare(rows) ==>
      exists i :: 0 <= i < |rows| && rows[i].regDate == Some(rec.registered) && rec == KeepRow(rows[i], rec.registered)
  {
    if rows != [] {
      PrepareKeepsParsedRows(rows[1..]);
      var head := match rows[0].regDate case None => [] case Some(d) => [KeepRow(rows[0], d)];
      assert Prepare(rows) == head + Prepare(rows[1..]);
      forall i | 0 <= i < |rows| && rows[i].regDate.Some?
        ensures KeepRow(rows[i], rows[i].regDate.value) in Prepare(rows)
      {
        if i > 0 {
          assert rows[1..][i - 1] == rows[i];
        }
      }
      forall rec | rec in Prepare(rows)
        ensures exists i :: 0 <= i < |rows| && rows[i].regDate == Some(rec.registered) && rec == KeepRow(rows[i], rec.registered)
      {
        if rec in head {
          assert rows[0].regDate == Some(rec.registered);
        } else {
          var i :| 0 <= i < |rows[1..]| && rows[1..][i].regDate == Some(rec.registered) && rec == KeepRow(rows[1..][i], rec.registered);
          assert rows[i + 1] == rows[1..][i];
        }
      }
    }
  }

  /** The invalid-date warning is raised exactly when preparation drops a row. */
  lemma {:induction false} InvalidDatesIffRowsDropped(rows: seq<Row>)
    ensures HasInvalidDates(rows) <==> |Prepare(rows)| < |rows|
  {
    if rows != [] {
      InvalidDatesIffRowsDropped(rows[1..]);
      if HasInvalidDates(rows[1..]) {
        var i :| 0 <= i < |rows[1..]| && rows[1..][i].regDate.None?;
        assert rows[i + 1].regDate.None?;
      }
      if HasInvalidDates(rows) && rows[0].regDate.Some? {
        var i :| 0 <= i < |rows| && rows[i].regDate.None?;
        assert rows[1..][i - 1].regDate.None?;
      }
      if rows[0].regDate.None? {
        assert HasInvalidDates(rows);
      }
    }
  }

  /** Preparation works row by row: it commutes with splitting the sheet. */
  lemma {:induction false} PrepareAppend(a: seq<Row>, b: seq<Row>)
    ensures Prepare(a + b) == Prepare(a) + Prepare(b)
  {
    if a == [] {
      assert a + b == b;
    } else {
      assert (a + b)[0] == a[0];
      assert (a + b)[1..] == a[1..] + b;
      PrepareAppend(a[1..], b);
    }
  }

  predicate StrictlySorted(keys: seq<Date>) {
    forall i, j :: 0 <= i < j < |keys| ==> Before(keys[i], keys[j])
  }

  /** The cohort keys of some records. */
  function CohortSet(recs: seq<Record>): set<Date> {
    set rec | rec in recs :: rec.cohort
  }

  /** Adds `k` to an ascending list of distinct keys. */
  function Insert(k: Date, keys: seq<Date>): (r: seq<Date>)
    requires StrictlySorted(keys)
    ensures StrictlySorted(r)
    ensures forall x :: x in r <==> x == k || x in keys
  {
    if keys == [] then [k]
    else if k == keys[0] then keys
    else if Before(k, keys[0]) then [k] + keys
    else
      assert Before(keys[0], k);
      var rest := Insert(k, keys[1..]);
      assert forall x :: x in rest ==> Before(keys[0], x) by {
        forall x | x in keys[1..] ensures Before(keys[0], x) {
          var j :| 0 <= j < |keys[1..]| && keys[1..][j] == x;
          assert keys[j + 1] == x;
        }
      }
      [keys[0]] + rest
  }

  /** The keys `df.groupby('Mes cohorte')` visits: each cohort key once, ascending. */
  function CohortKeys(recs: seq<Record>): (r: seq<Date>)
    ensures StrictlySorted(r)
    ensures forall k :: k in r <==> k in CohortSet(recs)
  {
    if recs == [] then []
    else
      assert CohortSet(recs) == {recs[0].cohort} + CohortSet(recs[1..]) by {
        assert recs == [recs[0]] + recs[1..];
      }
      Insert(recs[0].cohort, CohortKeys(recs[1..]))
  }

  /** The group of cohort `k`: its records, in sheet order. */
  function Group(recs: seq<Record>, k: Date): (g: seq<Record>)
    ensures |g| <= |recs|
    ensures forall rec :: rec in g <==> rec in recs && rec.cohort == k
  {
    if recs == [] then []
    else (if recs[0].cohort == k then [recs[0]] else []) + Group(recs[1..], k)
  }

  lemma StrictlySortedDistinct(keys: seq<Date>)
    requires StrictlySorted(keys)
    ensures Distinct(keys)
  {
    forall i, j | 0 <= i < j < |keys| ensures keys[i] != keys[j] {
      assert Before(keys[i], keys[j]);
    }
  }

  /** Every record belongs to the group of exactly one visited cohort key. */
  lemma EachRecordInExactlyOneGroup(recs: seq<Record>, rec: Record)
    requires rec in recs
    ensures exists j :: 0 <= j < |CohortKeys(recs)| && rec in Group(recs, CohortKeys(recs)[j])
    ensures forall j, j' ::
      (0 <= j < |CohortKeys(recs)| && 0 <= j' < |CohortKeys(recs)|
       && rec in Group(recs, CohortKeys(recs)[j]) && rec in Group(recs, CohortKeys(recs)[j'])) ==> j == j'
  {
    var keys := CohortKeys(recs);
    assert rec.cohort in CohortSet(recs);
    var j :| 0 <= j < |keys| && keys[j] == rec.cohort;
    assert rec in Group(recs, keys[j]);
    StrictlySortedDistinct(keys);
  }

  /** No visited cohort has an empty group. */
  lemma NoEmptyGroup(recs: seq<Record>, k: Date)
    requires k in CohortKeys(recs)
    ensures |Group(recs, k)| >= 1
  {
    var rec :| rec in recs && rec.cohort == k;
    assert rec in Group(recs, k);
  }

  /** Sum of the group sizes over a list of keys. */
  function GroupSizes(recs: seq<Record>, keys: seq<Date>): nat {
    if keys == [] then 0 else |Group(recs, keys[0])| + GroupSizes(recs, keys[1..])
  }

  /** How many keys of a duplicate-free list equal `k`. */
  lemma {:induction false} CountKey(recs: seq<Record>, rec: Record, keys: seq<Date>)
    requires Distinct(keys)
    ensures GroupSizes([rec] + recs, keys) == GroupSizes(recs, keys) + (if rec.cohort in keys then 1 else 0)
  {
    if keys != [] {
      assert Distinct(keys[1..]) by {
        forall i, j | 0 <= i < j < |keys[1..]| ensures keys[1..][i] != keys[1..][j] {
          assert keys[1..][i] == keys[i + 1] && keys[1..][j] == keys[j + 1];
        }
      }
      CountKey(recs, rec, keys[1..]);
      assert keys[0] !in keys[1..] by {
        forall k | 0 <= k < |keys[1..]| ensures keys[1..][k] != keys[0] {
          assert keys[1..][k] == keys[k + 1];
        }
      }
      assert ([rec] + recs)[1..] == recs;
      assert rec.cohort in keys <==> rec.cohort == keys[0] || rec.cohort in keys[1..];
    }
  }

  lemma {:induction false} GroupSizesCover(recs: seq<Record>, keys: seq<Date>)
    requires Distinct(keys)
    requires forall rec :: rec in recs ==> rec.cohort in keys
    ensures GroupSizes(recs, keys) == |recs|
  {
    if recs == [] {
      GroupSizesOfNothing(keys);
    } else {
      assert recs == [recs[0]] + recs[1..];
      GroupSizesCover(recs[1..], keys);
      CountKey(recs[1..], recs[0], keys);
    }
  }

  lemma {:induction false} GroupSizesOfNothing(keys: seq<Date>)
    ensures GroupSizes([], keys) == 0
  {
    if keys != [] {
      GroupSizesOfNothing(keys[1..]);
    }
  }

  /** The cohort groups partition the records exactly: their sizes add up to
      the number of records. */
  lemma {:induction false} PartitionIsExact(recs: seq<Record>)
    ensures GroupSizes(recs, CohortKeys(recs)) == |recs|
  {
    var keys := CohortKeys(recs);
    StrictlySortedDistinct(keys);
    forall rec | rec in recs ensures rec.cohort in keys {
      assert rec.cohort in CohortSet(recs);
    }
    GroupSizesCover(recs, keys);
  }

  /** The distinct user ids of a group, blank ids left out. */
  function Users(g: seq<Record>): set<string> {
    set rec | rec in g && rec.user.Some? :: rec.user.value
  }

  /** Line 64: a cell is active when it holds a number above zero. Text and
      blank cells are treated as 0, so they are never active. */
  predicate IsActive(c: Cell) {
    c.Num? && c.value > 0.0
  }

  /** The users of `g` with a positive number in column `col`. */
  function ActiveUsers(g: seq<Record>, col: string): (r: set<string>)
    ensures r <= Users(g)
  {
    set rec | rec in g && rec.user.Some? && IsActive(CellAt(rec.cells, col)) :: rec.user.value
  }

  lemma SubsetCardinality(a: set<string>, b: set<string>)
    requires a <= b
    ensures |a| <= |b|
  {
    assert b == a + (b - a);
  }

  /** Line 59: the number of distinct user ids in a group. */
  function Total(g: seq<Record>): nat {
    |Users(g)|
  }

  /** Line 64: the number of distinct user ids whose cell in `col` is active. */
  function Active(g: seq<Record>, col: string): (n: nat)
    ensures n <= Total(g)
  {
    SubsetCardinality(ActiveUsers(g, col), Users(g));
    |ActiveUsers(g, col)|
  }

  /** `nunique` counts a user once however many of the group's rows carry
      it, and never counts a missing id. */
  lemma TotalOfAppendedRecord(g: seq<Record>, rec: Record)
    ensures Total(g + [rec]) == Total(g) + (if rec.user.Some? && rec.user.value !in Users(g) then 1 else 0)
  {
    if rec.user.Some? {
      assert Users(g + [rec]) == Users(g) + {rec.user.value};
      assert rec.user.value !in Users(g) ==> |Users(g) + {rec.user.value}| == |Users(g)| + 1;
    } else {
      assert Users(g + [rec]) == Users(g);
    }
  }

  /** A user is active at a column when at least one of its rows has an
      active cell there; rows without an id, and inactive cells, add nobody. */
  lemma ActiveOfAppendedRecord(g: seq<Record>, rec: Record, col: string)
    ensures Active(g + [rec], col) == Active(g, col) +
      (if rec.user.Some? && IsActive(CellAt(rec.cells, col)) && rec.user.value !in ActiveUsers(g, col) then 1 else 0)
  {
    if rec.user.Some? && IsActive(CellAt(rec.cells, col)) {
      assert ActiveUsers(g + [rec], col) == ActiveUsers(g, col) + {rec.user.value};
      assert rec.user.value !in ActiveUsers(g, col) ==>
        |ActiveUsers(g, col) + {rec.user.value}| == |ActiveUsers(g, col)| + 1;
    } else {
      assert ActiveUsers(g + [rec], col) == ActiveUsers(g, col);
    }
  }

  /** A group never has more users than rows. */
  lemma {:induction false} TotalAtMostRows(g: seq<Record>)
    ensures Total(g) <= |g|
  {
    if g != [] {
      var init := g[..|g| - 1];
      assert g == init + [g[|g| - 1]];
      TotalAtMostRows(init);
      TotalOfAppendedRecord(init, g[|g| - 1]);
    }
  }

  /** Line 65: the active count divided by the user count, or 0 for a group
      without users. */
  function Retention(g: seq<Record>, col: string): (f: real)
    ensures 0.0 <= f <= 1.0
    ensures Total(g) == 0 ==> f == 0.0
    ensures Total(g) > 0 ==> f * (Total(g) as real) == Active(g, col) as real
  {
    if Total(g) > 0 then Active(g, col) as real / Total(g) as real else 0.0
  }
}
