/** Column handling of the retention computation: the required-column check,
    the choice of activity columns, and the order in which activity columns
    become month offsets (Spanish month abbreviations first, in calendar
    order, then every other column in sheet order). */
module Columns {
  import opened Seqs

  const UserColumn := "Usuario"
  const DateColumn := "Fecha registro"
  const CohortColumn := "Mes cohorte"

  /** Columns the sheet must have; the error message lists both, always. */
  const RequiredColumns: seq<string> := [UserColumn, DateColumn]

  /** Columns that are never activity columns. */
  const KeyColumns: seq<string> := [UserColumn, DateColumn, CohortColumn]

  /** The recognised month abbreviations, in calendar order. */
  const MonthOrder: seq<string> :=
    ["Ene", "Feb", "Mar", "Abr", "May", "Jun", "Jul", "Ago", "Sep", "Oct", "Nov", "Dic"]

  /** Line 29: every required column name occurs among the sheet's columns. */
  predicate HasRequiredColumns(columns: seq<string>) {
    forall c :: c in RequiredColumns ==> c in columns
  }

  lemma HasRequiredColumnsMeaning(columns: seq<string>)
    ensures HasRequiredColumns(columns) <==> UserColumn in columns && DateColumn in columns
  {
    assert RequiredColumns[0] == UserColumn && RequiredColumns[1] == DateColumn;
  }

  /** The column list after `df['Mes cohorte'] = ...`: an existing
      `Mes cohorte` column is overwritten in place, otherwise a new one is
      appended at the end. */
  function ColumnsAfterPrepare(columns: seq<string>): (r: seq<string>)
    ensures CohortColumn in r
    ensures forall c :: c in r <==> c in columns || c == CohortColumn
  {
    if CohortColumn in columns then columns else columns + [CohortColumn]
  }

  predicate IsActivity(c: string) {
    c !in KeyColumns
  }

  predicate IsMonth(c: string) {
    c in MonthOrder
  }

  predicate NotMonth(c: string) {
    c !in MonthOrder
  }

  /** Line 41: the columns other than the three key columns, in sheet order. */
  function ActivityColumns(columns: seq<string>): seq<string> {
    Filter(columns, IsActivity)
  }

  /** Line 50: the month abbreviations that occur among the activity columns,
      in calendar order. */
  function PresentMonths(activity: seq<string>): seq<string> {
    Filter(MonthOrder, m => m in activity)
  }

  /** Line 52: the activity columns that are not month abbreviations, in
      their own order. */
  function OtherColumns(activity: seq<string>): seq<string> {
    Filter(activity, NotMonth)
  }

  /** Line 53: the months first, then the other activity columns. Position i
      of this list is month offset i. */
  function OrderActivityColumns(activity: seq<string>): seq<string> {
    PresentMonths(activity) + OtherColumns(activity)
  }

  /** The activity columns are exactly the sheet's columns other than the
      three key columns, each as often as in the sheet and in sheet order. */
  lemma ActivityColumnsSpec(columns: seq<string>)
    ensures forall c :: c in ActivityColumns(columns) <==> c in columns && c !in KeyColumns
    ensures Subsequence(ActivityColumns(columns), columns)
    ensures forall c :: c !in KeyColumns ==>
      multiset(ActivityColumns(columns))[c] == multiset(columns)[c]
    ensures Distinct(columns) ==> Distinct(ActivityColumns(columns))
  {
    FilterIsSubsequence(columns, IsActivity);
    forall c | c !in KeyColumns
      ensures multiset(ActivityColumns(columns))[c] == multiset(columns)[c]
    {
      FilterMultiplicity(columns, IsActivity, c);
    }
    if Distinct(columns) {
      FilterDistinct(columns, IsActivity);
    }
  }

  /** The `Mes cohorte` column added while preparing rows never becomes an
      activity column, so selecting after preparation is selecting on the
      uploaded columns. */
  lemma ActivityIgnoresCohortColumn(columns: seq<string>)
    ensures ActivityColumns(ColumnsAfterPrepare(columns)) == ActivityColumns(columns)
  {
    if CohortColumn !in columns {
      FilterAppend(columns, [CohortColumn], IsActivity);
      assert Filter([CohortColumn], IsActivity) == [];
    }
  }

  lemma MonthOrderDistinct()
    ensures Distinct(MonthOrder)
  {
  }

  /** Shape of the ordered list: a prefix holding each month abbreviation that
      occurs among the activity columns exactly once and in calendar order,
      then a suffix holding the other activity columns, each as often as it
      occurs there and in their original relative order. */
  lemma {:induction false} OrderedColumnsShape(activity: seq<string>)
    ensures var r, p := OrderActivityColumns(activity), |PresentMonths(activity)|;
      && p <= |MonthOrder|
      && r[..p] == PresentMonths(activity)
      && Subsequence(r[..p], MonthOrder)
      && Distinct(r[..p])
      && (forall m :: m in r[..p] <==> m in MonthOrder && m in activity)
      && Subsequence(r[p..], activity)
      && (forall c :: c in r[p..] <==> c in activity && c !in MonthOrder)
      && (forall c :: c !in MonthOrder ==> multiset(r[p..])[c] == multiset(activity)[c])
  {
    var r, pre, suf := OrderActivityColumns(activity), PresentMonths(activity), OtherColumns(activity);
    assert r[..|pre|] == pre && r[|pre|..] == suf;
    FilterIsSubsequence(MonthOrder, m => m in activity);
    MonthOrderDistinct();
    FilterDistinct(MonthOrder, m => m in activity);
    FilterIsSubsequence(activity, NotMonth);
    forall c | c !in MonthOrder ensures multiset(suf)[c] == multiset(activity)[c] {
      FilterMultiplicity(activity, NotMonth, c);
    }
  }

  /** The month prefix holds the same month columns as the activity list. */
  lemma {:induction false} PresentMonthsAreTheMonthColumns(activity: seq<string>)
    requires Distinct(activity)
    ensures multiset(PresentMonths(activity)) == multiset(Filter(activity, IsMonth))
  {
    MonthOrderDistinct();
    FilterDistinct(MonthOrder, m => m in activity);
    FilterDistinct(activity, IsMonth);
    SameElementsSameMultiset(PresentMonths(activity), Filter(activity, IsMonth));
  }

  /** With distinct column names, ordering the activity columns is a permutation. */
  lemma {:induction false} OrderedIsPermutation(activity: seq<string>)
    requires Distinct(activity)
    ensures multiset(OrderActivityColumns(activity)) == multiset(activity)
    ensures |OrderActivityColumns(activity)| == |activity|
    ensures Distinct(OrderActivityColumns(activity))
  {
    var pre, suf := PresentMonths(activity), OtherColumns(activity);
    FilterSplit(activity, IsMonth, NotMonth);
    PresentMonthsAreTheMonthColumns(activity);
    assert multiset(pre + suf) == multiset(activity);
    assert |multiset(pre + suf)| == |multiset(activity)|;
    MonthOrderDistinct();
    FilterDistinct(MonthOrder, m => m in activity);
    FilterDistinct(activity, NotMonth);
    DistinctConcat(pre, suf);
  }
}
