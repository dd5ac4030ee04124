/** The uploaded spreadsheet as the retention computation sees it once the
    Excel reader has produced a table: column names in sheet order, and per
    row the user id, the outcome of parsing the registration date, and the
    outcome of coercing every other cell to a number. */
module Sheet {
  import opened Wrappers

  type Month = m: int | 1 <= m <= 12 witness 1
  type Day = d: int | 1 <= d <= 31 witness 1

  /** A calendar date: what `pd.to_datetime` yields for a cell it can parse. */
  datatype Date = Date(year: int, month: Month, day: Day)

  /** The outcome of `pd.to_numeric(x, errors='coerce')` on one activity cell:
      a number, text that is not a number (such as "SÍ"), or a blank cell. */
  datatype Cell = Num(value: real) | NonNumeric | Empty

  /** One spreadsheet row. `user` is None for a blank `Usuario` cell and
      `regDate` is None when the `Fecha registro` cell does not parse. */
  datatype Row = Row(user: Option<string>, regDate: Option<Date>, cells: map<string, Cell>)

  datatype Table = Table(columns: seq<string>, rows: seq<Row>)

  /** The cell in column `col`; a column the row holds no value for is blank. */
  function CellAt(cells: map<string, Cell>, col: string): Cell {
    if col in cells then cells[col] else Empty
  }

  /** Chronological order on dates, the order in which `groupby` lists cohort keys. */
  predicate Before(a: Date, b: Date) {
    a.year < b.year
    || (a.year == b.year && a.month < b.month)
    || (a.year == b.year && a.month == b.month && a.day < b.day)
  }
}
