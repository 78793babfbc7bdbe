/** Spreadsheet values as the scripts see them after `getDataRange().getValues()`. */
module Grid {

  /** One row of cells; every cell is taken in its `String(...)` form. */
  type Row = seq<string>

  /** A named sheet and its rows, the first of which is the header row. */
  datatype Sheet = Sheet(name: string, rows: seq<Row>)

  /** The cell in column `j`; a cell past the end of the row reads as empty,
      which is what a padded `getValues()` grid holds there. */
  function Cell(row: Row, j: nat): string {
    if j < |row| then row[j] else ""
  }
}
