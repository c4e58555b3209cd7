/**
  The spreadsheet as the two pages and the script see it once pandas has read
  it: one sheet per class, a list of column names and one row per student.
  Only the name columns and the weekly presence columns matter to the core.
*/
module Sheets {

  const NOM := "NOM"
  const PRENOM := "PRÉNOM"
  /** The only cell value that counts as attendance. */
  const PRESENT := "Présent"

  /** One student row: last name, first name, and the cells of the other columns. */
  datatype Row = Row(nom: string, prenom: string, cells: map<string, string>)

  /** One sheet of the workbook: its name, its columns in order, its rows in order. */
  datatype Sheet = Sheet(name: string, columns: seq<string>, rows: seq<Row>)

  /** The value of a cell; a blank cell (pandas NaN) reads as the empty string. */
  function Cell(r: Row, column: string): string
  {
    if column in r.cells then r.cells[column] else ""
  }

  predicate IsPresent(r: Row, column: string)
  {
    Cell(r, column) == PRESENT
  }

  /** The identity of a student: first name, one space, last name. */
  function Identity(r: Row): string
  {
    r.prenom + " " + r.nom
  }

  /** The identities of the rows, one per row, in row order. */
  function Identities(rows: seq<Row>): (ids: seq<string>)
    ensures |ids| == |rows|
    ensures forall i :: 0 <= i < |rows| ==> ids[i] == Identity(rows[i])
  {
    seq(|rows|, i requires 0 <= i < |rows| => Identity(rows[i]))
  }

  /** The sheet has both name columns. */
  predicate HasNameColumns(sheet: Sheet)
  {
    NOM in sheet.columns && PRENOM in sheet.columns
  }

  /** No two rows of the list give the same identity. */
  predicate UniqueIdentities(rows: seq<Row>)
  {
    forall i, j :: 0 <= i < j < |rows| ==> Identity(rows[i]) != Identity(rows[j])
  }
}
