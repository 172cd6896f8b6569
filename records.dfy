/** The complaint records of the land-affairs dashboard, as read from its spreadsheet. */
module Records {
  import opened Wrappers

  /** One complaint case. Every cell may be empty. */
  datatype Record = Record(
    terlapor: Option<string>,        // the reported institution (land office)
    status: Option<string>,          // free-text handling status
    maladministrasi: Option<string>  // the category of maladministration
  )

  /** Which of the optional columns the loaded sheet has. */
  datatype Schema = Schema(hasTerlapor: bool, hasStatus: bool, hasMaladministrasi: bool)

  /** A table: its columns and its rows, in sheet order. */
  datatype Frame = Frame(schema: Schema, rows: seq<Record>)

  /** The option of the institution selector that stands for "every institution". */
  const AllInstansi: string := "Semua Instansi"

  /** The option of the status selector that stands for "every status". */
  const AllStatus: string := "Semua Status"

  /** The institution cell of every row. */
  function TerlaporColumn(rows: seq<Record>): seq<Option<string>>
  {
    seq(|rows|, i requires 0 <= i < |rows| => rows[i].terlapor)
  }

  /** The status cell of every row. */
  function StatusColumn(rows: seq<Record>): seq<Option<string>>
  {
    seq(|rows|, i requires 0 <= i < |rows| => rows[i].status)
  }
}
