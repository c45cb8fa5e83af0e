/**
 * The data model of the production sheet after loading: one record per row,
 * with the date already parsed (or not) and the quantities held exactly.
 */
module Records {
  import opened Wrappers

  /** A calendar date, as `datetime.date` holds it. */
  datatype Date = Date(year: int, month: int, day: int)

  /** A parsed `ProdDate` cell: its calendar date and the time within that day. */
  datatype Timestamp = Timestamp(date: Date, nanosOfDay: nat)

  /**
   * One row of the sheet. `prodDate` is None where the date could not be
   * parsed (NaT); `product` is None where the Product cell is blank (NaN).
   * `rmCons` and `scrap` are kilograms counted in hundredths.
   */
  datatype Record = Record(
    prodDate: Option<Timestamp>,
    product: Option<string>,
    boxes: int,
    rmCons: int,
    scrap: int)

  /** The summed columns. */
  datatype Measure = Boxes | RawMaterial | Scrap

  function Amount(r: Record, m: Measure): int {
    match m
    case Boxes => r.boxes
    case RawMaterial => r.rmCons
    case Scrap => r.scrap
  }

  /** The ways the report can fail before anything is rendered. */
  datatype ReportError =
    | MissingColumn(column: string)   // "Missing required column: <column>"
    | NoData                          // "No production data found for yesterday."
    | DuplicateColumn(column: string) // pandas refuses a column label that two headers share
}
