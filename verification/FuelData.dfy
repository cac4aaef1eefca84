/**
 * The persisted time series of fuel prices: one row per (date, city, fuel type),
 * stored as a table with the columns Date, City, FuelType and Price.
 */
module FuelData {

  /** A calendar date, as a day number; later days have larger numbers. */
  type Date = int

  /** One row of the price table. City and FuelType are free text in the file. */
  datatype Row = Row(date: Date, city: string, fuelType: string, price: real)

  /** The state of the price file on disk, as the readers see it. */
  datatype StoreFile =
    | Absent                    // no file at that path
    | Unreadable                // the file exists but cannot be read or its dates cannot be parsed
    | Present(rows: seq<Row>)   // the rows of the file, in file order

  /** The city whose prices the fetcher scrapes and records. */
  const TARGET_CITY: string := "New Delhi"
  const PETROL: string := "Petrol"
  const DIESEL: string := "Diesel"

  /** Rows of a readable file; a missing or unreadable file contributes none. */
  function RowsOf(f: StoreFile): seq<Row>
  {
    if f.Present? then f.rows else []
  }
}
