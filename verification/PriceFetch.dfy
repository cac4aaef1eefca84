/**
 * The daily fetch (fetch_fuel_data.py): find the New Delhi row in the price
 * page's tables, read the petrol and diesel prices from it, and append them to
 * the price file unless today's New Delhi prices are already there. The HTTP
 * request and the HTML parser are outside the model: the request's outcome is
 * an input, and the page is given as its tables, each a sequence of rows, each
 * row the sequence of its cells' text.
 */
module PriceFetch {
  import opened Wrappers
  import opened FuelData
  import opened PriceText

  type TableRow = seq<string>
  type Table = seq<TableRow>
  type Page = seq<Table>

  /** What the HTTP request gave: an error (connection, timeout, error status) or a page. */
  datatype Response = RequestFailed | Fetched(page: Page)

  /** Why no prices could be read from the response. */
  datatype FetchError =
    | NetworkFailure    // the request failed
    | RowNotFound       // no New Delhi row, or one with fewer than four cells
    | PriceNotNumeric   // a price cell does not hold a number

  /** How a fetch cycle ended; only Saved writes the file. */
  datatype Outcome =
    | Saved             // today's two rows were written
    | AlreadyRecorded   // the file already has a New Delhi row for today
    | StoreUnreadable   // the existing file could not be read
    | Failed(error: FetchError)

  datatype PricePair = PricePair(petrol: real, diesel: real)

  // ---------------------------------------------------------------------------
  // Finding the city's row
  // ---------------------------------------------------------------------------

  /** pat occurs in text at position i. */
  predicate OccursAt(text: string, pat: string, i: int)
  {
    0 <= i <= |text| - |pat| && text[i..i + |pat|] == pat
  }

  /** pat occurs in text. */
  predicate Contains(text: string, pat: string)
  {
    exists i | 0 <= i <= |text| - |pat| :: OccursAt(text, pat, i)
  }

  /** The text of a row: its cells' text, one after the other. */
  function RowText(row: TableRow): string
  {
    if row == [] then [] else row[0] + RowText(row[1..])
  }

  /** The text of a table: its rows' text, one after the other. */
  function TableText(table: Table): string
  {
    if table == [] then [] else RowText(table[0]) + TableText(table[1..])
  }

  /** The tables searched are those whose text mentions the city. */
  predicate MentionsCity(table: Table)
  {
    Contains(TableText(table), TARGET_CITY)
  }

  /** A row whose first cell, stripped, is the city's name. */
  predicate IsCityRow(row: TableRow)
  {
    |row| > 0 && Strip(row[0]) == TARGET_CITY
  }

  /** The first row of a table that satisfies isHit. */
  function FirstWhere(table: Table, isHit: TableRow -> bool): (r: Option<TableRow>)
    ensures r.Some? ==> isHit(r.value) && r.value in table
  {
    if table == [] then None
    else if isHit(table[0]) then Some(table[0])
    else FirstWhere(table[1..], isHit)
  }

  /** The first city row of a table. */
  function FirstCityRowIn(table: Table): Option<TableRow>
  {
    FirstWhere(table, IsCityRow)
  }

  /** The first city row of the first table that mentions the city and has one. */
  function FirstCityRow(page: Page): (r: Option<TableRow>)
    ensures r.Some? ==> IsCityRow(r.value)
  {
    if page == [] then None
    else if MentionsCity(page[0]) && FirstCityRowIn(page[0]).Some? then FirstCityRowIn(page[0])
    else FirstCityRow(page[1..])
  }

  /**
   * The search over the page: tables in order, and in a table that mentions
   * the city its rows in order, stopping at the first city row.
   */
  method FindCityRow(page: Page) returns (found: Option<TableRow>)
    ensures found == FirstCityRow(page)
  {
    found := None;
    var t := 0;
    while t < |page|
      invariant 0 <= t <= |page|
      invariant found == None
      invariant FirstCityRow(page) == FirstCityRow(page[t..])
    {
      var table := page[t];
      FirstCityRowStep(page, t);
      if MentionsCity(table) {
        found := FindCityRowIn(table);
      }
      if found.Some? {
        break;
      }
      t := t + 1;
    }
  }

  /** The search from table t on either stops at table t or goes on from table t + 1. */
  lemma FirstCityRowStep(page: Page, t: int)
    requires 0 <= t < |page|
    ensures FirstCityRow(page[t..]) ==
      if MentionsCity(page[t]) && FirstCityRowIn(page[t]).Some? then FirstCityRowIn(page[t])
      else FirstCityRow(page[t + 1..])
  {
    assert page[t..][1..] == page[t + 1..];
  }

  /** The inner loop of the search: the rows of one table, in order. */
  method FindCityRowIn(table: Table) returns (found: Option<TableRow>)
    ensures found == FirstCityRowIn(table)
  {
    found := None;
    var i := 0;
    while i < |table|
      invariant 0 <= i <= |table|
      invariant found == None
      invariant FirstCityRowIn(table) == FirstCityRowIn(table[i..])
    {
      var cells := table[i];
      assert table[i..][1..] == table[i + 1..];
      if |cells| > 0 && Strip(cells[0]) == TARGET_CITY {
        found := Some(cells);
        break;
      }
      i := i + 1;
    }
  }

  /** Row i of the table satisfies isHit and no earlier row does. */
  ghost predicate FirstAt(table: Table, i: int, isHit: TableRow -> bool)
  {
    0 <= i < |table| && isHit(table[i]) && forall j :: 0 <= j < i ==> !isHit(table[j])
  }

  lemma {:induction false} FirstWhereIsFirst(table: Table, isHit: TableRow -> bool)
    ensures FirstWhere(table, isHit).None? <==> forall i :: 0 <= i < |table| ==> !isHit(table[i])
    ensures FirstWhere(table, isHit).Some? ==>
      exists i :: FirstAt(table, i, isHit) && table[i] == FirstWhere(table, isHit).value
  {
    if table != [] && !isHit(table[0]) {
      var rest := table[1..];
      FirstWhereIsFirst(rest, isHit);
      if FirstWhere(rest, isHit).Some? {
        var i :| FirstAt(rest, i, isHit) && rest[i] == FirstWhere(rest, isHit).value;
        forall j | 0 <= j < i + 1 ensures !isHit(table[j]) {
          if j > 0 {
            assert table[j] == rest[j - 1];
          }
        }
        assert table[i + 1] == rest[i];
        assert FirstAt(table, i + 1, isHit);
      } else {
        forall j | 0 <= j < |table| ensures !isHit(table[j]) {
          if j > 0 {
            assert table[j] == rest[j - 1];
          }
        }
      }
    } else if table != [] {
      assert FirstAt(table, 0, isHit);
    }
  }

  /** A table row is a city row at index i and no earlier row of the table is. */
  ghost predicate FirstInTable(table: Table, i: int)
  {
    FirstAt(table, i, IsCityRow)
  }

  /**
   * Within one table the search returns the first city row, and none exactly
   * when the table has no city row.
   */
  lemma FirstCityRowInIsFirst(table: Table)
    ensures FirstCityRowIn(table).None? <==> forall i :: 0 <= i < |table| ==> !IsCityRow(table[i])
    ensures FirstCityRowIn(table).Some? ==>
      exists i :: FirstInTable(table, i) && table[i] == FirstCityRowIn(table).value
  {
    FirstWhereIsFirst(table, IsCityRow);
  }

  /** Row i of table t is a city row in a table that mentions the city. */
  ghost predicate Hit(page: Page, t: int, i: int)
  {
    0 <= t < |page| && 0 <= i < |page[t]| && MentionsCity(page[t]) && IsCityRow(page[t][i])
  }

  /** No hit comes before row i of table t, in document order. */
  ghost predicate NoHitBefore(page: Page, t: int, i: int)
  {
    forall t', i' :: (t' < t || (t' == t && i' < i)) ==> !Hit(page, t', i')
  }

  /**
   * The row the search returns is the first hit in document order (tables
   * first, then rows), and there is none exactly when nothing is a hit.
   */
  lemma {:induction false} FirstCityRowIsFirstHit(page: Page)
    ensures FirstCityRow(page).None? <==> forall t, i :: !Hit(page, t, i)
    ensures FirstCityRow(page).Some? ==>
      exists t, i :: Hit(page, t, i) && NoHitBefore(page, t, i) && page[t][i] == FirstCityRow(page).value
  {
    if page != [] {
      var rest := page[1..];
      FirstCityRowInIsFirst(page[0]);
      if MentionsCity(page[0]) && FirstCityRowIn(page[0]).Some? {
        var i :| FirstInTable(page[0], i) && page[0][i] == FirstCityRowIn(page[0]).value;
        assert Hit(page, 0, i) && NoHitBefore(page, 0, i);
      } else {
        assert forall i :: !Hit(page, 0, i);
        FirstCityRowIsFirstHit(rest);
        assert forall t, i :: 0 < t < |page| ==> (Hit(page, t, i) <==> Hit(rest, t - 1, i));
        if FirstCityRow(rest).Some? {
          var t, i :| Hit(rest, t, i) && NoHitBefore(rest, t, i) && rest[t][i] == FirstCityRow(rest).value;
          assert Hit(page, t + 1, i);
          forall t', i' | t' < t + 1 || (t' == t + 1 && i' < i) ensures !Hit(page, t', i') {
            if t' > 0 {
              assert !Hit(rest, t' - 1, i');
            }
          }
        } else {
          forall t, i ensures !Hit(page, t, i) {
            if t > 0 {
              assert !Hit(rest, t - 1, i);
            }
          }
        }
      }
    }
  }

  /** The first city row of the first table that has one, whatever the table's text. */
  function FirstCityRowAnyTable(page: Page): Option<TableRow>
  {
    if page == [] then None
    else if FirstCityRowIn(page[0]).Some? then FirstCityRowIn(page[0])
    else FirstCityRowAnyTable(page[1..])
  }

  lemma {:induction false} ContainsInAppend(a: string, b: string, pat: string)
    ensures Contains(a, pat) ==> Contains(a + b, pat)
    ensures Contains(b, pat) ==> Contains(a + b, pat)
  {
    if Contains(a, pat) {
      var i :| 0 <= i <= |a| - |pat| && OccursAt(a, pat, i);
      assert (a + b)[i..i + |pat|] == a[i..i + |pat|];
      assert OccursAt(a + b, pat, i);
    }
    if Contains(b, pat) {
      var i :| 0 <= i <= |b| - |pat| && OccursAt(b, pat, i);
      assert (a + b)[|a| + i..|a| + i + |pat|] == b[i..i + |pat|];
      assert OccursAt(a + b, pat, |a| + i);
    }
  }

  lemma {:induction false} CellTextInTable(table: Table, i: int)
    requires 0 <= i < |table| && |table[i]| > 0 && Contains(table[i][0], TARGET_CITY)
    ensures MentionsCity(table)
  {
    if i == 0 {
      ContainsInAppend(table[0][0], RowText(table[0][1..]), TARGET_CITY);
      ContainsInAppend(RowText(table[0]), TableText(table[1..]), TARGET_CITY);
    } else {
      CellTextInTable(table[1..], i - 1);
      ContainsInAppend(RowText(table[0]), TableText(table[1..]), TARGET_CITY);
    }
  }

  /** A table holding a city row always mentions the city. */
  lemma CityRowMentionsCity(table: Table, i: int)
    requires 0 <= i < |table| && IsCityRow(table[i])
    ensures MentionsCity(table)
  {
    var cell := table[i][0];
    var j :| SpaceAround(cell, TARGET_CITY, j);
    assert OccursAt(cell, TARGET_CITY, j);
    CellTextInTable(table, i);
  }

  /**
   * The search's check that a table mentions the city never changes its
   * result: the row found is the first city row of any table.
   */
  lemma {:induction false} MentionCheckIsRedundant(page: Page)
    ensures FirstCityRow(page) == FirstCityRowAnyTable(page)
  {
    if page != [] {
      FirstCityRowInIsFirst(page[0]);
      if FirstCityRowIn(page[0]).Some? {
        var i :| FirstInTable(page[0], i) && page[0][i] == FirstCityRowIn(page[0]).value;
        CityRowMentionsCity(page[0], i);
      }
      MentionCheckIsRedundant(page[1..]);
    }
  }

  // ---------------------------------------------------------------------------
  // Reading the prices from the row
  // ---------------------------------------------------------------------------

  /**
   * The prices in the city's row: petrol in the second cell and diesel in the
   * fourth, each cleaned and parsed. No row, or a row of fewer than four
   * cells, means the page has changed; a cell that does not parse is an error.
   */
  function ExtractPrices(row: Option<TableRow>): (r: Result<PricePair, FetchError>)
    ensures r.Success? <==> (row.Some? && |row.value| >= 4
                             && ParseDecimal(CleanPrice(row.value[1])).Some?
                             && ParseDecimal(CleanPrice(row.value[3])).Some?)
    ensures r.Success? ==> (ParseDecimal(CleanPrice(row.value[1])) == Some(r.value.petrol)
                           && ParseDecimal(CleanPrice(row.value[3])) == Some(r.value.diesel))
    ensures row.None? || |row.value| < 4 ==> r == Failure(RowNotFound)
    ensures r.Failure? ==> r.error == RowNotFound || r.error == PriceNotNumeric
    ensures row.Some? && |row.value| >= 4 && r.Failure? ==> r.error == PriceNotNumeric
  {
    match row
    case None => Failure(RowNotFound)
    case Some(cells) =>
      if |cells| < 4 then Failure(RowNotFound)
      else
        match ParseDecimal(CleanPrice(cells[1]))
        case None => Failure(PriceNotNumeric)
        case Some(petrol) =>
          match ParseDecimal(CleanPrice(cells[3]))
          case None => Failure(PriceNotNumeric)
          case Some(diesel) => Success(PricePair(petrol, diesel))
  }

  // ---------------------------------------------------------------------------
  // Updating the price file
  // ---------------------------------------------------------------------------

  /** The rows already hold a New Delhi row dated today, of any fuel type. */
  predicate HasCityEntry(rows: seq<Row>, today: Date)
  {
    exists k | 0 <= k < |rows| :: rows[k].date == today && rows[k].city == TARGET_CITY
  }

  /** The two rows a successful fetch adds: petrol, then diesel. */
  function TodayRows(today: Date, prices: PricePair): seq<Row>
  {
    [Row(today, TARGET_CITY, PETROL, prices.petrol), Row(today, TARGET_CITY, DIESEL, prices.diesel)]
  }

  /** The file after a fetch cycle, and how the cycle ended. */
  datatype Cycle = Cycle(file: StoreFile, outcome: Outcome)

  /** Appending today's prices: skipped when today is already recorded or the file is unreadable. */
  function SaveRows(f: StoreFile, today: Date, prices: PricePair): (c: Cycle)
    ensures c.outcome == Saved <==> f.Absent? || (f.Present? && !HasCityEntry(f.rows, today))
    ensures c.outcome == Saved ==> c.file == Present(RowsOf(f) + TodayRows(today, prices))
    ensures c.outcome != Saved ==> c.file == f
    ensures c.outcome == StoreUnreadable <==> f.Unreadable?
    ensures !c.outcome.Failed?
  {
    match f
    case Unreadable => Cycle(f, StoreUnreadable)
    case Absent =>
      assert RowsOf(f) + TodayRows(today, prices) == TodayRows(today, prices);
      Cycle(Present(TodayRows(today, prices)), Saved)
    case Present(rows) =>
      if HasCityEntry(rows, today) then Cycle(f, AlreadyRecorded)
      else Cycle(Present(rows + TodayRows(today, prices)), Saved)
  }

  /**
   * The prices a response yields: the request's failure, the row search's or
   * the parser's, or the two prices.
   */
  function ReadPrices(response: Response): (r: Result<PricePair, FetchError>)
    ensures r.Success? ==> (response.Fetched? && ExtractPrices(FirstCityRow(response.page)) == r)
    ensures r == Failure(NetworkFailure) <==> response.RequestFailed?
    ensures response.Fetched? ==> r == ExtractPrices(FirstCityRow(response.page))
  {
    match response
    case RequestFailed => Failure(NetworkFailure)
    case Fetched(page) => ExtractPrices(FirstCityRow(page))
  }

  /** The rest of a fetch cycle, once the prices have been read or have failed. */
  function Update(f: StoreFile, read: Result<PricePair, FetchError>, today: Date): (c: Cycle)
    ensures c.outcome.Failed? <==> read.Failure?
    ensures read.Failure? ==> c.outcome.error == read.error
    ensures c.outcome != Saved ==> c.file == f
  {
    match read
    case Failure(e) => Cycle(f, Failed(e))
    case Success(prices) => SaveRows(f, today, prices)
  }

  // ---------------------------------------------------------------------------
  // Properties of the cycle
  // ---------------------------------------------------------------------------

  /** Only the second and the fourth cell of the row matter. */
  lemma OtherCellsIgnored(cells: TableRow, cells': TableRow)
    requires |cells| >= 4 && |cells'| >= 4
    requires cells[1] == cells'[1] && cells[3] == cells'[3]
    ensures ExtractPrices(Some(cells)) == ExtractPrices(Some(cells'))
  {
  }

  /**
   * Every way a cycle can end other than Saved leaves the file as it was:
   * a failed request, a missing row, an unparseable price, an unreadable file
   * and a day already recorded.
   */
  lemma FailuresLeaveStoreUnchanged(f: StoreFile, read: Result<PricePair, FetchError>, today: Date)
    ensures var c := Update(f, read, today);
      c.outcome != Saved ==> c.file == f
    ensures read.Failure? ==> Update(f, read, today) == Cycle(f, Failed(read.error))
    ensures f.Unreadable? ==> Update(f, read, today).file == f
  {
  }

  /**
   * Once prices are read, the cycle appends exactly today's petrol and diesel
   * rows after all the old rows, unless the file is unreadable or already has
   * a New Delhi row for today; a missing file ends up with just the two rows.
   */
  lemma SaveAppendsTodayRows(f: StoreFile, prices: PricePair, today: Date)
    ensures var c := Update(f, Success(prices), today);
      (c.outcome == Saved <==> (f.Absent? || (f.Present? && !HasCityEntry(f.rows, today))))
      && (c.outcome == Saved ==> c.file == Present(RowsOf(f) + TodayRows(today, prices)))
      && (f.Absent? ==> c.file == Present(TodayRows(today, prices)))
      && (f.Present? && HasCityEntry(f.rows, today) ==> c == Cycle(f, AlreadyRecorded))
  {
  }

  /**
   * From the page to the file: a page whose New Delhi row yields two prices,
   * fetched on a day the file has no New Delhi row for, ends with those prices
   * appended after the old rows.
   */
  lemma GoodPageIsSaved(f: StoreFile, page: Page, today: Date, prices: PricePair)
    requires ExtractPrices(FirstCityRow(page)) == Success(prices)
    requires f.Absent? || (f.Present? && !HasCityEntry(f.rows, today))
    ensures Update(f, ReadPrices(Fetched(page)), today)
         == Cycle(Present(RowsOf(f) + TodayRows(today, prices)), Saved)
  {
  }

  /** A New Delhi row dated today, of whatever fuel type, makes the cycle skip. */
  lemma SameDayCityRowSkips(f: StoreFile, read: Result<PricePair, FetchError>, today: Date, k: int)
    requires f.Present? && 0 <= k < |f.rows|
    requires f.rows[k].date == today && f.rows[k].city == TARGET_CITY
    ensures Update(f, read, today).file == f
    ensures Update(f, read, today).outcome != Saved
  {
  }

  /**
   * A second cycle on the day of a successful one changes nothing, whatever
   * it fetches: the file keeps the first cycle's prices.
   */
  lemma SecondRunSameDayChangesNothing(f: StoreFile, first: Result<PricePair, FetchError>,
                                       second: Result<PricePair, FetchError>, today: Date)
    requires Update(f, first, today).outcome == Saved
    ensures var f1 := Update(f, first, today).file;
      Update(f1, second, today).file == f1
      && Update(f1, second, today).outcome != Saved
  {
    var prices := first.value;
    var rows := RowsOf(f) + TodayRows(today, prices);
    assert rows[|RowsOf(f)|] == TodayRows(today, prices)[0];
    assert HasCityEntry(rows, today);
  }

  /** No two rows share a date, a city and a fuel type. */
  ghost predicate UniqueKeys(rows: seq<Row>)
  {
    forall i, j :: 0 <= i < j < |rows| ==>
      (rows[i].date, rows[i].city, rows[i].fuelType) != (rows[j].date, rows[j].city, rows[j].fuelType)
  }

  /** A fetch cycle never records a second price for the same day, city and fuel type. */
  lemma FetchKeepsKeysUnique(f: StoreFile, read: Result<PricePair, FetchError>, today: Date)
    requires UniqueKeys(RowsOf(f))
    ensures UniqueKeys(RowsOf(Update(f, read, today).file))
  {
    var c := Update(f, read, today);
    if c.outcome == Saved {
      assert !HasCityEntry(RowsOf(f), today);
      TodayRowsKeepKeysUnique(RowsOf(f), today, read.value);
    }
  }

  /** Today's two rows extend a table with unique keys and no New Delhi row for today. */
  lemma TodayRowsKeepKeysUnique(before: seq<Row>, today: Date, prices: PricePair)
    requires UniqueKeys(before) && !HasCityEntry(before, today)
    ensures UniqueKeys(before + TodayRows(today, prices))
  {
    var rows := before + TodayRows(today, prices);
    forall i, j | 0 <= i < j < |rows|
      ensures (rows[i].date, rows[i].city, rows[i].fuelType) != (rows[j].date, rows[j].city, rows[j].fuelType)
    {
      if j < |before| {
        assert rows[i] == before[i] && rows[j] == before[j];
      } else if i < |before| {
        assert rows[j].date == today && rows[j].city == TARGET_CITY;
        assert rows[i] == before[i];
        assert !(before[i].date == today && before[i].city == TARGET_CITY);
      } else {
        assert i == |before| && j == |before| + 1;
      }
    }
  }

  /** The price file on disk, read and written back whole. */
  class PriceFile {
    var file: StoreFile

    constructor (initial: StoreFile)
      ensures file == initial
    {
      file := initial;
    }

    /**
     * Fetches today's prices and appends them. Every way out before the one
     * write leaves the file as it was.
     */
    method FetchAndSave(response: Response, today: Date) returns (outcome: Outcome)
      modifies this
      ensures file == Update(old(file), ReadPrices(response), today).file
      ensures outcome == Update(old(file), ReadPrices(response), today).outcome
    {
      if response.RequestFailed? {
        return Failed(NetworkFailure);
      }
      var row := FindCityRow(response.page);
      var prices := ExtractPrices(row);
      if prices.Failure? {
        return Failed(prices.error);
      }
      var newData := TodayRows(today, prices.value);
      var updated: seq<Row>;
      match file {
        case Unreadable =>
          return StoreUnreadable;
        case Present(existing) =>
          if HasCityEntry(existing, today) {
            return AlreadyRecorded;
          }
          updated := existing + newData;
        case Absent =>
          updated := newData;
      }
      file := Present(updated);
      outcome := Saved;
    }
  }
}
