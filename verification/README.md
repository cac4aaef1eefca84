# Local fuel price tracker — a Dafny model

The system tracks daily fuel prices for New Delhi. It has two parts:

- A daily fetch job (`fetch_fuel_data.py`). It downloads a price page and finds the New Delhi row in the page's tables. It reads the petrol price from the row's second cell and the diesel price from its fourth, cleaning off whitespace and the rupee sign first. It then appends one petrol row and one diesel row, dated today, to a CSV price table, unless the table already has a New Delhi row for today.
- A dashboard (`app.py`). It loads the table sorted by date and shows the latest price of a chosen city and fuel type. Over the last seven matching rows, it classifies the trend as an increase (more than 0.50), a decrease (more than 0.50 down) or stable. It gives refuelling advice to match, and adds a note on the average daily change when that exceeds 0.05 in either direction.

The model has five modules:

- `Wrappers` holds `Option` and `Result`.
- `FuelData` holds the table's row, the state of the price file (absent, unreadable, or present with its rows) and the constant city and fuel names.
- `PriceTrend` is the dashboard's pure logic:
  - loading and sorting the table;
  - the city and fuel-type filter, with pandas' `DataFrame.tail(n)` for every `n`, negative and zero included;
  - the latest price;
  - the trend classifier.
- `PriceText` is the cleaning and parsing of a price cell:
  - Python's `str.strip()` over its whitespace class;
  - removal of the rupee sign;
  - a decimal parser.
- `PriceFetch` is the fetch job:
  - the row search, both as a specification function and as the imperative nested loop with early exits the job runs;
  - price extraction with its error cases;
  - the file update;
  - a `PriceFile` class whose `FetchAndSave` method updates the stored file in place.

The HTTP request is an input (`Response`): either a failure or the page. The HTML page is given as its tables, each a sequence of rows, and each row is the sequence of its cells' text. "Today" is a parameter. A date is a day number.

The analysis result is a value (`Analysis`), not the formatted text. It is either `InsufficientData` or a report made of:

- the trend and its amount;
- the advice;
- the optional daily note with its amount.

## Model

| member | source | states |
|---|---|---|
| PriceTrend.InsertByDate | app.py:20 | inserting into a date-sorted table keeps it sorted and adds exactly the one row (multiset) |
| PriceTrend.SortByDate | app.py:20 | the result is sorted ascending by date and is a permutation of the input; nothing is promised for equal dates |
| PriceTrend.LoadData | app.py:16-24 | a readable file yields its rows sorted by date and permuted only; a missing or unreadable file yields an empty table |
| PriceTrend.Matching | app.py:32 | the filtered rows are no more than the table's rows, and every one matches the city and fuel type |
| PriceTrend.MatchingIsFilter | app.py:32 | every filtered row is a table row that matches, and every matching table row is kept |
| PriceTrend.MatchingAppend | app.py:32 | filtering works piece by piece: filtering a + b is filtering a, then b, so table order is kept |
| PriceTrend.Tail | app.py:32 | `tail(n)` is a suffix of its input; of length min(n, len) for n >= 0, and all but the first -n rows for n < 0 |
| PriceTrend.Window | app.py:32 | every row of the window matches the city and fuel type; for days >= 0 it holds min(days, n) of the n matching rows (which ones: WindowIsLastMatchingRows) |
| PriceTrend.WindowIsLastMatchingRows | app.py:32-35 | for days >= 0 the window is the last min(days, n) matching rows; its rows are matching table rows; the analysis is InsufficientData exactly when that count is below 2 |
| PriceTrend.OtherRowsIrrelevant | app.py:32 | inserting a row of another city or fuel type anywhere changes neither the analysis nor the latest price |
| PriceTrend.LatestPrice | app.py:96-103 | there is a current price exactly when some row matches the city and fuel type, and it is a matching row (which one: LatestIsLastMatchingRow) |
| PriceTrend.LatestIsLastMatchingRow | app.py:96-103 | there is no current price exactly when no row matches; otherwise it is a matching row after which no row matches |
| PriceTrend.LastOfMatching | app.py:96 | the last filtered row is a matching table row with no matching row after it |
| PriceTrend.WindowEndsAtLatestPrice | app.py:96-99 | with a window of at least one day, the analysed window ends at the price the dashboard shows as current |
| PriceTrend.Classify | app.py:49-57 | increased exactly when the change is above 0.50, decreased exactly when below -0.50, otherwise stable; a rise or fall carries the size of the change, which exceeds 0.50; refuel soon goes with an increase and waiting with a decrease, and only with them |
| PriceTrend.NoteFor | app.py:59-64 | a note exactly when the average daily change exceeds 0.05 either way; it carries the size of the average and is an increase note exactly when the average is positive |
| PriceTrend.AnalyzeTrend | app.py:26-66 | insufficient data exactly when the window holds fewer than two rows; otherwise a non-stable trend exceeds 0.50, the advice follows the trend, and a note exceeds 0.05 (the three trends and the note in terms of the window: the lemmas below) |
| PriceTrend.PriceChange | app.py:38-40 | defined as: the last row's price minus the first row's, for a non-empty window |
| PriceTrend.AverageDailyChange | app.py:43 | for two or more rows, times one less than the row count it gives the price change; for one row (the unreachable `else 0`) it is 0 |
| PriceTrend.IncreasedIffAboveThreshold | app.py:38-51 | with at least two rows, the trend is an increase exactly when last minus first exceeds 0.50, and then it carries that amount and the advice to refuel soon |
| PriceTrend.DecreasedIffBelowThreshold | app.py:38-54 | the trend is a decrease exactly when the change is below -0.50, carrying the positive amount and the advice to wait before bulk refuelling |
| PriceTrend.StableIffWithinThreshold | app.py:49-57 | the trend is stable exactly when the change lies within [-0.50, 0.50], boundaries included, with the advice to refuel as needed |
| PriceTrend.DailyNoteIffNoticeable | app.py:43-64 | the note appears exactly when the absolute change per step between rows exceeds 0.05; an increase note carries the positive average, a decrease note its negation |
| PriceTrend.IncreaseScenario | app.py:26-66 | 94.50 then 95.10, seven days apart, is an increase of 0.60, with the advice to refuel soon and a daily increase note of 0.60 |
| PriceTrend.StableBoundaryScenario | app.py:49-64 | 94.50 then 94.55 is stable with no note: 0.05 per step is not above the note threshold |
| PriceText.IsSpace | fetch_fuel_data.py:55 | defined as: the characters Python's `str.strip()` treats as whitespace, listed by code point |
| PriceText.TrimStart | fetch_fuel_data.py:44 | removes exactly the leading whitespace: the result is a suffix, what was removed is all whitespace, and the result does not start with whitespace |
| PriceText.TrimEnd | fetch_fuel_data.py:44 | removes exactly the trailing whitespace, symmetrically |
| PriceText.Strip | fetch_fuel_data.py:44 | the result has no whitespace at either end; it is a piece of the input with only whitespace around it; its characters all come from the input |
| PriceText.TrimBoth | fetch_fuel_data.py:44 | trimming the start and then the end gives an edge-free piece surrounded only by whitespace |
| PriceText.StripIsUnique | fetch_fuel_data.py:44 | any non-empty piece with non-space ends and only whitespace around it is the strip of the text |
| PriceText.SamePiece | fetch_fuel_data.py:44 | two such pieces of the same text are equal |
| PriceText.StripIdempotent | fetch_fuel_data.py:55 | stripping twice is stripping once |
| PriceText.StripSurrounded | fetch_fuel_data.py:55 | whitespace, a piece with non-space ends, whitespace: the strip is the piece |
| PriceText.RemoveRupee | fetch_fuel_data.py:55 | no rupee sign remains and the result is no longer than the input |
| PriceText.RemoveRupeeWithoutRupee | fetch_fuel_data.py:55 | text without a rupee sign is unchanged |
| PriceText.RemoveRupeeKeepsOthers | fetch_fuel_data.py:55 | every other character is present afterwards exactly when it was before |
| PriceText.RemoveRupeeAppend | fetch_fuel_data.py:55 | the removal works piece by piece, so the order of the other characters is kept |
| PriceText.CleanPrice | fetch_fuel_data.py:55 | the cleaned cell holds no rupee sign and no whitespace at either end |
| PriceText.CleanPriceOfRupeeAmount | fetch_fuel_data.py:55 | a cell made of whitespace, a rupee sign, whitespace, an amount and whitespace cleans to exactly the amount |
| PriceText.DotIndex | fetch_fuel_data.py:56 | the index of the first decimal point, or the length when there is none |
| PriceText.DecimalValue | fetch_fuel_data.py:56 | the value of a whole part and a fraction is never negative |
| PriceText.ParseUnsigned | fetch_fuel_data.py:56 | an accepted text is non-empty, consists of digits and points only, and has a non-negative value (which texts exactly: UnsignedFormAccepted; their values: ParseUnsignedDigits, ParseUnsignedPointed) |
| PriceText.ParseDecimal | fetch_fuel_data.py:56 | an accepted text is non-empty and made only of digits, points and a leading sign; without a leading minus its value is not negative (which texts exactly: DecimalFormAccepted; values: ParseDigits, ParsePointed, and ParseSigned with the ParseUnsigned lemmas) |
| PriceText.DotAfterDigits | fetch_fuel_data.py:56 | in digits, a point and more digits, the first point is the one after the whole part |
| PriceText.ParseUnsignedPointed | fetch_fuel_data.py:56 | unsigned: digits, a point and digits read as the whole part plus the fraction scaled by its length, either side possibly empty; a lone point is rejected |
| PriceText.ParsePointed | fetch_fuel_data.py:56 | digits, a point and digits parse to the whole part plus the fraction scaled by its length, either side possibly empty ("5.", ".5"); a lone point is rejected |
| PriceText.ParseUnsignedDigits | fetch_fuel_data.py:56 | unsigned: digits without a point read as their integer value |
| PriceText.DotIndexOfDigits | fetch_fuel_data.py:56 | a run of digits holds no decimal point |
| PriceText.ParseDigits | fetch_fuel_data.py:56 | digits without a point parse to their integer value |
| PriceText.ParseSigned | fetch_fuel_data.py:56 | a leading minus negates the number after it and a leading plus keeps it; a sign before a text that is not a number is rejected |
| PriceText.NegativeDecimalScenario | fetch_fuel_data.py:56 | "-1.5" parses to -1.5 |
| PriceText.UnsignedFormAccepted | fetch_fuel_data.py:56 | the unsigned parser accepts a text exactly when it is digits and points only, with at most one point and at least one digit |
| PriceText.DecimalFormAccepted | fetch_fuel_data.py:56 | the parser accepts a text exactly when it is of that form, optionally after one leading sign |
| PriceText.ParseFormatPaise | fetch_fuel_data.py:56 | every price written with two decimals, as on the page, parses back to its exact value |
| PriceText.NatText | fetch_fuel_data.py:56 | the decimal digits of a number are non-empty digits whose value is the number |
| PriceText.TwoDigits | fetch_fuel_data.py:56 | a number below 100 as two digits reads back as that number |
| PriceFetch.FirstCityRow | fetch_fuel_data.py:39-48 | a row found is a city row: it has a first cell whose stripped text is "New Delhi" (that it is the first such row: FirstCityRowIsFirstHit) |
| PriceFetch.FindCityRow | fetch_fuel_data.py:36-48 | the nested search with its two breaks returns exactly FirstCityRow of the page |
| PriceFetch.FirstCityRowStep | fetch_fuel_data.py:40-48 | the search from one table on stops at that table when it mentions the city and has a city row, and otherwise goes on from the next table |
| PriceFetch.FindCityRowIn | fetch_fuel_data.py:42-46 | the row loop of one table returns that table's first city row |
| PriceFetch.FirstWhere | fetch_fuel_data.py:42-46 | the rows of a table in order, stopping at the first that passes a test: a row returned passes the test and is a row of the table |
| PriceFetch.FirstCityRowIn | fetch_fuel_data.py:42-46 | defined as FirstWhere with IsCityRow as the test (what it returns: FirstCityRowInIsFirst) |
| PriceFetch.MentionsCity | fetch_fuel_data.py:41 | defined as: the table's text contains "New Delhi" |
| PriceFetch.IsCityRow | fetch_fuel_data.py:44 | defined as: the row has a cell and its first cell, stripped, is "New Delhi" |
| PriceFetch.FirstWhereIsFirst | fetch_fuel_data.py:42-46 | the first row satisfying a test comes before every other row that does, and there is none exactly when no row does |
| PriceFetch.FirstCityRowInIsFirst | fetch_fuel_data.py:42-46 | within a table the row found is the first whose stripped first cell is "New Delhi", and there is none exactly when no row qualifies |
| PriceFetch.FirstCityRowIsFirstHit | fetch_fuel_data.py:39-48 | the row found is the first hit in document order (tables, then rows), and there is none exactly when nothing is a hit |
| PriceFetch.ContainsInAppend | fetch_fuel_data.py:41 | text found in either part of a concatenation is found in the whole |
| PriceFetch.CellTextInTable | fetch_fuel_data.py:41 | a first cell that contains the city name makes the table's text contain it |
| PriceFetch.CityRowMentionsCity | fetch_fuel_data.py:41-44 | a table holding a city row always passes the check that its text mentions the city |
| PriceFetch.MentionCheckIsRedundant | fetch_fuel_data.py:41 | the search gives the same row with or without the table-text check |
| PriceFetch.ExtractPrices | fetch_fuel_data.py:50-63 | success exactly when the row exists, has at least four cells and both cells 1 and 3 parse; the prices are those parses; no row or a short row is RowNotFound; any other failure is PriceNotNumeric |
| PriceFetch.OtherCellsIgnored | fetch_fuel_data.py:53-60 | only the second and fourth cells affect the prices read |
| PriceFetch.ReadPrices | fetch_fuel_data.py:21-63 | a failed request and nothing else gives NetworkFailure; a fetched page gives exactly the extraction of its first city row, success or failure |
| PriceFetch.GoodPageIsSaved | fetch_fuel_data.py:21-91 | a page whose city row yields two prices, fetched on a day the file (absent, or readable) has no New Delhi row for, ends Saved with those prices appended after the old rows |
| PriceFetch.HasCityEntry | fetch_fuel_data.py:80 | defined as: some row is dated today and is for New Delhi, whatever its fuel type |
| PriceFetch.TodayRows | fetch_fuel_data.py:68-71 | defined as: today's New Delhi petrol row, then today's New Delhi diesel row, with the two prices read |
| PriceFetch.SaveRows | fetch_fuel_data.py:74-91 | saves exactly when the file is absent, or readable without a New Delhi row for today; a save holds the old rows followed by today's two rows; every other outcome leaves the file as it was; the outcome is StoreUnreadable exactly for an unreadable file; saving never fails |
| PriceFetch.Update | fetch_fuel_data.py:50-91 | the cycle fails exactly when reading the prices failed, with that error; every outcome other than Saved leaves the file as it was |
| PriceFetch.FailuresLeaveStoreUnchanged | fetch_fuel_data.py:61-101 | every outcome other than Saved leaves the file as it was; a read failure ends with that failure; an unreadable file is never written |
| PriceFetch.SaveAppendsTodayRows | fetch_fuel_data.py:65-91 | once prices are read, the cycle saves exactly when the file is absent, or is readable with no New Delhi row for today; then it holds the old rows followed by today's petrol and diesel rows |
| PriceFetch.SameDayCityRowSkips | fetch_fuel_data.py:79-82 | any New Delhi row dated today, whatever its fuel type, makes the cycle skip without writing |
| PriceFetch.SecondRunSameDayChangesNothing | fetch_fuel_data.py:79-91 | after a successful cycle, a second cycle on the same day changes nothing, whatever it fetches |
| PriceFetch.FetchKeepsKeysUnique | fetch_fuel_data.py:79-91 | if no two rows share date, city and fuel type before a cycle, none do after it |
| PriceFetch.TodayRowsKeepKeysUnique | fetch_fuel_data.py:79-85 | appending today's two rows to a table with unique keys and no New Delhi row for today keeps the keys unique |
| PriceFetch.PriceFile.FetchAndSave | fetch_fuel_data.py:11-101 | the stored file and the returned outcome are those `Update` gives for the prices `ReadPrices` reads from the response, and today |

## Left out

- The Streamlit user interface is not modelled: the page layout, the selection boxes, the warning and info texts, and the 30-row chart (`app.py:68-122`). The city and fuel type are parameters of the analysis.
- The analysis returns the trend, the advice and the note as values. The narrative sentences and their two-decimal rounding (`:.2f`) are not modelled.
- `st.cache_data` caching of the load is not modelled; loading is a pure function of the file.
- The HTTP request, its headers, its timeout and its status check are not modelled. The request's outcome is an input.
- The HTML parser is not modelled. A cell's text is given as a string, nested markup and `th` cells are not modelled, and a table's text is the concatenation of its cells' text. The surrounding markup text that `get_text()` would add is not modelled.
- CSV reading and writing and `pd.to_datetime` are not modelled. The file is its rows; a file that cannot be read or whose dates do not parse is `Unreadable`; dates are day numbers.
- SaveRows: the model assumes dates survive a write and a later read unchanged. In the source they may not. The concatenation at `fetch_fuel_data.py:85` puts parsed dates from the file next to today's date as text, so the CSV written at line 91 can mix two date formats ("YYYY-MM-DD 00:00:00" and "YYYY-MM-DD"). Depending on the pandas version, the `to_datetime` call at line 77 (and `app.py:19`) may reject such a file on a later run. The model does not capture this; such a file would be `Unreadable`.
- A write that fails part way is not modelled. The write of the whole table is one atomic assignment.
- Printed log messages are not modelled; each way a cycle ends is an `Outcome` value instead.
- Floating point is not modelled. Prices are exact reals, so rounding in the subtraction and division of the analysis is not captured.
- PriceText.ParseDecimal: it accepts an optional sign, digits, at most one decimal point and at least one digit. Python's `float` also accepts exponents, `inf`, `nan`, digit-group underscores and decimal digits of other scripts (Devanagari, full-width and the like). The model treats all of those as not numeric.
- PriceTrend.SortByDate: pandas' `sort_values` with its default algorithm is not stable. The contract promises only sortedness and permutation, so the order of rows that share a date is left open.
- The clock (`datetime.now`) is the parameter `today`.
- The average daily change is taken per step between rows, as the code does. It is a per-day average only when the rows are one day apart. The code's `else 0` branch for a window of one row is unreachable after the earlier two-row check; the model keeps it in `AverageDailyChange`.
