/**
 * The dashboard's view of the price table (app.py): loading the table sorted by
 * date, the latest price of one city and fuel type, and the trend classifier
 * over the last few matching rows.
 */
module PriceTrend {
  import opened Wrappers
  import opened FuelData

  // ---------------------------------------------------------------------------
  // Loading: the table sorted ascending by date
  // ---------------------------------------------------------------------------

  predicate SortedByDate(s: seq<Row>)
  {
    forall i, j :: 0 <= i < j < |s| ==> s[i].date <= s[j].date
  }

  /** Inserts x into a date-sorted sequence. */
  function InsertByDate(x: Row, s: seq<Row>): (r: seq<Row>)
    requires SortedByDate(s)
    ensures SortedByDate(r)
    ensures multiset(r) == multiset(s) + multiset{x}
  {
    if s == [] then [x]
    else if x.date <= s[0].date then
      ConsSorted(x, s);
      [x] + s
    else
      var rest := InsertByDate(x, s[1..]);
      assert s == [s[0]] + s[1..];
      RestAfterHead(x, s, rest);
      ConsSorted(s[0], rest);
      [s[0]] + rest
  }

  lemma ConsSorted(h: Row, t: seq<Row>)
    requires SortedByDate(t)
    requires forall k :: 0 <= k < |t| ==> h.date <= t[k].date
    ensures SortedByDate([h] + t)
  {
    forall i, j | 0 <= i < j < |[h] + t| ensures ([h] + t)[i].date <= ([h] + t)[j].date {
      if i > 0 {
        assert ([h] + t)[i] == t[i - 1];
      }
      assert ([h] + t)[j] == t[j - 1];
    }
  }

  /** Every row of the inserted tail is no earlier than the head it goes behind. */
  lemma RestAfterHead(x: Row, s: seq<Row>, rest: seq<Row>)
    requires SortedByDate(s) && s != [] && s[0].date < x.date
    requires multiset(rest) == multiset(s[1..]) + multiset{x}
    ensures forall k :: 0 <= k < |rest| ==> s[0].date <= rest[k].date
  {
    forall k | 0 <= k < |rest| ensures s[0].date <= rest[k].date {
      var y := rest[k];
      assert y in multiset(rest);
      if y != x {
        assert y in multiset(s[1..]);
        var j :| 0 <= j < |s[1..]| && s[1..][j] == y;
        assert s[j + 1] == y;
      }
    }
  }

  /**
   * Sorting by the Date column. The source's sort is not stable, so nothing
   * is promised about the order of rows that share a date.
   */
  function SortByDate(s: seq<Row>): (r: seq<Row>)
    ensures SortedByDate(r)
    ensures multiset(r) == multiset(s)
  {
    if s == [] then []
    else
      assert s == [s[0]] + s[1..];
      InsertByDate(s[0], SortByDate(s[1..]))
  }

  /**
   * Loading the table for the dashboard: the file's rows sorted by date, or
   * an empty table when the file is missing or cannot be read.
   */
  function LoadData(f: StoreFile): (r: seq<Row>)
    ensures SortedByDate(r)
    ensures f.Present? ==> multiset(r) == multiset(f.rows)
    ensures !f.Present? ==> r == []
  {
    match f
    case Present(rows) => SortByDate(rows)
    case Absent => []
    case Unreadable => []
  }

  // ---------------------------------------------------------------------------
  // Selecting the rows of one city and fuel type
  // ---------------------------------------------------------------------------

  predicate Matches(row: Row, city: string, fuelType: string)
  {
    row.city == city && row.fuelType == fuelType
  }

  /** The rows of the given city and fuel type, in table order. */
  function Matching(rows: seq<Row>, city: string, fuelType: string): (m: seq<Row>)
    ensures |m| <= |rows|
    ensures forall k :: 0 <= k < |m| ==> Matches(m[k], city, fuelType)
  {
    if rows == [] then []
    else
      var rest := Matching(rows[1..], city, fuelType);
      if Matches(rows[0], city, fuelType) then [rows[0]] + rest else rest
  }

  /** The matching rows are rows of the table, and every matching row of the table is among them. */
  lemma {:induction false} MatchingIsFilter(rows: seq<Row>, city: string, fuelType: string)
    ensures forall r :: r in Matching(rows, city, fuelType) ==> r in rows && Matches(r, city, fuelType)
    ensures forall r :: r in rows && Matches(r, city, fuelType) ==> r in Matching(rows, city, fuelType)
  {
    if rows != [] {
      MatchingIsFilter(rows[1..], city, fuelType);
      assert forall r :: r in rows <==> r == rows[0] || r in rows[1..];
    }
  }

  lemma {:induction false} MatchingAppend(a: seq<Row>, b: seq<Row>, city: string, fuelType: string)
    ensures Matching(a + b, city, fuelType) == Matching(a, city, fuelType) + Matching(b, city, fuelType)
  {
    if a == [] {
      assert a + b == b;
    } else {
      assert (a + b)[1..] == a[1..] + b;
      MatchingAppend(a[1..], b, city, fuelType);
    }
  }

  function Min(x: int, y: int): int
  {
    if x <= y then x else y
  }

  /**
   * The last n elements of s, as pandas' `DataFrame.tail(n)` gives them:
   * all of s when it is shorter; for a negative n, all but the first -n.
   */
  function Tail<T>(s: seq<T>, n: int): (r: seq<T>)
    ensures |r| <= |s| && r == s[|s| - |r|..]
    ensures n >= 0 ==> |r| == Min(n, |s|)
    ensures n < 0 ==> |r| == |s| - Min(-n, |s|)
  {
    if n >= 0 then s[|s| - Min(n, |s|)..] else s[Min(-n, |s|)..]
  }

  /** The rows the trend is computed on: the last `days` matching rows. */
  function Window(rows: seq<Row>, city: string, fuelType: string, days: int): (w: seq<Row>)
    ensures forall k :: 0 <= k < |w| ==> Matches(w[k], city, fuelType)
    ensures days >= 0 ==> |w| == Min(days, |Matching(rows, city, fuelType)|)
  {
    Tail(Matching(rows, city, fuelType), days)
  }

  // ---------------------------------------------------------------------------
  // The latest price
  // ---------------------------------------------------------------------------

  /** The row shown as the current price: the last matching row, if any. */
  function LatestPrice(rows: seq<Row>, city: string, fuelType: string): (r: Option<Row>)
    ensures r.None? <==> Matching(rows, city, fuelType) == []
    ensures r.Some? ==> Matches(r.value, city, fuelType)
  {
    var m := Tail(Matching(rows, city, fuelType), 1);
    if m == [] then None else Some(m[0])
  }

  // ---------------------------------------------------------------------------
  // Trend analysis
  // ---------------------------------------------------------------------------

  /** The window the dashboard analyses: the last seven matching rows. */
  const TREND_DAYS: int := 7
  /** A change over the window larger than this, either way, is significant. */
  const SIGNIFICANT_CHANGE: real := 0.50
  /** An average daily change larger than this, either way, is worth a note. */
  const NOTICEABLE_DAILY_CHANGE: real := 0.05

  datatype Trend = Increased(amount: real) | Decreased(amount: real) | Stable

  datatype Advice = RefuelSoon | WaitBeforeBulkRefuel | RefuelAsNeeded

  datatype DailyNote = AverageIncrease(perDay: real) | AverageDecrease(perDay: real)

  /** What the analysis reports, without the formatting of the narrative text. */
  datatype Analysis =
    | InsufficientData
    | Report(trend: Trend, advice: Advice, note: Option<DailyNote>)

  function Abs(x: real): real
  {
    if x < 0.0 then -x else x
  }

  /** Last price minus first price of a non-empty window. */
  function PriceChange(w: seq<Row>): real
    requires |w| > 0
  {
    w[|w| - 1].price - w[0].price
  }

  /** The price change spread over the days between the first and last row. */
  function AverageDailyChange(w: seq<Row>): (a: real)
    requires |w| > 0
    ensures |w| > 1 ==> a * (|w| - 1) as real == PriceChange(w)
    ensures |w| == 1 ==> a == 0.0
  {
    if |w| > 1 then PriceChange(w) / (|w| - 1) as real else 0.0
  }

  /**
   * The trend of a change over the window and the advice that goes with it:
   * a rise or a fall beyond the threshold, by its size, or stable.
   */
  function Classify(change: real): (r: (Trend, Advice))
    ensures r.0.Increased? <==> change > SIGNIFICANT_CHANGE
    ensures r.0.Decreased? <==> change < -SIGNIFICANT_CHANGE
    ensures !r.0.Stable? ==> r.0.amount == Abs(change) && r.0.amount > SIGNIFICANT_CHANGE
    ensures r.1 == RefuelSoon <==> r.0.Increased?
    ensures r.1 == WaitBeforeBulkRefuel <==> r.0.Decreased?
  {
    if change > SIGNIFICANT_CHANGE then (Increased(change), RefuelSoon)
    else if change < -SIGNIFICANT_CHANGE then (Decreased(-change), WaitBeforeBulkRefuel)
    else (Stable, RefuelAsNeeded)
  }

  /** The note on the average daily change: present when it is noticeable, by its size. */
  function NoteFor(avg: real): (n: Option<DailyNote>)
    ensures n.Some? <==> Abs(avg) > NOTICEABLE_DAILY_CHANGE
    ensures n.Some? ==> n.value.perDay == Abs(avg) && (n.value.AverageIncrease? <==> avg > 0.0)
  {
    if Abs(avg) > NOTICEABLE_DAILY_CHANGE then
      Some(if avg > 0.0 then AverageIncrease(avg) else AverageDecrease(-avg))
    else None
  }

  /** The trend of the given city's fuel price over the last `days` matching rows. */
  function AnalyzeTrend(rows: seq<Row>, city: string, fuelType: string, days: int): (a: Analysis)
    ensures a.InsufficientData? <==> |Window(rows, city, fuelType, days)| < 2
    ensures a.Report? && !a.trend.Stable? ==> a.trend.amount > SIGNIFICANT_CHANGE
    ensures a.Report? ==> (a.advice == RefuelSoon <==> a.trend.Increased?)
    ensures a.Report? ==> (a.advice == WaitBeforeBulkRefuel <==> a.trend.Decreased?)
    ensures a.Report? && a.note.Some? ==> a.note.value.perDay > NOTICEABLE_DAILY_CHANGE
  {
    var w := Window(rows, city, fuelType, days);
    if |w| < 2 then InsufficientData
    else
      var (trend, advice) := Classify(PriceChange(w));
      Report(trend, advice, NoteFor(AverageDailyChange(w)))
  }

  // ---------------------------------------------------------------------------
  // Properties of the selection
  // ---------------------------------------------------------------------------

  /**
   * For a non-negative `days`, the window is the last min(days, n) of the n
   * matching rows, in table order, and the analysis gives up exactly when that
   * is fewer than two rows.
   */
  lemma WindowIsLastMatchingRows(rows: seq<Row>, city: string, fuelType: string, days: int)
    requires days >= 0
    ensures var m := Matching(rows, city, fuelType);
      Window(rows, city, fuelType, days) == m[|m| - Min(days, |m|)..]
    ensures forall r :: r in Window(rows, city, fuelType, days) ==> r in rows && Matches(r, city, fuelType)
    ensures AnalyzeTrend(rows, city, fuelType, days) == InsufficientData
        <==> Min(days, |Matching(rows, city, fuelType)|) < 2
  {
    MatchingIsFilter(rows, city, fuelType);
  }

  /**
   * A row of another city or fuel type changes neither the analysis nor the
   * latest price, wherever it stands in the table.
   */
  lemma {:induction false} OtherRowsIrrelevant(a: seq<Row>, x: Row, b: seq<Row>, city: string, fuelType: string, days: int)
    requires !Matches(x, city, fuelType)
    ensures AnalyzeTrend(a + [x] + b, city, fuelType, days) == AnalyzeTrend(a + b, city, fuelType, days)
    ensures LatestPrice(a + [x] + b, city, fuelType) == LatestPrice(a + b, city, fuelType)
  {
    MatchingAppend(a + [x], b, city, fuelType);
    MatchingAppend(a, [x], city, fuelType);
    MatchingAppend(a, b, city, fuelType);
    assert Matching([x], city, fuelType) == [];
    assert Matching(a + [x] + b, city, fuelType) == Matching(a + b, city, fuelType);
  }

  /**
   * The current price is the last row of the table that matches the city and
   * fuel type; there is none exactly when no row matches.
   */
  lemma LatestIsLastMatchingRow(rows: seq<Row>, city: string, fuelType: string)
    ensures LatestPrice(rows, city, fuelType).None?
        <==> forall i :: 0 <= i < |rows| ==> !Matches(rows[i], city, fuelType)
    ensures LatestPrice(rows, city, fuelType).Some? ==>
      exists i :: IsLastMatch(rows, i, city, fuelType) && rows[i] == LatestPrice(rows, city, fuelType).value
  {
    var m := Matching(rows, city, fuelType);
    if m == [] {
      assert LatestPrice(rows, city, fuelType).None?;
      MatchingIsFilter(rows, city, fuelType);
      forall i | 0 <= i < |rows| ensures !Matches(rows[i], city, fuelType) {
        assert rows[i] in rows;
      }
    } else {
      assert Tail(m, 1) == [m[|m| - 1]];
      assert LatestPrice(rows, city, fuelType) == Some(m[|m| - 1]);
      LastOfMatching(rows, city, fuelType);
    }
  }

  /** Row i matches and no later row does. */
  predicate IsLastMatch(rows: seq<Row>, i: int, city: string, fuelType: string)
  {
    0 <= i < |rows| && Matches(rows[i], city, fuelType)
    && forall j :: i < j < |rows| ==> !Matches(rows[j], city, fuelType)
  }

  /** The last matching row is the last row of the table that matches. */
  lemma {:induction false} LastOfMatching(rows: seq<Row>, city: string, fuelType: string)
    requires Matching(rows, city, fuelType) != []
    ensures var m := Matching(rows, city, fuelType);
      exists i :: IsLastMatch(rows, i, city, fuelType) && rows[i] == m[|m| - 1]
  {
    var rest := rows[1..];
    var m := Matching(rest, city, fuelType);
    if m != [] {
      LastOfMatching(rest, city, fuelType);
      var i :| IsLastMatch(rest, i, city, fuelType) && rest[i] == m[|m| - 1];
      var whole := Matching(rows, city, fuelType);
      assert whole[|whole| - 1] == m[|m| - 1];
      assert rows[i + 1] == rest[i];
      forall j | i + 1 < j < |rows| ensures !Matches(rows[j], city, fuelType) {
        assert rows[j] == rest[j - 1];
      }
      assert IsLastMatch(rows, i + 1, city, fuelType);
    } else {
      assert Matching(rows, city, fuelType) == [rows[0]];
      MatchingIsFilter(rest, city, fuelType);
      forall j | 0 < j < |rows| ensures !Matches(rows[j], city, fuelType) {
        assert rows[j] == rest[j - 1];
        assert rest[j - 1] in rest;
      }
      assert IsLastMatch(rows, 0, city, fuelType);
    }
  }

  /** With a window of at least one day, the window ends at the current price. */
  lemma WindowEndsAtLatestPrice(rows: seq<Row>, city: string, fuelType: string, days: int)
    requires days >= 1
    ensures var w := Window(rows, city, fuelType, days);
      if w == [] then LatestPrice(rows, city, fuelType).None?
      else LatestPrice(rows, city, fuelType) == Some(w[|w| - 1])
  {
  }

  // ---------------------------------------------------------------------------
  // Properties of the classification
  // ---------------------------------------------------------------------------

  /**
   * A rise of more than 0.50 over the window is reported as an increase by
   * exactly that amount, with the advice to refuel soon.
   */
  lemma IncreasedIffAboveThreshold(rows: seq<Row>, city: string, fuelType: string, days: int)
    requires |Window(rows, city, fuelType, days)| >= 2
    ensures var a := AnalyzeTrend(rows, city, fuelType, days);
      var change := PriceChange(Window(rows, city, fuelType, days));
      a.Report? && (a.trend.Increased? <==> change > 0.50)
      && (a.trend.Increased? ==> a.trend.amount == change && a.advice == RefuelSoon)
  {
  }

  /**
   * A fall of more than 0.50 is reported as a decrease by the positive amount
   * of the fall, with the advice to wait.
   */
  lemma DecreasedIffBelowThreshold(rows: seq<Row>, city: string, fuelType: string, days: int)
    requires |Window(rows, city, fuelType, days)| >= 2
    ensures var a := AnalyzeTrend(rows, city, fuelType, days);
      var change := PriceChange(Window(rows, city, fuelType, days));
      a.Report? && (a.trend.Decreased? <==> change < -0.50)
      && (a.trend.Decreased? ==> a.trend.amount == -change && a.trend.amount > 0.50
                                 && a.advice == WaitBeforeBulkRefuel)
  {
  }

  /**
   * Everything between -0.50 and 0.50 inclusive is stable; exactly one of the
   * three trends is reported, and the advice follows the trend.
   */
  lemma StableIffWithinThreshold(rows: seq<Row>, city: string, fuelType: string, days: int)
    requires |Window(rows, city, fuelType, days)| >= 2
    ensures var a := AnalyzeTrend(rows, city, fuelType, days);
      var change := PriceChange(Window(rows, city, fuelType, days));
      a.Report? && (a.trend.Stable? <==> -0.50 <= change <= 0.50)
      && (a.trend.Stable? ==> a.advice == RefuelAsNeeded)
      && (change == 0.50 || change == -0.50 ==> a.trend == Stable)
  {
  }

  /**
   * The note on the average daily change appears exactly when that average,
   * the change divided by one less than the window length (at least one),
   * exceeds 0.05 either way; its direction agrees with the sign of the change.
   */
  lemma DailyNoteIffNoticeable(rows: seq<Row>, city: string, fuelType: string, days: int)
    requires |Window(rows, city, fuelType, days)| >= 2
    ensures var w := Window(rows, city, fuelType, days);
      var a := AnalyzeTrend(rows, city, fuelType, days);
      var avg := PriceChange(w) / (|w| - 1) as real;
      |w| - 1 >= 1 && a.Report?
      && (a.note.Some? <==> Abs(avg) > 0.05)
      && (a.note.Some? && a.note.value.AverageIncrease? ==>
            a.note.value.perDay == avg && PriceChange(w) > 0.0)
      && (a.note.Some? && a.note.value.AverageDecrease? ==>
            a.note.value.perDay == -avg && a.note.value.perDay > 0.05 && PriceChange(w) < 0.0)
  {
    var w := Window(rows, city, fuelType, days);
    QuotientSign(PriceChange(w), (|w| - 1) as real);
  }

  /** Dividing by a positive number keeps the sign. */
  lemma QuotientSign(x: real, d: real)
    requires d > 0.0
    ensures x / d > 0.0 ==> x > 0.0
    ensures x / d < 0.0 ==> x < 0.0
  {
    var q := x / d;
    assert x == q * d;
    if q > 0.0 {
      assert q * d > 0.0;
    } else if q < 0.0 {
      assert (-q) * d > 0.0;
    }
  }

  /**
   * Two readings a week apart that rise by 0.60: an increase, and a daily note
   * of 0.60, since the average is taken per step between rows, not per calendar day.
   */
  lemma IncreaseScenario(day: Date)
    ensures AnalyzeTrend([Row(day, "New Delhi", "Petrol", 94.50), Row(day + 7, "New Delhi", "Petrol", 95.10)],
                         "New Delhi", "Petrol", TREND_DAYS)
         == Report(Increased(0.60), RefuelSoon, Some(AverageIncrease(0.60)))
  {
    var rows := [Row(day, "New Delhi", "Petrol", 94.50), Row(day + 7, "New Delhi", "Petrol", 95.10)];
    assert rows[1..][1..] == [];
    assert Matching(rows, "New Delhi", "Petrol") == rows;
  }

  /** A rise of 0.05 is stable, and a daily average of exactly 0.05 gets no note. */
  lemma StableBoundaryScenario(day: Date)
    ensures AnalyzeTrend([Row(day, "New Delhi", "Petrol", 94.50), Row(day + 7, "New Delhi", "Petrol", 94.55)],
                         "New Delhi", "Petrol", TREND_DAYS)
         == Report(Stable, RefuelAsNeeded, None)
  {
    var rows := [Row(day, "New Delhi", "Petrol", 94.50), Row(day + 7, "New Delhi", "Petrol", 94.55)];
    assert rows[1..][1..] == [];
    assert Matching(rows, "New Delhi", "Petrol") == rows;
  }
}
