/** The decision logic of `GoogleSheetHandler.append_daily_data`
    (cloudflare_analytics.py:207-263): which incoming daily records become new sheet
    rows, in what order, and what those rows hold. The sheet's current values (the
    result of `get_existing_data`) are an input, and the batch the method would pass
    to the `append` call is the output; the API calls themselves are not modelled. */
module Sheet {
  import opened Outcomes
  import opened Text
  import opened Dates
  import opened ByteSize
  import opened Records

  /** A cell of a row sent with `valueInputOption='USER_ENTERED'`. */
  datatype Cell =
    | DateCell(date: CalendarDate)   // entered as the formula `DateFormula(date)`
    | Number(n: int)
    | Percent(ratio: Ratio)
    | Size(bytes: int)               // entered as the text `FormatBytes(bytes)`
    | Plain(s: string)

  type Row = seq<Cell>

  /** The column titles of lines 218-221, in column order A to I. */
  const Header: seq<string> := [
    "날짜", "고유 방문자", "페이지뷰", "총 요청수", "캐시된 요청수",
    "캐시 비율(%)", "총 데이터", "캐시된 데이터", "위협 감지"
  ]

  /** The first cell's text, `=DATE(year, month, day)` with unpadded numbers (line 241). */
  function DateFormula(d: CalendarDate): (r: string)
    requires ValidDate(d)
    ensures |r| >= 14 && r[..6] == "=DATE(" && r[|r| - 1] == ')'
  {
    "=DATE(" + NatStr(d.year) + ", " + NatStr(d.month) + ", " + NatStr(d.day) + ")"
  }

  /** Reads a number followed by `sep` off the front of `s`: its value and the
      text after the separator. */
  function ReadField(s: string, sep: string): Option<(nat, string)>
  {
    var n := DigitRun(s);
    if n == 0 || |s| < n + |sep| || s[n..n + |sep|] != sep then None
    else Some((DigitsValue(s[..n]), s[n + |sep|..]))
  }

  lemma ReadFieldOf(x: string, sep: string, rest: string)
    requires |x| > 0 && AllDigits(x) && |sep| > 0 && !IsDigit(sep[0])
    ensures ReadField(x + sep + rest, sep) == Some((DigitsValue(x), rest))
  {
    var s := x + sep + rest;
    assert s == x + (sep + rest);
    DigitRunOf(x, sep + rest);
    assert s[..|x|] == x;
    assert s[|x|..|x| + |sep|] == sep;
    assert s[|x| + |sep|..] == rest;
  }

  /** Reads the date a `=DATE(year, month, day)` formula names. */
  function ReadFormula(s: string): Option<CalendarDate>
  {
    if |s| < 6 || s[..6] != "=DATE(" then None
    else
      match ReadField(s[6..], ", ")
      case None => None
      case Some((y, afterYear)) =>
        match ReadField(afterYear, ", ")
        case None => None
        case Some((m, afterMonth)) =>
          match ReadField(afterMonth, ")")
          case None => None
          case Some((day, rest)) => if |rest| == 0 then Some(CalendarDate(y, m, day)) else None
  }

  /** The formula names the date it was built from, so different dates give
      different formulas. */
  lemma DateFormulaReadBack(d: CalendarDate)
    requires ValidDate(d)
    ensures ReadFormula(DateFormula(d)) == Some(d)
  {
    FormulaFields(NatStr(d.year), NatStr(d.month), NatStr(d.day));
  }

  lemma FormulaFields(y: string, m: string, day: string)
    requires |y| > 0 && |m| > 0 && |day| > 0 && AllDigits(y) && AllDigits(m) && AllDigits(day)
    ensures ReadFormula("=DATE(" + y + ", " + m + ", " + day + ")")
      == Some(CalendarDate(DigitsValue(y), DigitsValue(m), DigitsValue(day)))
  {
    var s := "=DATE(" + y + ", " + m + ", " + day + ")";
    var afterMonth := day + ")" + "";
    var afterYear := m + ", " + afterMonth;
    assert s == "=DATE(" + (y + ", " + afterYear);
    assert s[..6] == "=DATE(" && s[6..] == y + ", " + afterYear;
    ReadFieldOf(y, ", ", afterYear);
    ReadFieldOf(m, ", ", afterMonth);
    ReadFieldOf(day, ")", "");
  }

  lemma DateFormulaSample()
    ensures DateFormula(CalendarDate(2024, 1, 5)) == "=DATE(2024, 1, 5)"
  {
    assert NatStr(2) == "2";
    assert NatStr(20) == NatStr(2) + [DigitChar(0)] == "20";
    assert NatStr(202) == NatStr(20) + [DigitChar(2)] == "202";
    assert NatStr(2024) == NatStr(202) + [DigitChar(4)] == "2024";
    assert NatStr(1) == "1" && NatStr(5) == "5";
  }

  /** What the call sends for a cell that is not a number: the date formula, or
      the text of a size or a plain value. */
  function Entered(c: Cell): string
    requires !c.Number? && !c.Percent? && (c.DateCell? ==> ValidDate(c.date))
  {
    match c
    case DateCell(d) => DateFormula(d)
    case Size(n) => FormatBytes(n)
    case Plain(t) => t
  }

  /** The row of lines 244-254 for a record whose date parsed as `d`: one cell per
      header column, the date as a formula, both byte columns through `format_bytes`. */
  function BuildRow(rec: DayRecord, d: CalendarDate): (row: Row)
    ensures |row| == |Header|
    ensures row[0] == DateCell(d)
  {
    [ DateCell(d),
      Number(rec.uniqueVisitors),
      Number(rec.pageViews),
      Number(rec.requests),
      Number(rec.cachedRequests),
      Percent(rec.cacheRatio),
      Size(rec.bytes),
      Size(rec.cachedBytes),
      Number(rec.threats) ]
  }

  /** The cells of a built row give the record back: the date cell shows the parsed
      date, and each size cell reads back to its byte count's unit with the amount
      within rounding of the exact value. */
  lemma RowGivesRecordBack(rec: DayRecord, d: CalendarDate)
    requires ValidDate(d)
    ensures Displayable(BuildRow(rec, d)) && ColumnA(BuildRow(rec, d)) == IsoDate(d)
    ensures SizeReadsBack(Entered(BuildRow(rec, d)[6]), rec.bytes)
    ensures SizeReadsBack(Entered(BuildRow(rec, d)[7]), rec.cachedBytes)
  {
    var row := BuildRow(rec, d);
    assert row[6] == Size(rec.bytes) && row[7] == Size(rec.cachedBytes);
    SizeCellReadsBack(rec.bytes);
    SizeCellReadsBack(rec.cachedBytes);
  }

  /** The other cells of a built row hold the record's own values, in `Header`
      order: visitors, page views, requests, cached requests, the cache ratio, and
      the threats in the last column. */
  lemma RowHoldsRecord(rec: DayRecord, d: CalendarDate)
    ensures var row := BuildRow(rec, d);
      && row[1] == Number(rec.uniqueVisitors) && row[2] == Number(rec.pageViews)
      && row[3] == Number(rec.requests) && row[4] == Number(rec.cachedRequests)
      && row[5] == Percent(rec.cacheRatio) && row[8] == Number(rec.threats)
  {
  }

  lemma SizeCellReadsBack(n: int)
    ensures SizeReadsBack(Entered(Size(n)), n)
  {
    FormatBytesReadBack(n);
  }

  /** `text` reads back as a size in the unit `format_bytes` picks for `n`, with an
      amount within half a hundredth of the exact value in that unit. */
  predicate SizeReadsBack(text: string, n: int)
  {
    && ReadSize(text).Some?
    && ReadSize(text).value.1 == UnitIndex(n)
    && 2 * (100 * n - ReadSize(text).value.0 * Pow1024(UnitIndex(n))) <= Pow1024(UnitIndex(n))
    && 2 * (ReadSize(text).value.0 * Pow1024(UnitIndex(n)) - 100 * n) <= Pow1024(UnitIndex(n))
  }

  /** `{row[0] for row in rows}`. Indexing an empty row raises IndexError; the
      failure carries the index of the first such row. */
  function FirstCells(rows: seq<seq<string>>): (r: Result<set<string>, nat>)
    ensures r.Success? <==> forall i | 0 <= i < |rows| :: |rows[i]| > 0
    ensures r.Success? ==> forall i | 0 <= i < |rows| :: rows[i][0] in r.value
    ensures r.Success? ==> forall x | x in r.value :: exists i | 0 <= i < |rows| :: rows[i][0] == x
    ensures r.Failure? ==> r.error < |rows| && |rows[r.error]| == 0
    ensures r.Failure? ==> forall k | 0 <= k < r.error :: |rows[k]| > 0
  {
    if |rows| == 0 then Success({})
    else if |rows[0]| == 0 then Failure(0)
    else
      assert forall i | 1 <= i < |rows| :: rows[1..][i - 1] == rows[i];
      match FirstCells(rows[1..])
      case Failure(i) => Failure(i + 1)
      case Success(rest) =>
        assert forall x | x in rest :: exists i | 0 <= i < |rows| :: rows[i][0] == x by {
          forall x | x in rest ensures exists i | 0 <= i < |rows| :: rows[i][0] == x {
            var i :| 0 <= i < |rows[1..]| && rows[1..][i][0] == x;
            assert rows[i + 1][0] == x;
          }
        }
        Success({rows[0][0]} + rest)
  }

  /** Lines 223-229: the dates already stored. An empty sheet counts as holding only
      the header, and the first row is always taken as the header, so the dates are
      the first cells of rows 1 onwards. A failure is the index of an empty row. */
  function ExistingDates(existing: seq<seq<string>>): (r: Result<set<string>, nat>)
    ensures |existing| <= 1 ==> r == Success({})
    ensures r.Success? <==> forall i | 1 <= i < |existing| :: |existing[i]| > 0
    ensures r.Success? ==> forall i | 1 <= i < |existing| :: existing[i][0] in r.value
    ensures r.Success? ==> forall x | x in r.value :: exists i | 1 <= i < |existing| :: existing[i][0] == x
    ensures r.Failure? ==> 1 <= r.error < |existing| && |existing[r.error]| == 0
    ensures r.Failure? ==> forall k | 1 <= k < r.error :: |existing[k]| > 0
  {
    var sheet := if |existing| == 0 then [Header] else existing;
    if |sheet| <= 1 then Success({})
    else
      var data := sheet[1..];
      assert forall i | 1 <= i < |existing| :: data[i - 1] == existing[i];
      match FirstCells(data)
      case Failure(i) => Failure(i + 1)
      case Success(dates) =>
        assert forall x | x in dates :: exists i | 1 <= i < |existing| :: existing[i][0] == x by {
          forall x | x in dates ensures exists i | 1 <= i < |existing| :: existing[i][0] == x {
            var i :| 0 <= i < |data| && data[i][0] == x;
            assert existing[i + 1][0] == x;
          }
        }
        Success(dates)
  }

  /** Whatever the first row holds, it contributes no date: only the rows below it
      decide the outcome. */
  lemma HeaderExcluded(h1: seq<string>, h2: seq<string>, rows: seq<seq<string>>)
    ensures ExistingDates([h1] + rows) == ExistingDates([h2] + rows)
  {
    var a, b := [h1] + rows, [h2] + rows;
    assert forall i | 1 <= i < |a| :: a[i] == b[i] == rows[i - 1];
    var ra, rb := ExistingDates(a), ExistingDates(b);
    if ra.Success? {
      assert ra.value == rb.value;
    } else {
      assert rb.Failure?;
    }
  }

  /** The records of `s` whose date string is not in `known`, in their order. */
  function Fresh(s: seq<DayRecord>, known: set<string>): (r: seq<DayRecord>)
    ensures |r| <= |s|
    ensures multiset(r) <= multiset(s)
    ensures forall i | 0 <= i < |r| :: r[i].date !in known
  {
    if |s| == 0 then []
    else
      assert s == [s[0]] + s[1..];
      (if s[0].date in known then [] else [s[0]]) + Fresh(s[1..], known)
  }

  predicate AllDatesParse(s: seq<DayRecord>)
  {
    forall i | 0 <= i < |s| :: ParseDate(s[i].date).Some?
  }

  /** The position of the first date `strptime` rejects. */
  function FirstBadDate(s: seq<DayRecord>): (r: Option<nat>)
    ensures r.None? <==> AllDatesParse(s)
    ensures r.Some? ==> r.value < |s| && ParseDate(s[r.value].date).None?
    ensures r.Some? ==> forall k | 0 <= k < r.value :: ParseDate(s[k].date).Some?
  {
    if |s| == 0 then None
    else if ParseDate(s[0].date).None? then Some(0)
    else
      assert forall i | 1 <= i < |s| :: s[1..][i - 1] == s[i];
      match FirstBadDate(s[1..])
      case None => None
      case Some(i) => Some(i + 1)
  }

  /** `row` is the row built for `rec`. */
  predicate RowFor(rec: DayRecord, row: Row)
  {
    ParseDate(rec.date).Some? && row == RowOf(rec)
  }

  /** The row built for a record whose date parses. */
  function RowOf(rec: DayRecord): Row
    requires ParseDate(rec.date).Some?
  {
    BuildRow(rec, ParseDate(rec.date).value)
  }

  /** `rows` are the rows built for `recs`, one each, in order. */
  predicate RowsFor(recs: seq<DayRecord>, rows: seq<Row>)
  {
    |rows| == |recs| && forall i | 0 <= i < |rows| :: RowFor(recs[i], rows[i])
  }

  lemma FreshCons(s: seq<DayRecord>, known: set<string>)
    requires |s| > 0
    ensures Fresh(s, known) == (if s[0].date in known then [] else [s[0]]) + Fresh(s[1..], known)
  {
  }

  /** The new rows and the duplicate count of lines 235-257. */
  datatype Batch = Batch(rows: seq<Row>, duplicates: nat)

  /** The loop of lines 238-257 over the sorted records whose dates all parse, with
      the set of stored dates fixed before it starts: each record becomes a row or
      counts as a duplicate. */
  function Classify(s: seq<DayRecord>, known: set<string>): (r: Batch)
    requires AllDatesParse(s)
    ensures RowsFor(Fresh(s, known), r.rows)
    ensures |r.rows| + r.duplicates == |s|
  {
    if |s| == 0 then Batch([], 0)
    else
      assert AllDatesParse(s[1..]) by {
        assert forall i | 1 <= i < |s| :: s[1..][i - 1] == s[i];
      }
      var b := Classify(s[1..], known);
      FreshCons(s, known);
      if s[0].date in known then Batch(b.rows, b.duplicates + 1)
      else Batch([RowOf(s[0])] + b.rows, b.duplicates)
  }

  /** Why the call raised. */
  datatype AppendError =
    | EmptyRow(index: nat)    // `row[0]` on an empty stored row (line 229)
    | BadDate(date: string)   // `strptime` rejected a record's date (line 240)

  /** What `append_daily_data` does: nothing (returns None), appends the batch, or
      raises. `NoWrite` carries the duplicate count it prints. */
  datatype AppendOutcome =
    | NoWrite(duplicates: nat)
    | Appended(rows: seq<Row>, duplicates: nat)
    | Failed(error: AppendError)

  /** The records that become rows, oldest first: those whose date is not stored. */
  function Kept(existing: seq<seq<string>>, records: seq<DayRecord>): seq<DayRecord>
    requires ExistingDates(existing).Success?
  {
    Fresh(SortByDate(records, false), ExistingDates(existing).value)
  }

  /** `append_daily_data(daily_data)` against a sheet whose current values are
      `existing` (an unreadable sheet reads as `[]`, lines 203-205). The records are
      sorted oldest first (line 232), then each becomes a row unless its date string
      is already stored. */
  function AppendDailyData(existing: seq<seq<string>>, records: seq<DayRecord>): (r: AppendOutcome)
    ensures |records| == 0 ==> r == NoWrite(0)
    ensures |records| > 0 ==> (r.Failed? && r.error.EmptyRow? <==> ExistingDates(existing).Failure?)
    ensures r.Failed? && r.error.EmptyRow? ==> r.error.index == ExistingDates(existing).error
    ensures |records| > 0 && ExistingDates(existing).Success? ==> (r.Failed? <==> !AllDatesParse(records))
    ensures r.Failed? && r.error.BadDate? ==>
      exists i | 0 <= i < |records| :: records[i].date == r.error.date && ParseDate(r.error.date).None?
    ensures r.Failed? && r.error.BadDate? ==>
      && FirstBadDate(SortByDate(records, false)).Some?
      && r.error.date == SortByDate(records, false)[FirstBadDate(SortByDate(records, false)).value].date
    ensures !r.Failed? && |records| > 0 ==> ExistingDates(existing).Success?
    ensures !r.Failed? && |records| > 0 ==> (r.NoWrite? <==> |Kept(existing, records)| == 0)
    ensures r.Appended? ==> RowsFor(Kept(existing, records), r.rows)
    ensures r.Appended? ==> r.duplicates == |records| - |r.rows|
    ensures r.NoWrite? && |records| > 0 ==> r.duplicates == |records|
  {
    if |records| == 0 then NoWrite(0)
    else
      match ExistingDates(existing)
      case Failure(i) => Failed(EmptyRow(i))
      case Success(known) =>
        var sorted := SortByDate(records, false);
        SortedDatesParse(records, sorted);
        match FirstBadDate(sorted)
        case Some(i) =>
          assert sorted[i] in multiset(records);
          Failed(BadDate(sorted[i].date))
        case None =>
          var batch := Classify(sorted, known);
          if |batch.rows| == 0 then NoWrite(batch.duplicates)
          else Appended(batch.rows, batch.duplicates)
  }

  /** Sorting does not change which dates are present. */
  lemma SortedDatesParse(records: seq<DayRecord>, sorted: seq<DayRecord>)
    requires multiset(sorted) == multiset(records)
    ensures AllDatesParse(sorted) <==> AllDatesParse(records)
  {
    if AllDatesParse(records) {
      forall i | 0 <= i < |sorted| ensures ParseDate(sorted[i].date).Some? {
        assert sorted[i] in multiset(records);
      }
    }
    if AllDatesParse(sorted) {
      forall i | 0 <= i < |records| ensures ParseDate(records[i].date).Some? {
        assert records[i] in multiset(sorted);
      }
    }
  }

  /** Filtering by stored dates keeps exactly the records whose date is not stored,
      and all of them: for each date, the filtered records with that date are the
      original ones (none, when the date is stored). Records of one batch are never
      compared with each other, so repeated dates within a batch all pass. */
  lemma {:induction false} FreshWithDate(s: seq<DayRecord>, known: set<string>, d: string)
    ensures WithDate(Fresh(s, known), d) == if d in known then [] else WithDate(s, d)
  {
    if |s| > 0 {
      FreshWithDate(s[1..], known, d);
      FreshCons(s, known);
      var h: seq<DayRecord> := if s[0].date in known then [] else [s[0]];
      WithDateAppend(h, Fresh(s[1..], known), d);
      assert WithDate(s, d) == (if s[0].date == d then [s[0]] else []) + WithDate(s[1..], d);
      if |h| == 1 {
        assert WithDate(h, d) == (if s[0].date == d then [s[0]] else []) + WithDate(h[1..], d);
      }
    }
  }

  lemma {:induction false} WithDateAppend(a: seq<DayRecord>, b: seq<DayRecord>, d: string)
    ensures WithDate(a + b, d) == WithDate(a, d) + WithDate(b, d)
  {
    if |a| > 0 {
      WithDateAppend(a[1..], b, d);
      assert (a + b)[1..] == a[1..] + b;
    } else {
      assert a + b == b;
    }
  }

  /** A record whose date is not stored survives the filter. */
  lemma {:induction false} FreshKeeps(s: seq<DayRecord>, known: set<string>, x: DayRecord)
    requires x in s && x.date !in known
    ensures x in Fresh(s, known)
  {
    FreshCons(s, known);
    if s[0] != x {
      FreshKeeps(s[1..], known, x);
    }
  }

  /** A record gets a row exactly when its date string is not stored yet. */
  lemma KeptIff(existing: seq<seq<string>>, records: seq<DayRecord>, x: DayRecord)
    requires ExistingDates(existing).Success?
    ensures x in Kept(existing, records) <==> x in records && x.date !in ExistingDates(existing).value
  {
    var known := ExistingDates(existing).value;
    var sorted := SortByDate(records, false);
    var kept := Fresh(sorted, known);
    if x in kept {
      assert x in multiset(kept);
      assert x in multiset(records);
    }
    if x in records && x.date !in known {
      assert x in multiset(sorted);
      FreshKeeps(sorted, known, x);
    }
  }

  /** The rows go out in the order of the sorted records: oldest date first. */
  lemma {:induction false} FreshSorted(s: seq<DayRecord>, known: set<string>, descending: bool)
    requires SortedByDate(s, descending)
    ensures SortedByDate(Fresh(s, known), descending)
  {
    if |s| > 0 {
      FreshCons(s, known);
      SortedTail(s, descending);
      FreshSorted(s[1..], known, descending);
      if s[0].date !in known {
        var t := Fresh(s[1..], known);
        forall j | 0 <= j < |t| ensures !Ahead(t[j], s[0], descending) {
          assert t[j] in multiset(s[1..]);
          var k :| 0 <= k < |s[1..]| && s[1..][k] == t[j];
          assert s[k + 1] == t[j];
        }
        SortedCons(s[0], t, descending);
      }
    }
  }

  /** What lands in the sheet, in the order it lands: for a date that is not yet
      stored, every record carrying it is appended, in the order the records came;
      for a stored date, none is. The rows are in ascending date order. */
  lemma AppendedRows(existing: seq<seq<string>>, records: seq<DayRecord>, d: string)
    requires AppendDailyData(existing, records).Appended?
    ensures var known := ExistingDates(existing).value;
      var kept := Fresh(SortByDate(records, false), known);
      && SortedByDate(kept, false)
      && WithDate(kept, d) == if d in known then [] else WithDate(records, d)
  {
    var known := ExistingDates(existing).value;
    var sorted := SortByDate(records, false);
    FreshSorted(sorted, known, false);
    FreshWithDate(sorted, known, d);
  }

  /* The sheet after the call. Only column A matters to a later run, so a stored row
     is modelled by the text of its first cell as the sheet reads it back: a date
     cell in the `yyyy-mm-dd` number format the call applies to the date column. */

  predicate Displayable(row: Row)
  {
    |row| > 0 && (row[0].DateCell? ==> ValidDate(row[0].date)) && (row[0].DateCell? || row[0].Plain?)
  }

  function ColumnA(row: Row): string
    requires Displayable(row)
  {
    match row[0]
    case DateCell(d) => IsoDate(d)
    case Plain(t) => t
  }

  function ShownRows(rows: seq<Row>): (r: seq<seq<string>>)
    requires forall i | 0 <= i < |rows| :: Displayable(rows[i])
    ensures |r| == |rows|
    ensures forall i | 0 <= i < |rows| :: r[i] == [ColumnA(rows[i])]
  {
    if |rows| == 0 then [] else [[ColumnA(rows[0])]] + ShownRows(rows[1..])
  }

  predicate Storable(outcome: AppendOutcome)
  {
    outcome.Appended? ==> forall i | 0 <= i < |outcome.rows| :: Displayable(outcome.rows[i])
  }

  function StoreAfter(existing: seq<seq<string>>, outcome: AppendOutcome): seq<seq<string>>
    requires Storable(outcome)
  {
    if outcome.Appended? then existing + ShownRows(outcome.rows) else existing
  }

  /** A built row can be stored, and its date cell reads back as its record's date
      string when that string is in canonical form. */
  lemma RowReadBack(rec: DayRecord, row: Row)
    requires RowFor(rec, row)
    ensures Displayable(row)
    ensures IsCanonical(rec.date) ==> ColumnA(row) == rec.date
  {
  }

  lemma RowsReadBack(recs: seq<DayRecord>, rows: seq<Row>)
    requires RowsFor(recs, rows)
    ensures forall i | 0 <= i < |rows| :: Displayable(rows[i])
    ensures forall i | 0 <= i < |rows| && IsCanonical(recs[i].date) :: ColumnA(rows[i]) == recs[i].date
  {
    forall i | 0 <= i < |rows| ensures Displayable(rows[i]) && (IsCanonical(recs[i].date) ==> ColumnA(rows[i]) == recs[i].date) {
      RowReadBack(recs[i], rows[i]);
    }
  }

  /** Stored rows below the first row add their first cells to the known dates. */
  lemma {:induction false} ExistingDatesGrow(existing: seq<seq<string>>, added: seq<seq<string>>)
    requires |existing| > 0 && ExistingDates(existing).Success?
    requires forall i | 0 <= i < |added| :: |added[i]| > 0
    ensures ExistingDates(existing + added).Success?
    ensures forall x | x in ExistingDates(existing).value :: x in ExistingDates(existing + added).value
    ensures forall i | 0 <= i < |added| :: added[i][0] in ExistingDates(existing + added).value
  {
    var all := existing + added;
    forall i | 1 <= i < |all| ensures |all[i]| > 0 {
      if i >= |existing| {
        assert all[i] == added[i - |existing|];
      }
    }
    forall x | x in ExistingDates(existing).value ensures x in ExistingDates(all).value {
      var i :| 1 <= i < |existing| && existing[i][0] == x;
      assert all[i] == existing[i];
    }
    forall i | 0 <= i < |added| ensures added[i][0] in ExistingDates(all).value {
      assert all[|existing| + i] == added[i];
    }
  }

  /** When every record's date is stored and parses, the call writes nothing and
      counts every record as a duplicate. */
  lemma AllStoredWritesNothing(store: seq<seq<string>>, records: seq<DayRecord>)
    requires |records| > 0 && ExistingDates(store).Success? && AllDatesParse(records)
    requires forall i | 0 <= i < |records| :: records[i].date in ExistingDates(store).value
    ensures AppendDailyData(store, records) == NoWrite(|records|)
  {
    var known := ExistingDates(store).value;
    var sorted := SortByDate(records, false);
    forall i | 0 <= i < |sorted| ensures sorted[i].date in known {
      assert sorted[i] in multiset(records);
    }
    FreshAllStored(sorted, known);
    assert Kept(store, records) == [];
  }

  /** Everything survives the filter when nothing is stored. */
  lemma {:induction false} FreshNoneStored(s: seq<DayRecord>)
    ensures Fresh(s, {}) == s
  {
    if |s| > 0 {
      FreshCons(s, {});
      FreshNoneStored(s[1..]);
      assert s == [s[0]] + s[1..];
    }
  }

  /** Nothing survives the filter when every date is stored. */
  lemma {:induction false} FreshAllStored(s: seq<DayRecord>, known: set<string>)
    requires forall i | 0 <= i < |s| :: s[i].date in known
    ensures Fresh(s, known) == []
  {
    if |s| > 0 {
      FreshCons(s, known);
      assert forall i | 0 <= i < |s[1..]| :: s[1..][i] == s[i + 1];
      FreshAllStored(s[1..], known);
    }
  }

  /** A record whose date was not stored has its row among the new rows, and that
      row's first cell reads back as the record's date. */
  lemma RecordRowShown(known: set<string>, records: seq<DayRecord>, rows: seq<Row>, i: nat)
    requires RowsFor(Fresh(SortByDate(records, false), known), rows)
    requires forall j | 0 <= j < |rows| :: Displayable(rows[j])
    requires i < |records| && IsCanonical(records[i].date) && records[i].date !in known
    ensures exists j | 0 <= j < |rows| :: ShownRows(rows)[j][0] == records[i].date
  {
    var sorted := SortByDate(records, false);
    var kept := Fresh(sorted, known);
    assert records[i] in multiset(sorted);
    FreshKeeps(sorted, known, records[i]);
    var j :| 0 <= j < |kept| && kept[j] == records[i];
    RowReadBack(kept[j], rows[j]);
    assert ShownRows(rows)[j][0] == records[i].date;
  }

  /** After an append, every record's date is stored: in the sheet before, or in a
      row just appended. */
  lemma EveryDateStored(base: seq<seq<string>>, records: seq<DayRecord>, rows: seq<Row>)
    requires |base| > 0 && ExistingDates(base).Success?
    requires forall i | 0 <= i < |records| :: IsCanonical(records[i].date)
    requires RowsFor(Fresh(SortByDate(records, false), ExistingDates(base).value), rows)
    ensures forall i | 0 <= i < |rows| :: Displayable(rows[i])
    ensures ExistingDates(base + ShownRows(rows)).Success?
    ensures forall i | 0 <= i < |records| :: records[i].date in ExistingDates(base + ShownRows(rows)).value
  {
    var known := ExistingDates(base).value;
    RowsReadBack(Fresh(SortByDate(records, false), known), rows);
    var added := ShownRows(rows);
    forall i | 0 <= i < |records|
      ensures records[i].date in known || exists j | 0 <= j < |added| :: added[j][0] == records[i].date
    {
      if records[i].date !in known {
        RecordRowShown(known, records, rows, i);
      }
    }
    DatesStored(base, added, records);
  }

  /** Dates that were stored or are the first cells of added rows are stored after
      the rows are added. */
  lemma DatesStored(base: seq<seq<string>>, added: seq<seq<string>>, records: seq<DayRecord>)
    requires |base| > 0 && ExistingDates(base).Success?
    requires forall j | 0 <= j < |added| :: |added[j]| > 0
    requires forall i | 0 <= i < |records| ::
      records[i].date in ExistingDates(base).value || exists j | 0 <= j < |added| :: added[j][0] == records[i].date
    ensures ExistingDates(base + added).Success?
    ensures forall i | 0 <= i < |records| :: records[i].date in ExistingDates(base + added).value
  {
    ExistingDatesGrow(base, added);
  }

  /** On a sheet that already has a first row, running again with the same records
      appends nothing: every date appended by the first run is found by the second. */
  lemma RerunWritesNothing(existing: seq<seq<string>>, records: seq<DayRecord>)
    requires |existing| > 0 && |records| > 0
    requires forall i | 0 <= i < |records| :: IsCanonical(records[i].date)
    requires !AppendDailyData(existing, records).Failed?
    ensures Storable(AppendDailyData(existing, records))
    ensures AppendDailyData(StoreAfter(existing, AppendDailyData(existing, records)), records)
      == NoWrite(|records|)
  {
    var out := AppendDailyData(existing, records);
    assert AllDatesParse(records);
    if out.Appended? {
      EveryDateStored(existing, records, out.rows);
      AllStoredWritesNothing(existing + ShownRows(out.rows), records);
    } else {
      assert forall i | 0 <= i < |records| :: records[i].date in ExistingDates(existing).value by {
        var sorted := SortByDate(records, false);
        forall i | 0 <= i < |records| ensures records[i].date in ExistingDates(existing).value {
          if records[i].date !in ExistingDates(existing).value {
            assert records[i] in multiset(sorted);
            FreshKeeps(sorted, ExistingDates(existing).value, records[i]);
          }
        }
      }
      AllStoredWritesNothing(existing, records);
    }
  }

  /** The header row the call builds for an empty sheet (line 224). */
  const HeaderRow: Row := [
    Plain(Header[0]), Plain(Header[1]), Plain(Header[2]), Plain(Header[3]), Plain(Header[4]),
    Plain(Header[5]), Plain(Header[6]), Plain(Header[7]), Plain(Header[8])
  ]

  /** The call as evidently intended: on an empty sheet the header row it builds is
      written above the new rows, so that it is the sheet's first row. */
  function AppendDailyDataWithHeader(existing: seq<seq<string>>, records: seq<DayRecord>): (r: AppendOutcome)
  {
    var out := AppendDailyData(existing, records);
    if |existing| == 0 && out.Appended? then Appended([HeaderRow] + out.rows, out.duplicates) else out
  }

  /** With the header written, a second run with the same records appends nothing,
      whether or not the sheet started empty. */
  lemma HeaderedRerunWritesNothing(existing: seq<seq<string>>, records: seq<DayRecord>)
    requires |records| > 0
    requires forall i | 0 <= i < |records| :: IsCanonical(records[i].date)
    requires !AppendDailyDataWithHeader(existing, records).Failed?
    ensures Storable(AppendDailyDataWithHeader(existing, records))
    ensures AppendDailyDataWithHeader(StoreAfter(existing, AppendDailyDataWithHeader(existing, records)), records)
      == NoWrite(|records|)
  {
    var out := AppendDailyData(existing, records);
    var r := AppendDailyDataWithHeader(existing, records);
    if |existing| > 0 {
      assert r == out;
      RerunWritesNothing(existing, records);
      var store := StoreAfter(existing, out);
      assert |store| > 0;
      assert AppendDailyDataWithHeader(store, records) == AppendDailyData(store, records);
    } else {
      assert existing == [];
      FreshNoneStored(SortByDate(records, false));
      EmptySheetHeaderedRerun(records);
    }
  }

  /** The sheet started empty and the call appended: the header now heads the sheet,
      and every record's date is below it. */
  lemma EmptySheetHeaderedRerun(records: seq<DayRecord>)
    requires |records| > 0
    requires forall i | 0 <= i < |records| :: IsCanonical(records[i].date)
    requires AppendDailyData([], records).Appended?
    ensures Storable(AppendDailyDataWithHeader([], records))
    ensures AppendDailyDataWithHeader(StoreAfter([], AppendDailyDataWithHeader([], records)), records)
      == NoWrite(|records|)
  {
    var out := AppendDailyData([], records);
    var first := [ColumnA(HeaderRow)];
    assert ExistingDates([first]) == ExistingDates([]);
    EveryDateStored([first], records, out.rows);
    HeaderedStore(records);
    var store := [first] + ShownRows(out.rows);
    assert AllDatesParse(records);
    AllStoredWritesNothing(store, records);
    assert AppendDailyDataWithHeader(store, records) == AppendDailyData(store, records);
  }

  /** What the corrected call leaves on a sheet that was empty: the header's first
      cell, then the first cells of the new rows. */
  lemma HeaderedStore(records: seq<DayRecord>)
    requires AppendDailyData([], records).Appended?
    requires forall i | 0 <= i < |AppendDailyData([], records).rows| :: Displayable(AppendDailyData([], records).rows[i])
    ensures Storable(AppendDailyDataWithHeader([], records))
    ensures StoreAfter([], AppendDailyDataWithHeader([], records))
      == [[ColumnA(HeaderRow)]] + ShownRows(AppendDailyData([], records).rows)
  {
    var rows := AppendDailyData([], records).rows;
    var written := [HeaderRow] + rows;
    assert AppendDailyDataWithHeader([], records).rows == written;
    assert HeaderRow[0] == Plain(Header[0]);
    forall i | 0 <= i < |written| ensures Displayable(written[i]) {
      if i > 0 {
        assert written[i] == rows[i - 1];
      }
    }
    assert ShownRows(written) == [[ColumnA(HeaderRow)]] + ShownRows(rows) by {
      assert written[1..] == rows;
    }
  }

  /** `a` and `b` are the records of two days, `dayA` before `dayB`, with the dates
      in the form the API sends. */
  predicate TwoDays(a: DayRecord, b: DayRecord, dayA: CalendarDate, dayB: CalendarDate)
  {
    && ValidDate(dayA) && ValidDate(dayB) && Before(dayA, dayB)
    && a.date == IsoDate(dayA) && b.date == IsoDate(dayB)
  }

  lemma TwoDaysFacts(a: DayRecord, b: DayRecord, dayA: CalendarDate, dayB: CalendarDate)
    requires TwoDays(a, b, dayA, dayB)
    ensures IsCanonical(a.date) && IsCanonical(b.date) && Less(a.date, b.date)
    ensures RowOf(a) == BuildRow(a, dayA) && RowOf(b) == BuildRow(b, dayB)
  {
    ParseIsoDate(dayA);
    ParseIsoDate(dayB);
    IsoDateOrder(dayA, dayB);
  }

  /** As written, an empty sheet never receives the header row the call builds for
      it, so the next run takes the oldest appended row for the header and appends
      that day again. With the records of two new days, listed newest first as the
      collector returns them: */
  lemma EmptySheetReappendsOldest(a: DayRecord, b: DayRecord, dayA: CalendarDate, dayB: CalendarDate)
    requires TwoDays(a, b, dayA, dayB)
    ensures AppendDailyData([], [b, a]) == Appended([BuildRow(a, dayA), BuildRow(b, dayB)], 0)
    ensures Storable(AppendDailyData([], [b, a]))
    ensures AppendDailyData(StoreAfter([], AppendDailyData([], [b, a])), [b, a]) == Appended([BuildRow(a, dayA)], 1)
  {
    FirstRunOnEmpty(a, b, dayA, dayB);
    StoreAfterFirstRun(a, b, dayA, dayB);
    SecondRunAfterEmpty(a, b, dayA, dayB);
  }

  /** Sorting two records with different dates puts the older first. */
  lemma SortTwo(a: DayRecord, b: DayRecord)
    requires Less(a.date, b.date)
    ensures SortByDate([b, a], false) == [a, b]
  {
    assert [b, a][1..] == [a];
    assert [a][1..] == [];
    assert SortByDate([a], false) == [a];
    assert Ahead(a, b, false);
    assert Insert(b, [a], false) == [a] + Insert(b, [], false);
  }

  lemma FirstRunOnEmpty(a: DayRecord, b: DayRecord, dayA: CalendarDate, dayB: CalendarDate)
    requires TwoDays(a, b, dayA, dayB)
    ensures AppendDailyData([], [b, a]) == Appended([BuildRow(a, dayA), BuildRow(b, dayB)], 0)
  {
    TwoDaysFacts(a, b, dayA, dayB);
    SortTwo(a, b);
    assert AllDatesParse([b, a]);
    assert ExistingDates([]) == Success({});
    FreshOfTwo(a, b, {});
    OutcomeOfKept([], [b, a], [RowOf(a), RowOf(b)]);
  }

  /** The stored dates are read once, before the loop: two new records of one day
      both become rows. */
  lemma SameDayBothAppended(a: DayRecord, b: DayRecord, day: CalendarDate)
    requires ValidDate(day) && a.date == IsoDate(day) && b.date == a.date
    ensures AppendDailyData([], [a, b]) == Appended([BuildRow(a, day), BuildRow(b, day)], 0)
  {
    ParseIsoDate(day);
    SortSameDay(a, b);
    assert AllDatesParse([a, b]);
    assert ExistingDates([]) == Success({});
    FreshOfTwo(a, b, {});
    OutcomeOfKept([], [a, b], [RowOf(a), RowOf(b)]);
  }

  /** The sort is stable: two records of one day keep their order. */
  lemma SortSameDay(a: DayRecord, b: DayRecord)
    requires a.date == b.date
    ensures SortByDate([a, b], false) == [a, b]
  {
    LessIrreflexive(a.date);
    assert [a, b][1..] == [b] && [b][1..] == [];
    assert SortByDate([b], false) == [b];
    assert !Ahead(b, a, false);
  }

  /** Filtering the two sorted records. */
  lemma FreshOfTwo(a: DayRecord, b: DayRecord, known: set<string>)
    ensures Fresh([a, b], known) == (if a.date in known then [] else [a]) + (if b.date in known then [] else [b])
  {
    FreshCons([a, b], known);
    assert [a, b][1..] == [b];
    FreshCons([b], known);
    assert [b][1..] == [];
  }

  /** Once the kept records are known, so is the outcome: their rows, and the rest
      counted as duplicates. */
  lemma OutcomeOfKept(existing: seq<seq<string>>, records: seq<DayRecord>, rows: seq<Row>)
    requires |records| > 0 && ExistingDates(existing).Success? && AllDatesParse(records)
    requires |Kept(existing, records)| > 0 && RowsFor(Kept(existing, records), rows)
    ensures AppendDailyData(existing, records) == Appended(rows, |records| - |rows|)
  {
    var out := AppendDailyData(existing, records);
    var sorted := SortByDate(records, false);
    var kept := Kept(existing, records);
    assert kept == Fresh(sorted, ExistingDates(existing).value);
    SortedDatesParse(records, sorted);
    var batch := Classify(sorted, ExistingDates(existing).value);
    assert RowsFor(kept, batch.rows);
    assert out == Appended(batch.rows, batch.duplicates);
    assert out.Appended? && |out.rows| == |kept|;
    assert forall i | 0 <= i < |rows| :: out.rows[i] == RowOf(kept[i]) == rows[i];
  }

  lemma StoreAfterFirstRun(a: DayRecord, b: DayRecord, dayA: CalendarDate, dayB: CalendarDate)
    requires TwoDays(a, b, dayA, dayB)
    ensures Storable(Appended([BuildRow(a, dayA), BuildRow(b, dayB)], 0))
    ensures StoreAfter([], Appended([BuildRow(a, dayA), BuildRow(b, dayB)], 0)) == [[a.date], [b.date]]
  {
    TwoDaysFacts(a, b, dayA, dayB);
    RowReadBack(a, RowOf(a));
    RowReadBack(b, RowOf(b));
    var rows := [RowOf(a), RowOf(b)];
    assert rows[1..] == [RowOf(b)];
    assert ShownRows(rows) == [[a.date]] + ShownRows([RowOf(b)]);
  }

  /** Of two stored one-cell rows, only the second holds a date. */
  lemma SecondRowOnly(x: string, y: string)
    ensures ExistingDates([[x], [y]]) == Success({y})
  {
    var store := [[x], [y]];
    var r := ExistingDates(store);
    assert |store[1]| > 0 && store[1][0] == y;
    assert r.Success? && y in r.value;
    forall z | z in r.value ensures z == y {
      var i :| 1 <= i < |store| && store[i][0] == z;
      assert i == 1;
    }
    assert r.value == {y};
  }

  lemma SecondRunAfterEmpty(a: DayRecord, b: DayRecord, dayA: CalendarDate, dayB: CalendarDate)
    requires TwoDays(a, b, dayA, dayB)
    ensures AppendDailyData([[a.date], [b.date]], [b, a]) == Appended([BuildRow(a, dayA)], 1)
  {
    TwoDaysFacts(a, b, dayA, dayB);
    LessIrreflexive(a.date);
    SortTwo(a, b);
    assert AllDatesParse([b, a]);
    SecondRowOnly(a.date, b.date);
    FreshOfTwo(a, b, {b.date});
    OutcomeOfKept([[a.date], [b.date]], [b, a], [RowOf(a)]);
  }
}
