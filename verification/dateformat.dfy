/** The date-column format request after an append (cloudflare_analytics.py:274-303).
    The call applies the `yyyy-mm-dd` number format to column A only when
    `get_sheet_id` (lines 315-327) returned a truthy id. A date cell left without
    that format shows the spreadsheet locale's default date form. This module
    models what a later run then reads back from column A. */
module DateFormat {
  import opened Outcomes
  import opened Text
  import opened Dates
  import opened Records
  import opened Sheet

  /** The evidently intended test, `if sheet_id is not None:`: every sheet that
      was found gets the format, whatever its id. */
  predicate FormatsIntended(sheetId: Option<int>)
  {
    sheetId.Some?
  }

  /** Line 276 as written, `if sheet_id:`. The id is None when no sheet has the
      title or the lookup raised; an id of 0 is falsy too. It differs from the
      intended test exactly at the id 0. */
  function FormatsAsWritten(sheetId: Option<int>): (r: bool)
    ensures r ==> sheetId.Some?
    ensures sheetId == Some(0) ==> !r
    ensures r <==> FormatsIntended(sheetId) && sheetId != Some(0)
  {
    sheetId.Some? && sheetId.value != 0
  }

  /** A date with no number format applied, in the Korean locale's default form
      the program's messages are written for: `2024. 1. 5`. */
  function LocaleDate(d: CalendarDate): (s: string)
    requires ValidDate(d)
    ensures |NatStr(d.year)| < |s| && s[|NatStr(d.year)|] == '.'
  {
    NatStr(d.year) + ". " + NatStr(d.month) + ". " + NatStr(d.day)
  }

  /** The zero-padded rendering holds digits and dashes only. */
  lemma IsoDateHasNoPoint(d: CalendarDate, i: nat)
    requires ValidDate(d) && i < 10
    ensures IsoDate(d)[i] != '.'
  {
    var y, m, dd := Padded(d.year, 4), Padded(d.month, 2), Padded(d.day, 2);
    var s := IsoDate(d);
    if i < 4 {
      assert s[i] == y[i];
    } else if i == 4 || i == 7 {
      assert s[i] == '-';
    } else if i < 7 {
      assert s[i] == m[i - 5];
    } else {
      assert s[i] == dd[i - 8];
    }
  }

  /** Without the number format, a date cell never reads back as the date string
      the API sends for that date. */
  lemma LocaleDateNotIso(d: CalendarDate)
    requires ValidDate(d)
    ensures LocaleDate(d) != IsoDate(d)
  {
    var k := |NatStr(d.year)|;
    if k < 10 {
      IsoDateHasNoPoint(d, k);
    }
  }

  /** Column A of a stored row as a later run reads it, with or without the format. */
  function ColumnAShown(row: Row, formatted: bool): (s: string)
    requires Displayable(row)
    ensures formatted ==> s == ColumnA(row)
    ensures !formatted && row[0].DateCell? ==> s != IsoDate(row[0].date)
  {
    if formatted then ColumnA(row)
    else
      match row[0]
      case DateCell(d) => LocaleDateNotIso(d); LocaleDate(d)
      case Plain(t) => t
  }

  function ShownRowsWith(rows: seq<Row>, formatted: bool): (r: seq<seq<string>>)
    requires forall i | 0 <= i < |rows| :: Displayable(rows[i])
    ensures |r| == |rows|
    ensures forall i | 0 <= i < |rows| :: r[i] == [ColumnAShown(rows[i], formatted)]
  {
    if |rows| == 0 then [] else [[ColumnAShown(rows[0], formatted)]] + ShownRowsWith(rows[1..], formatted)
  }

  /** The sheet after the call, with the format applied or not; with it, this is
      the store the rest of the model reasons about. */
  function StoreWith(existing: seq<seq<string>>, outcome: AppendOutcome, formatted: bool): (r: seq<seq<string>>)
    requires Storable(outcome)
    ensures formatted ==> r == StoreAfter(existing, outcome)
    ensures !outcome.Appended? ==> r == existing
    ensures outcome.Appended? ==> |r| == |existing| + |outcome.rows| && r[..|existing|] == existing
  {
    if outcome.Appended? then
      assert formatted ==> ShownRowsWith(outcome.rows, formatted) == ShownRows(outcome.rows);
      existing + ShownRowsWith(outcome.rows, formatted)
    else existing
  }

  /** As written, on a sheet whose id is 0 (a spreadsheet's first sheet) the format
      is never applied. A new day appended below the header then reads back in the
      locale's form, so the next run with the same record appends it again. */
  lemma FirstSheetReappends(header: seq<string>, a: DayRecord, day: CalendarDate)
    requires ValidDate(day) && a.date == IsoDate(day)
    ensures !FormatsAsWritten(Some(0))
    ensures AppendDailyData([header], [a]) == Appended([BuildRow(a, day)], 0)
    ensures Storable(Appended([BuildRow(a, day)], 0))
    ensures AppendDailyData(StoreWith([header], Appended([BuildRow(a, day)], 0), FormatsAsWritten(Some(0))), [a])
      == Appended([BuildRow(a, day)], 0)
  {
    ParseIsoDate(day);
    var row := BuildRow(a, day);
    assert RowOf(a) == row;
    OneNewRecordOneRow([header], a, row);
    var shown := LocaleDate(day);
    LocaleDateNotIso(day);
    assert StoreWith([header], Appended([row], 0), false) == [header, [shown]] by {
      assert ShownRowsWith([row], false) == [[shown]];
    }
    HeaderExcluded(header, [""], [[shown]]);
    SecondRowOnly("", shown);
    OneNewRecordOneRow([header, [shown]], a, row);
  }

  /** On any readable sheet, one record whose date parses and is not stored becomes
      one row. */
  lemma OneNewRecordOneRow(existing: seq<seq<string>>, a: DayRecord, row: Row)
    requires ExistingDates(existing).Success? && a.date !in ExistingDates(existing).value
    requires ParseDate(a.date).Some? && row == RowOf(a)
    ensures AppendDailyData(existing, [a]) == Appended([row], 0)
  {
    assert [a][1..] == [];
    assert SortByDate([a], false) == [a];
    assert AllDatesParse([a]);
    FreshCons([a], ExistingDates(existing).value);
    OutcomeOfKept(existing, [a], [row]);
  }

  /** With the intended test, every sheet that was found gets the format, so a
      second run with the same records appends nothing on a sheet with a first row,
      whatever the sheet's id. */
  lemma IntendedRerunWritesNothing(existing: seq<seq<string>>, records: seq<DayRecord>, sheetId: int)
    requires |existing| > 0 && |records| > 0
    requires forall i | 0 <= i < |records| :: IsCanonical(records[i].date)
    requires !AppendDailyData(existing, records).Failed?
    ensures FormatsIntended(Some(sheetId))
    ensures Storable(AppendDailyData(existing, records))
    ensures AppendDailyData(StoreWith(existing, AppendDailyData(existing, records), FormatsIntended(Some(sheetId))), records)
      == NoWrite(|records|)
  {
    RerunWritesNothing(existing, records);
  }
}
