# Cloudflare analytics collector: the decision logic in Dafny

`cloudflare_analytics.py` is a monthly job with five steps:
1. It reads a JSON configuration.
2. It asks Cloudflare's GraphQL analytics API for the last 30 days of per-day traffic of one zone.
3. It flattens each day into a record.
4. It appends the days the Google Sheet does not hold yet, one row per day, oldest first.
5. An hourly loop starts a collection only on the first day of the month.

This project models the pure decisions of that job. The network, the Sheets client and the clock become inputs and outputs.

| module | file | models |
|---|---|---|
| `Outcomes` | outcomes.dfy | `Option`, `Result`, `Outcome`: returning None, raising, passing |
| `Text` | text.dfy | Python's `str` order, decimal digits, `str(n)` and zero padding |
| `Dates` | dates.dfy | `datetime.strptime(s, '%Y-%m-%d')`, following CPython's directive patterns; the `yyyy-mm-dd` rendering |
| `Config` | config.dfy | `ConfigHandler.validate_config` over a decoded JSON value |
| `Records` | records.dfy | the daily record, and Python's stable sort on its date string |
| `Analytics` | analytics.dfy | shaping the GraphQL day groups into records, newest first |
| `ByteSize` | bytesize.dfy | `format_bytes`, and reading its text back |
| `Sheet` | sheet.dfy | `append_daily_data`: stored dates, filtering, row building, the outcome, a second run |
| `DateFormat` | dateformat.dfy | the date-column format request after an append, and what column A then reads back as |
| `Schedule` | schedule.dfy | `should_collect_data` |

How the pieces are represented:
- **Sheet contents.** The sheet's current values (`get_existing_data`) are a `seq<seq<string>>` parameter.
- **Outcome.** `append_daily_data` yields an `AppendOutcome`:
  - `NoWrite(duplicates)`: it returned None;
  - `Appended(rows, duplicates)`: the batch it passes to `append`;
  - `Failed(error)`: it raised.
- **Cells.** A cell knows what it is. A date cell is entered as `=DATE(y, m, d)`, and a size cell is entered as the text `format_bytes` prints.
- **Second run.** To reason about running again, a stored row is modelled by what its column A reads back as.

## Model

| member | source | states |
|---|---|---|
| Config.LookupField | cloudflare_analytics.py:41-44 | For an object section, a field is found exactly when it is a key, and its value is then the key's value; other section values never yield a value |
| Config.CheckFields | cloudflare_analytics.py:40-45 | A section passes exactly when every listed field is present and truthy; otherwise the error is that of the first failing field in list order |
| Config.CheckSections | cloudflare_analytics.py:36-45 | Passes exactly when every section is present and complete; otherwise it fails at the first failing section, naming it, with MissingSection exactly when the section is absent, and for a present section with the error of its first failing field |
| Config.Validate | cloudflare_analytics.py:29-45 | Passes exactly when both sections are complete; an error names one of the two sections, and an error about `google_sheets` means the `cloudflare` section was complete, because it is checked first |
| Config.ValidateIff | cloudflare_analytics.py:29-45 | Validation passes if and only if all five settings are present and non-empty |
| Config.MissingSheetsSection | cloudflare_analytics.py:36-38 | A configuration with only a complete `cloudflare` section fails on the missing `google_sheets` section |
| Analytics.CacheRatio | cloudflare_analytics.py:150-156 | With positive total requests the ratio is exactly 100·cached/total; otherwise it is 0 |
| Analytics.CacheRatioBounds | cloudflare_analytics.py:150-156 | With no more cached than total requests the ratio lies in [0, 100], and it is 0 exactly when nothing was cached or nothing was requested |
| Analytics.ShapeDay | cloudflare_analytics.py:133-156 | A group shapes exactly when dimensions, sum, uniq and the date are present, and the error names the first missing key in lookup order; otherwise each record field is the group's metric or 0 |
| Analytics.ShapeAll | cloudflare_analytics.py:131-158 | Succeeds exactly when every group shapes, with one record per group in order; otherwise it reports the first failing group's key and index |
| Analytics.CollectDays | cloudflare_analytics.py:125-163 | No groups gives None. Otherwise the result is a permutation of the shaped records, sorted newest first, with records of one date in input order, or the first KeyError |
| Analytics.CollectDaysCoversGroups | cloudflare_analytics.py:133-161 | Every group's record is in the result, and every record in the result is some group's record |
| Records.SortByDate | cloudflare_analytics.py:232 | The sort is a permutation, ordered by date string, and stable: for every date, the records with that date keep their input order |
| Dates.ParseDate | cloudflare_analytics.py:240 | `strptime` accepts only real calendar dates: years 1 to 9999, months 1 to 12, and a day that exists in its month |
| Dates.ParseIsoDate | cloudflare_analytics.py:240 | `strptime` parses the zero-padded rendering of any valid date back to that date |
| Dates.IsoDateOrder | cloudflare_analytics.py:232 | Zero-padded date strings compare as `str` exactly as the dates compare chronologically |
| Dates.IsoDateInjective | cloudflare_analytics.py:240 | Different valid dates render differently |
| ByteSize.UnitIndex | cloudflare_analytics.py:188-192 | The unit is B exactly when n < 1024 and PB exactly when n ≥ 1024^5; otherwise it is the k with 1024^k ≤ n < 1024^(k+1) |
| ByteSize.UnitIndexUnique | cloudflare_analytics.py:188-191 | That band property determines the unit: no other unit satisfies it |
| ByteSize.RoundHalfEven | cloudflare_analytics.py:190 | The printed hundredths are within half a unit of the exact quotient, with ties going to the even neighbour |
| ByteSize.FormatBytes | cloudflare_analytics.py:186-192 | The text is an amount with two decimals, a space and the label of the unit `UnitIndex` chooses, with a leading minus exactly for a negative count |
| ByteSize.FormatBytesReadBack | cloudflare_analytics.py:186-192 | The printed size reads back to the chosen unit and to an amount within half a hundredth of n/1024^k; below 1024 the amount is exact |
| ByteSize.FormatBytesZero | cloudflare_analytics.py:188-190 | 0 bytes print as `0.00 B` |
| ByteSize.FormatBytesOneKilo | cloudflare_analytics.py:188-191 | 1024 bytes print as `1.00 KB` |
| ByteSize.FormatBytesKiloAndHalf | cloudflare_analytics.py:188-191 | 1536 bytes print as `1.50 KB` |
| ByteSize.FormatBytesOneMega | cloudflare_analytics.py:188-191 | 1048576 bytes print as `1.00 MB` |
| Sheet.DateFormula | cloudflare_analytics.py:241 | The date cell is entered as a formula `=DATE(...)`; `Sheet.DateFormulaReadBack` shows that it names the parsed date |
| Sheet.BuildRow | cloudflare_analytics.py:244-254 | One cell per header column, with column A the date cell of the parsed date; `Sheet.RowHoldsRecord` and `Sheet.RowGivesRecordBack` show what the other cells hold |
| Sheet.RowHoldsRecord | cloudflare_analytics.py:244-254 | In `Header` order, columns B to F and I hold the record's visitors, page views, requests, cached requests, cache ratio and threats |
| Sheet.DateFormulaReadBack | cloudflare_analytics.py:240-241 | The `=DATE(y, m, d)` text names exactly the date that was parsed, so different dates give different formulas |
| Sheet.DateFormulaSample | cloudflare_analytics.py:241 | 2024-01-05 becomes `=DATE(2024, 1, 5)`, with unpadded numbers |
| Sheet.RowGivesRecordBack | cloudflare_analytics.py:244-254 | The row's date cell shows the parsed date, and both size cells read back to the record's byte counts in `format_bytes`'s unit, within rounding |
| Sheet.FirstCells | cloudflare_analytics.py:229 | Succeeds exactly when no row is empty, and its value is exactly the set of first cells; otherwise it gives the first empty row |
| Sheet.ExistingDates | cloudflare_analytics.py:223-229 | An empty or one-row sheet stores no dates; otherwise the dates are exactly the first cells of rows 1 onwards, or the first empty one of those rows raises |
| Sheet.HeaderExcluded | cloudflare_analytics.py:228-229 | Whatever the first row holds, it does not affect the stored dates |
| Sheet.FirstBadDate | cloudflare_analytics.py:238-240 | It finds no position exactly when every date parses; otherwise it gives the first date `strptime` rejects |
| Sheet.Classify | cloudflare_analytics.py:235-257 | The new rows are exactly the rows built for the records whose date is not stored, in order, and rows plus duplicates count every record |
| Sheet.KeptIff | cloudflare_analytics.py:243-257 | A record gets a row if and only if its date string is not stored |
| Sheet.FreshWithDate | cloudflare_analytics.py:229-257 | For a date that is not stored, every record of that date is kept in order, including repeats within one batch; for a stored date, none is kept |
| Sheet.SameDayBothAppended | cloudflare_analytics.py:227-257 | On an empty sheet, two new records of one day both become rows, because the stored dates are read once before the loop; `Sheet.FreshWithDate` gives the general case |
| Sheet.FreshSorted | cloudflare_analytics.py:232-255 | The new rows go out in ascending date order |
| Sheet.AppendedRows | cloudflare_analytics.py:232-257 | After an append, the rows are in ascending order, and for each date they hold all of that date's records or none |
| Sheet.AppendDailyData | cloudflare_analytics.py:209-263 | Covers every outcome: no records writes nothing; an empty stored row raises at its index; an unparsable date raises with the first date of the ascending sort that does not parse; otherwise the rows are those of the records with unstored dates, NoWrite when there are none, and duplicates are the rest |
| Sheet.RowReadBack | cloudflare_analytics.py:274-303 | A built row can be stored, and under the `yyyy-mm-dd` format its column A reads back as the record's date string when that string is zero-padded, as the API sends it |
| Sheet.ExistingDatesGrow | cloudflare_analytics.py:229 | Appending rows below a first row keeps every stored date and adds the new rows' first cells |
| Sheet.AllStoredWritesNothing | cloudflare_analytics.py:243-263 | When every record's date is stored and every date parses, the call writes nothing and counts every record as a duplicate |
| Sheet.EveryDateStored | cloudflare_analytics.py:229-272 | After an append to a sheet with a first row, for records with zero-padded dates, as the API sends them, every record's date is stored |
| Sheet.RerunWritesNothing | cloudflare_analytics.py:223-272 | On a sheet with a first row, for records with zero-padded dates, as the API sends them, a second run with the same records writes nothing |
| Sheet.EmptySheetReappendsOldest | cloudflare_analytics.py:223-272 | As written, on an empty sheet two new days are both appended, and a second run appends the older day again |
| Sheet.HeaderedRerunWritesNothing | cloudflare_analytics.py:217-272 | With the header written to an empty sheet, for records with zero-padded dates, as the API sends them, a second run writes nothing on any sheet |
| DateFormat.FormatsAsWritten | cloudflare_analytics.py:275-276 | As written, `if sheet_id:` applies the format exactly when the intended test `if sheet_id is not None:` applies it and the id is not 0: a found sheet with a non-zero id is formatted, the id 0 is not |
| DateFormat.LocaleDateNotIso | cloudflare_analytics.py:229-303 | A date cell without the `yyyy-mm-dd` format never reads back as the date string the API sends for that date |
| DateFormat.ColumnAShown | cloudflare_analytics.py:274-303 | With the format, column A reads back as in the rest of the model; without it, a date cell never reads back as its date's `YYYY-MM-DD` string |
| DateFormat.StoreWith | cloudflare_analytics.py:266-303 | The rows are appended below the existing ones; the existing rows are kept as they were stored (see Left out), and with the format the result is the store the rest of the model uses |
| DateFormat.OneNewRecordOneRow | cloudflare_analytics.py:227-257 | A single record whose date parses and is not stored becomes exactly one row, with no duplicates |
| DateFormat.FirstSheetReappends | cloudflare_analytics.py:223-303 | As written, on a sheet with id 0 the first run appends a new day and the second run with the same record appends it again |
| DateFormat.IntendedRerunWritesNothing | cloudflare_analytics.py:223-303 | With the intended test, for records with zero-padded dates, as the API sends them, a second run with the same records writes nothing on a sheet with a first row, whatever the sheet's id |
| Schedule.ShouldCollect | cloudflare_analytics.py:330-334 | For a real date, collection starts exactly when no earlier date of the same month exists |
| Schedule.OnlyFirstDayOpens | cloudflare_analytics.py:330-334 | In every month exactly one date opens the gate: the first. The hourly loop collects on every wake-up during that day, so up to 24 runs a month |

## Left out

- Reading and decoding `config.json` (lines 17-27) is file I/O. `Config.Validate` takes the decoded top-level object.
- Config.Json: JSON floats are not modelled, since no required setting is numeric. A top-level value that is not an object is not modelled either.
- The HTTP request, the status and `errors` checks, and the navigation to `zones` (lines 58-124) are network I/O. `Analytics.CollectDays` starts from the list of day groups.
- Analytics.ShapeDay: metric values are taken to be integers, and the `date` value a string, as the API sends them. Lookups into values of other JSON types are not modelled.
- Analytics.CacheRatio: it is the exact rational percentage. `round(cache_ratio, 2)` and the float division are not modelled.
- Records.SortByDate: it returns a new sequence. The side effect of `list.sort` on the caller's list (line 232) is not modelled.
- Dates.ParseDate: only ASCII digits are accepted. CPython's `\d` also accepts other Unicode decimal digits.
- ByteSize.FormatBytes: `%.2f` is modelled as round-half-even of the exact quotient n/1024^k. That is what Python prints while the float is exact, i.e. for |n| below 2^53; a negative count is converted to float too. Above that, the float conversion rounds first, and this is not modelled.
- The Google Sheets client is not modelled: authentication, the values `get` call and its fall-back to an empty list (lines 178-205), the `append` and `batchUpdate` calls, and `get_sheet_id` (lines 266-327). The sheet is an input and the batch is an output.
- Sheet.StoreAfter: only column A of an appended row is modelled. A date cell is taken to read back in the `yyyy-mm-dd` format. This holds only when `get_sheet_id` returned a non-zero id and the format request succeeded. Line 276 skips the format for the id 0, which is the id of a spreadsheet's first sheet; `DateFormat.StoreWith` models that store (see Findings). So `Sheet.RerunWritesNothing`, `Sheet.HeaderedRerunWritesNothing` and `DateFormat.IntendedRerunWritesNothing` promise nothing for a sheet without the format.
- DateFormat.StoreWith: the rows stored before the call keep the text they were stored with. The format request (lines 280-286) starts at row index 1 and has no end row, so it re-renders every date cell of column A below the header, not only the new ones. A date stored unformatted by an earlier run would then read back as `yyyy-mm-dd` after a later formatted run; that re-render is not modelled.
- Sheet.RerunWritesNothing: like `Sheet.EveryDateStored`, `Sheet.RowReadBack`, `Sheet.HeaderedRerunWritesNothing` and `DateFormat.IntendedRerunWritesNothing`, it assumes every record's date is zero-padded (`YYYY-MM-DD`), as the API sends it. `strptime` also accepts `2024-1-5`, but the formatted cell reads back as `2024-01-05`, so such a record would be appended again on every run.
- DateFormat.LocaleDate: a date cell without the number format is taken to show the Korean locale's default form, `2024. 1. 5`. The spreadsheet's locale is outside the program. In a locale whose default date form is `yyyy-mm-dd` the first sheet is not affected.
- `get_sheet_id` (lines 315-327) is a Sheets API call; its result is the `sheetId` parameter. When it returns None because the lookup raised, no format is applied even under the intended test.
- Sheet.Entered: number and percentage cells are sent as JSON numbers, so they have no entered text.
- The console output (the duplicate counts printed at lines 260-262 and 305-307) is not modelled; the counts are kept in the outcome.
- `main` is not modelled: its hourly loop, `time.sleep`, the clock reads (`should_collect_data` takes the date as a parameter) and the summary totals (lines 336-413) are scheduling and display only. The loop wakes every hour and collects on each wake-up while the day is 1, so the same records are appended up to 24 times a month unless a rerun writes nothing; this is why the rerun lemmas and both findings matter.

## Findings

| source | as written | input that shows it | evidently intended | confidence | as-written member | corrected member |
|---|---|---|---|---|---|---|
| cloudflare_analytics.py:223-272 | For an empty sheet, the header row is only put into the in-memory copy; only `new_rows` are appended, so the header never reaches the sheet. The next run then takes the oldest appended row for the header and ignores its date. | An empty sheet, then two runs with the records for two days (dates `a < b`). The second run appends day `a` again. | The header is written above the first rows of an empty sheet (the comment at line 217 says the header is added), so that a rerun finds every stored date. | high; not executed | Sheet.EmptySheetReappendsOldest | Sheet.HeaderedRerunWritesNothing |
| cloudflare_analytics.py:275-276 | `if sheet_id:` is false for the id 0, which is the id of a spreadsheet's first sheet, so that sheet never gets the `yyyy-mm-dd` format. Its date cells then read back in the locale's default form, and `existing_dates` (line 229) never matches the API's `YYYY-MM-DD` strings. | A sheet with id 0 and a header row, then two runs with the record of one day. The second run appends that day again. | The format is applied to every sheet that was found (`if sheet_id is not None:`). The test is meant to skip only a failed lookup, so that a rerun finds every stored date. | medium (it depends on the spreadsheet's locale); not executed | DateFormat.FirstSheetReappends | DateFormat.IntendedRerunWritesNothing |
