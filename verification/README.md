# Icing monitoring core, modelled in Dafny

This project models the data-handling core of a wind-farm icing monitor. The monitor merges
weather forecasts with turbine and icing-sensor readings hour by hour. For each hour it
classifies the expected icing type (glaze, hard rime, soft rime), and it emails an alert when the
forecast shows icing for three rows in a row within the next twelve hours. It also reconciles
each run's data with the sheets already stored, orders and cleans the columns of the combined
table, and prunes old lines from its log file.

The model works on immutable values:
- A row is a `map<string, Value>`. A missing cell (NaN, NA or None in the source) is an absent key.
- A series is a sequence of `Entry(time, row)`, and a frame is a column list plus a series.
- Times are whole seconds. Log times are microseconds since 0001-01-01.
- The site parameters are a `SiteSpec` record. The wall clock, the cooldown file and the email
  are parameters and results.

The modules, one per source file:
- `Wrappers`, `Seqs`, `Frames`, `Site`: the value types (Option, Result, rows, series, frames and
  the site record) and sequence helpers (filter, subsequence, substring search).
- `Icing`: the per-row formulas of `Icing_Calc.py`. These are the two temperature curves, the
  icing-type zone, the RH threshold, the sensor and forecast verdicts, and the wind, pitch and
  temperature zone labels.
- `Classify` and `IcingFrame`: `rename_columns`, the three group passes of
  `calculate_glaze_hardrime_icing`, and `process_final_data`, on whole rows and frames.
- `Reconcile`: `fill_missing_hours`, `update_existing_data` and `update_all_sheets` of
  `excel_handler2.py`.
- `LegacyReconcile`: the older `excel_handler.py` versions. Its loop is written as a method that
  is proved equal to the same fold.
- `Alerts`: `get_site_current_time` and `check_icing_condition` of `icing_check_email.py`.
- `Columns`: `reorder_columns` and `clean_and_format_data` of `clean_format_combine.py`.
- `Logs`: `delete_old_logs` of `log_cleanup.py`, with the log-line timestamp format of `main.py`.

## Model

| member | source | states |
|---|---|---|
| Reconcile.FloorHour | excel_handler2.py:107-108 | the floored time is a whole hour, at or before the time and less than an hour before it |
| Reconcile.Upsert | excel_handler2.py:158-160 | a present new value replaces the stored one; a stored value with no new value is kept; no column is lost |
| Reconcile.UpdateExisting | excel_handler2.py:156-162 | the result's timestamps are the union of both sides; every stored row stays at its position |
| Reconcile.UpdateExistingClosedForm | excel_handler2.py:156-162 | with unique timestamps: the stored rows, upserted in place, followed by the new-only rows in batch order |
| Reconcile.UpdateExistingCells | excel_handler2.py:156-162 | row count is stored plus new-only; untouched rows are unchanged; present new cells win; cells the batch lacks keep the stored value; new-only rows are appended |
| Reconcile.UpdateExistingIdempotent | excel_handler2.py:156-160 | updating a series with unique timestamps by itself returns it unchanged |
| Reconcile.FillMissingHours | excel_handler2.py:99-144 | fails exactly when the stored sheet is empty, where the minimum timestamp is undefined |
| Reconcile.FillMissingHoursRange | excel_handler2.py:107-138 | both results hold exactly the whole hours from the earliest to the latest floored timestamp of either side, sorted |
| Reconcile.FillMissingHoursGrid | excel_handler2.py:111-138 | with unique floored timestamps, each result is one row per hour of that span: the side's row at that hour, or an empty one |
| Reconcile.FillMissingHoursKeepsRows | excel_handler2.py:122-138 | every row of each side appears, with its time floored; every inserted row holds no value |
| Reconcile.Pad | excel_handler2.py:122-138 | the padded series holds at least one row per hour of the range, every row lies within the range, and every row of the side that falls on an hour of the range is kept |
| Reconcile.PadRange | excel_handler2.py:122-138 | the padded series covers exactly the hours of the requested range |
| Reconcile.PadSorted | excel_handler2.py:137-138 | the padded series is sorted by timestamp |
| Reconcile.FillThenUpdate | excel_handler2.py:184-185 | filling then updating one sheet fails exactly when the stored sheet is empty |
| Reconcile.FillThenUpdateIsHourlyUpsert | excel_handler2.py:184-185 | fill-then-update appends nothing: it is the hour-by-hour upsert over the span |
| Reconcile.FillThenUpdateGapFree | excel_handler2.py:184-185 | the merged sheet runs from the earliest to the latest hour in steps of one hour, sorted and without repeated timestamps |
| Reconcile.HourlyUpsertCells | excel_handler2.py:156-160 | at every hour, present new cells win and stored cells the batch lacks are kept |
| Reconcile.FillThenUpdateKeepsUntouchedHours | excel_handler2.py:184-185 | a stored row at an hour the batch does not touch survives unchanged, apart from the floored time |
| Reconcile.UpdateAllSheets | excel_handler2.py:168-199 | without a stored file the batch is returned as given; otherwise it fails exactly when a stored sheet is empty, and on success each of the four sheets is the fill-then-update of its own stored sheet and batch |
| Reconcile.UpdateAllSheetsHourly | excel_handler2.py:168-192 | with non-empty stored sheets and unique floored timestamps, each of the four result sheets is the hour-by-hour upsert of its stored sheet and batch over their common span |
| LegacyReconcile.UpdateExistingData | excel_handler.py:115-139 | the row-by-row loop computes the same fold as the newer handler's update: timestamps united, stored rows first and in place |
| LegacyReconcile.UpdateKeepsThenAppends | excel_handler.py:126-134 | stored rows keep their order and position; new-only rows follow; with unique timestamps, the upserted stored rows followed by the new-only rows |
| LegacyReconcile.UpdateAllSheets | excel_handler.py:142-160 | without a stored file the batch is returned; otherwise each sheet keeps its rows and then appends, with no gap filling |
| LegacyReconcile.LegacyLeavesGap | excel_handler.py:152-155 | two rows two hours apart stay two rows: the missing hour is not created |
| LegacyReconcile.PaddingFillsTheGap | excel_handler2.py:184-185 | the newer handler puts an empty row at the missing hour of the same input |
| LegacyReconcile.AtAssign | excel_handler.py:131 | `.at` assignment sets one cell in every row with that timestamp and changes nothing else |
| LegacyReconcile.AtAssignExtends | excel_handler.py:129-131 | assigning one more present cell extends the partial upsert by that cell |
| Icing.GlazeAt | Icing_Calc.py:54-58 | the glaze curve is present exactly when the wind speed is |
| Icing.HardRimeAt | Icing_Calc.py:60-64 | the hard-rime curve is present exactly when the wind speed is |
| Icing.HardRimeBelowGlaze | Icing_Calc.py:54-64 | for any non-negative wind speed, the hard-rime curve lies strictly below the glaze curve |
| Icing.CurvesAtTwelve | Icing_Calc.py:54-64 | at 12 m/s the curves are -3.6748 and -9.8361 |
| Icing.IcingTypeZone | Icing_Calc.py:67-76 | NO ICE at or above 0 even without curves; below 0, Glaze above the glaze curve, Hard Rime between the curves, Soft Rime at or below both; missing otherwise |
| Icing.ZoneMonotoneInTemperature | Icing_Calc.py:67-76 | against fixed curves, a warmer temperature never gives a colder icing type |
| Icing.SoftRimeIffBelowHardRime | Icing_Calc.py:67-76 | below freezing, the zone is Soft Rime exactly when the temperature is at or below the hard-rime curve |
| Icing.ZoneAtWindTwelve | Icing_Calc.py:67-76 | wind 12 m/s and -5 degrees gives Hard Rime |
| Icing.RHThreshold | Icing_Calc.py:145-153 | the threshold is missing exactly when the zone is |
| Icing.ThresholdOfZone | Icing_Calc.py:145-153 | Glaze, Hard Rime and Soft Rime map to the site's three thresholds and NO ICE maps to 0 |
| Icing.SensorVerdict | Icing_Calc.py:80-87 | the zone when a present severity or LWC is above 0; NO ICE when all inputs are present and neither is; missing otherwise |
| Icing.ForecastVerdict | Icing_Calc.py:88-96 | the zone when snow water is above 1 or RH is above the threshold; NO ICE when all inputs are present and neither holds; missing otherwise |
| Icing.ForecastIceVerdict | Icing_Calc.py:88-96 | for an icing zone, the verdict is that zone exactly when snow water exceeds 1 or RH exceeds that type's threshold, and NO ICE otherwise |
| Icing.WindZone | Icing_Calc.py:99-102 | the label of the first band whose upper bound the wind speed does not exceed, else the fourth; missing with the wind speed |
| Icing.WindBandMonotone | Icing_Calc.py:99-102 | with ordered bounds, a faster wind never falls in a lower band |
| Icing.PitchZone | Icing_Calc.py:104-110 | Pitch In up to the pitch-in speed, Pitch Stay up to the pitch-out speed, Pitch Out above; missing with the wind speed |
| Icing.TempZone | Icing_Calc.py:112-120 | the five temperature bands, each closed below; missing with the temperature |
| Icing.TempBandMonotone | Icing_Calc.py:112-120 | a warmer temperature never falls in a colder band |
| Icing.AboveZeroIffNoIce | Icing_Calc.py:67-120 | the temperature label is "Above 0" exactly when the icing zone is NO ICE |
| Classify.SensorIffNotForecast | Icing_Calc.py:80 | exactly the three MCMS groups use the sensor policy |
| Classify.NamesDistinct | Icing_Calc.py:54-120 | no two outputs of any groups share a column name, and no output name is a source column |
| Classify.EligibleStable | Icing_Calc.py:131-133 | adding an output column never changes which groups are eligible, so checking once is enough |
| Classify.CurvesRow | Icing_Calc.py:52-76 | one group's first pass on a row: the two curves and the zone equal the values computed from the wind speed and temperature cells, whatever the curve cells held before; no other cell changes |
| Classify.CurvesPassCells | Icing_Calc.py:130-133 | the first pass writes the curves and zone of every eligible group and leaves every other cell alone |
| Classify.ThresholdPassCells | Icing_Calc.py:145-153 | the second pass writes the threshold of every group that has a zone column and nothing else |
| Classify.VerdictPassCells | Icing_Calc.py:155-161 | the third pass writes the verdict and the three labels of every eligible group and nothing else |
| Classify.VerdictRowCells | Icing_Calc.py:78-120 | for a row whose zone and threshold are in place, the four verdict-pass cells equal the values computed from the source cells |
| Classify.ClassifyRow | Icing_Calc.py:123-161 | the three passes on one row change no cell that none of them writes |
| Classify.ClassifyRowCells | Icing_Calc.py:123-161 | eligible groups get all eight outputs as computed from their source cells; a group with only a zone column gets its threshold; every other cell is unchanged |
| IcingFrame.FirstMatch | Icing_Calc.py:41-45 | the index of the first pair whose key occurs in the name, or none when no key does |
| IcingFrame.RenameColumn | Icing_Calc.py:27-47 | a column with a model prefix takes the name of the first of WSPD, TMP, RH, SQP it contains; every other column keeps its name |
| IcingFrame.TargetsUnprefixed | Icing_Calc.py:29-37 | no target name has a model prefix, so a renamed column is never renamed again |
| IcingFrame.RenameColumns | Icing_Calc.py:40-45 | the nested rename loop over the column labels gives each column its first-match name |
| IcingFrame.RenamedInjective | Icing_Calc.py:40-45 | when the renamed labels are distinct, no two columns were renamed to the same name |
| IcingFrame.RenameFrame | Icing_Calc.py:27-47 | fails exactly when two columns get the same name; otherwise every cell moves to its column's new name |
| IcingFrame.EligibleGroups | Icing_Calc.py:131-133 | exactly the groups whose five source columns are all present |
| IcingFrame.ZonedGroups | Icing_Calc.py:145-146 | exactly the groups that have a zone column after the first pass |
| IcingFrame.AddPass | Icing_Calc.py:130-161 | a pass keeps the existing columns in front and adds exactly the output columns it writes, without duplicates |
| IcingFrame.MembersFrom | Icing_Calc.py:123-161 | every column after the passes is an input column, an output of an eligible group, or the threshold of a zoned group |
| IcingFrame.MembersTo | Icing_Calc.py:123-161 | every output of an eligible group and the threshold of every zoned group are columns after the passes |
| IcingFrame.Calculate | Icing_Calc.py:123-163 | rows and their timestamps are kept, and the input columns stay first and distinct |
| IcingFrame.CalculateCells | Icing_Calc.py:123-163 | the cell-by-cell outcome of the three passes on every row of a frame |
| IcingFrame.ProcessFinalData | Icing_Calc.py:168-172 | rename then calculate: fails exactly on a name clash; keeps rows, timestamps and the renamed columns in front |
| IcingFrame.ProcessFinalDataCells | Icing_Calc.py:168-172 | non-output cells keep their values under the new names; eligible groups get the values computed from their renamed source cells |
| Alerts.SiteTime | icing_check_email.py:16-24 | the site time is UTC shifted by the zone offset (whole or fractional hours, held in seconds), one hour more when the site observes DST; a whole-hour offset moves the clock by whole hours |
| Alerts.SiteTimeIsFlat | icing_check_email.py:16-24 | the site offset is the same at every date, so differences between times are preserved |
| Alerts.SiteTimeDst | icing_check_email.py:21-24 | observing DST adds exactly one hour to the standard offset |
| Alerts.Window | icing_check_email.py:35-38 | the rows from now to twelve hours later, both ends included, in their order, each row as many times as it occurs in the series |
| Alerts.Flag | icing_check_email.py:41-42 | 1 exactly for Glaze, Hard Rime or Soft Rime; a missing verdict counts as NO ICE and gives 0 |
| Alerts.RollingRun | icing_check_email.py:45-47 | some rolling sum of three flags reaches 3 exactly when three adjacent rows are hits |
| Alerts.ShortWindowNoRun | icing_check_email.py:45-47 | fewer than three rows never hold a run |
| Alerts.CheckIcing | icing_check_email.py:27-68 | fails when DATETIME or FCST_Icing is missing; no run means no alert; a run within six hours of the last alert is suppressed; otherwise one alert, exactly when the site's alert time is updated to now |
| Alerts.CheckIcingCondition | icing_check_email.py:27-68 | the version that uses a rolling sum makes the same decision |
| Alerts.FewRowsNoAlert | icing_check_email.py:35-47 | a window of fewer than three rows never alerts and leaves the alert times alone |
| Alerts.CooldownEndsAtSixHours | icing_check_email.py:56-60 | exactly six hours after the last alert, a run alerts again |
| Alerts.OtherSitesKept | icing_check_email.py:66 | the alert times of other sites are unchanged |
| Alerts.AlertsSpacedBySixHours | icing_check_email.py:56-66 | two alerts for one site, the second reading the first's stored time, are at least six hours apart |
| Columns.Rank | clean_format_combine.py:31-49 | the first group that selects a column; the remaining group selects any column no keyword group does |
| Columns.RawSensorsRemain | clean_format_combine.py:36-41 | a raw `<site>-MCMS` column is in none of the three MCMS groups, and falls to the remaining group unless another keyword group takes it |
| Columns.ReorderColumns | clean_format_combine.py:7-55 | fails exactly when DATETIME or FCST_Icing is missing; otherwise DATETIME and FCST_Icing lead and the same column names are present |
| Columns.ReorderRanksAscending | clean_format_combine.py:52 | with disjoint groups, the columns are ordered by group: DATETIME, FCST, MCMS, MCMS1, MCMS2, remaining, PerformanceIndex, ActivePower, TheoreticalPower |
| Columns.ReorderKeepsGroupOrder | clean_format_combine.py:33-49 | within each group the columns keep their input order |
| Columns.ReorderIsPermutation | clean_format_combine.py:49-55 | with disjoint groups and one DATETIME and FCST_Icing, the new order is a permutation of the input columns |
| Columns.ReorderFrame | clean_format_combine.py:55 | only the column order changes; rows and values are untouched |
| Columns.MinLocal | clean_format_combine.py:62 | the earliest present DateTimeLocal, missing exactly when every one is |
| Columns.KeptRows | clean_format_combine.py:62-63 | exactly the rows at or after that start, in order and with every repeated row kept as often as it occurs; none when the start is missing |
| Columns.IsDateTimeColumn | clean_format_combine.py:66 | a datetime column is never DATETIME itself and is at least eight characters long; a column is one exactly when it is not DATETIME and contains "datetime" in some mix of letter case |
| Columns.CleanColumns | clean_format_combine.py:66-73 | DATETIME first, then the input columns in order, without any other column whose lowercase name contains "datetime" |
| Columns.CleanAndFormat | clean_format_combine.py:58-78 | fails exactly when DateTimeLocal or DATETIME is missing; otherwise the cleaned columns and the kept rows without date-time cells |
| Columns.CleanRowsFromStart | clean_format_combine.py:62-69 | every output row is a cleaned input row at or after the start, and every such input row appears |
| Columns.CleanAndFormatNoStart | clean_format_combine.py:62-63 | when no row has a DateTimeLocal, no row is kept |
| Columns.LocalColumnDropped | clean_format_combine.py:66-69 | the DateTimeLocal column itself is dropped |
| Logs.FindFrom | log_cleanup.py:29 | the first " - " at or after a position, or the end of the line |
| Logs.Prefix | log_cleanup.py:29 | the text before the first " - ", the whole line when there is none |
| Logs.Parse | log_cleanup.py:31 | a text parses exactly when it is well-shaped and its digits spell a real calendar date and time; the stamp then holds each field's number, the fraction padded on the right to microseconds |
| Logs.Format | main.py:15 | a logging timestamp is 23 characters long and has the shape the parser expects |
| Logs.PaddedValue | main.py:15 | a zero-padded field reads back as its number |
| Logs.ParseFormat | main.py:15 | a logging timestamp (milliseconds after a comma) parses back to its time, truncated to the millisecond |
| Logs.MicrosWithinDay | log_cleanup.py:33 | a valid time lies at or after its own midnight and less than a day later |
| Logs.MicrosOrder | log_cleanup.py:33 | on valid stamps, the time scale is smaller exactly when `datetime` compares the stamp as earlier (year, month, day, hour, minute, second, microsecond, first difference deciding), and equal exactly for the same stamp |
| Logs.KeepIsDatetimeComparison | log_cleanup.py:29-34 | a line whose stamp parses is kept exactly when that stamp is not earlier than the cutoff as `datetime` compares them |
| Logs.Cutoff | log_cleanup.py:14 | the cutoff lies exactly the given number of days before now, and not after now for a non-negative number |
| Logs.DeleteOldLogs | log_cleanup.py:5-37 | a missing file stays missing; otherwise exactly the lines that do not parse or are not older than the cutoff, in order, each kept line as many times as it occurs in the file |
| Logs.DeleteOldLogsDefault | log_cleanup.py:5-37 | without a retention argument, a line is kept, as many times as it occurs, exactly when it does not parse or is at most three days old |
| Logs.DeleteOldLogsLoop | log_cleanup.py:26-37 | the write-back loop writes exactly those lines |
| Logs.DeleteOldLogsIdempotent | log_cleanup.py:26-37 | pruning twice with the same cutoff prunes once |
| Logs.LongerRetentionKeepsMore | log_cleanup.py:14 | keeping more days keeps a superset of the lines, in the same order |
| Logs.UnparsableKept | log_cleanup.py:35-37 | a line whose prefix does not parse is always kept |
| Logs.StampOnlyLineKept | log_cleanup.py:26-37 | a line holding only a stamp and the newline `readlines()` leaves does not parse, so it is always kept |
| Logs.PrefixOfStamped | log_cleanup.py:29 | the prefix of a formatted log line is its timestamp |
| Logs.StampedLineKept | log_cleanup.py:29-34 | a formatted log line is kept exactly when its time is at or after the cutoff |

## Left out

- The forecast fetch (`SpotWx_fetch.py`), the turbine fetch (`turbine_sensor_fetch.py`) and the thread pool and per-site exception handling of `main.py`: network clients and orchestration.
- The file-lock wait, Excel export and conditional formatting, including `.round(1)` on export: they are I/O.
- Loading site parameters from JSON: the caller passes a `SiteSpec`. A site missing from the file raises an error in the source; the model has no such case.
- The cooldown JSON file and `send_email`: the model passes the stored alert times in and returns the decision and the times to store. The clock is a parameter.
- `combine_data`: its joins are library behaviour that is not part of this model.
- NaN, NA and None are all one "absent" cell, and numbers are `real`, with no floating-point rounding. A text value in a numeric cell reads as absent.
- The column order the upsert produces when the batch has columns the stored sheet lacks: `reorder_columns` fixes the order afterwards.
- Alerts.CheckIcing: the stored alert time is the site time itself; the source truncates it to the second when it writes the cooldown file, and the model's times are already whole seconds.
- Alerts.SiteTime: the offset is a whole number of seconds. A `tz` whose hours do not come to whole seconds is rounded to the microsecond by `timedelta`; the model's clock has no sub-second part, so such offsets are not modelled.
- Logs.Parse: accepts only fixed-width fields (four-digit year, two-digit month to second, one to six fraction digits). `strptime` also accepts one-digit fields and spaces in place of the separating space.
- Logs.ParseFormat: stated for years 1000 to 9999, whose formatted year has four digits.
- Logs.Cutoff: `datetime.now() - timedelta(days)` raises an error before year 1; the model subtracts without that error.
- Columns.IsDateTimeColumn: the lowercase mapping covers ASCII letters only.
- Columns.ReorderIsPermutation: requires that no column matches two keyword groups. The source then lists such a column twice, and the model's order does the same.
- Columns.ReorderRanksAscending: the same requirement, for the same reason.
- Columns.ReorderKeepsGroupOrder: the same requirement. A column two keyword groups select is listed in both, so filtering the output by its first group would list it twice.
- IcingFrame.RenameFrame: two columns renamed to the same name are a failure. The source continues and raises later, and only if the forecast group is eligible.
- IcingFrame.ProcessFinalData: fails on a name clash after renaming, for the same reason as RenameFrame. The source keeps the duplicate columns and raises later, and only if the forecast group is eligible.
- Reconcile.FillMissingHours: assumes DATETIME is the sheet's first column. The source blanks every column but the first in the rows it inserts; with DATETIME elsewhere those rows would lose their hour and sort last. Combined_Data has DATETIME first, but the HRRR, NAM and GFS sheets keep the layout of the forecast download.
- Reconcile.FillMissingHours: rows that share a floored hour stay in input order. The source sorts with pandas' default quicksort, which is not stable, so their order is not fixed there. The lemmas about the grid and the merged sheet require unique floored timestamps, where the two agree.
- `Icing_Calc2`: it is not part of this model.
- The legacy `update_all_sheets` does not floor timestamps or fill hours; the model of it does neither.
