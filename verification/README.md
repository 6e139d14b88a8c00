# Debenture price ingestion, modelled in Dafny

The modelled program is a script that gathers the daily secondary-market debenture
price spreadsheets that ANBIMA publishes. Its steps are:

- choose the last five business days before today;
- build one download link and one local file name for each day;
- save each file that downloads successfully, and log every failed download;
- read every sheet of every workbook and cut it down to the block of priced
  bonds;
- tag each row with the file's date and with the rate index (indexador) that
  the sheet name encodes;
- gather the sheets of a file under `"<yyyymmdd>_<sheet name>"` keys;
- export them both as one tab per key and as a single concatenated tab;
- name one chart per indexador.

The project models that pipeline one module per stage:

| module | file | what it holds |
|---|---|---|
| `Wrappers` | `wrappers.dfy` | `Option` and `Result` |
| `Text` | `text.dfy` | ASCII `lower()`, substring test, `split('.')[0]`, `replace`, zero-padded decimal formatting |
| `Calendar` | `calendar.dfy` | proleptic Gregorian dates with Python's ordinal numbering and `weekday()`; stepping back one day |
| `DateWindow` | `window.dfy` | `get_last_weekdays` as a loop, against a recursive specification, and the window property |
| `Naming` | `naming.dfy` | `generate_download_links` (loop) and `format_file_name`, with their decoders |
| `Fetch` | `fetch.dfy` | `download_files` as a `Workspace` object: a folder map and an append-only log |
| `Indexador` | `indexador.dfy` | `determine_indexador` and the first-match rule table it implements |
| `Sheet` | `sheet.dfy` | `process_sheet` on a decoded sheet, including its exceptions |
| `Consolidate` | `consolidate.dfy` | `process_file` (loop over sheets into an insertion-ordered dict) and `save_all_sheets` |
| `Plots` | `plots.dfy` | the names of the chart files of `plot_indicative_rate_by_date` |
| `Pipeline` | `pipeline.dfy` | how a saved file's name becomes the `Date` of its rows |

Python exceptions become error values:

- `get_last_weekdays` walking below 0001-01-01 (Python's `OverflowError`) gives `None`.
- `process_sheet` on a sheet without a `Código` column gives `MissingCodeColumn`. This is the `KeyError` of line 97.
- `process_sheet` on a non-empty sheet with fewer than two blank `Código` cells gives
  `FewerThanTwoBlankCodes`. This is the `IndexError` of line 98.
- `process_file` propagates the first such error.
- `save_all_sheets` on an empty dictionary gives `NoObjectsToConcatenate`. This is the
  `ValueError` of `pd.concat`.

Where the comments of the script and its code differ, or the code has an edge case of its own, the model follows the code:

- The comments of lines 96-100 disagree with each other: line 98 says the cut is at
  the second blank `Código` row, line 100 says everything after the first blank row is
  removed. The code cuts at the second. The comment at line 96 speaks of checking for
  blank rows, but the test at line 97, `.isna().empty`, is true only for a frame without
  rows. A non-empty sheet with fewer than two blank `Código` rows therefore reaches
  `.index[1]` at line 98 and raises `IndexError`. `Sheet.FewerThanTwoBlanksRaises` states
  this.
- Line 104 checks the six required columns together. A missing `Código` column never
  reaches that check: `df['Código']` at line 97 raises `KeyError` first.
- Line 108 writes to label 0, which `iloc[1:]` has already removed. pandas therefore
  appends an all-empty row. `dropna` on `Código` removes it again, so every output row
  carries the file-stem date. `Sheet.PhantomRowIsDropped` states this.
- The loop at lines 28-31 runs until it holds `num_days` dates. Near year 1, the
  subtraction at line 31 raises `OverflowError` instead. `DateWindow.LastWeekdaysSucceeds`
  gives the bound on "today" above which the window is complete.

## Model

| member | source | states |
|---|---|---|
| Calendar.DaysInMonth | teste_desafioBCP_ThaisAngelo.py:31 | every month has 28 to 31 days, February 29 in leap years |
| Calendar.DaysBeforeYearClosedForm | teste_desafioBCP_ThaisAngelo.py:29 | days before a year equal Python's `y*365 + y//4 - y//100 + y//400` for `y = year - 1` |
| Calendar.DaysBeforeMonthTable | teste_desafioBCP_ThaisAngelo.py:29 | days before a month equal Python's cumulative month table, plus one after February in a leap year |
| Calendar.ToOrdinal | teste_desafioBCP_ThaisAngelo.py:29 | a valid date has an ordinal of at least 1 (0001-01-01 is day 1) |
| Calendar.WeekdayOf | teste_desafioBCP_ThaisAngelo.py:29 | `weekday()` is in 0..6, with Monday 0 |
| Calendar.WeekdayStep | teste_desafioBCP_ThaisAngelo.py:31 | the day before has the previous weekday, cyclically |
| Calendar.FirstDay | teste_desafioBCP_ThaisAngelo.py:25 | ordinal 1 belongs to 0001-01-01 and to no other valid date |
| Calendar.PrevDay | teste_desafioBCP_ThaisAngelo.py:31 | `today - timedelta(days=1)` fails exactly at 0001-01-01; otherwise it is a valid date whose ordinal is one less |
| DateWindow.WalkBack | teste_desafioBCP_ThaisAngelo.py:28-31 | a completed walk returns exactly the number of weekdays still wanted (the other properties of the walk are `WalkBackIsWindow`) |
| DateWindow.LastWeekdays | teste_desafioBCP_ThaisAngelo.py:23-32 | a completed window has exactly `max(n, 0)` dates (the other properties are `LastWeekdaysIsWindow`) |
| DateWindow.Step | teste_desafioBCP_ThaisAngelo.py:28-31 | one pass of the loop either hits the overflow, in which case the whole window overflows, or moves to an earlier valid day and keeps the loop invariant: collected dates followed by the rest of the walk are the window |
| DateWindow.GetLastWeekdays | teste_desafioBCP_ThaisAngelo.py:23-32 | the while loop that appends weekdays and steps back a day returns exactly the specified window (or the overflow) |
| DateWindow.WindowSkipsWeekend | teste_desafioBCP_ThaisAngelo.py:29-31 | stepping back over a Saturday or Sunday keeps the window property |
| DateWindow.WindowTakesBusinessDay | teste_desafioBCP_ThaisAngelo.py:29-30 | taking a Monday–Friday in front of a window gives a window one day longer |
| DateWindow.WalkBackIsWindow | teste_desafioBCP_ThaisAngelo.py:28-31 | the walk returns n Monday–Friday dates, strictly decreasing, none after the start, with only weekend days skipped between start and newest and between neighbours |
| DateWindow.LastWeekdaysIsWindow | teste_desafioBCP_ThaisAngelo.py:23-32 | the window is n weekdays, all strictly before today, most recent first, and no weekday between yesterday and the oldest date is missed |
| DateWindow.WalkBackSucceeds | teste_desafioBCP_ThaisAngelo.py:28-31 | the walk cannot overflow when the start's ordinal is at least `3n + 1`, plus 1 when the start is a Saturday and 2 when it is a Sunday |
| DateWindow.LastWeekdaysSucceeds | teste_desafioBCP_ThaisAngelo.py:23-32 | for `today` at ordinal `3n + 4` or later the window is complete |
| DateWindow.NewestIsPrecedingBusinessDay | teste_desafioBCP_ThaisAngelo.py:25-30 | the newest date is yesterday from Tuesday to Saturday, and the preceding Friday from Sunday or Monday |
| Text.LowerConcat | teste_desafioBCP_ThaisAngelo.py:38 | `lower()` distributes over concatenation |
| Text.LowerIdempotent | teste_desafioBCP_ThaisAngelo.py:80 | lowering twice is lowering once |
| Text.LowerOfNoUpper | teste_desafioBCP_ThaisAngelo.py:47 | `lower()` leaves a string without capitals unchanged |
| Text.Contains | teste_desafioBCP_ThaisAngelo.py:80-86 | Python's `p in s` holds iff `p` occurs at some position of `s` |
| Text.Stem | teste_desafioBCP_ThaisAngelo.py:107 | `split('.')[0]` is a prefix without `'.'`, followed in the string by `'.'` when shorter |
| Text.StemOfSeparated | teste_desafioBCP_ThaisAngelo.py:136 | the stem of `a + "." + b` is `a` whenever `a` has no `'.'` |
| Text.ReplaceChar | teste_desafioBCP_ThaisAngelo.py:207 | `replace(" ", "_")` keeps the length and changes exactly the spaces |
| Text.NatToStringIsDecimal | teste_desafioBCP_ThaisAngelo.py:69 | `str(n)` of a natural is a non-empty digit string without leading zero whose value is `n` |
| Text.Pad2 | teste_desafioBCP_ThaisAngelo.py:38 | `%y`/`%d` give two digits whose value is the number |
| Text.Pad4 | teste_desafioBCP_ThaisAngelo.py:47 | `%Y` gives four digits whose value is the year |
| Naming.LowerMonthAbbreviation | teste_desafioBCP_ThaisAngelo.py:38 | lowering the `%b` abbreviation of a month gives the lower-case table entry |
| Naming.DayTag | teste_desafioBCP_ThaisAngelo.py:38 | the day tag `%y%b%d` has seven characters (its parts are `DayTagParts`) |
| Naming.GenerateDownloadLinks | teste_desafioBCP_ThaisAngelo.py:35-43 | one link per day, in the same order, each `base_url + "d" + lower(yy mon dd) + ".xls"` |
| Naming.DownloadLink | teste_desafioBCP_ThaisAngelo.py:41 | a link is 12 characters longer than the base URL: `d`, the seven-character day tag, `.xls` (`DownloadLinkRoundTrip` parses it back) |
| Naming.DayTagParts | teste_desafioBCP_ThaisAngelo.py:38 | the day tag is two-digit year of century, lower-case month abbreviation, two-digit day |
| Naming.MonthNumber | teste_desafioBCP_ThaisAngelo.py:38 | a recognised abbreviation is the table entry of the month returned |
| Naming.DownloadLinkRoundTrip | teste_desafioBCP_ThaisAngelo.py:41 | the link parses back to the year of century, month and day of the date |
| Naming.FileName | teste_desafioBCP_ThaisAngelo.py:46-48 | a file name has twelve characters (`FileNameStem` gives its digits and `.xls`, `FileNameInjective` that dates do not share one) |
| Naming.FileNameStem | teste_desafioBCP_ThaisAngelo.py:46-48 | the file name is eight digits `yyyymmdd` plus `.xls`, its stem is those eight digits, and they parse back to the date |
| Naming.FileNameInjective | teste_desafioBCP_ThaisAngelo.py:46-48 | different dates get different file names |
| Fetch.FailureLinesCount | teste_desafioBCP_ThaisAngelo.py:63-74 | the log grows by exactly one line per download whose status is not 200 |
| Fetch.FailureLineOfDay | teste_desafioBCP_ThaisAngelo.py:63-74 | the line of a failed day is that day's message, placed right after the lines of the earlier failed days |
| Fetch.FailureLineText | teste_desafioBCP_ThaisAngelo.py:69-74 | that line reads `Erro ao acessar o link: <link> - Código de Status: <status>` for the day's link and status |
| Fetch.SavedFileHoldsDownload | teste_desafioBCP_ThaisAngelo.py:64-66 | a day with status 200 leaves its file name in the folder, holding that response's content |
| Fetch.SavedFolderLeavesOthers | teste_desafioBCP_ThaisAngelo.py:56-66 | files under other names are left as they were |
| Fetch.WindowFileNamesDistinct | teste_desafioBCP_ThaisAngelo.py:56-58 | the days of a window get pairwise different file names, so no download overwrites another |
| Fetch.ErrorMessage | teste_desafioBCP_ThaisAngelo.py:69 | the error line is longer than its head, link and label, and starts with `Erro ao acessar o link: ` followed by the link |
| Fetch.ErrorMessageStatus | teste_desafioBCP_ThaisAngelo.py:69 | for a status code the line is the head, the link and ` - Código de Status: `, followed by a digit string that reads back as the status |
| Fetch.Workspace.DownloadDay | teste_desafioBCP_ThaisAngelo.py:57-74 | a day answered with 200 writes its content under its file name and leaves the log alone; any other status leaves the folder alone and appends that day's error line |
| Fetch.Workspace.SaveOrLog | teste_desafioBCP_ThaisAngelo.py:56-74 | the loop leaves the folder as the saved downloads and the log as the old log followed by the failure lines |
| Fetch.Workspace.DownloadFiles | teste_desafioBCP_ThaisAngelo.py:51-74 | it succeeds iff the five-day window exists; on overflow nothing changes; otherwise folder and log are those of the window's names, links and responses |
| Indexador.DetermineIndexador | teste_desafioBCP_ThaisAngelo.py:79-89 | the result is always one of the five categories `IPCA +`, `% do DI`, `DI +`, `Vencidos Antecipadamente`, `Desconhecido` (which one is `DetermineIndexadorIsFirstMatch`) |
| Indexador.FirstMatchWins | teste_desafioBCP_ThaisAngelo.py:79-89 | a rule table yields the category of the first pattern that occurs, or the fallback when none does |
| Indexador.DetermineIndexadorIsFirstMatch | teste_desafioBCP_ThaisAngelo.py:79-89 | `determine_indexador` is the first match of `ipca_spread`, `di_percentual`, `di_spread`, `vencidos_antecipadamente` in the lowered name, else `Desconhecido` |
| Indexador.DetermineIndexadorIgnoresCase | teste_desafioBCP_ThaisAngelo.py:79-89 | the result does not depend on letter case |
| Sheet.BlankCodePositions | teste_desafioBCP_ThaisAngelo.py:97-98 | lists exactly the rows with an empty `Código`, in increasing order |
| Sheet.CutAtSecondBlank | teste_desafioBCP_ThaisAngelo.py:97-101 | lines 97-98 raise `KeyError` iff there is no `Código` column, and otherwise the kept block is never longer than the sheet (its end is given by `CutIsBeforeSecondBlank` and `FewerThanTwoBlanksRaises`) |
| Sheet.DropBlankCodes | teste_desafioBCP_ThaisAngelo.py:117 | `dropna(subset=['Código'])` keeps exactly the records with a `Código` |
| Sheet.ProcessSheet | teste_desafioBCP_ThaisAngelo.py:92-122 | raises `KeyError` iff `Código` is absent, `IndexError` iff the sheet has rows but fewer than two blank codes, returns `None` iff it passes both and lacks a required column |
| Sheet.TagCoded | teste_desafioBCP_ThaisAngelo.py:105-117 | the tagged rows are rows with a `Código` from the input, carry the date and the indexador, and include every such row |
| Sheet.PhantomRowIsDropped | teste_desafioBCP_ThaisAngelo.py:105-119 | the output is the kept rows after the first, with a `Código`, in order, each tagged with the file stem and the sheet's indexador: the row appended by line 108 never survives |
| Sheet.FewerThanTwoBlanksRaises | teste_desafioBCP_ThaisAngelo.py:97-98 | a non-empty sheet raises iff it has at most one blank `Código` row |
| Sheet.CutIsBeforeSecondBlank | teste_desafioBCP_ThaisAngelo.py:97-101 | the kept block is a proper prefix ending just before the second blank `Código` row, and contains exactly one blank row |
| Sheet.EmptySheetYieldsNothing | teste_desafioBCP_ThaisAngelo.py:97-119 | a sheet with a `Código` column but no rows is not truncated and gives an empty frame, or `None` when it lacks another required column |
| Consolidate.Insert | teste_desafioBCP_ThaisAngelo.py:137 | assigning a dict key keeps the keys distinct and the key set equal to the map's domain |
| Consolidate.Gather | teste_desafioBCP_ThaisAngelo.py:133-137 | the dictionary built by the loop is well formed |
| Consolidate.ProcessFile | teste_desafioBCP_ThaisAngelo.py:125-139 | the loop over the sheet names returns the specified dictionary or the first exception |
| Consolidate.PrefixFailureSticks | teste_desafioBCP_ThaisAngelo.py:133-134 | once a sheet raises, later sheets do not change the outcome |
| Consolidate.GatherRaisesFirstError | teste_desafioBCP_ThaisAngelo.py:133-134 | the loop fails iff some sheet raises, and then with the first raising sheet's error |
| Consolidate.ProcessSheets | teste_desafioBCP_ThaisAngelo.py:125-139 | the dictionary of a file is well formed: distinct keys in insertion order, exactly the map's domain (its keys are `ProcessFileKeys`, its errors `ProcessFileRaisesFirstError`) |
| Consolidate.ProcessFileRaisesFirstError | teste_desafioBCP_ThaisAngelo.py:125-139 | `process_file` raises iff `process_sheet` raises on some sheet, with the first such sheet's exception |
| Consolidate.SheetKey | teste_desafioBCP_ThaisAngelo.py:136 | the key is the stem, one separator and the sheet name, and the sheet name is read back after position `len(stem) + 1`, so one stem with different sheet names gives different keys (`SheetKeyInjective`) |
| Consolidate.SheetKeyInjective | teste_desafioBCP_ThaisAngelo.py:136 | one stem with different sheet names gives different keys |
| Consolidate.GatherKeys | teste_desafioBCP_ThaisAngelo.py:133-137 | with distinct sheet names the keys are those of the kept sheets in order, each mapped to its sheet's frame |
| Consolidate.ProcessFileKeys | teste_desafioBCP_ThaisAngelo.py:125-139 | `stem + "_" + sheet_name` maps to the frame of each sheet that returned one, in workbook order, and sheets returning `None` contribute no key |
| Consolidate.TabTitle | teste_desafioBCP_ThaisAngelo.py:150 | a tab name is the key's prefix of length `min(31, len(key))` |
| Consolidate.ConcatenatedRowCount | teste_desafioBCP_ThaisAngelo.py:146 | the concatenated frame has as many rows as all frames together |
| Consolidate.WriteTabs | teste_desafioBCP_ThaisAngelo.py:148-150 | one tab per key in key order, each with the truncated name and its frame; read tab after tab the rows are the concatenation |
| Consolidate.SaveAllSheets | teste_desafioBCP_ThaisAngelo.py:141-155 | raises iff the dictionary is empty; otherwise writes both workbooks, one tab per key plus the `Consolidated` tab, and the two hold the same rows in the same order |
| Plots.Distinct | teste_desafioBCP_ThaisAngelo.py:179 | `unique()` holds the same values as the column, each once |
| Plots.DistinctKeepsFirstAppearanceOrder | teste_desafioBCP_ThaisAngelo.py:179 | `unique()` lists values in the order of their first appearance |
| Plots.PlotFileName | teste_desafioBCP_ThaisAngelo.py:207 | the chart name has no spaces and is 20 characters longer than the indexador |
| Plots.PlotNames | teste_desafioBCP_ThaisAngelo.py:207 | a name is returned iff it is the chart name of some indexador other than `Vencidos Antecipadamente` |
| Plots.PlotFileNames | teste_desafioBCP_ThaisAngelo.py:179-207 | a chart name is produced iff it is the chart name of some value of the `Indexador` column other than `Vencidos Antecipadamente` (`PlotNamesDistinct`, `ChartsOfIndexadorColumn`) |
| Plots.PlotIndicativeRateByDate | teste_desafioBCP_ThaisAngelo.py:179-207 | the loop saves, in order, exactly the files whose names the function returns |
| Plots.PlottedCategories | teste_desafioBCP_ThaisAngelo.py:181-207 | for categories of `determine_indexador`, a category's chart name is returned iff the category occurs and is not `Vencidos Antecipadamente` |
| Plots.PlotNamesDistinct | teste_desafioBCP_ThaisAngelo.py:181-207 | for distinct categories of `determine_indexador` the chart names are pairwise distinct, so no chart overwrites another |
| Plots.ChartsOfIndexadorColumn | teste_desafioBCP_ThaisAngelo.py:179-207 | for an `Indexador` column filled by `determine_indexador`, the returned names are pairwise distinct and exclude `Vencidos Antecipadamente` |
| Pipeline.RowsCarryDownloadDate | teste_desafioBCP_ThaisAngelo.py:107 | every row read from the file saved for day `d` has `Date` equal to `d` as `yyyymmdd`, which parses back to `d`, and the sheet's indexador |

## Left out

- HTTP, files and the log file: `requests.Session().get` becomes a sequence of
  responses, given as a parameter. The download folder becomes a map from file names to
  bytes. `log.txt` becomes a sequence of lines. The folder creation at start-up, the
  `print` calls and the file-system paths (`os.path.join`) are not modelled. A
  `session.get` at line 61 that raises (a connection error, say) is not modelled: it ends
  `download_files` with the exception, keeping the files and log lines of the earlier
  days and never requesting the later ones. Without a timeout it can also block forever.
- The clock: `datetime.today()` becomes a `today` parameter. Only its date matters,
  because the time of day never changes `weekday()`.
- Locale: `%b` is fixed to the English abbreviations.
- Excel: reading with xlrd (`pd.read_excel`, `pd.ExcelFile`, the seven skipped rows) and
  writing with openpyxl are not modelled. A sheet is given already decoded, as its
  column names and its rows of the six required columns. Other columns are not
  represented, because the selection at line 111 drops them.
- Cell values are opaque `Option` values. The dtype changes pandas makes when it appends
  the empty row of line 108 are not represented.
- Text.Lower: only ASCII letters are lowered; other characters are kept. Line 80 lowers
  an arbitrary sheet name, and Python's `lower()` also maps other Unicode capitals. Two
  of them yield ASCII: `İ` becomes `i` followed by U+0307, and the Kelvin sign becomes
  `k`. The others yield non-ASCII characters. None of these can take part in a match of
  the four ASCII patterns: no pattern contains `k`, and the `i` of `İ` is followed by
  U+0307. So `determine_indexador` picks the same category as `DetermineIndexador`. The
  names lowered at lines 38 and 47 hold only ASCII.
- Text.Pad4: four digits are used for every year. Whether Python's `%Y` pads a year
  before 1000 depends on the platform and the Python version. The model lets `today` be
  any valid date, but the `datetime.today()` of line 25 never returns a year before 1000.
- Consolidate.SaveAllSheets: two keys whose 31-character prefixes are equal give one tab
  name twice. pandas' openpyxl writer then reuses the existing tab without clearing it:
  the later frame overwrites the earlier frame's cells, and the extra rows of a longer
  earlier frame remain below it. Prefixes that differ only
  in letter case are renamed by openpyxl instead. The model records one tab per key
  under the requested name and models neither the overwrite nor the renaming.
- `plot_indicative_rate_by_date`: several steps are not modelled, namely `pd.to_numeric`,
  `pd.to_datetime`, the `groupby(...).mean()` over floats, and all matplotlib
  rendering. The model starts from the `Indexador` column of the grouped table, in the
  table's order.
- `main` and the Streamlit dashboard only wire the steps together and re-read the
  exported workbook. They are not part of this model.
