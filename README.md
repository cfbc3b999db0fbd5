# Collector visit dashboard — a verified model of its data logic

The dashboard (`dashboard_local.py`) is a Streamlit page for a debt-collection
team. From two Google Drive share links it loads a roster of collectors
(ID, agent name, group) and a log of field visits. It normalises the visits
and then shows them three ways:

- a calendar, by week or by month, with a heat map of daily visit counts;
- a personal breakdown of visits by aging bucket (`M2`, `M3`, ...);
- a comparison of one collector against the average of a chosen group.

This project models the deterministic logic under that page in Dafny and
proves what it promises:

- `Links` — the share-link resolver;
- `Loader` — the roster preparation and the row-by-row visit pipeline;
- `Aging` — the aging colour classifier, its sort key, the per-bucket counts
  and the comparison averages;
- `Metrics` — the team, collector and date filters, the day cards, the
  daily counts and the heat-map colour;
- `Calendar` — the previous/next navigation, the week view, the
  month-grid loop and the session state they update;
- support modules: `Strings` (Python `strip`, `upper`, `find`, `split`,
  `in`), `Tables` (cells and headers of a frame), `Dates` (the proleptic
  Gregorian calendar of `datetime.date`, years 1..9999), `Timestamps` (the
  `%d/%m/%Y %H:%M:%S` parser) and `Wrappers` (`Option`, `Result`).

Two parts are imperative, as in the source:

- The visit pipeline is a method that loops over the rows.
- The month grid is a method whose `while true` loop fills rows of seven
  days, as the page does.

The Streamlit session (`current_date`, `view_mode`) is a class whose
button methods update it. Each method is proved against a specification
function, and the properties are proved about those functions.

Two behaviours of the code a reader may not expect:

- The `CancelRepossession` test is case-sensitive: dashboard_local.py:73
  compares the trimmed text with `!=`. `Loader.LowerCaseUnitKept` states the
  consequence.
- A whitespace-only `Aging` cell is not null, so `dropna` keeps it. It
  becomes the empty label after `strip().upper()` (dashboard_local.py:63, 83),
  and `Loader.RecordInvariants` does not claim the label is non-empty.

## Model

| member | source | states |
|---|---|---|
| Links.FileId | dashboard_local.py:20 | the identifier taken from a link contains no `/` |
| Links.DownloadUrl | dashboard_local.py:16-27 | `None` exactly when the link has neither `spreadsheets/d/` nor `file/d/`; the spreadsheet form is tested first and gives the xlsx export address; otherwise the file form gives the direct download address |
| Links.FileIdOfParts | dashboard_local.py:20 | the identifier is exactly the text after the first `/d/`, up to the next `/` or the end |
| Links.SheetLinkResolves | dashboard_local.py:19-21 | a spreadsheet link carrying `id` resolves to `https://docs.google.com/spreadsheets/d/{id}/export?format=xlsx` |
| Links.FileLinkResolves | dashboard_local.py:22-24 | a file link carrying `id`, with no spreadsheet marker, resolves to `https://drive.google.com/uc?export=download&id={id}` |
| Strings.Strip | dashboard_local.py:45-46 | `strip()` leaves leading whitespace, then the result, then trailing whitespace; the result has no whitespace at either end |
| Strings.StripPadded | dashboard_local.py:64 | whitespace around a core with no whitespace at its ends strips to that core, so `strip` is fully determined |
| Strings.StripIdempotent | dashboard_local.py:66 | stripping twice is stripping once |
| Strings.Upper | dashboard_local.py:83 | `upper()` keeps the length and raises each ASCII letter; no lower-case letter remains |
| Strings.UpperStrip | dashboard_local.py:97 | upper-casing commutes with stripping |
| Strings.NormalizeIdempotent | dashboard_local.py:83 | the `.strip().upper()` normalisation is idempotent |
| Strings.IndexOf | dashboard_local.py:19 | `find` returns the first position where the pattern occurs, and `None` when it occurs nowhere |
| Strings.Split | dashboard_local.py:20 | `split` has at least one piece; without the separator it is `[s]`; otherwise its first piece is the text before the first separator |
| Strings.JoinSplit | dashboard_local.py:20 | joining the pieces with the separator gives back the string |
| Strings.SplitPiecesAvoidSep | dashboard_local.py:20 | no piece contains the separator |
| Strings.BeforeFirst | dashboard_local.py:66 | `split(sep)[0]` is everything before the first separator, or the whole text; it never contains the separator |
| Tables.Stringify | dashboard_local.py:46 | `astype(str)` keeps a text cell's text and renders an empty cell as `nan` |
| Tables.ColumnIndex | dashboard_local.py:51 | the lookup finds a column exactly when the header is present, and returns its first occurrence |
| Tables.StripHeaders | dashboard_local.py:45 | every header is replaced by its strip, and the width is unchanged |
| Tables.RenameColumn | dashboard_local.py:49 | `rename` replaces exactly the headers equal to the old name |
| Tables.RenameFindsTarget | dashboard_local.py:48-49 | after renaming to a new header, that header sits where the old one did, and the old one is gone |
| Tables.RenameKeepsOthers | dashboard_local.py:48-49 | renaming one header leaves every other header where it was first found |
| Tables.MapColumn | dashboard_local.py:46 | one column gets `f` of its old cell and every other cell is unchanged |
| Dates.NextDay | dashboard_local.py:305 | adding a day moves to the next day of the month, or to the 1st of the following month |
| Dates.PrevDay | dashboard_local.py:224 | subtracting a day is the inverse of adding one, and steps back to the last day of the previous month from a 1st |
| Dates.AddDays | dashboard_local.py:220 | `date + timedelta(days=n)`, when it succeeds, is a date of years 1..9999 exactly `n` ordinal days away |
| Dates.AddDaysRange | dashboard_local.py:220 | the step is `None` (OverflowError) exactly when the ordinal `n` days away leaves 1..3652059, the ordinals of 0001-01-01 and 9999-12-31 |
| Dates.InRangeOrdinal | dashboard_local.py:220 | a calendar date is a `datetime.date` exactly when its ordinal lies in 1..3652059 |
| Dates.WeekdayAddDays | dashboard_local.py:220 | moving `n` days moves the weekday by `n` mod 7 |
| Dates.OrdinalShift | dashboard_local.py:247 | walking `n` days forward adds `n` to the ordinal |
| Timestamps.Field | dashboard_local.py:75 | a one- or two-digit field reads a value inside its bounds, and that value is the number its digits write |
| Timestamps.Assemble | dashboard_local.py:75-76 | a match is accepted exactly when nothing is left over and the time fits a pandas timestamp |
| Timestamps.ParseCreateTime | dashboard_local.py:75-76 | a parsed time is a real calendar time within the pandas timestamp range |
| Timestamps.ParseWrites | dashboard_local.py:75-76 | a text parses to a time exactly when the time fits a pandas timestamp and the text writes it as `d/m/Y H:M:S`: day and month in one or two digits (the day may be a space and one digit), four year digits, a whitespace run, then hour, minute and second in one or two digits, and nothing after |
| Timestamps.ParseClock | dashboard_local.py:75 | the time half parses to a representable time on the date already read |
| Timestamps.FormatParses | dashboard_local.py:75 | the zero-padded `dd/mm/YYYY HH:MM:SS` rendering of any representable time parses back to that time, and anything appended to it is refused |
| Timestamps.ParseChain | dashboard_local.py:75 | a text whose fields read one after another parses to the time they assemble |
| Timestamps.UnpaddedFields | dashboard_local.py:75 | `5/3/2024 9:07:05` parses: fields need not be padded |
| Timestamps.SpacePaddedDay | dashboard_local.py:75 | a space-padded day and a wider gap are accepted |
| Timestamps.IsoShapeRefused | dashboard_local.py:75-76 | `2024-03-05 10:00:00` does not parse and the row is dropped |
| Timestamps.MissingSecondsRefused | dashboard_local.py:75-76 | a time without seconds is refused |
| Timestamps.MissingCellRefused | dashboard_local.py:75-76 | the text `nan` is refused |
| Timestamps.LeapDayRefused | dashboard_local.py:75-76 | 29 February of a common year is refused |
| Timestamps.SixtiethSecondRefused | dashboard_local.py:75-76 | second 60 matches the pattern but is refused |
| Timestamps.TrailingSpaceRefused | dashboard_local.py:75-76 | trailing whitespace is left over and refused |
| Timestamps.BeforeEarliestRefused | dashboard_local.py:75-76 | a time before the first nanosecond timestamp (1677-09-21 00:12:44) is refused |
| Loader.PrepareRoster | dashboard_local.py:45-49 | the roster fails exactly when no trimmed header is `ID`; otherwise each row's `ID` cell becomes the trimmed text of the cell, every other cell and the number of rows are unchanged, the headers are trimmed, and `Collector` is renamed to `Agent Name` if and only if `Agent Name` is absent |
| Loader.PreparedKeepsId | dashboard_local.py:46-49 | the prepared roster still has its `ID` column, at the place it had among the trimmed headers |
| Loader.PreparedIdsTrimmed | dashboard_local.py:46 | each prepared ID, the key of both lookups, is the trimmed text of the row's original `ID` cell and has no whitespace left to strip |
| Loader.LegacyHeaderAliased | dashboard_local.py:48-49 | with only the legacy header, `Agent Name` is found at the column that was `Collector` |
| Loader.CanonicalHeaderKept | dashboard_local.py:48 | with `Agent Name` present, the headers are the trimmed headers, unchanged |
| Loader.RosterIds | dashboard_local.py:68 | the ID set holds exactly the IDs of the roster's rows |
| Loader.LastWins | dashboard_local.py:51 | `set_index('ID')[...].to_dict()` has exactly the roster's IDs as keys |
| Loader.LastWinsIsLast | dashboard_local.py:51 | for a repeated ID, the dictionary holds the value of its last row |
| Loader.Lookups | dashboard_local.py:79-81 | the group lookup fails exactly when there is no `Group` column; otherwise both maps are keyed by exactly the roster IDs, and they are `set_index('ID')` of the `Agent Name` and `Group` columns over all roster rows |
| Loader.LookupsFromLastRow | dashboard_local.py:79-81 | a roster row whose ID no later row repeats gives that ID its name and its group |
| Loader.CollectorId | dashboard_local.py:66 | the collector ID contains no `-` and is already trimmed |
| Loader.DashedId | dashboard_local.py:66 | the collector ID is the trimmed text before the first `-` |
| Loader.UndashedId | dashboard_local.py:66 | without a `-`, the collector ID is the whole trimmed text |
| Loader.RowKept | dashboard_local.py:63-76 | a row survives if and only if its three critical cells are present, its collector ID is on the roster, its trimmed unit is not `CancelRepossession`, and its create time parses |
| Loader.RowRecord | dashboard_local.py:63-83 | a survivor's record has the trimmed collector, its derived ID, the unit as text, the parsed time and its date, the upper-cased trimmed aging label, the carried cells, and the roster's name and group for the ID |
| Loader.OrderPreserved | dashboard_local.py:61-83 | the pipeline only removes rows: the k-th record comes from the k-th survivor, survivors keep their order, and no kept row is lost |
| Loader.RecordOrigin | dashboard_local.py:61-83 | every record comes from some input row |
| Loader.RecordInvariants | dashboard_local.py:63-83 | every record has a roster ID without `-`, that ID's name and group, a unit other than `CancelRepossession`, a representable time whose date it carries, and a normalised label |
| Loader.NormalizeRows | dashboard_local.py:61-83 | the per-row loop returns exactly the records of the surviving rows, in order |
| Loader.ProjectAll | dashboard_local.py:61 | every row is projected onto the six required columns |
| Loader.Load | dashboard_local.py:37-85 | for headers that stay distinct after trimming, one error for each way it returns `(None, None)`: an unresolved link, no roster `ID`, no `Agent Name`, a missing required visit column, no `Group`; each holds exactly when its condition is the first to fail, so there is never a partial table; on success it gives the prepared roster and the normalised visits |
| Loader.PaddedUnitCancelled | dashboard_local.py:73 | a padded `CancelRepossession` is still dropped |
| Loader.LowerCaseUnitKept | dashboard_local.py:73 | the test is case-sensitive: `cancelrepossession` is kept |
| Loader.EmptyUnitKept | dashboard_local.py:72-73 | an empty unit reads `nan` and is kept |
| Aging.TierOf | dashboard_local.py:91-110 | a non-text cell gets the default; the purple tier exactly when the trimmed, upper-cased label contains `M6`; any other tier only for its exact label |
| Aging.BordersDistinct | dashboard_local.py:93-108 | the six tiers have six different border colours |
| Aging.TierOfNormalized | dashboard_local.py:97 | classifying a label the loader already normalised gives the same tier |
| Aging.M6Anywhere | dashboard_local.py:107-108 | `M6` in either case anywhere in a label gives the purple tier, whatever else it contains |
| Aging.ExactTier | dashboard_local.py:100-110 | `M2`..`M5`, in either case and padded with whitespace, get their own tier |
| Aging.TierOfLabel | dashboard_local.py:110 | a label that normalises to `M2`..`M5` gets that tier |
| Aging.TierLabelShape | dashboard_local.py:100-105 | the exact labels are `M` and a digit and do not contain `M6` |
| Aging.FirstDigit | dashboard_local.py:326 | the regex search finds the first digit, or reports none |
| Aging.RunEnd | dashboard_local.py:326 | `\d+` extends over the whole digit run |
| Aging.SortKeyOfRun | dashboard_local.py:326 | the sort key is the value of the first digit run, whatever surrounds it |
| Aging.SortKeyNoDigits | dashboard_local.py:326 | a label without digits has sort key 0 |
| Aging.TallyCounts | dashboard_local.py:324 | `value_counts` lists each label present once, with its number of records; the counts sum to the number of records |
| Aging.SortByCounts | dashboard_local.py:327 | the sort permutes the rows into ascending key order and changes no count |
| Aging.BreakdownCounts | dashboard_local.py:324-327 | one row per label present, with its exact count, counts summing to the number of records, in ascending sort-key order |
| Aging.Averages | dashboard_local.py:414 | computed only for a non-empty group; each average times the group size is the row's count |
| Aging.AveragesSum | dashboard_local.py:412-414 | the averages add up to the records per collector of the group |
| Metrics.BaseView | dashboard_local.py:200-205 | a record is on view exactly when it matches the chosen team and collector, with "all" matching everything |
| Metrics.BaseViewAll | dashboard_local.py:200-201 | with both selectors on "all", the view is every record |
| Metrics.BaseViewIsOneMask | dashboard_local.py:202-205 | the two filters amount to one mask, so the view keeps the records' order |
| Metrics.FilterMultiset | dashboard_local.py:203 | a mask keeps each matching record as often as it occurs, and no other |
| Metrics.DayRecords | dashboard_local.py:259 | the day's records are exactly those dated that day, each as often as it occurs in the view |
| Metrics.SortDownSpec | dashboard_local.py:265 | the descending sort is a permutation ordered by falling key |
| Metrics.DayCardsSpec | dashboard_local.py:259-266 | the day's cards are exactly its records, each as often as it occurs, highest aging digits first |
| Metrics.MonthRecords | dashboard_local.py:274 | the month's records are exactly those whose create time is in the shown year and month, each as often as it occurs |
| Metrics.CountOn | dashboard_local.py:289 | the count is 0 exactly when no record is on the day, and never exceeds the number of records |
| Metrics.CountOnDayRecords | dashboard_local.py:289 | a day's heat-map count is the number of that day's records, the number its week tile shows |
| Metrics.MaxDaily | dashboard_local.py:275 | the maximum is at least every day's count and attained by some day; with no records it is 1 |
| Metrics.HeatmapColor | dashboard_local.py:139-145 | the empty-day grey exactly when the count is 0; otherwise hue 220 at 80% saturation |
| Metrics.HeatBounds | dashboard_local.py:143-144 | a day with records at most the maximum gets a lightness in [40, 95) |
| Metrics.HeatMonotone | dashboard_local.py:143-144 | more records never give a lighter tile |
| Metrics.DayTileSpec | dashboard_local.py:288-297 | a tile is grey exactly when no record of the month is on that day; otherwise its lightness is in [40, 95) |
| Metrics.DateWindow | dashboard_local.py:317-320 | refused exactly when the start is after the end; otherwise it keeps exactly the records with start ≤ date ≤ end |
| Metrics.WindowExact | dashboard_local.py:320 | the window keeps every in-window record as often as it occurs |
| Metrics.AgingColumn | dashboard_local.py:324 | the `Aging` column has one label per record, in order |
| Metrics.PersonalPanel | dashboard_local.py:317-327 | an error when the start is after the end; "no records" exactly when the window is empty; otherwise the breakdown of the window |
| Metrics.PersonalCounts | dashboard_local.py:320-327 | the personal chart has one bar per label in the window with its exact count, the bars summing to the window's size, in ascending sort-key order |
| Metrics.NamedRecords | dashboard_local.py:382 | the target's records are exactly those with that collector name, each as often as it occurs in the window |
| Metrics.GroupRecords | dashboard_local.py:407 | the group's records are exactly those whose collector name is one of the chosen names, each as often as it occurs in the window |
| Metrics.PrimaryPanel | dashboard_local.py:380-389 | nothing without a target; "no records" exactly when the target has none in the window; otherwise the target's breakdown |
| Metrics.ComparisonPanel | dashboard_local.py:403-417 | nothing without a group; "no records" exactly when the group has none in the window; otherwise the group's breakdown divided by the group's size |
| Calendar.PreviousMonthTarget | dashboard_local.py:221-225 | "previous" in month view lands on the last day of the month before; `None` only in January of year 1 |
| Calendar.NextMonthTarget | dashboard_local.py:236-239 | "next" in month view lands on the 1st of the following month, December rolling over to January; `None` only in December 9999 |
| Calendar.NextAfterPrevious | dashboard_local.py:221-239 | back a month then forward lands on the 1st of the starting month |
| Calendar.PreviousAfterNext | dashboard_local.py:221-239 | forward a month then back lands on the last day of the starting month |
| Calendar.WeekStart | dashboard_local.py:243 | the week starts on a Monday, and the current date is `weekday()` days after it |
| Calendar.WeekView | dashboard_local.py:242-247 | seven consecutive days from that Monday, the i-th having weekday i and the current date at its weekday; `None` exactly when the week's Sunday would overflow (27..31 December 9999) |
| Calendar.PreviousWeekOverflow | dashboard_local.py:218-220 | "previous" in week view overflows exactly on 1..7 January of year 1 |
| Calendar.NextWeekOverflow | dashboard_local.py:232-234 | "next" in week view overflows exactly on 25..31 December 9999 |
| Calendar.WeekStepKeepsWeekday | dashboard_local.py:218-240 | a week step keeps the weekday |
| Calendar.GridCell | dashboard_local.py:276-307 | cell j of the month grid is the day j days after the Monday before the 1st: a day before the 1st in the leading cells, the month's (j-w+1)-th day inside, a later day after |
| Calendar.RowEnd | dashboard_local.py:306-307 | the loop's exit test holds after a row exactly when the month's last day has been drawn |
| Calendar.GridOfRows | dashboard_local.py:283-307 | whole rows of consecutive days from the start, passing the last day by less than a row, form the month's grid |
| Calendar.FillRow | dashboard_local.py:286-305 | one row appends the next seven consecutive days, or overflows, which can happen only in December 9999 |
| Calendar.MonthGrid | dashboard_local.py:276-307 | the loop stops; it fails (OverflowError) exactly in December 9999; otherwise it draws whole weeks of consecutive days from the Monday on or before the 1st, every day of the month at its place, and no week after the one holding the last day |
| Calendar.Session.constructor | dashboard_local.py:211-214 | the first visit shows today in week view |
| Calendar.Session.SetMode | dashboard_local.py:211 | the radio button changes the mode and nothing else |
| Calendar.Session.Previous | dashboard_local.py:218-226 | "previous" moves the date a week back or to the end of the previous month, and leaves it unchanged on overflow |
| Calendar.Session.Next | dashboard_local.py:232-240 | "next" moves the date a week on or to the 1st of the next month, and leaves it unchanged on overflow |
| Calendar.Session.GoToday | dashboard_local.py:228-230 | "today" sets the date to today and keeps the mode |
| Calendar.Session.SwitchToWeekView | dashboard_local.py:147-150 | the "view" button of a month cell shows that day in week view |

## Left out

- The Streamlit page itself is not modelled: widgets, tabs, messages, HTML cards (lines 112-137) and `st.rerun`. The session class keeps only `current_date` and `view_mode`.
- `pd.read_excel` and the network fetches (lines 44, 53) are not modelled; the two tables are parameters of `Loader.Load`.
- `@st.cache_data` (line 29) is not modelled: memoisation has no behaviour to state.
- Loader.PrepareRoster, Loader.Lookups, Loader.Load: trimmed headers are assumed distinct. When two headers trim to the same name (say `ID` and `ID `), pandas returns several columns for that name and the source does not go on as the model does. A repeated roster `ID` (line 46) or visit `Collector` (line 64) makes `.str` run on a frame, and the `except` returns `(None, None)`. A repeated `Agent Name` or `Group` (lines 51, 80) makes `to_dict()` key the dictionary by column name, so every visit's name or group becomes NaN. The model instead uses the first column carrying the name.
- The broad `except Exception` (lines 87-89) is not modelled. The model keeps the three `KeyError`s that the loader's own indexing raises, plus the timestamp parse failure as a row filter; library failures are out of scope.
- The Plotly charts and their colour maps (lines 328-339, 390-428) are foreign calls and are not modelled. The model stops at the rows they are given.
- The roster's selector options and `name_map` (lines 185-195, 343-363) are not modelled. The comparison panels take the chosen names directly, so a `None` from `name_map.get` is not represented.
- `datetime.now()` (lines 214, 229, 252, 291) reads the clock: today is a parameter, and the today highlight is not modelled.
- Metrics.HeatmapColor: the lightness is an exact real, not a float, and is not rendered as text.
- Aging.Averages: the averages are exact reals rather than floats. They are divided after the sort instead of before it (line 414 before 416-417). This is the same thing, because the division is per row and the sort key depends only on the label.
- Aging.SortByCounts: `sort_values` is not stable, so the source leaves the order of ties open. The model sorts stably and states only the ordering and the counts.
- Metrics.SortDownSpec: likewise, the order of cards that tie on the key is not stated.
- Strings.Upper: upper-casing covers the ASCII letters only. The aging labels and markers the source compares against are ASCII.
- Strings.IsSpace: whitespace is Python's `isspace` set of code points. The model's `\d` digits are ASCII only.
- Tables.Stringify: Excel cells are text or empty. Numeric and date cells, and how `astype(str)` renders them, are not modelled.
- Timestamps.ParseCreateTime: only text cells are parsed. A cell Excel already read as a datetime, and pandas' fallbacks beyond the strict `%d/%m/%Y %H:%M:%S` pattern, are not modelled.
- Timestamps.Representable: the range 1677-09-21 00:12:44 .. 2262-04-11 23:47:16 is that of nanosecond timestamps, which `to_datetime` returns in pandas 2.x. The model assumes pandas 2.x. pandas 3 may infer a coarser unit with a wider range, which the model does not represent.
- Timestamps.Assemble: a 60th or 61st second matches the pattern and is then refused. This rests on `datetime`'s rule that a second lies in 0..59; pandas' own strptime code is not part of this model. Leap seconds are not modelled.
- Aging.SortKey: the key is an unbounded natural number. `.astype(int)` (lines 264, 326, 388, 416) converts to 64-bit integers and raises an error for a digit run above 2^63 − 1; the model has no such failure.
- The `if 'Neg Pos Unit' in visit_logs_df.columns` guard (line 71) always holds after the projection on line 61, so the model applies the unit filter unconditionally.
- The display of the target's name (`split('-')[-1]`, line 380) is presentation only and is not modelled.
