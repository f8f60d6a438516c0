# Health monitor: lab-report records, range classification and trend charts

This project models the core of a small Dash application that reads lab
reports (PDF) of one or more patients. The pipeline has four stages:

1. **Extraction** (`extract_all_data_from_pdf`, `clean_data`). The report text
   yields one record per match of a generic "title, number, unit, rest"
   pattern. Each record carries:
   - the patient name, found once per report;
   - the first `d/m/yyyy` date token in the text;
   - the four stripped fields.

   Only records whose test name and unit are on the allow-lists survive.
2. **Upload** (`handle_upload`). The records of every uploaded report are
   concatenated. They become the rows of the data table: six columns, the
   column list shown only when there is a row, and the distinct non-empty
   patient names offered in the dropdown.
3. **Classification** (`analyze_test_results`). Each row's value is compared
   with its reference range, and the row is labelled Low, Normal or High in
   place. A range is two-sided when splitting on `-` gives exactly two pieces;
   otherwise it is a ceiling (`<x`) or a floor (any other first character).
4. **Charts** (`update_charts`). Rows of the selected patients whose value is
   not `N/A` are grouped by patient and test. The tests of the first selected
   patient, in first-appearance order, give one chart each. Every selected
   patient with that test gives one series:
   - the dates are parsed with `%d/%m/%Y`;
   - the points are sorted newest first, and points on the same date keep
     their table order;
   - display bounds come from the group's first reference range, split on
     `" - "`.

Modules:

| module | file | contents |
|---|---|---|
| `Base` | `base.dfy` | `Option` and `Result` |
| `Text` | `text.dfy` | Python's `str.strip`, `str.split`, `str.find` and `float()` on the strings the application handles |
| `Dates` | `dates.dfy` | the date-token search, `strptime('%d/%m/%Y')` and the order of dates |
| `Records` | `records.dfy` | the record, the allow-lists, `clean_data` and extraction |
| `Analysis` | `analysis.dfy` | range parsing, categories and `analyze_test_results` over an array of rows |
| `Upload` | `upload.dfy` | `handle_upload` |
| `Charts` | `charts.dfy` | the grouping, the series, the sort, the display bounds and `update_charts` |
| `Scenarios` | `scenarios.dfy` | concrete reports and ranges worked through the model |

Behaviour of the code worth knowing:

- **Read failures raise.** A value or bound that `float()` cannot read is not
  skipped. It raises, and the whole callback fails. Likewise a date that
  `strptime` refuses. The model returns `Err` for the whole operation:
  - `AnalyzeTestResults` returns the index of the first failing row;
  - `UpdateCharts` returns the first error in the order the code meets it.
- **First range in table order.** The display bounds of a series come from
  the first reference range in table order, not the earliest by date.
- **Newest first.** Series points are sorted newest first (`reverse=True`).
- **Two range separators.** Classification splits ranges on `-`, but the
  charts split them on `" - "`. So `13.0-17.0` classifies as the two-sided
  range 13.0 to 17.0 (`Scenarios.UnspacedRangeClassifies`). In the charts,
  the same range is one piece, and `float("3.0-17.0")` raises
  (`Scenarios.UnspacedRangeBreaksChart`).

## Model

| member | source | states |
|---|---|---|
| `Text.Strip` | app.py:68-71 | the result has no whitespace at either end, is the slice of the input after its leading whitespace, and only whitespace follows it |
| `Text.StripIdempotent` | app.py:68-71 | stripping twice is stripping once |
| `Text.JoinSplit` | app.py:202 | joining the pieces of a split with the separator gives back the original string |
| `Text.SplitPartsAvoidSep` | app.py:372 | no piece of a split contains the separator |
| `Text.SplitCount` | app.py:202 | splitting on a character gives one more piece than the character's occurrences |
| `Text.SplitHead` | app.py:372-378 | the first piece of a split is the text before the leftmost separator, or the whole text when there is none |
| `Text.SplitFirstPiece` | app.py:372-378 | the first piece is a prefix of the string; with two pieces, the string is first + separator + second; without the separator, the split is the whole string |
| `Text.FloatAccepts` | app.py:201 | `float()` reads a string exactly when its stripped form is an optionally signed run of digits with at most one '.' and at least one digit |
| `Text.FloatRejectsBlank` | app.py:201 | an empty or all-whitespace value cannot be read |
| `Text.FloatOfStrip` | app.py:203-204 | stripping before `float()` changes nothing |
| `Text.FloatOfPoint` | app.py:352 | `whole.frac`, with digits on at least one side of the point, reads as the value of its digits |
| `Text.FloatOfSigned` | app.py:205-222 | a '+' or '-' before unpadded text reads the rest unsigned, negated after a '-' |
| `Text.FloatOfSignedPoint` | app.py:205-222 | a signed `whole.frac` reads as the value of its digits, negated after a '-' |
| `Text.FloatOfDigits` | app.py:201 | a run of digits without a point, leading zeros included, reads as the value of its digits |
| `Text.FloatOfDecimalString` | app.py:352 | every natural number's decimal text reads back as that number |
| `Dates.ParseDate` | app.py:369 | any day `strptime('%d/%m/%Y')` returns exists in the calendar (month 1-12, day within the month, leap years included) |
| `Dates.ParseDateShape` | app.py:369 | whatever is read was one or two day digits, one or two month digits and four year digits joined by '/', and the day returned is the one they name; any other text is refused |
| `Dates.ParseDatePieces` | app.py:369 | 1-2 day digits, 1-2 month digits and 4 year digits joined by '/' read as that day, or fail only when the day does not exist |
| `Dates.ParseFormatDate` | app.py:369 | every calendar day is read back from its `dd/mm/yyyy` text |
| `Dates.NotBeforeTotal` | app.py:370 | any two dates compare |
| `Dates.NotBeforeTransitive` | app.py:370 | the date order is transitive |
| `Dates.NotBeforeAntisymmetric` | app.py:370 | two dates each not before the other are equal |
| `Dates.DateTokenAtSound` | app.py:56 | a non-zero length marks a `d/m/yyyy` token with word boundaries on both sides |
| `Dates.DateTokenAtComplete` | app.py:56 | every `d/m/yyyy` token with word boundaries on both sides is measured at its index, at its full length of 8 to 10 characters |
| `Dates.SearchDateFrom` | app.py:59 | the found index starts a token, and no index before it does |
| `Dates.SearchDate` | app.py:59 | a found date is a date token; nothing is found exactly when no position of the text starts one |
| `Dates.SearchDateLeftmost` | app.py:59 | a found date is the whole token at the first index where a token starts |
| `Dates.SearchDateFinds` | app.py:56-59 | a date token between word boundaries anywhere in the text makes the search succeed |
| `Dates.ParseDateToken` | app.py:56-59 | a found date token can be refused by `strptime` only because the day it names does not exist |
| `Records.CleanData` | app.py:32-37 | the output is the input's valid records (known test name and known unit), in order |
| `Records.CleanedSnoc` | app.py:34-36 | one more record is kept at the end exactly when its test name and unit are allowed |
| `Records.CleanedConcat` | app.py:34-36 | filtering a concatenation is concatenating the filtered parts, so order is kept |
| `Records.CleanedMembers` | app.py:35 | a record survives exactly when it was in the input and both its test name and unit are allowed |
| `Records.CleanedShorter` | app.py:32-37 | the filter never lengthens its input |
| `Records.CleanedIdempotent` | app.py:32-37 | cleaning cleaned data changes nothing |
| `Records.BuildRecords` | app.py:67-81 | one record per match, in match order, each with the four fields stripped and the report's name and date |
| `Records.ExtractAllData` | app.py:40-84 | the records are the allowed ones among one record per match, each with the report's name and first date token |
| `Records.ExtractedRecords` | app.py:61-84 | every extracted record is allowed, has stripped fields and the report's name and date, and comes from one of the matches; there are at most as many records as matches |
| `Analysis.ParseRangeShape` | app.py:202-222 | an empty range is the only one without a first character; the range is two-sided exactly when it has one '-'; otherwise '<' makes it a ceiling and anything else a floor, with the limit read after the first character |
| `Analysis.SplitOneDash` | app.py:202-204 | a range with one '-' splits into exactly the texts before and after it |
| `Analysis.ParseTwoSided` | app.py:202-204 | a range with one '-' is bounded by the numbers on either side of it, or fails when either is unreadable |
| `Analysis.CategoryOf` | app.py:205-222 | two-sided: Low below the low bound, High above the high bound, Normal in between, ends included; a ceiling never gives Low; a floor never gives High |
| `Analysis.ClassifyOutcome` | app.py:201-222 | the value is read first, and an unreadable value is the error; the category exists exactly when the value and the range both read |
| `Analysis.ClassifyTwoSided` | app.py:201-210 | for `low-high`: Low iff v < low, Normal iff low <= v <= high, High iff v >= low and v > high |
| `Analysis.ClassifyCeiling` | app.py:211-217 | for `<limit`: High when the value exceeds the limit, else Normal |
| `Analysis.ClassifyFloor` | app.py:218-222 | for any other one-sided range: Low when the value is below the limit, else Normal |
| `Analysis.CategoriseItem` | app.py:200-222 | the item gets the category its value and range give, or keeps its state when either cannot be read; no other item changes |
| `Analysis.AnalyzeTestResults` | app.py:197-222 | on success every row has its category set and nothing else changed; on failure it reports the first unreadable row and its error, the rows before it are categorised and the rest are untouched |
| `Upload.ExtractFiles` | app.py:256-263 | the accumulated rows are every report's extracted records, report by report |
| `Upload.ProjectRows` | app.py:268-279 | projecting onto the six columns keeps every row unchanged and in order |
| `Upload.DropdownOptions` | app.py:291-295 | options are distinct, and a name is offered exactly when some row carries it and it is neither None nor empty |
| `Upload.HandleUpload` | app.py:249-297 | no contents gives empty outputs; otherwise the table is all reports' records in order, columns are listed only for a non-empty table, and the options are the table's distinct non-empty names |
| `Upload.FilesDataStep` | app.py:262 | each further report appends exactly its own records |
| `Upload.FilesDataOrigin` | app.py:253-263 | every uploaded row is allowed and carries the name and date of a report it came from |
| `Upload.OptionsFromReports` | app.py:291-295 | every dropdown option is non-empty and is the name captured from some uploaded report |
| `Charts.GroupOf` | app.py:346-355 | a group holds exactly as many values, dates and ranges as it has rows |
| `Charts.GroupOfRows` | app.py:347-355 | the k-th value, date and range of a group come from its k-th row in table order |
| `Charts.RowsOfMembers` | app.py:347-351 | a row is in a group exactly when it is in the table, its patient is selected, its value is not `N/A`, and it has the group's patient and test |
| `Charts.RowsOfSnoc` | app.py:347-355 | a later row is appended to its group only |
| `Charts.TestsOfSnoc` | app.py:353 | a kept row adds its test to its patient's tests only when the test is new |
| `Charts.ValuesParsePrefix` | app.py:347-352 | when the whole table's kept values read, so do a prefix's |
| `Charts.ValuesParseMembers` | app.py:351-352 | grouping succeeds exactly when every kept row's value reads |
| `Charts.ValuesParseSnoc` | app.py:347-352 | one more row keeps grouping possible exactly when it is not kept or its value reads |
| `Charts.GroupOfSnoc` | app.py:353-355 | one more row extends only its own group, by its value, date and range |
| `Charts.GrowMirrors` | app.py:352-355 | appending a kept row's value, date and range keeps every patient's test list and every group equal to those of the rows seen so far |
| `Charts.SkipMirrors` | app.py:348-351 | a row of an unselected patient or with an `N/A` value changes no test list and no group |
| `Charts.UnreadableValue` | app.py:351-352 | one kept row whose value cannot be read makes grouping of the whole table fail |
| `Charts.GroupRows` | app.py:345-355 | fails with an unreadable value exactly when some kept row's value does not read; otherwise each patient's tests and each group equal the first-appearance tests and the table-order groups |
| `Charts.TestsOfMembers` | app.py:363-367 | a test is listed for a patient exactly when the patient's group for it is non-empty |
| `Charts.TestsOfDistinct` | app.py:363 | a patient's tests are listed once each |
| `Charts.ParseDates` | app.py:369 | either every date is present and parses to the date at its place, or some date is missing or unreadable |
| `Charts.InsertCounts` | app.py:370 | inserting adds exactly the one point and loses none |
| `Charts.InsertNewestFirst` | app.py:370 | inserting into a newest-first list keeps it newest first |
| `Charts.SortNewestFirst` | app.py:370 | the sort's result is newest first |
| `Charts.SortPermutes` | app.py:370 | the sort is a permutation of its input |
| `Charts.InsertOnDate` | app.py:370 | insertion puts a point after the points already on its date |
| `Charts.SnocStable` | app.py:370 | inserting the last point into the sorted earlier points keeps each date's points in input order |
| `Charts.SortStable` | app.py:370 | points on the same date keep their input order, as Python's stable `sorted` does |
| `Charts.DisplayBounds` | app.py:372-378 | two pieces give the pair around the one `" - "`; one piece gives the piece and the number after its first character; anything unreadable is a bound error |
| `Charts.DisplayBoundsFirstPiece` | app.py:372-378 | a numeric high comes with the text before the first `" - "` as its low; with other than two pieces the result is a bound error exactly when that first piece is empty or the text after its first character is no number, and otherwise that number |
| `Charts.DisplayBoundsOfPair` | app.py:372-375 | `low - high` with no other separator gives back `low` and `high` |
| `Charts.MakeSeries` | app.py:368-378 | a series exists exactly when the dates parse and the first range gives bounds; a date error comes before a bound error; the bounds are those of the first range |
| `Charts.SeriesPoints` | app.py:368-371 | the points are the (date, value) pairs newest first, a permutation of them, with same-date points in table order |
| `Charts.PatientSeries` | app.py:366-378 | a patient has no series exactly when the test is not among their kept tests; any series belongs to that patient |
| `Charts.SeriesForPrefixErr` | app.py:366-378 | once a patient's series fails, the chart's result is that failure |
| `Charts.ChartsForPrefixErr` | app.py:363-406 | once a chart fails, the whole result is that failure |
| `Charts.SeriesOfTest` | app.py:365-400 | the series of one chart are those of the selected patients who have the test, in selection order, or the first patient's error |
| `Charts.UpdateCharts` | app.py:338-407 | no selection or no rows gives no charts; an unreadable kept value fails; otherwise one chart per test of the first selected patient, in first-appearance order |
| `Charts.ChartsForShape` | app.py:363-406 | the charts exist exactly when every test's series do, and then there is one chart per test, in order, with that test's series |
| `Charts.PatientSeriesPoints` | app.py:366-371 | a series has one point per row of its group, newest first |
| `Charts.SeriesForErr` | app.py:366-378 | a failed chart's error is one selected patient's series error |
| `Charts.SeriesForMembers` | app.py:366-367 | series belong to listed patients who have the test, every such patient has one, and there are no more series than patients |
| `Scenarios.ScenarioNormal` | app.py:201-210 | 13.5 against `13.0 - 17.0` is Normal |
| `Scenarios.ScenarioHigh` | app.py:205-208 | 18.2 against `13.0 - 17.0` is High |
| `Scenarios.ScenarioCeiling` | app.py:212-215 | 6.1 against `<4.5` is High |
| `Scenarios.LitMinus4_5` | app.py:212-222 | `-4.5` reads as -4.5 |
| `Scenarios.Lit02` | app.py:201 | `02` reads as 2 |
| `Scenarios.LitPoint5` | app.py:212-222 | `.5` reads as 0.5 |
| `Scenarios.UnknownUnit` | app.py:18-19 | `xx` is not an allowed unit |
| `Scenarios.DroppedMatch` | app.py:35-36 | a match whose record is not allowed yields nothing |
| `Scenarios.UnknownTestName` | app.py:20-29 | `RandomNoise` is not an allowed test name |
| `Scenarios.ScenarioUnknownTest` | app.py:67-84 | a noise match with an unknown test and unit is dropped by extraction |
| `Scenarios.ScenarioUnknownTestName` | app.py:67-84 | a match naming the unknown test `RandomNoise` is dropped even with the allowed unit `mg/dL` |
| `Scenarios.NotANumber` | app.py:378 | `3.0-17.0` is not a number |
| `Scenarios.NoSpacedDash` | app.py:372 | a string without spaces has no `" - "` separator |
| `Scenarios.UnspacedRangeClassifies` | app.py:202-204 | `13.0-17.0` classifies as the two-sided range 13.0 to 17.0 |
| `Scenarios.UnspacedRangeBreaksChart` | app.py:372-378 | `13.0-17.0` gives the charts a bound error |
| `Scenarios.ScenarioTwoReports` | app.py:345-371 | two reports of one patient and test give one series of two points, newest first |

## Left out

- PDF reading (pdfplumber), base64 decoding, the data-URL split, and pairing contents with file names. A report enters the model as its page text.
- The regular-expression engine. The generic pattern's matches and the captured patient name are inputs of `Records.ExtractAllData`. Only the date pattern is modelled, by an explicit scanner.
- `Dates.DateTokenAt`: `\d` in the date pattern (app.py:56) also matches non-ASCII decimal digits such as Arabic-Indic ones, while `Text.IsDigit` is ASCII only, so dates written with such digits are not found.
- `\b` in the date pattern: word characters are limited to ASCII letters, digits and underscore, while Python's `\w` also covers other Unicode letters and digits.
- `float()` edge cases: exponents, `inf`/`nan`, underscores in numerals and non-ASCII digits are not read. Values are exact rationals, not IEEE doubles.
- `Text.Float`: it strips every character `str.isspace` accepts before reading, but CPython's `float()` does not skip U+001C to U+001F. So `Text.Float` and `Text.FloatOfStrip` differ from CPython on those four characters: the ceiling `<` followed by U+001C and `4.5` is read as 4.5 here, while `float()` raises at app.py:214.
- `strptime`: space-padded or non-ASCII digits are not modelled.
- The upload feedback message. It is display text built from the file names.
- The column list returned by `analyze_test_results`. It is a constant for display.
- Colours, Plotly figures, the scatter and reference-line shapes and their date extents, and chart titles. A chart is modelled as its test and its series.
- `export_to_csv`, `toggle_view`, `update_page_size` and the Dash layout. They are presentation only.
- `Upload.DropdownOptions`: the options' order is not promised, because a Python set's iteration order is unspecified. Only membership and distinctness are stated.
- The nested `defaultdict` of `update_charts` is modelled as a per-patient test list plus a map keyed by (patient, test). The mutable dictionaries the callbacks share are modelled as values, except the rows `analyze_test_results` updates in place, which are an array.
