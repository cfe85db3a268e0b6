# Medical test records

A Dafny model of the pure logic of a small medical-test record keeper: a catalog of
test definitions kept in a text file, patient test records kept in a second text
file, the filters and the summary report over the patients, and the CSV export and
import. The model covers the line formats and their parsers, how parsed lines are
ingested, the checks that the input prompts apply, the filters and their composition,
the summary calculation, and `Patient.__str__`. Every parser is a total function.
Where the program raises an exception, the parser returns `None` (see `options.dfy`).

Modules, following the program's structure:

- **`MedicalTests`** (`medical_test.dfy`): the test definition, `is_result_normal` and
  `to_file_string`.
- **`Catalog`** (`catalog.dfy`): `read_medical_tests`, one line at a time and over a whole
  file, and the proof that it reads back what `to_file_string` writes.
- **`Patients`** (`patients.dfy`):
  - the patient, `add_record` and `__str__`;
  - the patient mapping, a sequence of patients with distinct ids kept in dict insertion order.
- **`Ingestion`** (`ingest.dfy`): how a parsed line enters the mapping, shared by the record
  file reader and the CSV importer. Writing a mapping out and ingesting it again rebuilds it.
- **`RecordFile`** (`record_lines.dfy`): the record-file line parser, the rewrite line and the
  appended line.
- **`CsvFile`** (`csv_file.dfy`): export rows as `csv.writer` writes them and the importer's
  own line splitting.
- **`Acceptance`** (`validators.dfy`): the acceptance checks of the input loops, each as a
  function of the text typed in.
- **`Updates`** (`update.dfy`): the record edit of `update_patient_records`.
- **`Filters`** (`filters.dfy`): the six filters and their sequential composition.
- **`Summaries`** (`summary.dfy`): `calculate_summary_statistics`.
- **Helper modules:**
  - `Text` (`text.dfy`): `strip`, `lower`, `isdigit`, `split`, `join`, `int`, `str` of an int;
  - `Decimals` (`decimals.dfy`): `float` of text and `str` of a float;
  - `Stamps` (`stamps.dfy`): `strptime`/`strftime` with `%Y-%m-%d %H:%M`;
  - `Durations` (`durations.dfy`): turnaround texts and `timedelta`s.

How Python values are represented:

- **Numbers:** a result value or a bound is a `Decimal(mantissa, scale)`. It keeps the digits it
  was read from and is compared through its exact real value.
- **Time:** a turnaround is a whole number of minutes, and an averaged `timedelta` is a whole
  number of microseconds. Both are unbounded integers. The range limit of `timedelta`,
  999999999 days either way, is written out: a conversion or sum beyond it is the
  `OverflowError`, and so it is `None`.
- **Dates:** a date is a `Stamp` of five fields.
- **Records:** a record holds the test definition object itself, as the program's record
  dictionaries do.
- **Clock:** the current time (`datetime.now()`) is a parameter.

Where the code and its design description disagree, the model follows the code:

- A record refers to its test definition object, not to an abbreviation it looks up.
- A new record never receives a result date. The status is lowercased at functions.py:220 but
  compared with `"Completed"` at functions.py:228 and 259, so the result-date prompt is dead code.

## Model

| member | source | states |
|---|---|---|
| MedicalTests.NormalIsInRange | medical_test.py:10-15 | a result is normal exactly when it lies in the closed interval between the bounds that are present |
| MedicalTests.BoundsInclusive | medical_test.py:11-12 | a value equal to a present lower bound is normal unless the upper bound excludes it |
| MedicalTests.UpperInclusive | medical_test.py:13-14 | a value equal to a present upper bound is normal unless the lower bound excludes it |
| MedicalTests.NoBoundsAllNormal | medical_test.py:10-15 | without bounds every value is normal |
| Catalog.LineSegments | medical_test.py:21 | a written line starts with a newline, which `strip` removes, and splits on `; ` into exactly its name, range and unit parts |
| Catalog.ParseCatalogLine | functions.py:27-52 | a line is skipped exactly when it has fewer than three `; ` segments; a definition read from a line has stripped name, abbreviation, unit and turnaround, an abbreviation without `)`, and bounds as `float` yields them |
| Catalog.LoadedWellRead | functions.py:33-53 | every test of a loaded catalog has stripped fields, an abbreviation without `)` and bounds as `float` yields them |
| Catalog.BoundsFollowMarkers | functions.py:37-45 | a parsed definition has a lower bound exactly when `>` occurs in the range text and an upper bound exactly when `<` does |
| Catalog.ParseToFileString | medical_test.py:20-21 | reading back a line written by `to_file_string` gives the same definition: name, abbreviation, both bounds present or absent with their values, unit and turnaround. This is proved for stripped fields where no field holds `;`, name and abbreviation hold no `:` or `(`, the abbreviation no `)`, unit and turnaround no `,`, and the turnaround is not empty |
| Catalog.AccumulateFails | functions.py:23-55 | loading the parsed lines fails exactly when some line is broken, since no handler catches the error |
| Catalog.AccumulateEntries | functions.py:52-53 | a loaded catalog holds for each abbreviation the last definition given for it and nothing else, so a later line overwrites an earlier one |
| Catalog.LoadCatalogMeaning | functions.py:23-55 | the same two facts stated over the file's text lines |
| Catalog.CatalogKeyedByAbbr | functions.py:53 | every definition is filed under its own abbreviation |
| Decimals.ParseShowDecimal | functions.py:69 | a float with a fraction digit reads back from its rendering as exactly itself |
| Decimals.ParseShowDecimalValue | functions.py:69 | every rendered decimal reads back with the same value |
| Decimals.IsValidFloatMeaning | functions.py:110-111 | `is_valid_float` holds exactly for non-empty text of digits with at most one `.` that is not `.` alone, so `-1`, `1e5`, `1.2.3`, `.` and the empty text fail |
| Decimals.ValidFloatParses | functions.py:147-148 | text that passes `is_valid_float` is read by `float` without error, as a non-negative number |
| Stamps.NotAfterOrdinal | functions.py:202 | the field-by-field order of moments is the order of their minute counts |
| Stamps.ParseShowStamp | functions.py:81 | a valid moment written by `strftime` is read back by `strptime` as itself |
| Stamps.ShowParseStamp | functions.py:81 | text `strptime` accepts is exactly what `strftime` writes for the parsed moment, so storing the reformatted date keeps the text |
| Text.ParseShowInt | functions.py:63 | `int(str(n))` is `n` for every integer |
| Text.JoinSplit | functions.py:459-460 | joining the pieces of a split with its separator gives the text back |
| Text.SplitJoin | functions.py:65 | splitting joined pieces that do not hold the separator's first character gives the pieces back |
| Durations.ConvertToMinutes | functions.py:459-461 | a conversion that succeeds is never negative and stays within `timedelta`'s 999999999 days; a larger total is the `OverflowError` (`None`) |
| Durations.ValidateJoin | functions.py:114-123 | three digit runs joined by `-` pass validation exactly when hours < 24 and minutes < 60 (days unbounded); they convert to `days*1440 + hours*60 + minutes` exactly when that total fits a `timedelta`, and fail otherwise |
| Durations.ValidateSplit | functions.py:114-123 | every text that passes validation is three digit runs joined by `-`; it converts to `days*1440 + hours*60 + minutes` exactly when its days are at most 999999999, and raises `OverflowError` (`None`) otherwise |
| Durations.ValidatedOverflow | functions.py:114-123 | validation does not bound the days: `1000000000-0-0` passes `validate_turnaround_time` and its conversion at line 461 overflows |
| Durations.Decompose | functions.py:595-597 | the printed fields of a duration have hours < 24 and minutes < 60 and add up to its whole minutes |
| Durations.ShowDurationRoundTrip | functions.py:595-597 | the printed form of any non-negative duration a `timedelta` can hold passes validation and converts back to its whole minutes |
| Durations.ShowMinutesRoundTrip | functions.py:459-461 | a whole-minute duration within `timedelta`'s range, printed and converted back, is the same number of minutes |
| Patients.NewPatient | patient.py:2-4 | a new patient has the given id and no records |
| Patients.AddRecord | patient.py:6-7 | the list grows by one, the new record is last, and the earlier records keep their order |
| Patients.Position | functions.py:88-89 | the lookup finds the first patient with the id, and finds none exactly when no patient has it |
| Patients.AddToStoreSpec | functions.py:88-91 | adding a record touches only its patient: the record goes to the end of that patient's list, a new patient is appended after all the others, ids stay distinct and every other patient is unchanged |
| Patients.PatientTextAsWritten | patient.py:9-15 | `__str__` fails exactly on a patient holding a completed record without a result date, and otherwise equals the corrected text |
| Patients.PatientTextFailsOnNewCompletedRecord | patient.py:11-12 | the failing record is one the program itself creates |
| Patients.PatientTextLines | patient.py:9-15 | the corrected text is the heading, then exactly one line per record in list order, ending with a newline |
| Ingestion.ToRecord | functions.py:79-86 | the record keeps the test definition and every field of the parsed line |
| Ingestion.IngestSpec | functions.py:76-93 | an unparsed line or an unknown abbreviation leaves the mapping unchanged; otherwise exactly one record is appended to that patient's list, a new patient is created after the others, and nothing else changes |
| Ingestion.IngestParsedDistinct | functions.py:58-97 | ingesting any lines keeps patient ids distinct |
| Ingestion.IngestParsedAll | functions.py:58-97 | lines that all parse are ingested as their entries, in order |
| Ingestion.RebuildStore | functions.py:346-352 | ingesting, from nothing, the entries a mapping writes out in mapping order rebuilds the mapping: the same patients in the same order, each with the same records in the same order |
| RecordFile.ParseRewriteLine | functions.py:62-74 | the corrected rewrite line of a record reads back as that record |
| RecordFile.ParseRewriteLineAsWritten | functions.py:349-351 | the rewrite line as written is unreadable for a completed record without a result date, and drops the result date of a record whose status is not exactly `completed` |
| RecordFile.NoneLine | functions.py:349-351 | the rewrite line of a completed record without a result date fails to parse, because its sixth field is `None` |
| RecordFile.ReloadRewriteFile | functions.py:345-352 | rewriting the file with the corrected line and reading it back rebuilds the mapping |
| RecordFile.ReloadRewriteFileAsWritten | functions.py:345-352 | with the line as written, a mapping holding only a completed record without a result date reads back empty |
| CsvFile.CsvFieldReads | functions.py:620-628 | every field `csv.writer` emits reads back as its text, and a field that needs no quotes is written unchanged |
| CsvFile.CsvResultDateNeedsField | functions.py:647-649 | an imported row has a result date exactly when its seventh field exists and is not blank |
| CsvFile.ImportCsv | functions.py:633-635 | the import fails exactly on an empty file, where `next(file)` raises |
| CsvFile.ImportDistinct | functions.py:651-668 | importing keeps patient ids distinct |
| CsvFile.ParseExportRow | functions.py:639-649 | the exported row of a record, read by the importer's own splitting, gives the record back, with an empty seventh field read as no result date |
| CsvFile.ImportExport | functions.py:613-672 | exporting a mapping and importing the file into an empty mapping rebuilds the mapping |
| CsvFile.ImportKeepsMissingResultDate | functions.py:627 | a completed record without a result date, which the rewritten record file loses, survives the CSV round trip |
| Acceptance.AcceptRange | functions.py:143-157 | an accepted range has at least one bound, has a bound exactly where text was typed, and has the lower below the upper when both are present |
| Acceptance.AcceptRangeMeaning | functions.py:143-157 | a range is accepted exactly when at least one bound is typed, every typed bound is digits with at most one `.`, and two bounds are ordered; each bound accepted is what `float` reads |
| Acceptance.AcceptPatientId | functions.py:181-187 | an accepted id is below ten million |
| Acceptance.AcceptPatientIdMeaning | functions.py:181-187 | the accepted ids are exactly the numbers below ten million, each typed as its seven-digit zero-padded form |
| Acceptance.AcceptStatus | functions.py:218-224 | an accepted status is one of `pending`, `completed` or `reviewed` |
| Acceptance.AcceptStatusSettled | functions.py:218-228 | an accepted status is accepted again as itself, and it is never the `Completed` that lines 228 and 259 compare with |
| Acceptance.AcceptRecordNumber | functions.py:281-286 | an accepted 1-based record number gives a position inside the list |
| Acceptance.EveryRecordSelectable | functions.py:281-286 | every record can be selected by its number as `str` writes it |
| Acceptance.AcceptTestDate | functions.py:198-207 | an accepted test date is a valid moment between 2000-01-01 00:00 and now |
| Acceptance.AcceptTestDateMeaning | functions.py:198-207 | a test date is accepted exactly when it parses and lies between 2000-01-01 00:00 and now, both included |
| Acceptance.AcceptResultDate | functions.py:333-341 | an accepted result date is a valid moment not before the test date |
| Acceptance.AcceptResultDateMeaning | functions.py:333-341 | a result date is accepted exactly when it parses and is not before the test date |
| Acceptance.AcceptNewAbbr | functions.py:133-141 | a new abbreviation is non-empty, stripped and not yet in the catalog |
| Acceptance.NewRecordHasNoResultDate | functions.py:226-260 | a new record never has a result date, the appended line carries none, and the line reads back as the record |
| Updates.EditRecord | functions.py:290-343 | each answered field takes its new value and the others stay; a new abbreviation brings the catalog's unit; the test's other fields stay; the result date changes only if the edited status lowercases to `completed` |
| Updates.NoEditKeepsRecord | functions.py:290-343 | answering no to every question leaves the record unchanged |
| Updates.EditRecordIdempotent | functions.py:290-343 | giving the same answers twice has the effect of giving them once |
| Updates.ResultDateNeedsCompleted | functions.py:332-343 | a new result date is taken exactly when the edited status lowercases to `completed` |
| Updates.UpdateRecord | functions.py:266-286 | an update goes ahead exactly when the patient exists and the record number is within its list |
| Updates.UpdateTouchesOne | functions.py:345 | an update replaces only the selected record of the selected patient; every other record and patient, the ids, the order and the list lengths are unchanged |
| Filters.FilterByPatientId | functions.py:413-414 | the result holds exactly the patients with that id, records untouched |
| Filters.PatientIdFilterOne | functions.py:413-414 | on a mapping the result is at most one entry: the patient with that id, exactly as stored |
| Filters.NarrowMembers | functions.py:417-479 | each record filter keeps exactly the patients that keep at least one record, each with the records it keeps |
| Filters.KeepMembers | functions.py:420 | the records kept are exactly the admitted ones |
| Filters.KeepAppend | functions.py:420 | keeping distributes over concatenation, so kept records stay in their original order |
| Filters.KeepExtremes | functions.py:421-423 | a list whose records are all admitted is kept whole, and a list is emptied (its patient omitted) exactly when none is admitted |
| Filters.NarrowSound | functions.py:417-479 | every record of a filtered mapping is admitted by the filter |
| Filters.NarrowKeeps | functions.py:417-479 | every admitted record of the mapping survives under its own patient |
| Filters.FilterByTestName | functions.py:417-424 | every record kept is of the test with that abbreviation |
| Filters.FilterAbnormal | functions.py:427-435 | every record kept has a value outside its test's normal interval |
| Filters.FilterByDateRange | functions.py:438-446 | every record kept has its test date between the two moments |
| Filters.FilterByStatus | functions.py:449-456 | every record kept has the status asked for, up to case |
| Filters.FilterByTurnaround | functions.py:464-479 | the filter fails exactly when a limit or some record's test turnaround cannot be converted, unreadable or beyond 999999999 days; otherwise every record kept has its test's turnaround within the limits |
| Filters.TurnaroundLimitOverflows | functions.py:465-466 | a validated upper limit of `1000000000-0-0` makes the turnaround filter fail, whatever the mapping and the lower limit |
| Filters.DateWindowInclusive | functions.py:442 | a record whose test date is exactly either end of the window is kept |
| Filters.TurnaroundWindowInclusive | functions.py:472-475 | a record whose test's turnaround equals either limit is kept |
| Filters.StatusIgnoresCase | functions.py:452 | spellings that lowercase alike select the same records, and lowercasing the request first (line 549) changes nothing |
| Filters.StepSpec | functions.py:519-558 | one criterion keeps ids distinct, takes only patients and records from its input, keeps only records that meet it, and keeps every record that meets it |
| Filters.ApplyAllFails | functions.py:519-558 | the composition fails only through a turnaround criterion |
| Filters.ApplyAllSpec | functions.py:517-569 | a successful composition keeps ids distinct, takes only from the mapping, holds only records meeting every criterion, and holds every record of the mapping that meets them all |
| Summaries.TurnaroundsOf | functions.py:579-585 | the turnaround of every record's test in minutes, failing exactly when one cannot be converted (unreadable, or beyond `timedelta`'s range) |
| Summaries.MinOf | functions.py:587 | the minimum is a value of the list, bounds all of them from below, and is the first of the smallest |
| Summaries.MaxOf | functions.py:588 | the maximum is a value of the list, bounds all of them from above, and is the first of the largest |
| Summaries.MeanBetween | functions.py:587-589 | the mean value lies between the minimum and the maximum |
| Summaries.DivideRounded | functions.py:593 | dividing a duration rounds to the nearest microsecond |
| Summaries.MeanMicrosBetween | functions.py:591-593 | the mean turnaround lies between the minimum and the maximum turnaround |
| Summaries.SummaryEmpty | functions.py:573-574 | the "No records found" sentinel is given exactly for the empty mapping |
| Summaries.SummaryReported | functions.py:572-593 | a report is given exactly when some patient holds a record, every record's test has a turnaround that converts, and the turnarounds add up to no more than 999999999 days, where the `timedelta` sum at line 593 would overflow |
| Summaries.SummaryFigures | functions.py:576-593 | the reported minimum and maximum are values of records of the mapping bounding all of them, the mean lies between, and the same holds for turnarounds |
| Summaries.TurnaroundTextsRead | functions.py:595-597 | the printed minimum and maximum turnarounds read back as their minutes, and the mean as its whole minutes |

## Left out

- File and console I/O are not modelled. Files are sequences of lines or rows, and the menus,
  prompts and retry loops are replaced by acceptance functions. `display_menu`, the `print_*`
  helpers and main.py are not part of this model.
- Characters are ASCII only. `strip`, `lower` and `isdigit` know only ASCII whitespace, letters
  and digits.
- `float` reads only plain decimal notation with an optional sign. Exponents, `inf`/`nan` and
  underscores are left out. Values are exact decimals, so IEEE rounding is not modelled, and
  `str(float)` is modelled as the decimal's own digits.
- `strptime` is modelled for the zero-padded 16-character form only. Its leniency for unpadded
  fields is left out.
- `datetime.now()` is a parameter.
- Summaries.MeanBetween: `statistics.mean` is the exact mean here, and the float rounding of the
  mean is not modelled. The summary's `:.2f` formatting and the report text around the figures
  are not modelled either.
- The summary's exceptions (`min` of an empty list, a turnaround that cannot be converted, a
  turnaround sum beyond the range of `timedelta`) are a `None` result, not the traceback the program would show.
- Updates.EditRecord: renaming a record's test mutates the shared `MedicalTest` object at
  functions.py:294. That renames it for every record of that test and in the catalog, under its
  old key. The model renames only the edited record's copy.
- `update_medical_tests` (functions.py:357-410) is not modelled:
  - it is an interactive edit of one catalog entry;
  - its upper-bound check compares with a missing lower bound and raises;
  - its turnaround check has no hour or minute range.
  Its output format is `to_file_string`, covered by `Catalog.ParseToFileString`.
- `add_new_medical_test` and `add_new_medical_test_record`, as I/O:
  - From `add_new_medical_test`, only its acceptance checks (`Acceptance.AcceptNewAbbr`,
    `Acceptance.AcceptRange`) and the line it appends are modelled.
  - From `add_new_medical_test_record`, only its acceptance checks, the record it builds and the
    line it appends are modelled.
  - The result-date prompt at functions.py:228-242 is unreachable (see above), so it is not
    modelled.
- The catch-all handlers at functions.py:94-95 and 669-670 are modelled as a skipped line. Their
  diagnostics are not.
- CSV:
  - The CSV reader of the export round trip assumes no field holds a line break.
  - The importer splits lines on `,` itself, so a quoted field that holds a `,` is not read back.
  - `CsvFile.CsvWritable` names the fields that read back.
- `int` accepts `+`/`-`, surrounding whitespace and ASCII digits. Underscores and non-ASCII digits
  are left out. So is the limit that newer Python versions place on the number of digits `int`
  reads from text.
- `MedicalTest.__str__` (medical_test.py:17-18) only prints, and is not modelled.
- The `MedicalTest` constructor (medical_test.py:2-8) is the datatype constructor, which stores its six fields as given; it has no contract of its own.
- `is_valid_date` (functions.py:482-487) is `Stamps.ParseStamp` succeeding.

## Findings

| source | as written | input that shows it | evidently intended | confidence | as-written member | corrected member |
|---|---|---|---|---|---|---|
| functions.py:349-351 | the rewrite line adds `, <result_date>` when the status is exactly `completed`, and prints `None` for a missing result date | a record with status `completed` and no result date, which every new record entered as completed is: its line ends in `, None`, and reloading the file skips it | add the result date exactly when the record has one | not executed | RecordFile.ReloadRewriteFileAsWritten | RecordFile.ReloadRewriteFile |
| patient.py:11-12 | `', ' + record['result_date']` is evaluated whenever the status is `completed` | a patient with a record entered as `completed`: its result date is `None`, and the concatenation raises `TypeError` | show the result date when the record is completed and has one | not executed | Patients.PatientTextFailsOnNewCompletedRecord | Patients.PatientTextLines |
