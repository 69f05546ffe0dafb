# QR-code reading to CSV: a Dafny model

The QRtoCSVSystem utility turns a scanned transaction code into a CSV record
and sends it to a destination folder. When the operator presses Enter in the
scan box, `txtQRCode_KeyDown` runs three steps:

1. `CreateCsvData` builds one record of seven quoted fields. The fields are
   the date, the time, the trimmed scan text, and four values from
   config.ini.
2. `CreateCsvFile` writes the record to `<base>\TempCsv\J<yyyyMMddHHmmssfff>.csv`.
3. `PostCsv` checks the destination folder with `IsValidFolderPath`. It
   creates the folder if it is missing. It copies the temp file into the
   folder, overwriting any file of the same name, and then deletes the temp
   file.

Any exception ends the run with the generic error box and a Fatal log entry.
The `Logger` class (Class/LogBase.cs) writes quoted five-field lines to a log
file whose name carries a date stamp. It appends or overwrites according to
its write mode. `DebugLogOutput` brackets an action with START and END
entries.

The model is a set of pure functions over immutable values:

- `Text` covers .NET string handling: `Char.IsWhiteSpace`, `Trim`,
  `TrimStart`, and `Split` with and without `RemoveEmptyEntries`.
  `Text.FirstIndex` is only the search inside `Split`; the code's one
  index search, `IndexOfAny` at FormQRtoCSV.cs:201, is
  `PathValidation.ContainsAny`.
- `Clock` covers `DateTime` and the custom format strings the code uses.
- `Fields` covers the quoted, comma-joined field layout that the CSV record
  and the log line share, together with a parser for it.
- `Paths` covers `Path.Combine` and `Path.GetFileName`.
- `FileSystem` is an abstract file system: a map from path to contents plus
  a set of directories. It provides the System.IO calls the code makes. Each
  call is taken to either take effect or throw and change nothing; a write
  that fails after its file was opened is the exception, listed under
  "Left out". Environment failures arrive as fault flags.
- `PathValidation`, `CsvRecord`, `TempFile`, `Delivery`, `Workflow` and
  `Logger` model the code of FormQRtoCSV.cs and Class/LogBase.cs.

Each operation comes with a partner:

- a parser for its output, and a round-trip lemma;
- an independent reference definition, and an if-and-only-if lemma;
- or a state invariant it keeps.

The record format has no escaping. `Fields.EmbeddedQuoteIsAmbiguous` shows
two different field lists that give the same record. `CsvRecord.CsvDataFields`
therefore reads a record back only when no field holds a quote.

Points of the code's behaviour that a reader might not expect:

- The record is written without a line terminator: the format string at
  FormQRtoCSV.cs:99 has none and `File.WriteAllText` at :133 adds none. See
  `CsvRecord.RecordLine`.
- A failing `File.Delete` after the copy (FormQRtoCSV.cs:183) propagates out
  of `PostCsv`. The run then ends with the generic error, and the record is
  both in the destination and still in the temp file.
- For local paths, the code splits with `RemoveEmptyEntries` (FormQRtoCSV.cs:241),
  so an empty path component never rejects a path, although the comment
  at :240 says empty elements are not allowed. Only a non-empty blank
  component rejects; see `PathValidation.LocalWithoutWhiteSpaceAccepted`.
- The catch block of `txtQRCode_KeyDown` logs through `WriteLog`, which may
  create the log folder and writes to the log file. So even a run that
  fails before any CSV file is written changes the file system there.

## Model

| member | source | states |
|---|---|---|
| Text.Trim | FormQRtoCSV.cs:90-91 | The trimmed text is empty exactly when the input is all white space; otherwise it starts and ends with a non-white character |
| Text.TrimIsInfix | FormQRtoCSV.cs:90-91 | The trimmed text is the input with only white space removed before and after it |
| Text.Split | FormQRtoCSV.cs:225 | Splitting always gives at least one part |
| Text.SplitPieces | FormQRtoCSV.cs:225 | The parts contain no separator, and there is more than one part exactly when the separator occurs |
| Text.SplitJoin | FormQRtoCSV.cs:225 | Joining the parts with the separator gives the input back |
| Text.SplitUnique | FormQRtoCSV.cs:225 | Any separator-free parts that join back to the input are the split of the input, so the split is the unique decomposition |
| Text.SplitPartsAreComponents | FormQRtoCSV.cs:225-236 | A string is a part of the split exactly when it is a maximal separator-free slice of the input (a component) |
| Text.RemoveEmpty | FormQRtoCSV.cs:241 | `RemoveEmptyEntries` keeps exactly the non-empty parts |
| Text.TrimStartPrefix | FormQRtoCSV.cs:225 | Trimming leading characters from a set removes exactly a prefix drawn from the set and stops at the first character outside it |
| Text.FirstIndexFree | FormQRtoCSV.cs:225 | No occurrence of the character comes before the position the search reports |
| Text.FirstIndexAfterFree | FormQRtoCSV.cs:225 | The first occurrence of a character is found right after a prefix free of it |
| Clock.PadOfDigitsValue | FormQRtoCSV.cs:84-86 | Zero-padded decimal rendering and reading the digits back are inverse on all-digit strings |
| Clock.DigitsValueOfPad | FormQRtoCSV.cs:84-86 | Reading back a zero-padded number gives the number |
| Clock.FormatDateRoundTrip | FormQRtoCSV.cs:84 | "yyyy/MM/dd" is ten characters with '/' at positions 4 and 7 and reads back as the year, month and day |
| Clock.FormatTimeRoundTrip | FormQRtoCSV.cs:86 | "HH:mm:ss" reads back as the hour, minute and second |
| Clock.FormatTimeMillisRoundTrip | Class/LogBase.cs:169 | "HH:mm:ss:fff" has the "HH:mm:ss" prefix, a colon, and three digits reading back as the milliseconds |
| Clock.Stamp17RoundTrip | FormQRtoCSV.cs:117 | The "yyyyMMddHHmmssfff" stamp parses back to the instant it was made from |
| Clock.ParseStamp17Exact | FormQRtoCSV.cs:117 | Every string that parses as a stamp is the stamp of what it parses to |
| Clock.Stamp8SameDay | Class/LogBase.cs:186 | Two instants share a "yyyyMMdd" stamp exactly when they fall on the same day |
| Clock.Stamp14SameSecond | Class/LogBase.cs:189 | Two instants share a "yyyyMMddHHmmss" stamp exactly when they fall in the same second |
| Clock.Stamp17SameInstant | Class/LogBase.cs:192 | Two instants share a "yyyyMMddHHmmssfff" stamp exactly when they are equal |
| Fields.ParseQuoteJoin | FormQRtoCSV.cs:99-107 | Quote-free fields joined as `"f1","f2",…` parse back to the same fields |
| Fields.QuoteJoinInjective | FormQRtoCSV.cs:99-107 | Different quote-free field lists give different records |
| Fields.EmbeddedQuoteIsAmbiguous | FormQRtoCSV.cs:99-107 | With no escaping, a field holding `","` gives the same record as two fields |
| Paths.Combine | FormQRtoCSV.cs:121 | `Path.Combine` returns the first path for an empty second one, and the second one when the first is empty or the second is rooted. Otherwise it returns the first path and then the second, with a separator at the join, adding exactly one `\` when neither side has a separator there and nothing otherwise |
| Paths.GetFileNameShape | FormQRtoCSV.cs:174 | The file name is a separator-free suffix of the path with a separator, or the start of the path, right before it |
| Paths.FileNameIsFreeSuffix | FormQRtoCSV.cs:174 | Any separator-free suffix with a separator, or the start of the path, right before it is the file name, so that suffix is unique |
| Paths.GetFileNameOfCombine | FormQRtoCSV.cs:130 | The file name of a folder combined with a separator-free, unrooted name is that name |
| FileSystem.CreateDirectory | FormQRtoCSV.cs:124-127 | Creating a folder succeeds unless a file has that name or the environment fails; on success the folder exists and the files are untouched; on failure nothing changes |
| FileSystem.WriteAllText | FormQRtoCSV.cs:133 | The file then holds exactly the text and no other file changes; on failure nothing changes |
| FileSystem.CopyOverwrite | FormQRtoCSV.cs:178 | A copy with overwrite succeeds exactly when the source exists, the target is a different path and not a folder, and nothing fails; the target then holds the source's contents and nothing else changes; a failed copy changes nothing |
| FileSystem.DeleteFile | FormQRtoCSV.cs:181-184 | After a delete the file is gone and nothing else changes |
| FileSystem.WriteText | Class/LogBase.cs:138-141 | With append, the text follows what the file held; without it, the file holds only the text; no other file changes |
| PathValidation.IsValidFolderPath | FormQRtoCSV.cs:194-256 | A path is valid exactly when it passes the blank, invalid-character, normalisation, root and rootedness gates and its normalised form has a sound UNC or local shape; a blank path, one with an invalid character, or one that fails to normalise is never valid |
| PathValidation.UncPartsMatchShape | FormQRtoCSV.cs:219-237 | The UNC loop's check, that the split of the body after the leading separators has at least two parts and none blank, holds exactly when the body contains a separator and has no blank component |
| PathValidation.LocalPartsMatchShape | FormQRtoCSV.cs:238-247 | The local loop over the non-empty parts passes exactly when no non-empty component is blank |
| PathValidation.UncWithoutShareRejected | FormQRtoCSV.cs:225-228 | A UNC path with only a server name is rejected |
| PathValidation.UncTrailingSeparatorRejected | FormQRtoCSV.cs:230-236 | A UNC path ending in a separator has an empty last part and is rejected |
| PathValidation.UncServerShareAccepted | FormQRtoCSV.cs:219-249 | A `\\server\share` path with non-blank names that passes the gates is accepted |
| PathValidation.LocalWithoutWhiteSpaceAccepted | FormQRtoCSV.cs:238-249 | A local path that passes the gates and holds no white space is accepted, whatever empty components it has |
| PathValidation.LocalBlankComponentRejected | FormQRtoCSV.cs:241-246 | A local path with a non-empty all-white-space component is rejected |
| CsvRecord.CreateCsvData | FormQRtoCSV.cs:68-108 | Building the record fails, with the empty-code error, exactly when the scan is blank; otherwise the record is built from the trimmed scan |
| CsvRecord.RecordLine | FormQRtoCSV.cs:97-107 | A record starts and ends with a quote, so no line terminator follows it |
| CsvRecord.CsvDataFields | FormQRtoCSV.cs:84-107 | A record with quote-free fields reads back as seven fields: the date and time of the clock reading, the trimmed scan, and the four context values in order |
| CsvRecord.CsvDataDependsOnTrimmedScan | FormQRtoCSV.cs:90-107 | For every two scans, building the record gives the same result exactly when their trimmed texts are equal |
| CsvRecord.RecordLineAround | FormQRtoCSV.cs:99-107 | A record is a head fixed by the clock reading, the transaction number, and a tail fixed by the context values |
| TempFile.TempFileName | FormQRtoCSV.cs:117 | The name is 'J', 17 digits and ".csv", 22 characters with no separator |
| TempFile.TempFileNameRoundTrip | FormQRtoCSV.cs:117 | The temp file name parses back to the clock reading it came from |
| TempFile.TempFileNamesDistinct | FormQRtoCSV.cs:117 | Two clock readings give the same temp file name exactly when they are the same instant |
| TempFile.CreateCsvFile | FormQRtoCSV.cs:113-134 | On success the file `<base>\TempCsv\J<stamp>.csv` holds exactly the record, its file name is the clock-derived name, and no other file changes; on failure no file changes; only the TempCsv folder may be added |
| Delivery.PostCsv | FormQRtoCSV.cs:139-187 | An empty destination gives ERR002 and an invalid one ERR003, both with no change. Delivery succeeds exactly when the folder exists or can be made, the temp file exists, the target is neither a folder nor the temp file itself, and nothing fails. On success the target holds the temp file's contents, the temp file is gone, and nothing else changes. On an exception the temp file is left as it was |
| Delivery.RejectionChangesNothing | FormQRtoCSV.cs:148-165 | A rejected destination leaves the file system unchanged |
| Delivery.DeliveredFileSystem | FormQRtoCSV.cs:168-186 | After a delivery the file system is the old one with the folder added and the temp file moved to the target |
| Delivery.DeliverTwiceIdempotent | FormQRtoCSV.cs:178 | Writing and delivering the same temp file again leaves the same state as delivering it once, because the copy overwrites |
| Workflow.OnKeyDown | FormQRtoCSV.cs:29-58 | Keys other than Enter do nothing. Enter always shows one message and clears the scan box. A Fatal entry is handed to the logger exactly when the generic error box is shown. A missing config.ini or a blank scan takes the exception path before any CSV file is written. Otherwise the outcome is the temp-file step followed by delivery, each step meeting its own environment failures |
| Workflow.Crashed | FormQRtoCSV.cs:49-53 | The exception path shows the generic error box and writes a Fatal entry for `txtQRCode_KeyDown` through `WriteLog`: no file other than the log file changes, no folder other than the log folder is added, and the Fatal line is appended to (or replaces) the log file whenever the write can go ahead |
| Workflow.AfterTempFile | FormQRtoCSV.cs:38-53 | The completion label is shown exactly when the temp file was written and delivery can succeed under PostCsv's own faults; a failed temp write takes the exception path |
| Workflow.FailedPostCrashes | FormQRtoCSV.cs:43-53 | When `PostCsv` throws, the run shows the generic error box and logs the Fatal entry, and no file other than the log file differs from what `PostCsv` left |
| Workflow.LabelMeansDelivered | FormQRtoCSV.cs:41-47 | After the completion label the destination holds the record under the temp file's name, and the temp file is gone |
| Workflow.NoLabelKeepsTempFile | FormQRtoCSV.cs:41-53 | Without the label the temp file is still there with the record in it, as long as the log file is a different file |
| Workflow.CrashKeepsFile | FormQRtoCSV.cs:49-53 | The exception path leaves every file other than the log file as it was |
| Workflow.EnterDeliversRecord | FormQRtoCSV.cs:29-58 | A key press ending in the label had a non-blank scan and delivered that scan's record as `J<stamp>.csv` in the destination, with no temp file left |
| Workflow.UndeliveredRecordStaysInTemp | FormQRtoCSV.cs:29-58 | A key press that wrote the temp file but did not end in the label leaves the record in the temp file, as long as the log file is a different file |
| Workflow.CopyFailureKeepsRecord | FormQRtoCSV.cs:133-178 | A copy to a valid destination can fail after the temp file was written; the run then shows the generic error box, logs the Fatal entry, and keeps the record in the temp file |
| Workflow.CopyFailureThrows | FormQRtoCSV.cs:158-178 | A valid destination is never declined, so a failing copy makes `PostCsv` throw |
| Logger.LevelNameRoundTrip | Class/LogBase.cs:16-24 | Each level's `ToString` name reads back as that level, so the names are distinct |
| Logger.DefaultConfig | Class/LogBase.cs:71-86 | The constructor sets the folder to `<base>\log`, the name to TraceLog, Append mode, the daily format, level Info and shift-jis |
| Logger.DefaultLogFileName | Class/LogBase.cs:75-85 | The default logger's file name is "TraceLog_" followed by the 8-digit date and ".log", 21 characters |
| Logger.CreateLogString | Class/LogBase.cs:164-173 | A log line starts with a quote and ends with CR LF |
| Logger.LogLineFields | Class/LogBase.cs:164-173 | A line with a quote-free procedure and message, without its CRLF, parses back into exactly the five fields it was written from: date, time with milliseconds, bracketed level name, procedure, message |
| Logger.LogFieldsReadBack | Class/LogBase.cs:164-173 | The date field reads back as the year, month and day of its clock reading, the time field as its hour, minute, second and millisecond, and the bracketed name as the level |
| Logger.CreateLogFilePath | Class/LogBase.cs:181-199 | The file name starts with the base name and ends with ".log"; an underscore and a stamp come between them exactly when the format is not None |
| Logger.LogFilePathStamp | Class/LogBase.cs:183-198 | The text between the underscore and ".log" is the format's stamp |
| Logger.LogFileSharedExactly | Class/LogBase.cs:181-199 | Two clock readings pick the same file exactly when they fall on the same day (daily format), in the same second, or at the same instant; with None every reading picks the same file |
| Logger.AppendFlag | Class/LogBase.cs:138 | The stream appends exactly in Append mode |
| Logger.WriteLine | Class/LogBase.cs:131-148 | The write succeeds exactly when the folder exists or can be made, the encoding is known, the path is not a folder, and nothing fails. On success the file holds the old contents plus the line when appending, and only the line otherwise. On failure no file changes, but a folder created on the way stays |
| Logger.WriteLog | Class/LogBase.cs:124-150 | `WriteLog` returns true exactly when the write can go ahead, and false instead of throwing. On success the dated log file holds the line after the old contents in Append mode, or the line alone in Over mode. On failure no file changes |
| Logger.WriteLogIgnoresOutputLevel | Class/LogBase.cs:63 | The configured output level has no effect on `WriteLog` |
| Logger.AppendKeepsOrder | Class/LogBase.cs:138-141 | In Append mode, successive lines written to one file all succeed and end up after the old contents in the order they were written |
| Logger.OverKeepsLast | Class/LogBase.cs:138-141 | In Over mode the file ends up holding only the last line written |
| Logger.DebugLogOutputBrackets | Class/LogBase.cs:98-114 | START is written first and END last at the caller's level. The only entry between them is the Error entry of a throw, naming the throwing method and starting with the exception message |
| Logger.DebugLogOutput | Class/LogBase.cs:98-114 | The exception is rethrown exactly when the action threw |
| Logger.DebugTraceAppended | Class/LogBase.cs:98-114 | With nothing failing and all writes going to one log file in Append mode, the file ends up holding its old contents, the START line, the Error line of a throw (message, newline, stack trace) when the action threw, and the END line, in that order |
| Logger.AppendTrace | Class/LogBase.cs:138-141 | A two- or three-line trace appended to one file ends up there in order after the old contents |

## Left out

- Configuration reads are parameters. IniFile.cs, with its `GetPrivateProfileString` call, 1024-character buffer and default values, is not part of this model. The four context values arrive as parameters, and a config.ini that cannot be read is `None`.
- The destination folder is a parameter. The code assigns a fixed literal in place of reading it from config.ini.
- The Windows path primitives are parameters of `Paths.PathPrimitives`: `GetFullPath`, `GetPathRoot`, `IsPathRooted` and `GetInvalidPathChars`. Their platform rules are not modelled.
- `Paths.GetFileName`: volume-separator handling is not modelled. A name is the suffix after the last `\` or `/`.
- `Paths.Combine`: the invalid-character check and a drive-relative second path are not modelled. A rooted second path is recognised only through `isPathRooted`.
- `FileSystem.CreateDirectory`: creating missing parent folders is not modelled. Only the named folder is added.
- Paths are compared as exact strings. The model has no case folding, no equivalence of `/` and `\`, and no trailing-separator normalisation, so `C:\CSV\` and `C:\CSV` are different folders in the model while Windows treats them as one.
- Dates and times use the culture's separators as '/' and ':', as the invariant and Japanese cultures print them. Other cultures are not modelled.
- Message texts (Message.cs) are not modelled. Only the message identifiers are.
- The WinForms layer is not modelled: the form, the message boxes, the label text and Program.cs. What the operator sees is the `Workflow.Notice`.
- Shift-JIS encoding is not modelled. File contents are strings, and whether an encoding name is known is a boolean.
- Real I/O is not modelled. Denied permissions, unreachable network shares and other refusals before any data is written appear as `FileSystem.Faults` flags. `CreateCsvFile`, `PostCsv` and the catch block's `WriteLog` each get their own `Faults` value. Each makes at most one call of each kind, so every call can fail on its own.
- `FileSystem.WriteAllText`: `File.WriteAllText` opens with FileMode.Create, so a write that fails after the open (a full disk, say) leaves the file truncated or partly written in .NET; the model leaves it unchanged.
- `FileSystem.WriteText`: a `StreamWriter` that fails after opening leaves the file truncated (Over mode) or with part of the text appended in .NET; the model leaves it unchanged.
- `FileSystem.CopyOverwrite`: a `File.Copy` that fails part-way may leave a partial target file in .NET; the model leaves the target unchanged.
- `TempFile.CreateCsvFile`: a failure while writing the record leaves an empty or partial `J<stamp>.csv` in .NET, and nothing cleans it up; the model's "no file changes on failure" does not cover that case.
- `Logger.WriteLine`: a write that fails after the stream opened leaves the log file truncated (Over mode) or partly appended in .NET; the model leaves it unchanged.
- `Logger.WriteLog`: inherits the same gap from `Logger.WriteLine`; an Over-mode entry that fails mid-write leaves a truncated log file in .NET.
- `DateTime.Now` is a parameter. Each separate clock read in the code is a separate parameter, since two reads may differ.
- The exception's message and stack trace, which the Fatal entry of `txtQRCode_KeyDown` carries, are one text parameter of `Workflow.FatalLog`. The logger settings are a parameter too; the application runs with `Logger.DefaultConfig`.
- `Logger.AppendTrace`: covers only the case where all of a call's writes reach one file. Writes that straddle midnight under the daily format go to two files, and this lemma does not cover them.
- `Logger.DebugTraceAppended`: the same one-file limit applies. The three writes of `DebugLogOutput` are also taken to meet no faults.
- `Logger.DebugLogOutput`: the wrapped action's own effect on the file system is not modelled. Only its outcome (returned or threw) is.
- Thread safety of the logger singleton is not modelled.
