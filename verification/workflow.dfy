/** txtQRCode_KeyDown (FormQRtoCSV.cs): one Enter key press in the scan box
    runs CreateCsvData, CreateCsvFile and PostCsv in turn; any exception
    ends the run with the generic error box and a Fatal log entry, and the
    scan box is cleared in every case. */
module Workflow {
  import opened Wrappers
  import opened Text
  import opened Clock
  import opened Paths
  import opened FileSystem
  import opened CsvRecord
  import opened TempFile
  import opened PathValidation
  import opened Delivery
  import opened Messages
  import Logger

  /** How a message reaches the operator: the result label or a message box. */
  datatype Notice = Label(id: MessageId) | Box(id: MessageId)

  /** What one key press leaves behind: the message shown (none when the key
      was not Enter), whether a Fatal entry went to the log, whether the scan
      box was cleared, and the file system. */
  datatype Outcome = Outcome(notice: Option<Notice>, fatalLogged: bool, inputCleared: bool,
                             fs: FileSystem)

  /** The procedure name the catch block logs under. */
  const KeyDownProc: string := "txtQRCode_KeyDown"

  /** What the catch block's WriteLog call depends on: the logger's settings,
      the clock readings of the call, the exception's message and stack trace
      as one text, whether the encoding name is known, and the faults of that
      write. */
  datatype FatalLog = FatalLog(cfg: Logger.LoggerConfig, clock: Logger.LogClock, text: string,
                               knownEncoding: bool, faults: Faults)

  predicate ValidLog(log: FatalLog) {
    Logger.ValidClock(log.clock)
  }

  /** The log file the Fatal entry goes to. */
  function FatalLogPath(prims: PathPrimitives, log: FatalLog): string
    requires ValidLog(log)
  {
    Logger.LogPath(prims, log.cfg, log.clock)
  }

  /** The exception path: the generic error box, then a Fatal entry handed to
      WriteLog, which never throws. Only the log file and the log folder can
      change; the entry lands in the log file whenever the write can go ahead. */
  function Crashed(prims: PathPrimitives, fs: FileSystem, log: FatalLog): (r: Outcome)
    requires ValidLog(log)
    ensures r.notice == Some(Box(Err999)) && r.fatalLogged && r.inputCleared
    ensures SameFilesExcept(fs.files, r.fs.files, {FatalLogPath(prims, log)})
    ensures r.fs.dirs - {log.cfg.logFileDir} == fs.dirs - {log.cfg.logFileDir}
    ensures Logger.CanLog(prims, log.cfg, fs, log.clock, log.knownEncoding, log.faults) ==>
      && var p := FatalLogPath(prims, log);
      && FileExists(r.fs, p)
      && r.fs.files[p] ==
           (if log.cfg.writeMode == Logger.Append && FileExists(fs, p) then fs.files[p] else [])
           + Logger.CreateLogString(Logger.Fatal, KeyDownProc, log.text, log.clock.date, log.clock.time)
    ensures !Logger.CanLog(prims, log.cfg, fs, log.clock, log.knownEncoding, log.faults) ==>
      r.fs.files == fs.files
  {
    var written := Logger.WriteLog(prims, log.cfg, fs, Logger.Fatal, KeyDownProc, log.text, log.clock,
                                   log.knownEncoding, log.faults);
    Outcome(Some(Box(Err999)), true, true, written.fs)
  }

  /** Where the temp file of a run lands: the TempCsv folder under the base
      directory, under the clock-derived name. */
  function TempPath(prims: PathPrimitives, baseDir: string, fileTime: DateTime): string
    requires Valid(fileTime)
  {
    Combine(prims, Combine(prims, baseDir, TempFolderName), TempFileName(fileTime))
  }

  /** The run from PostCsv on, given what CreateCsvFile did: the label when
      the file was delivered, PostCsv's own box when it declined, the error
      box and the Fatal entry when anything threw. PostCsv meets its own
      environment: `postFaults` may differ from the faults CreateCsvFile met. */
  function AfterTempFile(prims: PathPrimitives, made: Step<string>, dest: string,
                         postFaults: Faults, log: FatalLog): (r: Outcome)
    requires ValidLog(log)
    ensures r.inputCleared && r.notice.Some?
    ensures r.fatalLogged <==> r.notice == Some(Box(Err999))
    ensures made.result.Failure? ==> r == Crashed(prims, made.fs, log)
    ensures r.notice == Some(Label(Info002)) <==>
      made.result.Success? && CanDeliver(prims, made.fs, dest, made.result.value, postFaults)
  {
    if made.result.Failure? then Crashed(prims, made.fs, log)
    else
      var posted := PostCsv(prims, made.fs, dest, made.result.value, postFaults);
      if posted.result.Failure? then Crashed(prims, posted.fs, log)
      else if posted.result.value == Delivered then
        Outcome(Some(Label(Info002)), false, true, posted.fs)
      else Outcome(Some(Box(posted.result.value.message)), false, true, posted.fs)
  }

  /** One key press. `settings` is None when config.ini cannot be read, which
      throws; `recordTime` and `fileTime` are the two separate clock readings
      of CreateCsvData and CreateCsvFile. CreateCsvFile and PostCsv each meet
      their own faults, and `log` is what the catch block's WriteLog meets. */
  function OnKeyDown(prims: PathPrimitives, fs: FileSystem, isEnter: bool, scanText: string,
                     settings: Option<OperatorContext>, recordTime: DateTime, fileTime: DateTime,
                     baseDir: string, dest: string, tempFaults: Faults, postFaults: Faults,
                     log: FatalLog): (r: Outcome)
    requires Valid(recordTime) && Valid(fileTime) && ValidLog(log)
    ensures !isEnter ==> r == Outcome(None, false, false, fs)
    ensures isEnter ==> r.inputCleared && r.notice.Some?
    ensures r.fatalLogged <==> r.notice == Some(Box(Err999))
    ensures isEnter && (settings.None? || IsBlank(scanText)) ==> r == Crashed(prims, fs, log)
    ensures isEnter && settings.Some? && !IsBlank(scanText) ==>
      r == AfterTempFile(prims, CreateCsvFile(prims, fs, baseDir, fileTime,
                                              CreateCsvData(scanText, settings.value, recordTime).value,
                                              tempFaults), dest, postFaults, log)
  {
    if !isEnter then Outcome(None, false, false, fs)
    else if settings.None? then Crashed(prims, fs, log)
    else
      var record := CreateCsvData(scanText, settings.value, recordTime);
      if record.Failure? then Crashed(prims, fs, log)
      else AfterTempFile(prims, CreateCsvFile(prims, fs, baseDir, fileTime, record.value, tempFaults),
                         dest, postFaults, log)
  }

  /** After the completion label, the destination folder holds the record
      under the temp file's own name, and the temp file is gone. */
  lemma LabelMeansDelivered(prims: PathPrimitives, made: Step<string>, dest: string,
                            postFaults: Faults, log: FatalLog, record: string, name: string)
    requires ValidLog(log)
    requires made.result.Success? && FileExists(made.fs, made.result.value)
    requires made.fs.files[made.result.value] == record
    requires GetFileName(made.result.value) == name
    requires AfterTempFile(prims, made, dest, postFaults, log).notice == Some(Label(Info002))
    ensures var out := AfterTempFile(prims, made, dest, postFaults, log).fs;
      && DirectoryExists(out, dest)
      && FileExists(out, Combine(prims, dest, name)) && out.files[Combine(prims, dest, name)] == record
      && !FileExists(out, made.result.value)
  {
  }

  /** Without the label, the temp file is still in place with the record in
      it, ready to be sent again, unless the log file is the temp file. */
  lemma NoLabelKeepsTempFile(prims: PathPrimitives, made: Step<string>, dest: string,
                             postFaults: Faults, log: FatalLog, record: string)
    requires ValidLog(log)
    requires made.result.Success? && FileExists(made.fs, made.result.value)
    requires made.fs.files[made.result.value] == record
    requires FatalLogPath(prims, log) != made.result.value
    requires AfterTempFile(prims, made, dest, postFaults, log).notice != Some(Label(Info002))
    ensures var out := AfterTempFile(prims, made, dest, postFaults, log).fs;
      FileExists(out, made.result.value) && out.files[made.result.value] == record
  {
    var temp := made.result.value;
    var posted := PostCsv(prims, made.fs, dest, temp, postFaults);
    RejectionChangesNothing(prims, made.fs, dest, temp, postFaults);
    if posted.result.Failure? {
      CrashKeepsFile(prims, posted.fs, log, temp);
    }
  }

  /** The Fatal entry leaves every file other than the log file as it was. */
  lemma CrashKeepsFile(prims: PathPrimitives, fs: FileSystem, log: FatalLog, p: string)
    requires ValidLog(log)
    requires FileExists(fs, p) && p != FatalLogPath(prims, log)
    ensures var out := Crashed(prims, fs, log).fs;
      FileExists(out, p) && out.files[p] == fs.files[p]
  {
    var out := Crashed(prims, fs, log).fs;
    SameFileAt(fs.files, out.files, {FatalLogPath(prims, log)}, p);
  }

  /** A key press that ends with the completion label has delivered the
      record built from the scan under the name J<yyyyMMddHHmmssfff>.csv of
      the file clock reading, and left no temp file behind. */
  lemma EnterDeliversRecord(prims: PathPrimitives, fs: FileSystem, scanText: string,
                            ctx: OperatorContext, recordTime: DateTime, fileTime: DateTime,
                            baseDir: string, dest: string, tempFaults: Faults, postFaults: Faults,
                            log: FatalLog)
    requires Valid(recordTime) && Valid(fileTime) && ValidLog(log)
    requires !prims.isPathRooted(TempFileName(fileTime))
    requires OnKeyDown(prims, fs, true, scanText, Some(ctx), recordTime, fileTime, baseDir, dest,
                       tempFaults, postFaults, log).notice == Some(Label(Info002))
    ensures !IsBlank(scanText)
    ensures var out := OnKeyDown(prims, fs, true, scanText, Some(ctx), recordTime, fileTime,
                                 baseDir, dest, tempFaults, postFaults, log).fs;
      && var delivered := Combine(prims, dest, TempFileName(fileTime));
      && FileExists(out, delivered)
      && out.files[delivered] == CreateCsvData(scanText, ctx, recordTime).value
      && !FileExists(out, TempPath(prims, baseDir, fileTime))
  {
    var record := CreateCsvData(scanText, ctx, recordTime).value;
    var made := CreateCsvFile(prims, fs, baseDir, fileTime, record, tempFaults);
    LabelMeansDelivered(prims, made, dest, postFaults, log, record, TempFileName(fileTime));
  }

  /** A key press that builds the temp file but does not end with the label
      leaves the record in the temp file, provided the log file is elsewhere. */
  lemma UndeliveredRecordStaysInTemp(prims: PathPrimitives, fs: FileSystem, scanText: string,
                                     ctx: OperatorContext, recordTime: DateTime, fileTime: DateTime,
                                     baseDir: string, dest: string, tempFaults: Faults,
                                     postFaults: Faults, log: FatalLog)
    requires Valid(recordTime) && Valid(fileTime) && ValidLog(log) && !IsBlank(scanText)
    requires CreateCsvFile(prims, fs, baseDir, fileTime, CreateCsvData(scanText, ctx, recordTime).value,
                           tempFaults).result.Success?
    requires FatalLogPath(prims, log) != TempPath(prims, baseDir, fileTime)
    requires OnKeyDown(prims, fs, true, scanText, Some(ctx), recordTime, fileTime, baseDir, dest,
                       tempFaults, postFaults, log).notice != Some(Label(Info002))
    ensures var out := OnKeyDown(prims, fs, true, scanText, Some(ctx), recordTime, fileTime,
                                 baseDir, dest, tempFaults, postFaults, log).fs;
      && FileExists(out, TempPath(prims, baseDir, fileTime))
      && out.files[TempPath(prims, baseDir, fileTime)] == CreateCsvData(scanText, ctx, recordTime).value
  {
    var record := CreateCsvData(scanText, ctx, recordTime).value;
    var made := CreateCsvFile(prims, fs, baseDir, fileTime, record, tempFaults);
    NoLabelKeepsTempFile(prims, made, dest, postFaults, log, record);
  }

  /** A copy to the destination can fail even though the temp file was
      written: the run then ends with the error box and the Fatal entry, and
      the record stays in the temp file. */
  lemma CopyFailureKeepsRecord(prims: PathPrimitives, fs: FileSystem, scanText: string,
                               ctx: OperatorContext, recordTime: DateTime, fileTime: DateTime,
                               baseDir: string, dest: string, tempFaults: Faults,
                               postFaults: Faults, log: FatalLog)
    requires Valid(recordTime) && Valid(fileTime) && ValidLog(log) && !IsBlank(scanText)
    requires CreateCsvFile(prims, fs, baseDir, fileTime, CreateCsvData(scanText, ctx, recordTime).value,
                           tempFaults).result.Success?
    requires dest != "" && IsValidFolderPath(prims, dest)
    requires postFaults.writeFails
    requires FatalLogPath(prims, log) != TempPath(prims, baseDir, fileTime)
    ensures var out := OnKeyDown(prims, fs, true, scanText, Some(ctx), recordTime, fileTime,
                                 baseDir, dest, tempFaults, postFaults, log);
      && out.notice == Some(Box(Err999)) && out.fatalLogged
      && FileExists(out.fs, TempPath(prims, baseDir, fileTime))
      && out.fs.files[TempPath(prims, baseDir, fileTime)] == CreateCsvData(scanText, ctx, recordTime).value
  {
    var record := CreateCsvData(scanText, ctx, recordTime).value;
    var made := CreateCsvFile(prims, fs, baseDir, fileTime, record, tempFaults);
    var out := OnKeyDown(prims, fs, true, scanText, Some(ctx), recordTime, fileTime,
                         baseDir, dest, tempFaults, postFaults, log);
    assert out == AfterTempFile(prims, made, dest, postFaults, log);
    CopyFailureThrows(prims, made.fs, dest, made.result.value, postFaults);
    FailedPostCrashes(prims, made, dest, postFaults, log);
    UndeliveredRecordStaysInTemp(prims, fs, scanText, ctx, recordTime, fileTime, baseDir, dest,
                                 tempFaults, postFaults, log);
  }

  /** When PostCsv throws, the run ends with the error box and the Fatal
      entry, and no file other than the log file differs from what PostCsv
      left. */
  lemma FailedPostCrashes(prims: PathPrimitives, made: Step<string>, dest: string,
                          postFaults: Faults, log: FatalLog)
    requires ValidLog(log) && made.result.Success?
    requires PostCsv(prims, made.fs, dest, made.result.value, postFaults).result.Failure?
    ensures var posted := PostCsv(prims, made.fs, dest, made.result.value, postFaults);
      && var out := AfterTempFile(prims, made, dest, postFaults, log);
      && out.notice == Some(Box(Err999)) && out.fatalLogged
      && SameFilesExcept(posted.fs.files, out.fs.files, {FatalLogPath(prims, log)})
  {
  }

  /** A valid destination is never declined, so a failing copy throws. */
  lemma CopyFailureThrows(prims: PathPrimitives, fs: FileSystem, dest: string, tempPath: string,
                          postFaults: Faults)
    requires dest != "" && IsValidFolderPath(prims, dest) && postFaults.writeFails
    ensures PostCsv(prims, fs, dest, tempPath, postFaults).result.Failure?
  {
  }
}
