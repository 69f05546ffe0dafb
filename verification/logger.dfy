/** The Logger singleton (Class/LogBase.cs): one quoted line per entry,
    appended to (or overwriting) a log file whose name carries a date stamp. */
module Logger {
  import opened Wrappers
  import opened Text
  import opened Clock
  import opened Fields
  import opened Paths
  import opened FileSystem

  datatype LogLevel = Debug | Info | Warn | Error | Fatal | None

  /** LogLevel.ToString(): the member's own name. */
  function LevelName(level: LogLevel): (r: string)
    ensures r != [] && QuoteFree(r)
  {
    match level
    case Debug => "Debug"
    case Info => "Info"
    case Warn => "Warn"
    case Error => "Error"
    case Fatal => "Fatal"
    case None => "None"
  }

  /** The level a name denotes, if any. */
  function ParseLevelName(name: string): (r: Option<LogLevel>)
  {
    if name == "Debug" then Some(Debug)
    else if name == "Info" then Some(Info)
    else if name == "Warn" then Some(Warn)
    else if name == "Error" then Some(Error)
    else if name == "Fatal" then Some(Fatal)
    else if name == "None" then Some(LogLevel.None)
    else Wrappers.None
  }

  /** The names are distinct: each reads back as its own level. */
  lemma LevelNameRoundTrip(level: LogLevel)
    ensures ParseLevelName(LevelName(level)) == Some(level)
  {
  }

  datatype LogWriteMode = Append | Over

  datatype LogFileNameFormat = YYYYMMDD | YYYYMMDDHHMMSS | YYYYMMDDHHMMSSFFF | NoStamp

  /** The logger's public properties. */
  datatype LoggerConfig = LoggerConfig(logFileDir: string, logFileName: string,
                                       writeMode: LogWriteMode, fileNameFormat: LogFileNameFormat,
                                       outputLevel: LogLevel, encode: string)

  /** The values the private constructor gives the properties; `baseDir` is
      AppDomain.CurrentDomain.BaseDirectory. */
  function DefaultConfig(baseDir: string): (r: LoggerConfig)
    ensures r.logFileDir == baseDir + "\\log"
    ensures r.logFileName == "TraceLog" && r.writeMode == Append
    ensures r.fileNameFormat == YYYYMMDD && r.outputLevel == Info && r.encode == "shift-jis"
  {
    LoggerConfig(baseDir + "\\log", "TraceLog", Append, YYYYMMDD, Info, "shift-jis")
  }

  /** Environment.NewLine on Windows. */
  const NewLine: string := "\r\n"

  /** One log line: date "yyyy/MM/dd", time "HH:mm:ss:fff", "[Level]", the
      calling procedure and the message, each in quotes with nothing escaped,
      joined by commas and ended by CR LF. `date` and `time` are the two
      separate clock readings the line is built from. */
  function CreateLogString(level: LogLevel, proc: string, msg: string,
                           date: DateTime, time: DateTime): (r: string)
    requires Valid(date) && Valid(time)
    ensures |r| >= 4 && r[0] == QuoteChar && r[|r| - 2..] == NewLine
  {
    var line := QuoteJoin([FormatDate(date), FormatTimeMillis(time), "[" + LevelName(level) + "]",
                           proc, msg]);
    line + NewLine
  }

  /** Each formatted field of a log line reads back as the value it was made
      from: the date and time as the clock reading, the bracketed name as
      the level. */
  lemma LogFieldsReadBack(level: LogLevel, date: DateTime, time: DateTime)
    requires Valid(date) && Valid(time)
    ensures var t := FormatTimeMillis(time);
      var lv := "[" + LevelName(level) + "]";
      && ParseDate(FormatDate(date)) == Some((date.year, date.month, date.day))
      && ParseTime(t[..8]) == Some((time.hour, time.minute, time.second))
      && AllDigits(t[9..]) && DigitsValue(t[9..]) == time.millisecond
      && |lv| >= 2 && ParseLevelName(lv[1..|lv| - 1]) == Some(level)
  {
    var lv := "[" + LevelName(level) + "]";
    FormatDateRoundTrip(date);
    FormatTimeMillisRoundTrip(time);
    assert lv[1..|lv| - 1] == LevelName(level);
    LevelNameRoundTrip(level);
  }

  /** A line whose procedure and message hold no quote, without its line
      break, parses back into the five fields it was written from. */
  lemma LogLineFields(level: LogLevel, proc: string, msg: string, date: DateTime, time: DateTime)
    requires Valid(date) && Valid(time)
    requires QuoteFree(proc) && QuoteFree(msg)
    ensures var r := CreateLogString(level, proc, msg, date, time);
      ParseQuoted(r[..|r| - 2]) ==
        Some([FormatDate(date), FormatTimeMillis(time), "[" + LevelName(level) + "]", proc, msg])
  {
    var lv := "[" + LevelName(level) + "]";
    var fields := [FormatDate(date), FormatTimeMillis(time), lv, proc, msg];
    DateQuoteFree(date);
    TimeMillisQuoteFree(time);
    assert QuoteFree(lv);
    ParseQuoteJoin(fields);
    var r := CreateLogString(level, proc, msg, date, time);
    assert r[..|r| - 2] == QuoteJoin(fields);
  }

  /** The stamp a file-name format appends, without its underscore. */
  function StampOf(format: LogFileNameFormat, now: DateTime): (r: string)
    requires Valid(now)
    ensures AllDigits(r)
    ensures format == NoStamp <==> r == []
  {
    match format
    case YYYYMMDD => Stamp8(now)
    case YYYYMMDDHHMMSS => Stamp14(now)
    case YYYYMMDDHHMMSSFFF => Stamp17(now)
    case NoStamp => ""
  }

  /** The log file's name: the base name, "_" and the stamp the format asks
      for (nothing for None), then ".log". */
  function CreateLogFilePath(format: LogFileNameFormat, logFileName: string, now: DateTime)
    : (r: string)
    requires Valid(now)
    ensures |r| >= |logFileName| + 4 && r[..|logFileName|] == logFileName
    ensures r[|r| - 4..] == ".log"
    ensures format == NoStamp <==> |r| == |logFileName| + 4
    ensures format != NoStamp ==> r[|logFileName|] == '_'
  {
    var suffix := if format == NoStamp then "" else "_" + StampOf(format, now);
    var r := logFileName + suffix + ".log";
    assert r[..|logFileName|] == logFileName;
    r
  }

  /** The stamp read back out of a log file name: what lies between the
      base name's underscore and ".log". */
  lemma LogFilePathStamp(format: LogFileNameFormat, logFileName: string, now: DateTime)
    requires Valid(now) && format != NoStamp
    ensures var r := CreateLogFilePath(format, logFileName, now);
      r[|logFileName| + 1..|r| - 4] == StampOf(format, now)
  {
  }

  /** Under the daily format two clock readings pick the same file exactly
      when they fall on the same day; under the two finer formats, exactly
      when they fall in the same second or are the same instant. */
  lemma LogFileSharedExactly(format: LogFileNameFormat, logFileName: string, t1: DateTime, t2: DateTime)
    requires Valid(t1) && Valid(t2)
    ensures format == YYYYMMDD ==>
      (CreateLogFilePath(format, logFileName, t1) == CreateLogFilePath(format, logFileName, t2) <==>
       t1.year == t2.year && t1.month == t2.month && t1.day == t2.day)
    ensures format == YYYYMMDDHHMMSS ==>
      (CreateLogFilePath(format, logFileName, t1) == CreateLogFilePath(format, logFileName, t2) <==>
       && t1.year == t2.year && t1.month == t2.month && t1.day == t2.day
       && t1.hour == t2.hour && t1.minute == t2.minute && t1.second == t2.second)
    ensures format == YYYYMMDDHHMMSSFFF ==>
      (CreateLogFilePath(format, logFileName, t1) == CreateLogFilePath(format, logFileName, t2) <==>
       t1 == t2)
    ensures format == NoStamp ==>
      CreateLogFilePath(format, logFileName, t1) == CreateLogFilePath(format, logFileName, t2)
  {
    var p1, p2 := CreateLogFilePath(format, logFileName, t1), CreateLogFilePath(format, logFileName, t2);
    if format != NoStamp {
      LogFilePathStamp(format, logFileName, t1);
      LogFilePathStamp(format, logFileName, t2);
      if StampOf(format, t1) == StampOf(format, t2) {
        assert p1 == p2;
      }
    }
    match format
    case YYYYMMDD => Stamp8SameDay(t1, t2);
    case YYYYMMDDHHMMSS => Stamp14SameSecond(t1, t2);
    case YYYYMMDDHHMMSSFFF => Stamp17SameInstant(t1, t2);
    case NoStamp =>
  }

  /** The default logger writes to <base>\log\TraceLog_<yyyyMMdd>.log. */
  lemma DefaultLogFileName(baseDir: string, now: DateTime)
    requires Valid(now)
    ensures var cfg := DefaultConfig(baseDir);
      && var name := CreateLogFilePath(cfg.fileNameFormat, cfg.logFileName, now);
      && |name| == 21 && name[..9] == "TraceLog_" && name[9..17] == Stamp8(now)
      && name[17..] == ".log"
  {
    var name := CreateLogFilePath(YYYYMMDD, "TraceLog", now);
    LogFilePathStamp(YYYYMMDD, "TraceLog", now);
    assert name[..8] == "TraceLog";
  }

  /** The StreamWriter's append argument: true exactly for Append. */
  function AppendFlag(mode: LogWriteMode): (r: bool)
    ensures r <==> mode == Append
  {
    match mode
    case Append => true
    case Over => false
  }

  /** The three clock readings one WriteLog call makes: the date and the time
      of the line, and the stamp of the file name. */
  datatype LogClock = LogClock(date: DateTime, time: DateTime, file: DateTime)

  predicate ValidClock(c: LogClock) {
    Valid(c.date) && Valid(c.time) && Valid(c.file)
  }

  /** Where an entry written with clock `c` goes. */
  function LogPath(prims: PathPrimitives, cfg: LoggerConfig, c: LogClock): string
    requires ValidClock(c)
  {
    Combine(prims, cfg.logFileDir, CreateLogFilePath(cfg.fileNameFormat, cfg.logFileName, c.file))
  }

  /** Everything one write needs: the folder exists or can be made, the
      encoding is known, and the file path can be written. */
  predicate CanWrite(fs: FileSystem, dir: string, path: string, knownEncoding: bool, faults: Faults) {
    && (DirectoryExists(fs, dir) || (!faults.createDirectoryFails && dir !in fs.files))
    && knownEncoding
    && path !in fs.dirs
    && path != dir
    && !faults.writeFails
  }

  /** What a write returns and the file system it leaves. */
  datatype Written = Written(ok: bool, fs: FileSystem)

  /** The body of WriteLog's try block once the line and the path are known:
      create the folder if missing, look the encoding up, open the stream
      appending or truncating, write the line. Any exception is swallowed and
      reported as false; a folder created before a later failure stays.
      `knownEncoding` says whether Encoding.GetEncoding accepts the name. */
  function WriteLine(fs: FileSystem, dir: string, path: string, line: string, append: bool,
                     knownEncoding: bool, faults: Faults): (r: Written)
    ensures r.ok <==> CanWrite(fs, dir, path, knownEncoding, faults)
    ensures r.ok ==>
      && DirectoryExists(r.fs, dir) && FileExists(r.fs, path)
      && r.fs.files[path] == (if append && FileExists(fs, path) then fs.files[path] else []) + line
      && SameFilesExcept(fs.files, r.fs.files, {path})
    ensures !r.ok ==> r.fs.files == fs.files
    ensures r.fs.dirs - {dir} == fs.dirs - {dir}
  {
    var made := if DirectoryExists(fs, dir) then Step(Success(()), fs)
                else CreateDirectory(fs, dir, faults);
    if made.result.Failure? then Written(false, made.fs)
    else if !knownEncoding then Written(false, made.fs)
    else
      var written := WriteText(made.fs, path, line, append, faults);
      Written(written.result.Success?, written.fs)
  }

  /** Everything a WriteLog call with clock readings `c` needs. */
  predicate CanLog(prims: PathPrimitives, cfg: LoggerConfig, fs: FileSystem, c: LogClock,
                   knownEncoding: bool, faults: Faults)
    requires ValidClock(c)
  {
    CanWrite(fs, cfg.logFileDir, LogPath(prims, cfg, c), knownEncoding, faults)
  }

  /** Logger.WriteLog: builds the line, then writes it to the log file of
      the configured folder, appending or overwriting by the write mode; it
      returns false instead of throwing. The output level takes no part. */
  function WriteLog(prims: PathPrimitives, cfg: LoggerConfig, fs: FileSystem, level: LogLevel,
                    proc: string, msg: string, c: LogClock, knownEncoding: bool, faults: Faults)
    : (r: Written)
    requires ValidClock(c)
    ensures r.ok <==> CanLog(prims, cfg, fs, c, knownEncoding, faults)
    ensures r.ok ==>
      && var p := LogPath(prims, cfg, c);
      && var line := CreateLogString(level, proc, msg, c.date, c.time);
      && FileExists(r.fs, p)
      && r.fs.files[p] == (if cfg.writeMode == Append && FileExists(fs, p) then fs.files[p] else []) + line
      && SameFilesExcept(fs.files, r.fs.files, {p})
    ensures !r.ok ==> r.fs.files == fs.files
    ensures r.fs.dirs - {cfg.logFileDir} == fs.dirs - {cfg.logFileDir}
  {
    WriteLine(fs, cfg.logFileDir, LogPath(prims, cfg, c), CreateLogString(level, proc, msg, c.date, c.time),
              AppendFlag(cfg.writeMode), knownEncoding, faults)
  }

  /** WriteLog never looks at the output level. */
  lemma WriteLogIgnoresOutputLevel(prims: PathPrimitives, cfg: LoggerConfig, fs: FileSystem,
                                   level: LogLevel, proc: string, msg: string, c: LogClock,
                                   knownEncoding: bool, faults: Faults, outputLevel: LogLevel)
    requires ValidClock(c)
    ensures WriteLog(prims, cfg.(outputLevel := outputLevel), fs, level, proc, msg, c, knownEncoding, faults)
         == WriteLog(prims, cfg, fs, level, proc, msg, c, knownEncoding, faults)
  {
  }

  /** Successive writes of `lines` to one file; `ok` says whether all succeeded. */
  function WriteLines(fs: FileSystem, dir: string, path: string, lines: seq<string>, append: bool,
                      knownEncoding: bool, faults: Faults): (r: Written)
    decreases |lines|
  {
    if lines == [] then Written(true, fs)
    else
      var w := WriteLine(fs, dir, path, lines[0], append, knownEncoding, faults);
      var rest := WriteLines(w.fs, dir, path, lines[1..], append, knownEncoding, faults);
      Written(w.ok && rest.ok, rest.fs)
  }

  /** The lines one after the other. */
  function Concat(lines: seq<string>): (r: string)
    decreases |lines|
  {
    if lines == [] then [] else lines[0] + Concat(lines[1..])
  }

  /** In Append mode, lines written to one file with nothing failing end up
      in it one after the other, in the order they were written, after what
      it held before. */
  lemma {:induction false} AppendKeepsOrder(fs: FileSystem, dir: string, path: string, lines: seq<string>)
    requires CanWrite(fs, dir, path, true, NoFaults)
    ensures var r := WriteLines(fs, dir, path, lines, true, true, NoFaults);
      && r.ok
      && (lines != [] ==> FileExists(r.fs, path))
      && (FileExists(r.fs, path) ==>
            r.fs.files[path] == (if FileExists(fs, path) then fs.files[path] else []) + Concat(lines))
    decreases |lines|
  {
    if lines != [] {
      var w := WriteLine(fs, dir, path, lines[0], true, true, NoFaults);
      var before := if FileExists(fs, path) then fs.files[path] else [];
      assert CanWrite(w.fs, dir, path, true, NoFaults);
      AppendKeepsOrder(w.fs, dir, path, lines[1..]);
      assert (before + lines[0]) + Concat(lines[1..]) == before + Concat(lines);
    }
  }

  /** In Over mode each write truncates: the file ends up holding the last line only. */
  lemma {:induction false} OverKeepsLast(fs: FileSystem, dir: string, path: string, lines: seq<string>)
    requires lines != [] && CanWrite(fs, dir, path, true, NoFaults)
    ensures var r := WriteLines(fs, dir, path, lines, false, true, NoFaults);
      r.ok && FileExists(r.fs, path) && r.fs.files[path] == lines[|lines| - 1]
    decreases |lines|
  {
    var w := WriteLine(fs, dir, path, lines[0], false, true, NoFaults);
    if |lines| > 1 {
      assert CanWrite(w.fs, dir, path, true, NoFaults);
      OverKeepsLast(w.fs, dir, path, lines[1..]);
    }
  }

  /** One entry handed to WriteLog. */
  datatype Entry = Entry(level: LogLevel, proc: string, msg: string)

  /** The line an entry becomes under clock readings `c`. */
  function LineOf(e: Entry, c: LogClock): string
    requires ValidClock(c)
  {
    CreateLogString(e.level, e.proc, e.msg, c.date, c.time)
  }

  /** What the wrapped action did: returned, or threw from `site` with a
      message and a stack trace. */
  datatype ActionOutcome = Completed | Threw(site: string, message: string, stackTrace: string)

  /** Logger.DebugLogOutput: the entries it hands to WriteLog, in order, and
      whether it rethrows. START goes at the caller's level before the
      action; if the action throws, an Error entry for the throwing method
      with the message and stack trace follows; END at the caller's level
      comes last in every case. */
  function DebugLogOutput(proc: string, level: LogLevel, outcome: ActionOutcome)
    : (r: (seq<Entry>, bool))
    ensures r.1 <==> outcome.Threw?
  {
    var start := Entry(level, proc, "START");
    var end := Entry(level, proc, "END");
    match outcome
    case Completed => ([start, end], false)
    case Threw(site, message, stackTrace) =>
      ([start, Entry(Error, site, message + NewLine + stackTrace), end], true)
  }

  /** START comes first and END last, each exactly once among the caller's
      own entries; the only other entry is the Error entry of a throw. */
  lemma DebugLogOutputBrackets(proc: string, level: LogLevel, outcome: ActionOutcome)
    ensures var entries := DebugLogOutput(proc, level, outcome).0;
      && |entries| >= 2
      && entries[0] == Entry(level, proc, "START")
      && entries[|entries| - 1] == Entry(level, proc, "END")
      && (outcome.Completed? <==> |entries| == 2)
      && (outcome.Threw? ==>
            |entries| == 3 && entries[1].level == Error && entries[1].proc == outcome.site
            && entries[1].msg[..|outcome.message|] == outcome.message)
      && (forall k :: 0 < k < |entries| - 1 ==> entries[k].level == Error)
  {
  }

  /** The lines of the entries, each from its own clock readings. */
  function TraceLines(entries: seq<Entry>, clocks: seq<LogClock>): (r: seq<string>)
    requires |clocks| == |entries|
    requires forall k :: 0 <= k < |clocks| ==> ValidClock(clocks[k])
    ensures |r| == |entries|
    ensures forall k :: 0 <= k < |r| ==> r[k] == LineOf(entries[k], clocks[k])
  {
    seq(|entries|, k requires 0 <= k < |entries| => LineOf(entries[k], clocks[k]))
  }

  /** DebugLogOutput's entries appended to one log file, with nothing
      failing, land there after what it held: the START line, the Error line
      of a throw when the action threw, then the END line, each from its own
      clock readings. */
  lemma DebugTraceAppended(fs: FileSystem, dir: string, path: string, proc: string,
                           level: LogLevel, outcome: ActionOutcome, clocks: seq<LogClock>)
    requires |clocks| == |DebugLogOutput(proc, level, outcome).0|
    requires forall k :: 0 <= k < |clocks| ==> ValidClock(clocks[k])
    requires CanWrite(fs, dir, path, true, NoFaults)
    ensures var lines := TraceLines(DebugLogOutput(proc, level, outcome).0, clocks);
      && var r := WriteLines(fs, dir, path, lines, true, true, NoFaults);
      && var before := if FileExists(fs, path) then fs.files[path] else [];
      && r.ok && FileExists(r.fs, path)
      && (outcome.Completed? ==>
            r.fs.files[path] == before + LineOf(Entry(level, proc, "START"), clocks[0])
                                       + LineOf(Entry(level, proc, "END"), clocks[1]))
      && (outcome.Threw? ==>
            r.fs.files[path] == before + LineOf(Entry(level, proc, "START"), clocks[0])
                                       + LineOf(Entry(Error, outcome.site,
                                                      outcome.message + NewLine + outcome.stackTrace),
                                                clocks[1])
                                       + LineOf(Entry(level, proc, "END"), clocks[2]))
  {
    var lines := TraceLines(DebugLogOutput(proc, level, outcome).0, clocks);
    AppendTrace(fs, dir, path, lines);
  }

  /** Appending a trace's lines to one file leaves them there in order, after
      what the file held. */
  lemma AppendTrace(fs: FileSystem, dir: string, path: string, lines: seq<string>)
    requires 2 <= |lines| <= 3
    requires CanWrite(fs, dir, path, true, NoFaults)
    ensures var r := WriteLines(fs, dir, path, lines, true, true, NoFaults);
      && var before := if FileExists(fs, path) then fs.files[path] else [];
      && r.ok && FileExists(r.fs, path)
      && (|lines| == 2 ==> r.fs.files[path] == before + lines[0] + lines[1])
      && (|lines| == 3 ==> r.fs.files[path] == before + lines[0] + lines[1] + lines[2])
  {
    AppendKeepsOrder(fs, dir, path, lines);
    ConcatOfFew(lines);
  }

  /** Concat spelled out for two and three lines. */
  lemma ConcatOfFew(lines: seq<string>)
    ensures |lines| == 2 ==> Concat(lines) == lines[0] + lines[1]
    ensures |lines| == 3 ==> Concat(lines) == lines[0] + lines[1] + lines[2]
  {
    if |lines| >= 2 {
      assert Concat(lines) == lines[0] + Concat(lines[1..]);
      assert Concat(lines[1..]) == lines[1] + Concat(lines[2..]);
      if |lines| == 3 {
        assert Concat(lines[2..]) == lines[2] + Concat(lines[3..]);
        assert lines[3..] == [];
      } else if |lines| == 2 {
        assert lines[2..] == [];
      }
    }
  }
}
