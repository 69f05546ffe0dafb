/** CreateCsvFile (FormQRtoCSV.cs): the record is written to a temp file
    named after the clock, in a TempCsv folder under the application folder. */
module TempFile {
  import opened Wrappers
  import opened Clock
  import opened Paths
  import opened FileSystem

  const TempFolderName: string := "TempCsv"

  /** "J" + yyyyMMddHHmmssfff + ".csv": 22 characters, a J, 17 digits, ".csv". */
  function TempFileName(now: DateTime): (r: string)
    requires Valid(now)
    ensures |r| == 22 && r[0] == 'J' && AllDigits(r[1..18]) && r[18..] == ".csv"
    ensures HasNoSeparator(r)
  {
    var r := "J" + Stamp17(now) + ".csv";
    assert r[1..18] == Stamp17(now);
    assert forall k :: 1 <= k < 18 ==> r[k] == r[1..18][k - 1];
    r
  }

  /** Reads the clock reading back out of a temp file name. */
  function ParseTempFileName(name: string): Option<DateTime>
  {
    if |name| == 22 && name[0] == 'J' && name[18..] == ".csv" then ParseStamp17(name[1..18])
    else None
  }

  /** The name records the clock reading to the millisecond. */
  lemma TempFileNameRoundTrip(now: DateTime)
    requires Valid(now)
    ensures ParseTempFileName(TempFileName(now)) == Some(now)
  {
    var r := TempFileName(now);
    assert r[1..18] == Stamp17(now);
    Stamp17RoundTrip(now);
  }

  /** Names collide only for clock readings equal to the millisecond; two
      runs inside one millisecond write the same temp file. */
  lemma TempFileNamesDistinct(t1: DateTime, t2: DateTime)
    requires Valid(t1) && Valid(t2)
    ensures TempFileName(t1) == TempFileName(t2) <==> t1 == t2
  {
    if TempFileName(t1) == TempFileName(t2) {
      TempFileNameRoundTrip(t1);
      TempFileNameRoundTrip(t2);
    }
  }

  /** Writes `csvData` to <baseDir>\TempCsv\J<stamp>.csv, creating the
      folder when it is missing, and yields the file's path. The file then
      holds exactly the record, its name is the clock-derived name, and no
      other file changes. A failed folder creation writes nothing. */
  function CreateCsvFile(prims: PathPrimitives, fs: FileSystem, baseDir: string,
                         now: DateTime, csvData: string, faults: Faults): (r: Step<string>)
    requires Valid(now)
    ensures r.result.Success? ==>
      && var path := r.result.value;
      && path == Combine(prims, Combine(prims, baseDir, TempFolderName), TempFileName(now))
      && FileExists(r.fs, path) && r.fs.files[path] == csvData
      && SameFilesExcept(fs.files, r.fs.files, {path})
      && (!prims.isPathRooted(TempFileName(now)) ==> GetFileName(path) == TempFileName(now))
    ensures r.result.Failure? ==> r.fs.files == fs.files
    ensures r.fs.dirs - {Combine(prims, baseDir, TempFolderName)} == fs.dirs - {Combine(prims, baseDir, TempFolderName)}
  {
    var tempDirectory := Combine(prims, baseDir, TempFolderName);
    var made := if DirectoryExists(fs, tempDirectory) then Step(Success(()), fs)
                else CreateDirectory(fs, tempDirectory, faults);
    if made.result.Failure? then Step(Failure(made.result.error), made.fs)
    else
      var path := Combine(prims, tempDirectory, TempFileName(now));
      var written := WriteAllText(made.fs, path, csvData, faults);
      if written.result.Failure? then Step(Failure(written.result.error), written.fs)
      else
        GetFileNameOfCombine(prims, tempDirectory, TempFileName(now));
        Step(Success(path), written.fs)
  }
}
