/** PostCsv (FormQRtoCSV.cs): moves the temp file to the destination folder.
    The destination arrives as a parameter. */
module Delivery {
  import opened Wrappers
  import opened Paths
  import opened FileSystem
  import opened PathValidation
  import opened Messages

  /** What PostCsv returns without throwing: true, or false after showing an error. */
  datatype PostResult = Delivered | Rejected(message: MessageId)

  /** Where the temp file is copied: its own file name under the destination. */
  function DeliveredPath(prims: PathPrimitives, dest: string, tempPath: string): string
  {
    Combine(prims, dest, GetFileName(tempPath))
  }

  /** Everything a delivery needs from its inputs and the environment. */
  predicate CanDeliver(prims: PathPrimitives, fs: FileSystem, dest: string, tempPath: string,
                       faults: Faults) {
    && dest != ""
    && IsValidFolderPath(prims, dest)
    && (DirectoryExists(fs, dest) || (!faults.createDirectoryFails && dest !in fs.files))
    && FileExists(fs, tempPath)
    && DeliveredPath(prims, dest, tempPath) !in fs.dirs
    && DeliveredPath(prims, dest, tempPath) != dest
    && DeliveredPath(prims, dest, tempPath) != tempPath
    && !faults.writeFails
    && !faults.deleteFails
  }

  /** FormQRtoCSV.PostCsv. An empty destination returns false before the
      path is checked, an invalid one returns false before anything is
      created, and both leave the file system as it was. Otherwise the
      destination folder is created if missing, the temp file is copied over
      any file of the same name there, and the temp file is deleted after the
      copy. Any exception on the way leaves the temp file where it was. */
  function PostCsv(prims: PathPrimitives, fs: FileSystem, dest: string, tempPath: string,
                   faults: Faults): (r: Step<PostResult>)
    ensures dest == "" ==> r == Step(Success(Rejected(Err002)), fs)
    ensures dest != "" && !IsValidFolderPath(prims, dest) ==> r == Step(Success(Rejected(Err003)), fs)
    ensures r.result == Success(Delivered) <==> CanDeliver(prims, fs, dest, tempPath, faults)
    ensures r.result == Success(Delivered) ==>
      var destFile := DeliveredPath(prims, dest, tempPath);
      && DirectoryExists(r.fs, dest) && r.fs.dirs == fs.dirs + {dest}
      && FileExists(r.fs, destFile) && r.fs.files[destFile] == fs.files[tempPath]
      && !FileExists(r.fs, tempPath)
      && SameFilesExcept(fs.files, r.fs.files, {destFile, tempPath})
    ensures r.result.Failure? && FileExists(fs, tempPath) ==>
      FileExists(r.fs, tempPath) && r.fs.files[tempPath] == fs.files[tempPath]
  {
    if dest == "" then Step(Success(Rejected(Err002)), fs)
    else if !IsValidFolderPath(prims, dest) then Step(Success(Rejected(Err003)), fs)
    else
      var made := if DirectoryExists(fs, dest) then Step(Success(()), fs)
                  else CreateDirectory(fs, dest, faults);
      if made.result.Failure? then Step(Failure(made.result.error), made.fs)
      else
        var destFile := DeliveredPath(prims, dest, tempPath);
        var copied := CopyOverwrite(made.fs, tempPath, destFile, faults);
        if copied.result.Failure? then Step(Failure(copied.result.error), copied.fs)
        else if FileExists(copied.fs, tempPath) then
          var deleted := DeleteFile(copied.fs, tempPath, faults);
          if deleted.result.Failure? then Step(Failure(deleted.result.error), deleted.fs)
          else Step(Success(Delivered), deleted.fs)
        else Step(Success(Delivered), copied.fs)
  }

  /** A rejection changes nothing. */
  lemma RejectionChangesNothing(prims: PathPrimitives, fs: FileSystem, dest: string,
                                tempPath: string, faults: Faults)
    ensures PostCsv(prims, fs, dest, tempPath, faults).result.Success? &&
            PostCsv(prims, fs, dest, tempPath, faults).result.value.Rejected? ==>
            PostCsv(prims, fs, dest, tempPath, faults).fs == fs
  {
  }

  /** After a delivery the file system is the old one with the destination
      folder added, the temp file's content at the delivered path, and the
      temp file gone. */
  lemma DeliveredFileSystem(prims: PathPrimitives, fs: FileSystem, dest: string,
                            tempPath: string, faults: Faults)
    requires PostCsv(prims, fs, dest, tempPath, faults).result == Success(Delivered)
    ensures PostCsv(prims, fs, dest, tempPath, faults).fs ==
      FileSystem(fs.files[DeliveredPath(prims, dest, tempPath) := fs.files[tempPath]] - {tempPath},
                 fs.dirs + {dest})
  {
    var r := PostCsv(prims, fs, dest, tempPath, faults);
    MovedFiles(fs.files, r.fs.files, tempPath, DeliveredPath(prims, dest, tempPath));
  }

  /** A map that agrees with `before` except that `dst` now holds what `src`
      held and `src` is gone is exactly that update of `before`. */
  lemma MovedFiles(before: map<string, string>, after: map<string, string>, src: string, dst: string)
    requires src != dst && src in before
    requires dst in after && after[dst] == before[src] && src !in after
    requires SameFilesExcept(before, after, {dst, src})
    ensures after == before[dst := before[src]] - {src}
  {
    var expected := before[dst := before[src]] - {src};
    forall q
      ensures (q in after <==> q in expected) && (q in expected ==> after[q] == expected[q])
    {
      if q != dst && q != src {
        assert q !in {dst, src};
      }
    }
  }

  /** A delivery's preconditions survive the delivery itself once the temp
      file is back: the folder now exists and nothing else they read changed. */
  lemma CanDeliverAgain(prims: PathPrimitives, fs1: FileSystem, fs2: FileSystem, dest: string,
                        tempPath: string)
    requires CanDeliver(prims, fs1, dest, tempPath, NoFaults)
    requires fs2.dirs == fs1.dirs + {dest} && FileExists(fs2, tempPath)
    ensures CanDeliver(prims, fs2, dest, tempPath, NoFaults)
  {
  }

  /** Writing the temp file back and moving it onto a path that already holds
      the same content gives back the same map. */
  lemma MoveBack(m: map<string, string>, src: string, dst: string, content: string)
    requires src != dst && src !in m && dst in m && m[dst] == content
    ensures m[src := content][dst := content] - {src} == m
  {
    var m' := m[src := content][dst := content] - {src};
    assert forall q :: q in m' <==> q in m;
  }

  /** Delivering the same record twice (the temp file written again with the
      same content and delivered again) ends in the same state as delivering
      it once: the copy overwrites. */
  lemma DeliverTwiceIdempotent(prims: PathPrimitives, fs: FileSystem, dest: string,
                               tempPath: string, content: string)
    requires tempPath !in fs.dirs
    requires PostCsv(prims, WriteAllText(fs, tempPath, content, NoFaults).fs,
                     dest, tempPath, NoFaults).result == Success(Delivered)
    ensures var once := PostCsv(prims, WriteAllText(fs, tempPath, content, NoFaults).fs,
                                dest, tempPath, NoFaults);
            PostCsv(prims, WriteAllText(once.fs, tempPath, content, NoFaults).fs,
                    dest, tempPath, NoFaults) == once
  {
    var destFile := DeliveredPath(prims, dest, tempPath);
    var fs1 := WriteAllText(fs, tempPath, content, NoFaults).fs;
    assert fs1 == FileSystem(fs.files[tempPath := content], fs.dirs);
    var once := PostCsv(prims, fs1, dest, tempPath, NoFaults);
    DeliveredFileSystem(prims, fs1, dest, tempPath, NoFaults);
    var m1 := fs1.files[destFile := content] - {tempPath};
    assert once.fs == FileSystem(m1, fs.dirs + {dest});
    assert tempPath !in once.fs.dirs;
    var fs2 := FileSystem(m1[tempPath := content], fs.dirs + {dest});
    assert WriteAllText(once.fs, tempPath, content, NoFaults).fs == fs2;
    CanDeliverAgain(prims, fs1, fs2, dest, tempPath);
    DeliveredFileSystem(prims, fs2, dest, tempPath, NoFaults);
    MoveBack(m1, tempPath, destFile, content);
  }
}
