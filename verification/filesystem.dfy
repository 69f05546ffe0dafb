/** An abstract file system, file contents by path plus a set of directory
    paths, and the System.IO calls the utility makes on it. Each call is
    taken as atomic: it either takes effect or throws and changes nothing,
    so a write that fails after opening its file (which in .NET leaves it
    truncated or partly written) is not modelled. Conditions the model does
    not see (an unreachable share, a denied permission) reach the calls as
    fault flags. */
module FileSystem {
  import opened Wrappers

  datatype FileSystem = FileSystem(files: map<string, string>, dirs: set<string>)

  /** Why a call threw. */
  datatype IoError =
    | FileNotFound(path: string)     // the file to copy does not exist
    | NameIsDirectory(path: string)  // a file is to be written where a directory is
    | NameIsFile(path: string)       // a directory is to be created where a file is
    | SameFile(path: string)         // a file is to be copied onto itself
    | Fault(path: string)            // the environment refused the call

  /** Which kinds of call the environment makes fail during one run. */
  datatype Faults = Faults(createDirectoryFails: bool, writeFails: bool, deleteFails: bool)

  const NoFaults: Faults := Faults(false, false, false)

  /** The end of a sequence of calls: its value or the exception that ended
      it, and the file system as the calls left it. */
  datatype Step<+T> = Step(result: Result<T, IoError>, fs: FileSystem)

  /** `a` and `b` hold the same files, with the same contents, at every path
      outside `except`. */
  ghost predicate SameFilesExcept(a: map<string, string>, b: map<string, string>, except: set<string>) {
    forall q :: q !in except ==> (q in a <==> q in b) && (q in a ==> a[q] == b[q])
  }

  /** What SameFilesExcept says about one path outside the exceptions. */
  lemma SameFileAt(a: map<string, string>, b: map<string, string>, except: set<string>, q: string)
    requires SameFilesExcept(a, b, except) && q !in except
    ensures q in a <==> q in b
    ensures q in a ==> a[q] == b[q]
  {
  }

  /** Directory.Exists(d) */
  predicate DirectoryExists(fs: FileSystem, d: string) {
    d in fs.dirs
  }

  /** File.Exists(p) */
  predicate FileExists(fs: FileSystem, p: string) {
    p in fs.files
  }

  /** Directory.CreateDirectory(d): afterwards `d` is a directory and nothing
      else differs; it throws when a file already has that name. */
  function CreateDirectory(fs: FileSystem, d: string, faults: Faults): (r: Step<()>)
    ensures r.result.Success? <==> !faults.createDirectoryFails && d !in fs.files
    ensures r.result.Success? ==>
      DirectoryExists(r.fs, d) && r.fs.files == fs.files && r.fs.dirs - {d} == fs.dirs - {d}
    ensures r.result.Failure? ==> r.fs == fs
  {
    if faults.createDirectoryFails then Step(Failure(Fault(d)), fs)
    else if d in fs.files then Step(Failure(NameIsFile(d)), fs)
    else Step(Success(()), fs.(dirs := fs.dirs + {d}))
  }

  /** File.WriteAllText(p, content): creates or truncates `p`, so that it
      holds exactly `content`; no other path changes. */
  function WriteAllText(fs: FileSystem, p: string, content: string, faults: Faults): (r: Step<()>)
    ensures r.result.Success? <==> p !in fs.dirs && !faults.writeFails
    ensures r.result.Success? ==>
      && FileExists(r.fs, p) && r.fs.files[p] == content
      && SameFilesExcept(fs.files, r.fs.files, {p}) && r.fs.dirs == fs.dirs
    ensures r.result.Failure? ==> r.fs == fs
  {
    if p in fs.dirs then Step(Failure(NameIsDirectory(p)), fs)
    else if faults.writeFails then Step(Failure(Fault(p)), fs)
    else Step(Success(()), fs.(files := fs.files[p := content]))
  }

  /** File.Copy(src, dst, overwrite: true): `dst` ends up holding what `src`
      holds, whether or not it existed; no other path changes. Copying a file
      onto itself throws, as the file is in use. */
  function CopyOverwrite(fs: FileSystem, src: string, dst: string, faults: Faults): (r: Step<()>)
    ensures r.result.Success? <==> FileExists(fs, src) && src != dst && dst !in fs.dirs && !faults.writeFails
    ensures r.result.Success? ==>
      && FileExists(r.fs, dst) && r.fs.files[dst] == fs.files[src]
      && SameFilesExcept(fs.files, r.fs.files, {dst}) && r.fs.dirs == fs.dirs
    ensures r.result.Failure? ==> r.fs == fs
  {
    if src !in fs.files then Step(Failure(FileNotFound(src)), fs)
    else if src == dst then Step(Failure(SameFile(dst)), fs)
    else if dst in fs.dirs then Step(Failure(NameIsDirectory(dst)), fs)
    else if faults.writeFails then Step(Failure(Fault(dst)), fs)
    else Step(Success(()), fs.(files := fs.files[dst := fs.files[src]]))
  }

  /** File.Delete(p): afterwards `p` is gone; deleting a missing file is not an error. */
  function DeleteFile(fs: FileSystem, p: string, faults: Faults): (r: Step<()>)
    ensures r.result.Success? <==> !faults.deleteFails
    ensures r.result.Success? ==>
      !FileExists(r.fs, p) && SameFilesExcept(fs.files, r.fs.files, {p}) && r.fs.dirs == fs.dirs
    ensures r.result.Failure? ==> r.fs == fs
  {
    if faults.deleteFails then Step(Failure(Fault(p)), fs)
    else Step(Success(()), fs.(files := fs.files - {p}))
  }

  /** `new StreamWriter(p, append)` followed by one Write(text): with `append`
      the text goes after what `p` already holds, otherwise `p` is truncated
      first; no other path changes. */
  function WriteText(fs: FileSystem, p: string, text: string, append: bool, faults: Faults): (r: Step<()>)
    ensures r.result.Success? <==> p !in fs.dirs && !faults.writeFails
    ensures r.result.Success? ==>
      && FileExists(r.fs, p)
      && (append && FileExists(fs, p) ==> r.fs.files[p] == fs.files[p] + text)
      && (!append || !FileExists(fs, p) ==> r.fs.files[p] == text)
      && SameFilesExcept(fs.files, r.fs.files, {p}) && r.fs.dirs == fs.dirs
    ensures r.result.Failure? ==> r.fs == fs
  {
    if p in fs.dirs then Step(Failure(NameIsDirectory(p)), fs)
    else if faults.writeFails then Step(Failure(Fault(p)), fs)
    else
      var before := if append && p in fs.files then fs.files[p] else "";
      Step(Success(()), fs.(files := fs.files[p := before + text]))
  }
}
