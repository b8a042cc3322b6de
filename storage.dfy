/** The backup log's records and the part of the filesystem the renamer
    touches: directories, regular files and what `Path.rename` and writing a
    file do to them. */
module Storage {
  import opened Paths

  datatype Option<T> = None | Some(value: T)

  /** The OS errors the model distinguishes; `Refused` stands for every error
      the model does not derive from the directory tree (permissions, a
      cross-device rename, a full disk), with its `str(e)` text. */
  datatype OsError = NoSuchFile | NotADirectory | IsADirectory | Refused(message: string)

  function Describe(e: OsError): string {
    match e
    case NoSuchFile => "[Errno 2] No such file or directory"
    case NotADirectory => "[Errno 20] Not a directory"
    case IsADirectory => "[Errno 21] Is a directory"
    case Refused(message) => message
  }

  /** `status` of an operation record; only an error record carries `error`. */
  datatype Status = Success | Error(error: OsError)

  /** One entry of `operations` in the backup log. */
  datatype Operation = Operation(oldName: string, newName: string, oldPath: Path, newPath: Path, status: Status)

  /** The backup log document, as a value rather than JSON text. */
  datatype BackupLog = BackupLog(timestamp: string, rawFolder: Path, jpgFolder: Path, operations: seq<Operation>)

  /** What a regular file holds: image bytes (opaque here) or a backup log. */
  datatype Content = Image(data: nat) | Log(log: BackupLog)

  /** The OS's answers the model cannot derive from the tree itself. */
  datatype Os = Os(renameRefusal: (Path, Path) -> Option<string>, writeRefusal: Path -> Option<string>)

  datatype Fs = Fs(dirs: set<Path>, files: map<Path, Content>) {

    /** A real tree: nothing is both a file and a directory, and every file
        sits in an existing directory. */
    ghost predicate Valid() {
      && files.Keys !! dirs
      && forall p :: p in files ==> p.Parent() in dirs
    }

    /** `Path.exists()` */
    predicate Exists(p: Path) {
      p in dirs || p in files
    }
  }

  /** `src.rename(dst)` on POSIX: a regular file moves and replaces a file
      already at `dst`; renaming a path onto itself changes nothing. A
      target folder that is missing or not a folder is reported as
      NoSuchFile. */
  function RenameStep(fs: Fs, src: Path, dst: Path, os: Os): (r: (Fs, Option<OsError>))
    ensures r.0.dirs == fs.dirs
    ensures r.1.Some? ==> r.0 == fs
    ensures r.1.None? <==> src in fs.files && dst.Parent() in fs.dirs && dst !in fs.dirs && os.renameRefusal(src, dst).None?
    ensures r.1.None? ==> r.0.files == (fs.files - {src})[dst := fs.files[src]]
  {
    if src !in fs.files then (fs, Some(if src in fs.dirs then IsADirectory else NoSuchFile))
    else if dst.Parent() !in fs.dirs then (fs, Some(NoSuchFile))
    else if dst in fs.dirs then (fs, Some(IsADirectory))
    else if os.renameRefusal(src, dst).Some? then (fs, Some(Refused(os.renameRefusal(src, dst).value)))
    else (Fs(fs.dirs, (fs.files - {src})[dst := fs.files[src]]), None)
  }

  /** `open(p, 'w')` followed by writing `c`: a folder that is a regular
      file is NotADirectory, a missing one NoSuchFile. */
  function WriteStep(fs: Fs, p: Path, c: Content, os: Os): (r: (Fs, Option<OsError>))
    ensures r.0.dirs == fs.dirs
    ensures r.1.Some? ==> r.0 == fs
    ensures r.1.None? <==> p.Parent() in fs.dirs && p !in fs.dirs && os.writeRefusal(p).None?
    ensures r.1 == Some(NotADirectory) <==> p.Parent() !in fs.dirs && p.Parent() in fs.files
    ensures r.1.None? ==> r.0.files == fs.files[p := c]
  {
    if p.Parent() !in fs.dirs then (fs, Some(if p.Parent() in fs.files then NotADirectory else NoSuchFile))
    else if p in fs.dirs then (fs, Some(IsADirectory))
    else if os.writeRefusal(p).Some? then (fs, Some(Refused(os.writeRefusal(p).value)))
    else (Fs(fs.dirs, fs.files[p := c]), None)
  }

  /** Renames and writes keep the tree a real tree. */
  lemma RenameKeepsValid(fs: Fs, src: Path, dst: Path, os: Os)
    requires fs.Valid()
    ensures RenameStep(fs, src, dst, os).0.Valid()
  {
  }

  lemma WriteKeepsValid(fs: Fs, p: Path, c: Content, os: Os)
    requires fs.Valid()
    ensures WriteStep(fs, p, c, os).0.Valid()
  {
  }

  /** The filesystem as a mutable object: `Path.rename` and file writes
      change it in place. */
  class FileSystem {
    var dirs: set<Path>
    var files: map<Path, Content>

    function State(): Fs
      reads this
    {
      Fs(dirs, files)
    }

    constructor (dirs: set<Path>, files: map<Path, Content>)
      ensures State() == Fs(dirs, files)
    {
      this.dirs := dirs;
      this.files := files;
    }

    method Rename(src: Path, dst: Path, os: Os) returns (err: Option<OsError>)
      modifies this
      ensures (State(), err) == RenameStep(old(State()), src, dst, os)
    {
      var r := RenameStep(State(), src, dst, os);
      files := r.0.files;
      err := r.1;
    }

    method Write(p: Path, c: Content, os: Os) returns (err: Option<OsError>)
      modifies this
      ensures (State(), err) == WriteStep(old(State()), p, c, os)
    {
      var r := WriteStep(State(), p, c, os);
      files := r.0.files;
      err := r.1;
    }
  }
}
