/** The part of the operating system the dashboard touches, as a value: which
    directories exist, which files each holds and what reading each yields, and
    which operations raise. */
module FileSystem {
  import opened Wrappers

  type Path = string

  /** What opening a file and reading it as UTF-8 text yields: the text, or an
      exception (permission denied, not a regular file, bytes that do not decode). */
  datatype ReadResult = Text(text: string) | ReadFailed

  /** What the existence check on a path yields. `Raised` stands for any exception
      raised while checking a file, whatever its cause. */
  datatype Lookup = Present | Absent | Raised

  datatype FileSystem = FileSystem(
    // each existing directory, with the files it holds and what reading each yields
    dirs: map<Path, map<string, ReadResult>>,
    // directories whose creation raises (no permission, a file in the way)
    mkdirFaults: set<Path>,
    // files whose existence check raises
    lookupFaults: set<(Path, string)>)

  /** `os.path.exists(os.path.join(dir, name))` */
  function Exists(fs: FileSystem, dir: Path, name: string): Lookup {
    if (dir, name) in fs.lookupFaults then Raised
    else if dir in fs.dirs && name in fs.dirs[dir] then Present
    else Absent
  }

  /** `open(os.path.join(dir, name), 'r', encoding='utf-8').read()`; opening a file
      that is not there raises. */
  function Read(fs: FileSystem, dir: Path, name: string): ReadResult {
    if dir in fs.dirs && name in fs.dirs[dir] then fs.dirs[dir][name] else ReadFailed
  }

  /** `os.makedirs(dir, exist_ok=True)`: `None` when it raises. */
  function MakeDirs(fs: FileSystem, dir: Path): (r: Option<FileSystem>)
    ensures r.None? <==> dir !in fs.dirs && dir in fs.mkdirFaults
    ensures r.Some? ==> dir in r.value.dirs && r.value.dirs.Keys == fs.dirs.Keys + {dir}
    ensures r.Some? ==> forall d | d in fs.dirs :: r.value.dirs[d] == fs.dirs[d]
    ensures r.Some? && dir !in fs.dirs ==> r.value.dirs[dir] == map[]
    ensures r.Some? ==> r.value.mkdirFaults == fs.mkdirFaults && r.value.lookupFaults == fs.lookupFaults
    ensures r.Some? ==> forall d, n :: Exists(r.value, d, n) == Exists(fs, d, n) && Read(r.value, d, n) == Read(fs, d, n)
  {
    if dir in fs.dirs then Some(fs)
    else if dir in fs.mkdirFaults then None
    else Some(fs.(dirs := fs.dirs[dir := map[]]))
  }

  /** The file system with one file deleted. */
  function RemoveFile(fs: FileSystem, dir: Path, name: string): (r: FileSystem)
    ensures Exists(r, dir, name) == if Exists(fs, dir, name) == Raised then Raised else Absent
    ensures forall d, n | d != dir || n != name :: Exists(r, d, n) == Exists(fs, d, n) && Read(r, d, n) == Read(fs, d, n)
  {
    if dir in fs.dirs then fs.(dirs := fs.dirs[dir := fs.dirs[dir] - {name}]) else fs
  }

  /** The file system with the content of one existing file replaced. */
  function Rewrite(fs: FileSystem, dir: Path, name: string, content: ReadResult): (r: FileSystem)
    ensures forall d, n :: Exists(r, d, n) == Exists(fs, d, n)
    ensures Exists(fs, dir, name) == Present ==> Read(r, dir, name) == content
    ensures forall d, n | d != dir || n != name :: Read(r, d, n) == Read(fs, d, n)
  {
    if dir in fs.dirs && name in fs.dirs[dir] then fs.(dirs := fs.dirs[dir := fs.dirs[dir][name := content]]) else fs
  }
}
