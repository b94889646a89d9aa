/**
 * The file system as the core sees it: what opening a path yields, and the
 * entries a recursive directory iterator visits.
 */
module Files {
  import opened Hex

  /** The outcome of `QFile::exists` followed by `QFile::open(ReadOnly)`. */
  datatype FileState =
    | Missing
    | Unopenable(message: string)
    | Readable(content: seq<byte>)

  type Disk = map<string, FileState>

  function Lookup(disk: Disk, path: string): FileState {
    if path in disk then disk[path] else Missing
  }

  /** One entry of `QDirIterator(.., Subdirectories)`: path, directory flag, size. */
  datatype DirEntry = DirEntry(path: string, isDir: bool, size: int)
}
