/**
 * The records HashProject hands between its components: one file of a
 * project and the project's settings.
 */
module Project {
  import opened Strings

  /**
   * HashProject::File.  The size is a 64-bit integer the manifest reader
   * only assigns when a size comment names the file; `None` stands for the
   * member that was never assigned.
   */
  datatype File = File(
    basepath: string,
    filename: string,
    filesize: Option<int>,
    hash: string,
    algorithm: string)

  /** HashProject::Settings. */
  datatype Settings = Settings(algorithm: string, scanImmediately: bool, blockingHashCalc: bool)

  /** The metadata key that marks an algorithm line in a manifest. */
  const AlgorithmKey: string := "FileHasherSetting:Algorithm="

  /** A size comment puts the file name at this column. */
  const NameColumn: nat := 36

  /** The algorithm a manifest starts with until a metadata line names another. */
  const DefaultAlgorithm: string := "CRC32"

  /** The directory separator, taken as one fixed character. */
  const Separator: char := '/'

  /**
   * A directory path with a trailing separator ensured: it is appended
   * unless the path already ends in one, so "" becomes the separator alone.
   */
  function WithSeparator(path: string): (r: string)
    ensures |path| <= |r| && |r| > 0 && r[|r| - 1] == Separator && r[..|path|] == path
    ensures r == path <==> |path| > 0 && path[|path| - 1] == Separator
    ensures r != path ==> r == path + [Separator]
  {
    if |path| > 0 && path[|path| - 1] == Separator then path else path + [Separator]
  }
}
