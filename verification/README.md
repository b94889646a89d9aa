# HashMan core, modelled in Dafny

HashMan (the "File Hash Calculator") keeps a *project*: a source directory,
settings (algorithm, hash-on-scan, blocking hashing) and a file list.  This
project models its core:

- the two hash engines: the table-driven CRC-32 with its lazily built table,
  and the QCryptographicHash wrapper for MD4, MD5, SHA-1, SHA-256 and SHA-512;
- the SFV manifest codec: `openFile`'s line reader (comments, the
  `FileHasherSetting:Algorithm=` metadata line, size comments with the name
  at column 36, quoted names) and `saveFile`'s writer, with the round trip
  between them through the file text, whose lines end in "\n" or, in text
  mode on Windows, "\r\n";
- the FileList state machine: the write lock, the batching buffer that
  flushes at 100 files, the hash/verification/failure counters, result
  delivery, and removal of rows, hashes and verifications;
- the Hasher worker (`hashProject`, `hashFile`), the FileFinder worker
  (`scanProject`) and the SourceDirectory (`setPath`);
- `openFile` end to end: the lock protocol, reading the manifest's text and
  loading its files into the list.

Each component is a module: `Strings`, `Lines`, `Hex`, `Crc32`, `Crypto`,
`Project`, `Files`, `Manifest`, `Writer`, `RoundTrip`, `Columns`, `FileList`, `Hashing`,
`Finder`, `Source` and `Opening`.  Widgets become plain values.  A Qt signal
becomes an event in the sequence a slot returns.  The file system, the digest
functions and the thread that raises an abort become parameters.

## Model

| member | source | states |
|---|---|---|
| Crc32.Reflect | algorithms/crc32algorithm.cpp:39-50 | bit k of the result is bit n-1-k of the input for k < n, and every higher bit is clear |
| Crc32.LoopBits | algorithms/crc32algorithm.cpp:43-48 | loop invariant of the reflect loop: after each step, the bits set are those already set plus the mirrored bits of the part still to be shifted |
| Crc32.ReflectTwiceBits | algorithms/crc32algorithm.cpp:39-50 | for every width n up to 32, reflecting the low n bits twice restores exactly those bits and clears every bit above them |
| Crc32.ReflectTwice | algorithms/crc32algorithm.cpp:39-50 | at the two widths the engine uses: reflecting 32 bits twice is the identity, and reflecting 8 bits twice keeps exactly the low byte |
| Crc32.PolynomialMirror | algorithms/crc32algorithm.cpp:58 | the polynomial 0x04C11DB7 mirrors to the reflected polynomial 0xEDB88320 |
| Crc32.MirrorRounds | algorithms/crc32algorithm.cpp:62-66 | the table's reflect-shift-reflect construction equals the reflected (LSB-first) shift register run for the same number of rounds |
| Crc32.Table | algorithms/crc32algorithm.cpp:56-68 | the table has 256 entries and entry i is eight reflected polynomial rounds of i |
| Crc32.FoldAppend | algorithms/crc32algorithm.cpp:93-96 | the byte loop over a concatenation is the loop over the second part started from the register the first part left |
| Crc32.CheckValues | algorithms/crc32algorithm.cpp:90-100 | the checksum of "123456789" is the standard check value CBF43926, and the empty file hashes to 0 |
| Crc32.TableStep | algorithms/crc32algorithm.cpp:95 | one table lookup step gives the register shifted right by 8, XORed with eight reflected rounds of the register's low byte XOR the input byte |
| Crc32.HashFile | algorithms/crc32algorithm.cpp:75-101 | a missing or unopenable file gives the fixed error texts and leaves the engine alone; a readable file builds the table and gives the checksum as 8 upper-case hex digits |
| Crc32.LazyTableInvisible | algorithms/crc32algorithm.cpp:87-89 | whether the table was already built does not change any hash text |
| Hex.Upper8 | algorithms/crc32algorithm.cpp:100 | the text has exactly 8 upper-case hex digits whose value is the register |
| Hex.HexOfBytesRoundTrip | algorithms/qtcryptoalgorithms.cpp:52 | decoding the lower-case hex text of a digest gives back the digest bytes |
| Hex.PaddedUpperFacts | algorithms/crc32algorithm.cpp:100 | zero-padding to the width and upper-casing keeps the value and gives exactly the width in upper-case digits |
| Crypto.SelectDigest | algorithms/qtcryptoalgorithms.cpp:37-46 | the four names MD4, SHA-1, SHA-256, SHA-512 select their digests, and every other name, including unknown ones, falls back to MD5 |
| Crypto.SelectTag | algorithms/qtcryptoalgorithms.cpp:37-46 | each digest's own name selects that digest |
| Crypto.HashFile | algorithms/qtcryptoalgorithms.cpp:26-53 | the fixed error texts for a missing or unopenable file; otherwise lower-case hex that decodes to the selected digest of the content |
| Crypto.HashLength | algorithms/qtcryptoalgorithms.cpp:47-52 | for digests of standard size the text has two characters per digest byte, so 128 for SHA-512 |
| Crypto.SuccessIsNotError | algorithms/qtcryptoalgorithms.cpp:47-52 | a hash of a readable file never starts with the "ERROR: " prefix |
| Strings.ToUpper | hashproject/filelist.cpp:367 | same length, and each character upper-cased on its own |
| Strings.ParseSigned | hashproject/hashproject.cpp:136 | the result lies in the signed range of the width; a digit string below the limit reads as its value and one at or above it reads as 0 |
| Strings.Decimal | hashproject/filelist.cpp:362-364 | a non-empty digit string without a leading zero whose value is the number |
| Strings.RightJustified | hashproject/hashproject.cpp:212 | the text padded on the left to the width with the fill character, or kept whole when longer |
| Strings.Trimmed | hashproject/hashproject.cpp:106 | the result neither starts nor ends with white space |
| Strings.TrimmedBetween | hashproject/hashproject.cpp:106 | the result is a contiguous piece of the input with only white space before and after it; with the previous row, it is the input with exactly its leading and trailing white space cut |
| Strings.NotNumberIsZero | hashproject/hashproject.cpp:136 | a trimmed text that is not a signed decimal number reads as size 0 |
| Strings.SplitSkipEmpty | hashproject/hashproject.cpp:115-120 | every token is non-empty and holds no separator |
| Strings.SplitAfterWord | hashproject/hashproject.cpp:115-120 | splitting a word, a separator and a tail gives the word followed by the split of the tail |
| Strings.IndexOf | hashproject/hashproject.cpp:97 | -1 exactly when the needle does not occur; otherwise its first occurrence |
| Manifest.CommentIff | hashproject/hashproject.cpp:90-96 | a line is a comment exactly when a ';' is preceded only by white space |
| Manifest.QuotedName | hashproject/hashproject.cpp:109-114 | a name is taken exactly when the line holds at least two quotes, and it is the text between a quote with none before it and a quote with none after it |
| Manifest.QuotedOutermost | hashproject/hashproject.cpp:109-114 | two quoted names on one line, `"a" "b"`, give the single name `a" "b` |
| Manifest.SettingIff | hashproject/hashproject.cpp:97-100 | a line sets the algorithm exactly when it is a comment holding the metadata key, and the value is what follows the key's first occurrence |
| Manifest.EntryShape | hashproject/hashproject.cpp:101-108 | an entry line carries a size exactly when it is a comment longer than 36 characters |
| Manifest.Record | hashproject/hashproject.cpp:129-143 | a new name is appended to the order; a size comment sets only the size; a data line sets the name, the hash and the current algorithm |
| Manifest.RecordKeeps | hashproject/hashproject.cpp:129-143 | recording keeps the scan well formed and leaves every other name's entry unchanged |
| Manifest.Read | hashproject/hashproject.cpp:82-151 | a successful read lists each name once; a failure points at a line of the input and happens only in the dialect that does not skip blank lines |
| Manifest.FilesNamed | hashproject/hashproject.cpp:146-151 | the files added are exactly the names in first-seen order that a data line named |
| Manifest.SettingApplies | hashproject/hashproject.cpp:97-100 | an algorithm line applies to the data line after it |
| Manifest.SizeSurvivesData | hashproject/hashproject.cpp:135-142 | a size comment before a data line of the same name keeps its size |
| Manifest.LaterDataOverwrites | hashproject/hashproject.cpp:138-142 | a second data line for a name replaces its hash and algorithm but not its place in the order |
| Manifest.BlankLineUndefined | hashproject/hashproject.cpp:121-124 | as written, a blank line leaves no token to take the first element of, so the read fails |
| Manifest.BlankLineSkipped | hashproject/hashproject.cpp:121-124 | the corrected reader ignores a blank line wherever it stands |
| Manifest.CorrectedNeverFails | hashproject/hashproject.cpp:82-151 | the corrected reader accepts every input |
| Writer.Relative | hashproject/hashproject.cpp:204-207 | a path that starts with the output directory's text (a plain string prefix, not a whole directory name) loses that prefix and the one character after it; any other path is kept.  So with output directory `/home/u`, `/home/user2/x` becomes `ser2/x` |
| Writer.SizeLine | hashproject/hashproject.cpp:212 | a size comment starts with ';' and, for sizes of at most 12 characters, puts the path at column 36 |
| Writer.RowLines | hashproject/hashproject.cpp:199-219 | one to three lines per row; an algorithm line comes first exactly when the row's algorithm differs from the current one |
| Writer.Save | hashproject/hashproject.cpp:174-223 | nothing is written for an empty list or an unwritable file; otherwise the three header lines come first, then at least one line per row |
| Writer.SaveFile | hashproject/hashproject.cpp:174-223 | the file text is written exactly when the list is non-empty and the file writable, and then it ends with a line break |
| Lines.ReadFirst | hashproject/hashproject.cpp:85-89 | `readLine` on a line without breaks followed by "\n" or "\r\n" returns that line and leaves the rest of the text |
| Lines.LinesRoundTrip | hashproject/hashproject.cpp:85-89 | reading the text of lines free of line breaks, written with either line ending, gives back the same lines |
| Lines.BreakSplits | hashproject/hashproject.cpp:85-89 | a line break inside a written line makes it read back as two lines |
| Manifest.ReadFile | hashproject/hashproject.cpp:82-151 | reading a file's text lists each name once, and fails only in the dialect that does not skip blank lines |
| RoundTrip.ReadSetting | hashproject/hashproject.cpp:196 | the reader parses the writer's algorithm line back to the same algorithm |
| RoundTrip.ReadSize | hashproject/hashproject.cpp:212 | the reader parses the writer's size comment back to the same path and size |
| RoundTrip.ReadData | hashproject/hashproject.cpp:214-219 | the reader parses the writer's data line back to the same path and hash |
| RoundTrip.SavedOneLine | hashproject/hashproject.cpp:188-219 | every line the writer produces for savable rows is free of line breaks |
| RoundTrip.SaveReadLines | hashproject/hashproject.cpp:174-223 | parsing the lines the writer produced gives one file per row, in order, with the path, hash and algorithm of that row |
| RoundTrip.SaveRead | hashproject/hashproject.cpp:174-223 | reading back the file text the writer saved, with either line ending, gives one file per row, in order, with the path, hash and algorithm of that row |
| RoundTrip.SaveThenRead | hashproject/hashproject.cpp:136 | with a 64-bit size parse, every row of a saved file text reads back exactly: path, size, hash and algorithm |
| RoundTrip.LargeSizeReadAsZero | hashproject/hashproject.cpp:136 | as written, a size of 2^31 or more in a saved file text reads back as 0 |
| RoundTrip.LargeSizeExample | hashproject/hashproject.cpp:136 | "3000000000" parses to 0 in 32 bits and to its value in 64 bits |
| Columns.RowIndexed | hashproject/hashproject.cpp:199-219 | writing a row with the column indices as written is writing a different row: name and size joined as the path, the hash as its size, the verification as its hash |
| Columns.IndexedRead | hashproject/hashproject.cpp:199-219 | the file text of a list saved with the indices as written reads back as those shifted rows |
| Columns.IndexedLosesHash | hashproject/hashproject.cpp:211-218 | a hashed but unverified row saved to file text with the indices as written reads back with no hash |
| FileList.Cell | hashproject/filelist.cpp:42-50 | a cell exists exactly for the six columns 0 to 5 |
| FileList.CountAppend | hashproject/filelist.cpp:96-105 | counting over a concatenation is the sum of the two counts |
| FileList.CountZero | hashproject/filelist.h:38 | a count is zero exactly when no row qualifies |
| FileList.CountFull | hashproject/filelist.h:37 | a count equals the number of rows exactly when every row qualifies |
| FileList.InitialConsistent | hashproject/filelist.cpp:31-37 | the new list's counters agree with its rows |
| FileList.Completion | hashproject/filelist.h:35-41 | on a consistent list: hashing is complete iff the list is non-empty and every row has a hash; partially complete iff some row has one; verification is partially complete iff some row is verified |
| FileList.WriteLock | hashproject/filelist.cpp:173-185 | taking a held lock fails and changes nothing; otherwise the flag is set and taking it empties the buffer |
| FileList.LockExclusive | hashproject/filelist.cpp:173-185 | after a successful lock a second one fails, and after an unlock the lock can be taken again |
| FileList.ClearContents | hashproject/filelist.cpp:191-202 | no rows and zero counters, the buffer and lock kept, a size report of zeros and a cleared display |
| FileList.ClearConsistent | hashproject/filelist.cpp:191-202 | a cleared list is empty and consistent |
| FileList.RemoveVerificationsKeeps | hashproject/filelist.cpp:269-282 | names, sizes, hashes and algorithms kept; every verification and verdict cleared; the verification and failure counters zero; the list stays consistent |
| FileList.RemoveHashes | hashproject/filelist.cpp:251-255 | with no hash counted the call changes nothing and emits nothing |
| FileList.RemoveHashesKeeps | hashproject/filelist.cpp:251-263 | names and sizes kept, every hash cleared, the list consistent; when hashes were counted the verifications, verdicts and algorithms go too |
| FileList.Entry | hashproject/filelist.cpp:356-371 | a new row has no verification or verdict, and it counts as hashed exactly when its file has a hash |
| FileList.ProcessBuffer | hashproject/filelist.cpp:337-348 | unlocked: nothing; locked with an empty buffer: only noMoreFileJobs; fewer than 100 files and not forced: nothing |
| FileList.FlushAppends | hashproject/filelist.cpp:349-400 | a flush keeps the old rows, appends one row per buffered file in order, empties the buffer and ends with a size report |
| FileList.JobsSound | hashproject/filelist.cpp:393-395 | every hash job is for a buffered file without a hash, at its new row, only when hashing on scan, with the project's algorithm |
| FileList.JobsComplete | hashproject/filelist.cpp:393-395 | every buffered file without a hash gets a job when hashing on scan |
| FileList.FlushJobsSound | hashproject/filelist.cpp:349-398 | a flush's jobs name rows it added, carry the buffered file at that row and the directory with a trailing separator |
| FileList.FlushJobsComplete | hashproject/filelist.cpp:349-398 | a flush emits a job for each unhashed buffered file at its new row |
| FileList.FlushConsistent | hashproject/filelist.cpp:362-368 | a flush keeps the counters consistent with the rows |
| FileList.Batching | hashproject/filelist.cpp:303-307 | while locked, a single file only waits until it is the 100th, and that file flushes the whole buffer |
| FileList.AddFiles | hashproject/filelist.cpp:289-296 | the last signal is noMoreFileJobs, and a locked list has an empty buffer afterwards |
| FileList.FileAdditionFinished | hashproject/filelist.cpp:314-318 | the last signal is noMoreFileJobs, and a locked list has an empty buffer afterwards |
| FileList.FinishedTwice | hashproject/filelist.cpp:314-318 | on an empty buffer, noMoreFileJobs is emitted twice and nothing else happens |
| FileList.AddEachPending | hashproject/filelist.cpp:303-307 | adding files one at a time keeps rows plus buffer equal to the old ones plus a row per file |
| FileList.BatchingInvisible | hashproject/filelist.cpp:289-318 | adding files singly and then finishing gives the same rows as adding them all at once |
| FileList.AddFilesFlushes | hashproject/filelist.cpp:289-296 | adding a batch gives the old rows followed by one row per buffered and added file |
| FileList.HashingFinished | hashproject/filelist.cpp:325-328 | only processingDone is emitted, and the list is unchanged |
| FileList.FileHashCalculated | hashproject/filelist.cpp:411-441 | an id outside the table is ignored; otherwise one size report, and every other row unchanged |
| FileList.FirstWriteWins | hashproject/filelist.cpp:415-421 | a primary result fills an empty hash cell upper-cased, and a second one for the same row changes nothing |
| FileList.VerifyVerdict | hashproject/filelist.cpp:422-436 | a verification is stored upper-cased; MATCH iff it equals the stored hash, INVALID otherwise; the counters grow to match |
| FileList.ResultConsistent | hashproject/filelist.cpp:411-441 | a non-empty result keeps the list consistent, provided a verification goes to a row not yet verified |
| FileList.Descending | hashproject/filelist.cpp:75-81 | the selected rows in range, each once, largest first |
| FileList.RemoveRows | hashproject/filelist.cpp:82-95 | truncating the trailing selected rows and then removing the rest from the largest down leaves exactly the unselected rows, in order |
| FileList.KeepTail | hashproject/filelist.cpp:84-92 | rows after every selected index survive unchanged |
| FileList.RemoveSelectedRows | hashproject/filelist.cpp:71-111 | as written: the unselected rows remain, the hash and verification counts are recounted, and the failure counter is left as it was |
| FileList.StaleFailureCount | hashproject/filelist.cpp:96-106 | removing the one INVALID row of a consistent list leaves a failure count of 1 with no failing row left |
| FileList.RemoveCorrectedConsistent | hashproject/filelist.cpp:96-106 | recounting failures as well keeps the list consistent after any removal |
| Hashing.Compute | workers/hasher.cpp:127-131 | the engine is chosen by the name (CRC32, otherwise the crypto wrapper), and only the CRC engine changes, by building its table |
| Hashing.HashFile | workers/hasher.cpp:121-137 | an aborted worker returns an empty hash and emits nothing; otherwise the hash of the base path plus the file name, emitted only for ids above -1 |
| Hashing.StartProcessWork | workers/hasher.cpp:98-101 | the abort flag is cleared and the engine kept |
| Hashing.NoMoreFiles | workers/hasher.cpp:108-111 | only scanFinished is emitted |
| Hashing.PathFor | workers/hasher.cpp:61-73 | an absolute name is kept; any other name is prefixed by the base path, with a separator inserted between them exactly when the base path does not already end in one |
| Hashing.HashProject | workers/hasher.cpp:48-93 | the signals are the planned per-row signals up to the abort, followed by exactly one scanFinished, which is the last signal |
| Hashing.PlannedSound | workers/hasher.cpp:65-91 | every planned result is for a selected row, with that row's algorithm in verify mode and the project's otherwise, hashed at the row's path |
| Hashing.PlannedComplete | workers/hasher.cpp:65-91 | every row gets its progress signal, and every selected row gets its result |
| Hashing.ProgressCounts | workers/hasher.cpp:90 | the progress values are 1, 2, ..., n in order |
| Hashing.HashingFills | workers/hasher.cpp:77-88 | after delivery every scanned row has a hash, rows that had one are unchanged, rows not reached are unchanged, and the list stays consistent |
| Hashing.HashingCompletes | workers/hasher.cpp:48-93 | a full hashing run without abort leaves the list consistent and its hashing complete |
| Hashing.VerifyingChecks | workers/hasher.cpp:77-88 | each hashed, unverified row gets its verification under its own algorithm, MATCH iff the stored hash equals it; other rows are unchanged |
| Hashing.FlushJobFills | hashproject/filelist.cpp:393-394 | a job from a flush names a row holding that file with an empty hash, and delivering its result fills that row's hash and algorithm |
| Finder.Abort | workers/filefinder.cpp:28-31 | the flag is raised and the engine kept |
| Hashing.Abort | workers/hasher.h:30 | the Hasher's own abort, the same as the FileFinder's: the flag is raised and the engine kept |
| Finder.StripBase | workers/filefinder.cpp:80 | the directory's length of characters is removed from the front; a shorter path becomes empty |
| Finder.Visit | workers/filefinder.cpp:76-86 | a file is named relative to the directory and hashed at once only under blocking hashing, with the project's algorithm |
| Finder.ScanProject | workers/filefinder.cpp:49-90 | without a project or a valid directory only scanFinished; otherwise one fileFound per file entry up to the abort, then scanFinished |
| Finder.ListedInOrder | workers/filefinder.cpp:69-88 | the found signals are one per non-directory entry, in the walk's order, never forced |
| Finder.ListedSound | workers/filefinder.cpp:69-88 | every found signal comes from a non-directory entry of the walk |
| Finder.FoundFileFacts | workers/filefinder.cpp:78-85 | a found file is named by its path inside the directory, keeps its size, and has a hash and algorithm exactly under blocking hashing |
| Source.SetPath | hashproject/sourcedirectory.cpp:27-35 | the path is stored, the flag follows the directory's existence, and pathStatusChanged is emitted with the new value exactly when the flag flips |
| Source.New | hashproject/sourcedirectory.cpp:14-21 | an empty path becomes the home directory, and a status signal is emitted exactly when that directory exists |
| Source.SetPathIdempotent | hashproject/sourcedirectory.cpp:27-35 | setting the same path again changes nothing and emits nothing |
| Source.GettersAfterSetPath | hashproject/sourcedirectory.cpp:41-53 | getPath and isValid report the path the last setPath stored and whether it named a directory then |
| Source.StatusesAlternate | hashproject/sourcedirectory.cpp:27-35 | over any run of paths, the statuses emitted alternate and the last one equals the final flag |
| Opening.OpenAsWritten | hashproject/hashproject.cpp:65-159 | as written: a held lock refuses the call and leaves the list alone; a missing file returns false with the list locked; a readable file whose text the 32-bit, no-blank-check reader fails on has no defined outcome; otherwise success exactly for an idle list and a readable file |
| Opening.MissingLocksOut | hashproject/hashproject.cpp:72-74 | as written, after a missing manifest every later open is refused and leaves the list as it is (until something else releases the lock, as clearing the list does) |
| Opening.BlankManifestUndefined | hashproject/hashproject.cpp:82-122 | as written, a readable manifest whose text ends with a line of spaces has no defined outcome, whatever the lines before it |
| Opening.Open | hashproject/hashproject.cpp:65-159 | lock release corrected: a defined outcome whenever the reader's dialect skips blank lines; success exactly for an idle list and a readable file; any failure leaves the lock as it was |
| Opening.OpenAgrees | hashproject/hashproject.cpp:65-159 | with the as-written reader, the corrected open differs from the one as written only for a missing manifest |
| Opening.FailedOpenRecovers | hashproject/hashproject.cpp:72-78 | after a failed open, the next open of any readable manifest succeeds |
| Opening.OpenLoads | hashproject/hashproject.cpp:80-159 | a successful open replaces the rows by one row per file that the corrected reader finds in the manifest's decoded text, in order, with an empty buffer and the list still locked |

## Left out

- Files, sockets and clocks: the file system is a map from paths to
  missing, unopenable or content.  The digest functions are a parameter.
  The banner line with the build and current dates in `saveFile`
  (hashproject.cpp:188-194) is not modelled: the saved lines start after it.
  Read back, that line is a comment longer than 36 characters, so the reader
  takes it as a size comment: the size is `toInt` of "Generated by" (0) and
  the name is the first token from column 36, a piece of the build stamp.  That slot gets
  no data line, so no file comes of it; it would change the result only for
  a saved row whose path equals that token.
- Threads and queued connections: each slot is a function from a state to
  a new state and its signals.  An abort from another thread is the index of
  the first loop poll that sees it.
- Crc32.HashFile: the table-driven loop is proved against the reflected
  shift register, the table construction and the standard check value.  A
  general proof that it equals the bitwise CRC for every input is not given.
- Hashing.HashingCompletes: stated for engines that never return an empty
  text.  Every engine has that property for digests of standard size
  (Hashing.EnginesNonEmpty).
- Hashing.HashProject: the check for a null project at hasher.cpp:57 comes
  after the project was already used at line 51, and the algorithm pointer is
  never null, so that exit is dead.  The model has no null project.
- FileList.RemoveHashesKeeps: when no hash is counted, `removeHashes`
  returns at once (filelist.cpp:253-255), so verifications, verdicts and
  algorithms are cleared only when hashes were counted.
- RoundTrip.SaveRead: the round trip is stated for paths, sizes, hashes and
  algorithms without a line break or carriage return (`Savable`).  A name
  holding one is written across two lines and does not read back
  (Lines.BreakSplits).  RoundTrip.SaveThenRead, RoundTrip.LargeSizeReadAsZero,
  Columns.IndexedRead and Columns.IndexedLosesHash rest on the same condition.
- FileList.ProcessBuffer: the rollback at filelist.cpp:389-392 is
  unreachable, because the lock is tested at line 339 and nothing in the loop
  releases it.  It is not modelled.
- Counters and ids are unbounded integers.  A 32-bit overflow would need
  more than 2^31 rows.
- `QDir::toNativeSeparators` and `QDir::separator()`: the separator is one
  fixed character '/'.
- Upper-casing is ASCII only.  The source uses `QString::toUpper`, which also
  maps other scripts.  Hash texts are ASCII hex either way.
- An unassigned `filesize` (the source leaves it uninitialised when no size
  comment names a file) is `None`, and it shows as an empty size cell.
- Writer.SizeLine: the column-36 layout is proved for sizes of at most 12
  characters, which covers every size below 10^12 bytes.
- The GUI: column visibility, fonts, colours, selection-to-display, the
  clipboard, key handling and the main window's wiring.  That wiring has a
  defect of its own: gui/mainwindow.cpp:282 connects
  `hashFile(int, HashProject::File, QString)`, a signature matching neither
  the FileList signal (filelist.h:49) nor the Hasher slot (hasher.h:34), so
  the hash-on-scan jobs of non-blocking hashing never reach the worker.
  Hashing.FlushJobFills models the delivery the code evidently intends.
- The text codec: `QTextStream` decodes the manifest with the locale's codec
  when reading (hashproject.cpp:82) and encodes with it when saving
  (hashproject.cpp:187).  File text is modelled as decoded characters, and
  Opening takes the decoding as a parameter.  Writer.SaveFile and
  RoundTrip.SaveRead are stated on that text, so the round trip holds only
  for characters that the locale codec maps to bytes and back unchanged.
- Opening.Open: setting the source and verification directories to the
  manifest's folder (hashproject.cpp:154-155) is not part of its result;
  Source.SetPath models that call.  The file list is cleared before the
  manifest is read (line 80), and a manifest on which the as-written reader
  has no defined outcome is modelled as `Undefined`, without the list.
- Hashing.PathFor: a name that starts with the separator is used as given;
  Windows drive paths are not modelled.

## Findings

| source | as written | input that shows it | evidently intended | confidence | as-written member | corrected member |
|---|---|---|---|---|---|---|
| hashproject/hashproject.cpp:136 | a size comment is read with a 32-bit `toInt()` | a size comment for a file of 3000000000 bytes reads back as size 0.  The writer as written puts the hash, not the size, in that field (the column finding below), so this shows with the corrected writer or a manifest written by another tool | sizes are read as 64-bit numbers | high; not executed | RoundTrip.LargeSizeReadAsZero | RoundTrip.SaveThenRead |
| hashproject/hashproject.cpp:121-124 | a blank line leaves no tokens, and `elements.first()` is taken from the empty list | a manifest with an empty line | blank lines are skipped | high; not executed | Manifest.BlankLineUndefined | Manifest.BlankLineSkipped |
| hashproject/hashproject.cpp:199-218 | `saveFile` reads columns 0, 1, 2, 3 and 6 as base path, name, size, hash and algorithm, but the list's columns are name, size, hash, verification, verdict and algorithm (0 to 5) | a hashed, unverified row "a.txt" of size 5 is saved as path "a.txt5" and reads back without a hash | columns 0, 1, 2 and 5 hold name, size, hash and algorithm | high; not executed | Columns.IndexedLosesHash | RoundTrip.SaveRead |
| hashproject/filelist.cpp:96-106 | `removeSelectedRows` recounts hashes and verifications but not failures | removing the only INVALID row of a two-row list still reports 1 invalid file | the failure counter is recounted as well | high; not executed | FileList.StaleFailureCount | FileList.RemoveCorrectedConsistent |
| hashproject/hashproject.cpp:72-74 | `openFile` returns false for a missing manifest without releasing the write lock it took | opening a path that does not exist on an idle list; every later open is then refused until the list is cleared or another action completes, which releases the lock (gui/mainwindow.cpp:553-554, 597) | the lock is released on that path as it is when opening fails | high; not executed | Opening.MissingLocksOut | Opening.FailedOpenRecovers |
