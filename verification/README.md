# LocFileCreator core, modelled in Dafny

LocFileCreator scans a source directory for image files whose extension is
on an allow-list. The user selects some of them. For each selected file the
program writes a small "loc" file next to it, named `<file name>.loc`. That
file holds a link: a user-supplied base path joined to the file name.

This project models the program's non-UI logic: the static `Helper` class
and the `FileEntry` record it produces. The model is built from immutable
datatypes and pure functions, plus one method with a loop for the batch
writer.

| file | module | models |
|---|---|---|
| `wrappers.dfy` | `Wrappers` | `Option`, `Result` and the raised exceptions as an `Error` datatype |
| `text.dfy` | `Text` | ordinal `StartsWith`/`EndsWith`, the case-insensitive comparison, decimal rendering of a `long` |
| `size_format.dfy` | `SizeFormat` | `Helper.ToFileSizeString` |
| `file_entry.dfy` | `FileEntries` | `FileEntry`: constructor, explicit conversion, `Extension`, `Selected`, `SizeString` |
| `extension_catalog.dfy` | `ExtensionCatalog` | `Helper.LoadValidImageTypes` |
| `directory_scanner.dfy` | `DirectoryScanner` | `Helper.LoadFiles`, `Helper.GetValidFiles` |
| `loc_writer.dfy` | `LocWriter` | `Helper.CreateLocFile` |

The environment is abstracted as follows:
- The disk is a `Volume`: a map from each existing directory to its
  `Listing`. A listing is `Listed` with the top-level files, in the order
  the platform returns them, or `Unlistable` when `GetFiles` throws for a
  directory that exists (access denied, say).
- The stored type list (`ImageTypes.json`) is a `Store`. It is `Missing`,
  `Unreadable` (reading or deserialising it throws), or `Parsed` into a list
  of strings.
- The files the writer produces are a `map<string, string>` from path to
  content.
- `Path.Combine` and the file system's answer to each write are a
  `Platform` value. `Path.Combine` is an arbitrary function. The platform
  fixes one answer per destination path for the whole run, whatever the
  file held before; an existing read-only `.loc` file, for instance, is
  `Denied`. Each write has one of five outcomes:
  - `Stored`: the link reaches the file.
  - `Lost`: the file vanished before the `File.Exists` check, and the
    flush at `Dispose` reaches no file.
  - `Unconfirmed`: the file is still there, but `File.Exists` answers
    `false` (a transient error, say). The method returns `false`, and the
    flush at `Dispose` still writes the link.
  - `Denied`: opening the `StreamWriter` throws, and the file is left as it
    was.
  - `Interrupted(n)`: the writer opens and truncates the file, and the file
    is found. Then the flush in `Dispose`, at the end of the iteration,
    throws after `n` characters of the link reached the file. The exception
    leaves the method.
- A C# `null` argument is `None` of an `Option`. A thrown exception is
  `Failure` of a `Result`.

Some behaviour of the code is easy to misread; the model follows the code:
- `ToFileSizeString` accepts negative sizes and renders them as
  `"{size} Bytes"`.
- The KB figure is the whole number of kibibytes (`size / 1024` on a
  `long`). For example, 1536 bytes shows as 1.00 KB, not 1.50 KB. The MB
  and GB figures use floating-point division.
- A destination that cannot be opened for writing (read-only, say) does
  not make `CreateLocFile` return `false`. The `StreamWriter` constructor
  throws, and the exception leaves the method; the model reports it as
  `Failure(WriteDenied(path))`. The link is buffered and reaches the file
  only when the writer is disposed, after the `File.Exists` check. A flush
  that fails there also throws, leaving an empty or partial `.loc` file;
  the model reports it as `Failure(WriteFailed(path))`. `false` is returned
  only when `File.Exists` does not find the file right after it was opened.
  The file may then be absent, or still be there and receive its link.
- `LoadValidImageTypes` uses the default list only when the store file
  does not exist. A store that exists but cannot be read or parsed is an
  error.

## Model

| member | source | states |
|---|---|---|
| `SizeFormat.ToFileSizeString` | LocFileCreator/Helper.cs:27-42 | Bytes iff size < 1024 (negatives included), KB iff 1024 ≤ size < 1024², MB iff 1024² ≤ size < 1024³, GB iff size ≥ 1024³. The KB number is size / 1024 and MB/GB carry the size over 1024² or 1024³. Every `long` gets a labelled band, so the `default` branch is never taken |
| `FileEntries.SizeString` | LocFileCreator/DataObjects/FileEntry.cs:35 | the readable size always carries a band label. The band is Bytes iff the size is below 1024, and then the text is exactly "{size} Bytes" |
| `SizeFormat.BytesBandText` | LocFileCreator/Helper.cs:31-32 | below 1024 the text is exactly the decimal size followed by " Bytes", and the size can be read back from that text |
| `SizeFormat.KilobyteQuotient` | LocFileCreator/Helper.cs:33-34 | in the KB band the number is the whole count of kibibytes: 1 ≤ q ≤ 1023 and q·1024 ≤ size < (q+1)·1024 |
| `SizeFormat.BandMonotone` | LocFileCreator/Helper.cs:29-38 | a larger size never falls in a smaller band |
| `Text.DecimalRoundTrip` | LocFileCreator/Helper.cs:32 | the rendered `{size}` of any integer (sign included) parses back to that integer |
| `Text.EqualsIgnoreCasePointwise` | LocFileCreator/Helper.cs:79 | the case-insensitive comparison holds iff the lengths match and the characters match after ASCII case folding, position by position |
| `Text.LowerIdempotent` | LocFileCreator/Helper.cs:79 | case folding is idempotent, and a string compares equal, ignoring case, to its folded form |
| `FileEntries.ExtensionOf` | LocFileCreator/DataObjects/FileEntry.cs:17-20 | the extension is empty, or it starts with '.', has at least one more character, contains no other '.', and ends the name. It is empty iff the name has no '.' or ends with one |
| `FileEntries.LastDot` | LocFileCreator/DataObjects/FileEntry.cs:17-20 | finds the position of the last '.' in a name, or reports that there is none |
| `FileEntries.NameIsStemPlusExtension` | LocFileCreator/DataObjects/FileEntry.cs:17-20 | every name is its stem followed by its extension |
| `FileEntries.NewFileEntry` | LocFileCreator/DataObjects/FileEntry.cs:55-64 | a null file is `ArgumentNullException("file")` and nothing else is. Otherwise name, extension, full path and length are copied and `Selected` starts false |
| `FileEntries.FromFileInfo` | LocFileCreator/DataObjects/FileEntry.cs:70-73 | the explicit conversion is exactly the private constructor |
| `FileEntries.EntryOf` | LocFileCreator/DataObjects/FileEntry.cs:70-73 | converting a present file always succeeds and gives the constructor's entry |
| `FileEntries.WithSelected` | LocFileCreator/DataObjects/FileEntry.cs:40-49 | setting `Selected` changes that flag and no other field |
| `FileEntries.SizeStringDerived` | LocFileCreator/DataObjects/FileEntry.cs:35 | `SizeString` follows the size: toggling the selection does not change it, and below 1024 it is exactly "{size} Bytes" |
| `ExtensionCatalog.Normalise` | LocFileCreator/Helper.cs:96 | the result starts with '.', ends with the entry, and is at most one character longer. It has the entry's length iff the entry already started with '.' |
| `ExtensionCatalog.NormaliseAll` | LocFileCreator/Helper.cs:96 | length and order are kept, position by position. A dotted entry stays unchanged, and only a dotted entry does. Any other entry becomes exactly "." followed by the entry |
| `ExtensionCatalog.NormaliseExact` | LocFileCreator/Helper.cs:96 | a dotted entry is unchanged; any other entry gets exactly one '.' in front |
| `ExtensionCatalog.NormaliseAllIdempotent` | LocFileCreator/Helper.cs:96 | normalising twice equals normalising once |
| `ExtensionCatalog.NormaliseAllFixedPoints` | LocFileCreator/Helper.cs:96 | normalisation leaves a list unchanged iff every entry is already dotted |
| `ExtensionCatalog.LoadValidImageTypes` | LocFileCreator/Helper.cs:87-97 | a missing store gives `[".jpg", ".png", ".dds"]` in that order. An unreadable store is an error and never falls back to the default. A parsed store gives its own entries, normalised one by one in order (`NormaliseAll`), and every successful result is all dotted |
| `ExtensionCatalog.LoadMixedStore` | LocFileCreator/Helper.cs:92-96 | the stored list `["jpg", ".png", "DDS"]` loads as `[".jpg", ".png", ".DDS"]`: dotted, case kept |
| `DirectoryScanner.AnyMatches` | LocFileCreator/Helper.cs:79 | an extension is allowed iff some allow-list entry equals it, ignoring case |
| `DirectoryScanner.ValidIgnoresCase` | LocFileCreator/Helper.cs:79 | two spellings of an extension that differ only in ASCII case are both allowed or both not |
| `DirectoryScanner.FilterMapSelection` | LocFileCreator/Helper.cs:79-80 | `Where` then `Select` is an ordered selection. The witness indices rise strictly, each result is the converted element at its index, and an index is used iff its element passes the filter |
| `DirectoryScanner.KeptPicksResults` | LocFileCreator/Helper.cs:79-80 | each kept position points at the element whose conversion is the corresponding result |
| `DirectoryScanner.KeptIncreasing` | LocFileCreator/Helper.cs:79-80 | the kept positions are in range and strictly increasing (listing order is kept) |
| `DirectoryScanner.KeptExactly` | LocFileCreator/Helper.cs:79-80 | a position is kept iff its element passes the filter |
| `DirectoryScanner.KeepValidSelection` | LocFileCreator/Helper.cs:79-80 | the scan filter keeps exactly the files whose extension is allowed, ignoring case, in listing order, each converted to its entry |
| `DirectoryScanner.IsValid` | LocFileCreator/Helper.cs:79 | a file passes the scan's filter iff some allow-list entry equals its extension, ignoring case |
| `DirectoryScanner.KeepValid` | LocFileCreator/Helper.cs:79-80 | no more entries than listed files. Every kept entry is unselected, has an allowed extension, and names a listed file. Every listed file that passes the filter has its entry among the results. Order is stated by `KeepValidSelection` |
| `DirectoryScanner.GetValidFiles` | LocFileCreator/Helper.cs:69-81 | an empty listing gives an empty list for every store, even an unreadable one. Otherwise the call fails iff loading the types fails, and the result is no longer than the listing |
| `DirectoryScanner.LoadFiles` | LocFileCreator/Helper.cs:49-62 | a null or empty path is `ArgumentNullException("directory")`, checked first. A path that is not an existing directory is `DirectoryNotFoundException`, checked second. A directory whose listing throws gives `ListingFailed`. Only then is the directory's listing filtered |
| `DirectoryScanner.LoadFilesSelectsAllowed` | LocFileCreator/Helper.cs:57-61 | a scan of an existing, listable directory with a readable store succeeds and returns exactly the allowed files of the listing, in order |
| `DirectoryScanner.DefaultScanExample` | LocFileCreator/Helper.cs:49-61 | with the default list, a directory holding `a.jpg`, `b.txt`, `c.PNG` yields the entries for `a.jpg` and `c.PNG`, in that order |
| `LocWriter.ArtifactName` | LocFileCreator/Helper.cs:110 | the artifact name is the file name followed by ".loc" |
| `LocWriter.Link` | LocFileCreator/Helper.cs:111 | the link starts with the base path and ends with "/" + name. Its length shows exactly one '/' was inserted, or none if the base path already ended with '/' |
| `LocWriter.TrailingSlashIrrelevant` | LocFileCreator/Helper.cs:111 | a base path with and without one trailing '/' gives the same link |
| `LocWriter.Destination` | LocFileCreator/Helper.cs:110-112 | an artifact's path is `Path.Combine` of the source directory and the file name followed by ".loc". It depends on nothing else, not even the base path of the link |
| `LocWriter.RunFrom` | LocFileCreator/Helper.cs:106-123 | the reference run over the entries, in order: a writer that cannot be opened throws and leaves the file alone; a file that vanished before the existence check returns `false` and is absent; a file the check misses although it is there returns `false` and keeps its link; a flush that throws leaves the link's first characters and raises; a stored file holds its link and the run goes on. Its properties are stated by the `Run…` lemmas below |
| `LocWriter.CreateLocFile` | LocFileCreator/Helper.cs:106-123 | the loop's result and final files equal the recursive reference run. A `true` result means every entry's artifact was stored |
| `LocWriter.FirstFailure` | LocFileCreator/Helper.cs:108-119 | the first entry whose artifact is not stored; every earlier one was stored |
| `LocWriter.RunResult` | LocFileCreator/Helper.cs:108-122 | the result is `true` iff every artifact was stored (so an empty list gives `true`). Otherwise it is `false` iff the existence check missed the first failing artifact (`Lost` or `Unconfirmed`). It is that entry's `WriteDenied` exception when its writer could not be opened, and its `WriteFailed` exception when the final flush threw |
| `LocWriter.RunSucceedsIffStored` | LocFileCreator/Helper.cs:108-122 | the run returns `true` iff no entry's artifact failed |
| `LocWriter.RunFailsAtFirstFailure` | LocFileCreator/Helper.cs:114-119 | when some artifact fails, the answer is decided by the first failing one and its outcome alone |
| `LocWriter.RunStopsAtFirstFailure` | LocFileCreator/Helper.cs:118-119 | entries after the first failure are never processed: the run equals the run on the list cut just after it |
| `LocWriter.RunFrame` | LocFileCreator/Helper.cs:112-116 | no path outside the run's touched destinations changes |
| `LocWriter.TouchedAreDestinations` | LocFileCreator/Helper.cs:112 | every touched path is the computed `.loc` destination of some entry |
| `LocWriter.RunForgetsTouched` | LocFileCreator/Helper.cs:114-120 | on touched paths the final content does not depend on the earlier content, so writes overwrite rather than append |
| `LocWriter.RunResultIndependent` | LocFileCreator/Helper.cs:108-122 | for the same answers from the platform, the result does not depend on the files' earlier contents |
| `LocWriter.RunIdempotent` | LocFileCreator/Helper.cs:106-123 | running the writer again on its own output, with the same inputs and the same platform answers, gives the same files and the same result |
| `LocWriter.DistinctTail` | LocFileCreator/Helper.cs:112 | when destinations are pairwise distinct, the tail's run never touches the first entry's destination |
| `LocWriter.RunWritesPrefix` | LocFileCreator/Helper.cs:114-116 | with distinct destinations, every artifact before the first failure ends up holding exactly its entry's link. Earlier writes stay in place even when the batch fails (no rollback) |
| `LocWriter.RunLostIsAbsent` | LocFileCreator/Helper.cs:118-119 | when the first failure is a file that vanished before the existence check, that file is absent afterwards |
| `LocWriter.RunUnconfirmedKeepsLink` | LocFileCreator/Helper.cs:114-119 | when the first failure is a file the existence check missed although it is there, the run returns `false` and that file holds its link |
| `LocWriter.RunInterruptedLeavesPartial` | LocFileCreator/Helper.cs:114-120 | when the first failure is a flush that threw, the run raises that file's exception. The file stays behind holding only the first characters of its link, or none |
| `LocWriter.RunIgnoresTrailingSlash` | LocFileCreator/Helper.cs:111 | a whole run gives the same result with and without a trailing '/' on the base path |
| `LocWriter.SingleFileExample` | LocFileCreator/Helper.cs:110-116 | writing `a.jpg` with base `http://host/assets` creates `a.jpg.loc` in the source directory holding `http://host/assets/a.jpg`, and returns `true` |

## Left out

- Real file-system I/O (`Directory.Exists`, `DirectoryInfo.GetFiles`, `File.Exists`, `StreamWriter`, `File.ReadAllText`) is replaced by the abstract `Volume`, `Store` and `Platform` values. Listing order is whatever the `Volume` holds. The exception a failing listing raises is not told apart: every one is `ListingFailed`.
- `GetFiles("*.*")` is taken to return every top-level file. The platform's wildcard quirks are not modelled.
- JSON deserialisation (Newtonsoft) is not modelled. The model takes the parsed list, or `Unreadable` for any exception from reading or parsing. A JSON `null` document, or `null` elements inside the list, also throw in the code; they fall under `Unreadable`.
- `Path.Combine` is an arbitrary function of the platform. Separator rules and its exceptions for invalid path characters are not modelled.
- `Core.GetBaseFolder` and the `ImageTypesFile` path constant are not modelled: the store is passed in directly.
- `EqualsIgnoreCase` belongs to a library whose source is not part of this model. It is taken to be equality after ASCII case folding; non-ASCII case pairs are not folded.
- `StartsWith(".")` and `EndsWith("/")` are culture-sensitive in .NET. They are modelled as ordinal comparisons, so characters the culture ignores are not skipped.
- `FileInfo.Extension` is modelled on the file name alone: the suffix from the last '.', empty when there is no '.' or the name ends with one.
- SizeFormat.ToFileSizeString: the `N2` two-decimal, culture-dependent formatting and the `Math.Pow` floating-point divisions for MB and GB are not modelled. The model keeps the band, the suffix, the integer KB figure, and the MB/GB numerator and divisor. Only the Bytes text is produced exactly, and its number uses the invariant culture.
- The `files == null` branch of `GetValidFiles` is not modelled, because `LoadFiles` never passes null.
- LocWriter.CreateLocFile: a `null` base path or source directory is not modelled; both are plain strings here. The caller's guards (a non-empty base path, at least one selected entry) belong to the view model and are not preconditions here. The model accepts an empty list and returns `true`, as the code does.
- `Interrupted(n)` assumes that a failed flush leaves a prefix of the link in the file. The encoder's own byte-level behaviour, such as a partly written multi-byte character, is not modelled.
- LocWriter.RunWritesPrefix: the exact-content guarantee assumes pairwise distinct destinations. `Path.Combine` is arbitrary, so two names could combine to the same path, and then the later write wins.
- The view model, the window code-behind and the property-change notification machinery are UI plumbing and are not modelled. `Selected` is a plain field, updated by `WithSelected`.
- `FileEntry.Path` keeps `FileInfo.FullName` as given; path canonicalisation is not modelled.
