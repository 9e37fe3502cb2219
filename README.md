# Nearest-Flag batch scripts, modelled in Dafny

The repository has two batch scripts that run one after the other. Both use the directory `flags`.

- **`FlagRetriever`** gets the country listing, a JSON array. For each element it takes the flag's PNG URL and derives a country identifier from it: the text between the URL's last `/` and its last `.`, or the whole URL when those are missing or out of order. It then streams the image into `flags/<identifier>.png` through a 4096-byte buffer. A failed download is caught inside `downloadFlagImage`, so the loop goes on. An element without a `flags.png` string throws into the outer `catch` and ends the loop.
- **`FlagImageUploader`** lists the regular files of `flags` in the order the operating system gives. It reads each file into a `byte[]` of length `(int) file.length()` with one `read` call, which throws when that call returns -1. It then inserts a document `{country, flag}`, where the country is the file name without the text from its last dot, if that dot is not the first character. The first exception ends the whole run.

The project has five modules:

- `Common` (`common.dfy`) holds `Option`, `Result`, bytes and Java's `lastIndexOf`.
- `Streams` (`streams.dfy`) has an `InputStream` class. It models `read(b, off, len)`:
  - it returns 0 for `len == 0`;
  - otherwise it returns between 1 and `len` bytes, at most one packet at a time, where the packet sizes may differ from read to read;
  - it returns -1 at the end;
  - it throws `IOException` once the connection breaks.
- `FlagRetriever` (`flag_retriever.dfy`) models the retriever. The disk is a `FileStore` object, the image server is a map from URL to what it sends, and the parsed listing is a parameter.
- `FlagImageUploader` (`flag_image_uploader.dfy`) models the uploader. The directory listing is a `Directory` value and the file system a `Disk` map. The database collection is a `Collection` object whose inserts start failing at a chosen point.
- `Pipeline` (`pipeline.dfy`) relates the two scripts. A file written for a URL is read back by the uploader with the same country name.

Each loop of the source is a Dafny loop, proved against a function that gives its result:
- the copy loop of `downloadFlagImage`;
- the element loop of the retriever's `main`;
- the filter loop of `getFlagImageFilePaths`;
- the insert loop of the uploader's `main`.

Lemmas then state what the source promises about that function.

Three behaviours of the code are easy to miss:
- **Leading dot.** The uploader keeps a name whose only dot is at index 0 whole, so `.png` gives the country `.png`. The check in the code is `dotIndex > 0`.
- **File reading.** The uploader does not necessarily read the whole file. It makes one `read` into an array of the 32-bit-cast length. A short read leaves zeros at the end. A length of 2^31 or more wraps or makes the array size negative.
- **Retriever errors.** A download failure is isolated to its image. An element without a PNG URL ends the whole loop, together with the rest of the listing.

Any URL whose last segment is `.png` gives the empty identifier. The retriever then writes `flags/.png`, and the uploader reads it back as the country `.png`. `Pipeline.EmptyIdentifierComesBackAsDotPng` states this behaviour of the code as written.

## Model

All source paths are under `src/main/java/org/flagmatch/`.

| member | source | states |
|---|---|---|
| Common.LastIndexOf | src/main/java/org/flagmatch/FlagRetriever.java:83-84 | `lastIndexOf` returns -1 or an index of the string |
| Common.LastIndexBelow | src/main/java/org/flagmatch/FlagRetriever.java:83-84 | the backward scan below `n` returns -1 or an index below `n` |
| Common.LastIndexBelowSpec | src/main/java/org/flagmatch/FlagRetriever.java:83-84 | the scan returns -1 exactly when `c` does not occur below `n`; otherwise it returns an index holding `c` with no `c` after it below `n` |
| Common.LastIndexOfSpec | src/main/java/org/flagmatch/FlagImageUploader.java:108 | `lastIndexOf` returns -1 exactly when the character is absent; otherwise it returns the position of a `c` with no `c` after it |
| Common.LastIndexOfAt | src/main/java/org/flagmatch/FlagRetriever.java:83-84 | an index holding `c` with no `c` after it is the value of `lastIndexOf` |
| Streams.Delivered | src/main/java/org/flagmatch/FlagRetriever.java:68 | the bytes a reader gets are a prefix of the data, and all of it when the connection does not break |
| Streams.InputStream.constructor | src/main/java/org/flagmatch/FlagRetriever.java:64 | a freshly opened stream is at position 0 over the given data |
| Streams.InputStream.Read | src/main/java/org/flagmatch/FlagImageUploader.java:91 | `read(b, off, len)` has three outcomes. With `len == 0` it returns 0. At the end it returns -1, or throws when the stream broke. Otherwise it copies between 1 and `len` bytes, bounded by the size of the packet at the current position, into `b[off..]`, the next bytes of the stream in order. The rest of `b` is unchanged |
| FlagRetriever.ExtractCountryNameFromUrl | src/main/java/org/flagmatch/FlagRetriever.java:82-90 | the identifier is never longer than the URL |
| FlagRetriever.StemIffIndicesInOrder | src/main/java/org/flagmatch/FlagRetriever.java:85 | the guard on the two indices holds exactly when the URL has a last `/` followed later by its last `.` |
| FlagRetriever.UrlNameIsStem | src/main/java/org/flagmatch/FlagRetriever.java:85-86 | with such a stem, the identifier is exactly the text strictly between the last `/` and the last `.`, and it contains no `/` |
| FlagRetriever.UrlNameUnchangedIff | src/main/java/org/flagmatch/FlagRetriever.java:85-89 | the URL comes back unchanged exactly when it has no stem: no `/`, no `.`, or the dot before the slash |
| FlagRetriever.UrlNameIsInfix | src/main/java/org/flagmatch/FlagRetriever.java:82-90 | the identifier is always one contiguous piece of the URL |
| FlagRetriever.UrlNameRoundTrip | src/main/java/org/flagmatch/FlagRetriever.java:82-90 | from `base/name.ext`, with a slash-free name and a plain extension, the identifier is `name` |
| FlagRetriever.UrlNameExampleCanada | src/main/java/org/flagmatch/FlagRetriever.java:82-90 | `https://x/y/Canada.png` gives `Canada` |
| FlagRetriever.UrlNameExampleInnerDot | src/main/java/org/flagmatch/FlagRetriever.java:84-86 | only the last dot ends the identifier: `x/a.b.png` gives `a.b` |
| FlagRetriever.UrlNameExampleNoDot | src/main/java/org/flagmatch/FlagRetriever.java:87-89 | a URL without a dot, `https://x/y/weird`, comes back unchanged |
| FlagRetriever.TargetPath | src/main/java/org/flagmatch/FlagRetriever.java:49 | the file an image is saved to, `flags/<identifier>.png`; it has no contract of its own: FlagRetriever.FlagPath ties the loop's path to it, and FlagRetriever.TargetPathInFlagsDirectory and Pipeline.CountryNameSurvivesBothScripts state where it lies |
| FlagRetriever.ParentDirectory | src/main/java/org/flagmatch/FlagRetriever.java:65 | the directory `Files.newOutputStream` needs to exist; it has no contract of its own: FlagRetriever.ParentDirectorySplitsAtLastSlash states what it is |
| FlagRetriever.ParentDirectorySplitsAtLastSlash | src/main/java/org/flagmatch/FlagRetriever.java:65 | the directory a file is created in is "." for a bare name; otherwise it is everything before the last `/` |
| FlagRetriever.ParentOfJoin | src/main/java/org/flagmatch/FlagRetriever.java:65 | `dir/name`, with a slash-free name, lies directly in `dir` |
| FlagRetriever.ParentOfPngPath | src/main/java/org/flagmatch/FlagRetriever.java:49 | `dir/<id>.png`, with a slash-free id, lies directly in `dir` |
| FlagRetriever.TargetPathInFlagsDirectory | src/main/java/org/flagmatch/FlagRetriever.java:49 | for a URL with a stem, the target file lies directly in `flags` (the constant at line 27) |
| FlagRetriever.FileStore.constructor | src/main/java/org/flagmatch/FlagRetriever.java:65 | the disk starts with the given directories and files |
| FlagRetriever.FileStore.Create | src/main/java/org/flagmatch/FlagRetriever.java:65 | `Files.newOutputStream` succeeds exactly when the parent directory exists, and then truncates or creates the file as empty. Otherwise nothing changes |
| FlagRetriever.FileStore.Write | src/main/java/org/flagmatch/FlagRetriever.java:69 | `write(buffer, 0, n)` appends exactly `buffer[0..n]` to the file. No other file changes |
| FlagRetriever.OpenStream | src/main/java/org/flagmatch/FlagRetriever.java:64 | `openStream` throws exactly for a URL the server does not answer. Otherwise it gives a fresh stream at position 0 over what the server sends |
| FlagRetriever.DownloadCopiesWholeBody | src/main/java/org/flagmatch/FlagRetriever.java:63-74 | with both ends open and the connection intact, the file holds exactly the image, byte for byte. No other file changes |
| FlagRetriever.DownloadFlagImage | src/main/java/org/flagmatch/FlagRetriever.java:63-74 | the disk afterwards is the download's effect, with every exception swallowed. If the URL or the file cannot be opened, nothing changes. Otherwise the file holds what was received |
| FlagRetriever.CopyToFile | src/main/java/org/flagmatch/FlagRetriever.java:66-70 | the copy loop leaves the file holding exactly the bytes the stream delivered, in order: the whole body, or the bytes before the break. No other file changes |
| FlagRetriever.Plan | src/main/java/org/flagmatch/FlagRetriever.java:45-48 | the URLs downloaded are the elements' URLs in index order, up to the first element without one |
| FlagRetriever.PlanDeterminedByContract | src/main/java/org/flagmatch/FlagRetriever.java:45-48 | any URL list meeting those three facts is the plan |
| FlagRetriever.EmptyListingDownloadsNothing | src/main/java/org/flagmatch/FlagRetriever.java:45 | an empty array downloads nothing and leaves the disk unchanged |
| FlagRetriever.ApplyDownloadsSnoc | src/main/java/org/flagmatch/FlagRetriever.java:45-51 | one more loop pass acts on the disk the earlier passes left |
| FlagRetriever.TargetsSnoc | src/main/java/org/flagmatch/FlagRetriever.java:49 | one more URL adds exactly its own download call |
| FlagRetriever.ApplyDownloadsFrame | src/main/java/org/flagmatch/FlagRetriever.java:45-51 | a file no download targets keeps its presence and contents |
| FlagRetriever.ApplyDownloadsLastWriter | src/main/java/org/flagmatch/FlagRetriever.java:45-51 | a download that opens both ends leaves its file holding what the server sent, unless a later download targets the same path |
| FlagRetriever.ApplyDownloadsConcat | src/main/java/org/flagmatch/FlagRetriever.java:45-51 | running two batches in turn equals running their concatenation |
| FlagRetriever.FailedOpenLeavesNoTrace | src/main/java/org/flagmatch/FlagRetriever.java:71-73 | a download whose URL or file cannot be opened leaves the disk as if it had been skipped |
| FlagRetriever.FlagPath | src/main/java/org/flagmatch/FlagRetriever.java:49 | the path passed to `downloadFlagImage` is the URL's target `flags/<identifier>.png` |
| FlagRetriever.Run | src/main/java/org/flagmatch/FlagRetriever.java:34-55 | a failed listing fetch or parse downloads nothing. Otherwise the loop downloads exactly the planned URLs, in order, each to `flags/<identifier>.png`, and the disk is the downloads' effect. The loop stops at the first element without a URL and reports its index |
| FlagImageUploader.AbsolutePath | src/main/java/org/flagmatch/FlagImageUploader.java:70 | `getAbsolutePath()` of an entry of `flags`: the working directory, `flags` and the entry name joined by `/`; it has no contract of its own: FlagImageUploader.FilePathNameIgnoresDirectory and Pipeline.PngEntryNameRecovered state what the uploader reads back from it |
| FlagImageUploader.RegularFilePaths | src/main/java/org/flagmatch/FlagImageUploader.java:68-72 | the filter returns no more paths than there are entries |
| FlagImageUploader.RegularFilePathsInOrder | src/main/java/org/flagmatch/FlagImageUploader.java:68-72 | each path is the absolute path of a regular-file entry, in strictly increasing listing order, and every regular file gives a path. So the list is exactly the regular files, in listing order |
| FlagImageUploader.RegularFilePathsStep | src/main/java/org/flagmatch/FlagImageUploader.java:68-72 | handling one more entry keeps the correspondence between entries and paths |
| FlagImageUploader.RegularFilePathsAllFiles | src/main/java/org/flagmatch/FlagImageUploader.java:68-72 | a listing of regular files only gives one path per entry, position by position |
| FlagImageUploader.GetFlagImageFilePaths | src/main/java/org/flagmatch/FlagImageUploader.java:61-77 | a missing directory, a non-directory or a null listing gives the empty list. Otherwise the result is the regular files' absolute paths, in listing order |
| FlagImageUploader.FileName | src/main/java/org/flagmatch/FlagImageUploader.java:107 | `getName()`: the text after the last `/`; it has no contract of its own: FlagImageUploader.FileNameIsLastComponent and FlagImageUploader.FileNameOfJoin state what it is |
| FlagImageUploader.FileNameIsLastComponent | src/main/java/org/flagmatch/FlagImageUploader.java:107 | `getName` gives a slash-free suffix of the path, and the whole path when it has no `/` |
| FlagImageUploader.FileNameOfJoin | src/main/java/org/flagmatch/FlagImageUploader.java:107 | the name of `dir/name` is `name` |
| FlagImageUploader.ExtractCountryNameFromFilePath | src/main/java/org/flagmatch/FlagImageUploader.java:106-114 | `extractCountryNameFromFilePath`; it has no contract of its own: the FilePathName lemmas that follow state what it computes |
| FlagImageUploader.FilePathNameIsPrefix | src/main/java/org/flagmatch/FlagImageUploader.java:106-114 | the country is a prefix of the file name and holds no `/` |
| FlagImageUploader.FilePathNameStripsLastDot | src/main/java/org/flagmatch/FlagImageUploader.java:108-110 | with its last dot at index `k > 0`, the country is the name's first `k` characters |
| FlagImageUploader.FilePathNameUnchangedIff | src/main/java/org/flagmatch/FlagImageUploader.java:108-113 | the name comes back whole exactly when it has no dot after its first character |
| FlagImageUploader.FilePathNameIgnoresDirectory | src/main/java/org/flagmatch/FlagImageUploader.java:107 | the directory part never affects the country |
| FlagImageUploader.FilePathNameRoundTrip | src/main/java/org/flagmatch/FlagImageUploader.java:106-114 | `dir/stem.ext`, with a non-empty slash-free stem and a plain extension, gives `stem`, inner dots included |
| FlagImageUploader.FilePathNameExampleInnerDot | src/main/java/org/flagmatch/FlagImageUploader.java:108-110 | `a.b.png` gives `a.b` |
| FlagImageUploader.FilePathNameExampleFrance | src/main/java/org/flagmatch/FlagImageUploader.java:106-114 | `France.png` gives `France` |
| FlagImageUploader.FilePathNameExampleNoExtension | src/main/java/org/flagmatch/FlagImageUploader.java:111-113 | `noext` gives `noext` |
| FlagImageUploader.FilePathNameExampleLeadingDot | src/main/java/org/flagmatch/FlagImageUploader.java:109 | `.png` is kept whole, because its dot is at index 0 |
| FlagImageUploader.ToInt32 | src/main/java/org/flagmatch/FlagImageUploader.java:88 | the `(int)` cast of the `long` length; it has no contract of its own: FlagImageUploader.ToInt32Spec states what it is |
| FlagImageUploader.ToInt32Spec | src/main/java/org/flagmatch/FlagImageUploader.java:88 | the `(int)` cast lands in the 32-bit range, differs from the `long` by a multiple of 2^32, and keeps every `int` value |
| FlagImageUploader.FileBytes | src/main/java/org/flagmatch/FlagImageUploader.java:86-98 | a successful read happens only for a file on the disk, and gives an array of the cast length |
| FlagImageUploader.FileBytesEndOfFileIff | src/main/java/org/flagmatch/FlagImageUploader.java:91-94 | the end-of-file exception is thrown exactly for a non-empty array on a file with no bytes that has not failed at position 0 |
| FlagImageUploader.ConsistentFileReadsWhole | src/main/java/org/flagmatch/FlagImageUploader.java:86-98 | a file below 2^31 bytes whose length matches its contents, read in one packet, gives its exact contents |
| FlagImageUploader.FileBytesPrefixOfContent | src/main/java/org/flagmatch/FlagImageUploader.java:88-91 | whatever is read is a prefix of the file followed only by zeros |
| FlagImageUploader.FileBytesLengthWraps | src/main/java/org/flagmatch/FlagImageUploader.java:88 | a length of 2^32 + 3 gives a 3-byte array |
| FlagImageUploader.FileBytesNegativeSize | src/main/java/org/flagmatch/FlagImageUploader.java:88 | a length of 2^31 makes the array size negative and throws |
| FlagImageUploader.ReadImageFileAsBinary | src/main/java/org/flagmatch/FlagImageUploader.java:86-98 | allocating the array, opening the file and making one `read` gives the outcome `FileBytes` describes |
| FlagImageUploader.Collection.constructor | src/main/java/org/flagmatch/FlagImageUploader.java:37 | the collection starts with the given documents |
| FlagImageUploader.Collection.InsertOne | src/main/java/org/flagmatch/FlagImageUploader.java:47 | `insertOne` appends exactly the document while the server accepts it. Otherwise it throws and changes nothing |
| FlagImageUploader.UploadOne | src/main/java/org/flagmatch/FlagImageUploader.java:41-47 | one pass of the loop body: the document of the file's country and bytes, or the read's or the insert's exception; it has no contract of its own: FlagImageUploader.InsertFile is proved against it and FlagImageUploader.UploadHealthy states its healthy case |
| FlagImageUploader.InsertFile | src/main/java/org/flagmatch/FlagImageUploader.java:41-47 | the loop body's outcome is `UploadOne`. The collection grows by exactly that document on success and is unchanged otherwise |
| FlagImageUploader.ReportsDeterminesReport | src/main/java/org/flagmatch/FlagImageUploader.java:40-48 | at most one report fits a run of the loop |
| FlagImageUploader.Upload | src/main/java/org/flagmatch/FlagImageUploader.java:40-48 | document `k` is what path `k`'s loop body inserted, the collection then holding `k` more. There is no failure exactly when every path was done. Otherwise the failure is the first undone path's exception |
| FlagImageUploader.UploadStep | src/main/java/org/flagmatch/FlagImageUploader.java:40-48 | when pass `i` succeeds, its document is the next one in the report. When it throws, the loop stops at `i` with that exception |
| FlagImageUploader.UploadHealthy | src/main/java/org/flagmatch/FlagImageUploader.java:40-48 | with consistent files and room for every insert, nothing fails, and document `k` holds path `k`'s country and exact contents |
| FlagImageUploader.NothingListedNothingInserted | src/main/java/org/flagmatch/FlagImageUploader.java:61-77 | a missing, non-directory, unlistable or empty directory inserts nothing and raises nothing |
| FlagImageUploader.HealthyDirectoryUploadsEveryFile | src/main/java/org/flagmatch/FlagImageUploader.java:34-77 | `K` healthy regular files give exactly `K` documents, entry `k`'s country and contents, in listing order |
| FlagImageUploader.UploadNext | src/main/java/org/flagmatch/FlagImageUploader.java:40-48 | pass `i` extends the collection by the report's next document, or ends with the report's failure |
| FlagImageUploader.UploadAll | src/main/java/org/flagmatch/FlagImageUploader.java:40-53 | the loop appends exactly the report's documents to the collection, in order, and ends with the report's failure. What was inserted before an exception stays |
| FlagImageUploader.Run | src/main/java/org/flagmatch/FlagImageUploader.java:34-54 | `main` uploads exactly the listed paths. The collection gains the report's documents, and the run ends with its failure |
| Pipeline.PngEntryNameRecovered | src/main/java/org/flagmatch/FlagImageUploader.java:106-114 | an entry `<id>.png` of the flags directory, with a non-empty slash-free id, is read back as `id` |
| Pipeline.CountryNameSurvivesBothScripts | src/main/java/org/flagmatch/FlagRetriever.java:49 | for a URL with a stem (a last `/` followed later by its last `.`) and a non-empty identifier, the retriever writes the entry `<identifier>.png` of `flags`, and the uploader reads that identifier back as the country |
| Pipeline.EmptyIdentifierComesBackAsDotPng | src/main/java/org/flagmatch/FlagRetriever.java:82-90 | every URL ending in `/.png` gives the empty identifier and the file `flags/.png`, and the uploader reads that file back as the country `.png` |

## Left out

- The HTTP request for the listing and the JSON parsing are not modelled. The parsed array is a parameter (absent when the request or parse throws). Each element is its `flags.png` string, absent when `getJSONObject` or `getString` throws.
- The image server is a map from URL to body, packet size and break point. HTTP status handling, redirects and timeouts are not modelled.
- The MongoDB client is not modelled: its creation, connection and the host, port and database constants. The collection is an in-memory object whose inserts start failing when it holds a given number of documents. The driver connects lazily: an unreachable server shows up as the first `insertOne` throwing, which a collection that fails at its initial document count models.
- Console output, `printStackTrace` and the success message are I/O with no effect on the state.
- Closing streams and clients in `try`-with-resources is not modelled, nor any exception thrown by `close`.
- The path separator is fixed to `/`. Path normalisation, `Paths.get` parsing, a path ending in a separator, and the working-directory resolution of `getAbsolutePath` beyond prefixing it are not modelled.
- The order in which `listFiles` returns entries comes from the operating system and is taken as given.
- `FlagRetriever.FileStore.Write` never fails: an `IOException` while writing to the output file mid-copy is not modelled.
- `Files.newOutputStream` is modelled as failing only for a missing parent directory. Permissions and a path that is itself a directory are not modelled.
- `OutOfMemoryError` for a large array is not modelled: an array of any non-negative 32-bit size is allocated.
- `FlagRetriever.ExtractCountryNameFromUrl`: its own contract states only the length bound. What it computes is stated by the lemmas that follow it.
- `FlagImageUploader.FileBytes`: its own contract states only the length. Its contents, its exceptions and the whole-file case are in the lemmas that follow it.
- `Common.LastIndexOf`: its own contract states only the range -1 to `|s| - 1`. That it is the last index holding the character is stated by `Common.LastIndexOfSpec` and `Common.LastIndexOfAt`.
- `Common.LastIndexBelow`: its own contract states only the range below `n`. That it is the last occurrence below `n` is stated by `Common.LastIndexBelowSpec`.
- `FlagImageUploader.RegularFilePaths`: its own contract states only that there are no more paths than entries. That the paths are exactly the regular files, in listing order, is stated by `FlagImageUploader.RegularFilePathsInOrder`.
- `FlagRetriever.TargetPath`: it has no contract of its own. Its properties are in `FlagRetriever.FlagPath`, `FlagRetriever.TargetPathInFlagsDirectory` and `Pipeline.CountryNameSurvivesBothScripts`.
- `FlagRetriever.ParentDirectory`: it has no contract of its own. `FlagRetriever.ParentDirectorySplitsAtLastSlash` states what it is.
- `FlagImageUploader.AbsolutePath`: it has no contract of its own. `FlagImageUploader.FilePathNameIgnoresDirectory` and `Pipeline.PngEntryNameRecovered` state what is read back from it.
- `FlagImageUploader.FileName`: it has no contract of its own. `FlagImageUploader.FileNameIsLastComponent` and `FlagImageUploader.FileNameOfJoin` state what it is.
- `FlagImageUploader.ExtractCountryNameFromFilePath`: it has no contract of its own. The `FilePathName` lemmas that follow it state what it computes.
- `FlagImageUploader.ToInt32`: it has no contract of its own. `FlagImageUploader.ToInt32Spec` states what it is.
- `FlagImageUploader.UploadOne`: it has no contract of its own. `FlagImageUploader.InsertFile` is proved against it, and `FlagImageUploader.UploadHealthy` states its healthy case.
- Concurrency with other processes changing `flags` between the two scripts, or during one of them, is not modelled.
