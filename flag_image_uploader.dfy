/**
 * The flag image uploader: lists the regular files of the `flags` directory,
 * reads each into a byte array sized by the file's reported length, and
 * inserts one `{country, flag}` document per file into the `flags` collection,
 * stopping at the first exception.
 *
 * The directory listing, the file system and the MongoDB collection are given
 * as values and objects: a `Directory` with its entries, a `Disk` map from
 * absolute path to what is stored there, and a `Collection` object.
 */
module FlagImageUploader {
  import opened Common
  import opened Streams

  /** The directory the images are read from, relative to the working directory. */
  const FlagsDirectory: string := "flags"

  // ------------------------------------------------------------------
  // Listing the flags directory
  // ------------------------------------------------------------------

  /** A name as `listFiles` reports it: a single path component. */
  type ComponentName = s: string | '/' !in s

  /** One entry of the listing: its name, and whether `isFile()` holds for it. */
  datatype Entry = Entry(name: ComponentName, isFile: bool)

  /**
   * What `new File("flags")` finds: nothing, something that is not a directory,
   * a directory whose `listFiles()` returns null, or a directory listing in the
   * order the operating system returns it.
   */
  datatype Directory = Missing | NotADirectory | Unlistable | Listing(entries: seq<Entry>)

  /** `getAbsolutePath()` of the entry `name` of the flags directory, the working directory being `workDir`. */
  function AbsolutePath(workDir: string, name: string): string
  {
    workDir + "/" + FlagsDirectory + "/" + name
  }

  /** The absolute paths of the entries that are regular files, in listing order. */
  function RegularFilePaths(workDir: string, entries: seq<Entry>): (paths: seq<string>)
    ensures |paths| <= |entries|
    decreases |entries|
  {
    if entries == [] then []
    else
      var rest := RegularFilePaths(workDir, entries[..|entries| - 1]);
      var last := entries[|entries| - 1];
      if last.isFile then rest + [AbsolutePath(workDir, last.name)] else rest
  }

  /** The list `getFlagImageFilePaths` returns for a directory: empty unless there is a listing. */
  function ListedFilePaths(workDir: string, directory: Directory): seq<string>
  {
    if directory.Listing? then RegularFilePaths(workDir, directory.entries) else []
  }

  /**
   * The file list is the listing's regular files and nothing else, in listing
   * order: path `t` comes from entry `idx[t]`, a regular file, with `idx`
   * strictly increasing; and the regular-file entry `k` gives path `pos[k]`.
   */
  lemma {:induction false} RegularFilePathsInOrder(workDir: string, entries: seq<Entry>)
    returns (idx: seq<nat>, pos: seq<nat>)
    ensures |idx| == |RegularFilePaths(workDir, entries)| && |pos| == |entries|
    ensures forall t :: 0 <= t < |idx| ==>
              idx[t] < |entries| && entries[idx[t]].isFile &&
              RegularFilePaths(workDir, entries)[t] == AbsolutePath(workDir, entries[idx[t]].name)
    ensures forall s, t :: 0 <= s < t < |idx| ==> idx[s] < idx[t]
    ensures forall k :: 0 <= k < |entries| && entries[k].isFile ==> pos[k] < |idx| && idx[pos[k]] == k
    decreases |entries|
  {
    if entries == [] {
      idx, pos := [], [];
    } else {
      var n := |entries| - 1;
      var front := entries[..n];
      var restIdx, restPos := RegularFilePathsInOrder(workDir, front);
      idx, pos := RegularFilePathsStep(workDir, entries, restIdx, restPos);
    }
  }

  /** The inductive step of `RegularFilePathsInOrder`: extend the positions of all but the last entry. */
  lemma RegularFilePathsStep(workDir: string, entries: seq<Entry>, restIdx: seq<nat>, restPos: seq<nat>)
    returns (idx: seq<nat>, pos: seq<nat>)
    requires entries != []
    requires var front, paths := entries[..|entries| - 1], RegularFilePaths(workDir, entries[..|entries| - 1]);
             && |restIdx| == |paths| && |restPos| == |front|
             && (forall t :: 0 <= t < |restIdx| ==>
                   restIdx[t] < |front| && front[restIdx[t]].isFile &&
                   paths[t] == AbsolutePath(workDir, front[restIdx[t]].name))
             && (forall s, t :: 0 <= s < t < |restIdx| ==> restIdx[s] < restIdx[t])
             && (forall k :: 0 <= k < |front| && front[k].isFile ==> restPos[k] < |restIdx| && restIdx[restPos[k]] == k)
    ensures |idx| == |RegularFilePaths(workDir, entries)| && |pos| == |entries|
    ensures forall t :: 0 <= t < |idx| ==>
              idx[t] < |entries| && entries[idx[t]].isFile &&
              RegularFilePaths(workDir, entries)[t] == AbsolutePath(workDir, entries[idx[t]].name)
    ensures forall s, t :: 0 <= s < t < |idx| ==> idx[s] < idx[t]
    ensures forall k :: 0 <= k < |entries| && entries[k].isFile ==> pos[k] < |idx| && idx[pos[k]] == k
  {
    var n := |entries| - 1;
    var front := entries[..n];
    var paths := RegularFilePaths(workDir, front);
    assert forall k :: 0 <= k < n ==> front[k] == entries[k];
    if entries[n].isFile {
      assert RegularFilePaths(workDir, entries) == paths + [AbsolutePath(workDir, entries[n].name)];
      idx, pos := restIdx + [n], restPos + [|restIdx|];
    } else {
      assert RegularFilePaths(workDir, entries) == paths;
      idx, pos := restIdx, restPos + [0];
    }
  }

  /** A listing of regular files only gives one path per entry, position by position. */
  lemma {:induction false} RegularFilePathsAllFiles(workDir: string, entries: seq<Entry>)
    requires forall k :: 0 <= k < |entries| ==> entries[k].isFile
    ensures |RegularFilePaths(workDir, entries)| == |entries|
    ensures forall k :: 0 <= k < |entries| ==>
              RegularFilePaths(workDir, entries)[k] == AbsolutePath(workDir, entries[k].name)
    decreases |entries|
  {
    if entries != [] {
      RegularFilePathsAllFiles(workDir, entries[..|entries| - 1]);
    }
  }

  /**
   * `getFlagImageFilePaths`: when the directory exists, is a directory and can
   * be listed, adds the absolute path of every regular file, in listing order.
   */
  method GetFlagImageFilePaths(workDir: string, directory: Directory) returns (filePaths: seq<string>)
    ensures filePaths == ListedFilePaths(workDir, directory)
  {
    filePaths := [];
    if directory.Listing? {
      var files := directory.entries;
      for k := 0 to |files|
        invariant filePaths == RegularFilePaths(workDir, files[..k])
      {
        assert files[..k + 1][..k] == files[..k];
        if files[k].isFile {
          filePaths := filePaths + [AbsolutePath(workDir, files[k].name)];
        }
      }
      assert files[..|files|] == files;
    }
  }

  // ------------------------------------------------------------------
  // The country name of a file
  // ------------------------------------------------------------------

  /** `new File(path).getName()`: the text after the last `/`, or the whole path when it has none. */
  function FileName(path: string): string
  {
    path[LastIndexOf(path, '/') + 1..]
  }

  /** The name is a slash-free suffix of the path, and the whole path when it has no `/`. */
  lemma FileNameIsLastComponent(path: string)
    ensures '/' !in FileName(path)
    ensures |FileName(path)| <= |path| && path[|path| - |FileName(path)|..] == FileName(path)
    ensures '/' !in path ==> FileName(path) == path
  {
    LastIndexOfSpec(path, '/');
  }

  /** The name of a path joined from a directory and a slash-free component is that component. */
  lemma FileNameOfJoin(dir: string, name: string)
    requires '/' !in name
    ensures FileName(dir + "/" + name) == name
  {
    var path := dir + "/" + name;
    assert path[|dir| + 1..] == name;
    LastIndexOfAt(path, '/', |dir|);
  }

  /** The name has a dot that is not its first character, so it has an extension to strip. */
  ghost predicate HasExtension(name: string)
  {
    exists k :: 0 < k < |name| && name[k] == '.'
  }

  /** `extractCountryNameFromFilePath`: the file name without the text from its last dot, when that dot is not at index 0. */
  function ExtractCountryNameFromFilePath(filePath: string): string
  {
    var fileName := FileName(filePath);
    var dotIndex := LastIndexOf(fileName, '.');
    if dotIndex > 0 then fileName[..dotIndex] else fileName
  }

  /** The country is always a prefix of the file name, so it never holds a `/`. */
  lemma FilePathNameIsPrefix(filePath: string)
    ensures ExtractCountryNameFromFilePath(filePath) <= FileName(filePath)
    ensures '/' !in ExtractCountryNameFromFilePath(filePath)
  {
    FileNameIsLastComponent(filePath);
    var name, country := FileName(filePath), ExtractCountryNameFromFilePath(filePath);
    assert forall i :: 0 <= i < |country| ==> country[i] == name[i];
  }

  /** With its last dot at index `k > 0`, the country is exactly the file name's first `k` characters. */
  lemma FilePathNameStripsLastDot(filePath: string, k: int)
    requires 0 < k < |FileName(filePath)|
    requires FileName(filePath)[k] == '.' && '.' !in FileName(filePath)[k + 1..]
    ensures ExtractCountryNameFromFilePath(filePath) == FileName(filePath)[..k]
  {
    LastIndexOfAt(FileName(filePath), '.', k);
  }

  /** The file name comes back unchanged exactly when it has no dot after its first character. */
  lemma FilePathNameUnchangedIff(filePath: string)
    ensures ExtractCountryNameFromFilePath(filePath) == FileName(filePath) <==> !HasExtension(FileName(filePath))
  {
    var name := FileName(filePath);
    LastIndexOfSpec(name, '.');
    var d := LastIndexOf(name, '.');
    if d > 0 {
      assert |ExtractCountryNameFromFilePath(filePath)| == d < |name|;
    }
  }

  /** Only the last path component counts: the directory part never affects the country. */
  lemma FilePathNameIgnoresDirectory(dir: string, name: string)
    requires '/' !in name
    ensures ExtractCountryNameFromFilePath(dir + "/" + name) == ExtractCountryNameFromFilePath(name)
  {
    FileNameOfJoin(dir, name);
    FileNameIsLastComponent(name);
  }

  /** A non-empty slash-free stem with a plain extension is recovered from `dir/stem.ext`, inner dots included. */
  lemma FilePathNameRoundTrip(dir: string, stem: string, ext: string)
    requires stem != [] && '/' !in stem && '/' !in ext && '.' !in ext
    ensures ExtractCountryNameFromFilePath(dir + "/" + stem + "." + ext) == stem
  {
    var name := stem + ['.'] + ext;
    var path := dir + "/" + name;
    assert dir + "/" + stem + "." + ext == path;
    assert '/' !in name;
    FileNameOfJoin(dir, name);
    assert name[|stem|] == '.' && name[|stem| + 1..] == ext;
    FilePathNameStripsLastDot(path, |stem|);
    assert name[..|stem|] == stem;
  }

  /** Only the last extension goes: `a.b.png` gives `a.b`. */
  lemma FilePathNameExampleInnerDot()
    ensures ExtractCountryNameFromFilePath("/w/flags/a.b.png") == "a.b"
  {
    assert "/w/flags" + "/" + "a.b" + "." + "png" == "/w/flags/a.b.png";
    FilePathNameRoundTrip("/w/flags", "a.b", "png");
  }

  /** The usual case: `France.png` gives `France`. */
  lemma FilePathNameExampleFrance()
    ensures ExtractCountryNameFromFilePath("/w/flags/France.png") == "France"
  {
    assert "/w/flags" + "/" + "France" + "." + "png" == "/w/flags/France.png";
    FilePathNameRoundTrip("/w/flags", "France", "png");
  }

  /** A name without a dot is kept whole. */
  lemma FilePathNameExampleNoExtension()
    ensures ExtractCountryNameFromFilePath("/w/flags/noext") == "noext"
  {
    var name := "noext";
    assert forall k :: 0 <= k < |name| ==> name[k] != '/' && name[k] != '.';
    assert "/w/flags" + "/" + name == "/w/flags/noext";
    FilePathNameIgnoresDirectory("/w/flags", name);
    FileNameIsLastComponent(name);
    FilePathNameUnchangedIff(name);
  }

  /** A name whose only dot is its first character, such as `.png`, is kept whole. */
  lemma FilePathNameExampleLeadingDot()
    ensures ExtractCountryNameFromFilePath(".png") == ".png"
  {
    var name := ".png";
    assert forall k :: 0 <= k < |name| ==> name[k] != '/';
    assert forall k :: 0 < k < |name| ==> name[k] != '.';
    FileNameIsLastComponent(name);
    FilePathNameUnchangedIff(name);
  }

  // ------------------------------------------------------------------
  // Reading one file
  // ------------------------------------------------------------------

  /**
   * What the disk holds at a path: the length `File.length()` reports, the bytes
   * a `FileInputStream` reads, the most bytes a `read` starting at each position
   * returns, and where reading fails with an `IOException`, if it does. The length and the bytes
   * are two separate queries of the file system and need not agree.
   */
  datatype StoredFile = StoredFile(length: nat, content: seq<byte>, packet: nat -> Positive, failsAt: Option<nat>)

  /** The files by absolute path; `File.length()` of any other path is 0, and opening it throws. */
  type Disk = map<string, StoredFile>

  /** A length and its contents agree, and one `read` of the whole length returns all of it. */
  predicate Consistent(f: StoredFile)
  {
    f.length == |f.content| <= f.packet(0) && !Drops(f.content, f.failsAt)
  }

  /** Java's `(int)` cast of a `long`: the low 32 bits, read as a two's complement number. */
  function ToInt32(x: int): int
  {
    var m := x % 0x1_0000_0000;
    if m < 0x8000_0000 then m else m - 0x1_0000_0000
  }

  /** The cast lands in the `int` range, differs from its argument by a multiple of 2^32, and keeps every `int` value. */
  lemma ToInt32Spec(x: int)
    ensures -0x8000_0000 <= ToInt32(x) < 0x8000_0000
    ensures (x - ToInt32(x)) % 0x1_0000_0000 == 0
    ensures -0x8000_0000 <= x < 0x8000_0000 ==> ToInt32(x) == x
  {
  }

  /** Why `readImageFileAsBinary` threw. */
  datatype ReadFailure = FileNotFound | NegativeArraySize | EndOfFile | ReadIoError

  /**
   * The outcome of `readImageFileAsBinary(filePath)`: an array of the length
   * the file reports, cast to `int`, filled by one `read` call and zero after
   * what that call delivered; or the exception on the way there.
   */
  function FileBytes(disk: Disk, filePath: string): (r: Result<seq<byte>, ReadFailure>)
    ensures r.Success? ==> filePath in disk && |r.value| == ToInt32(disk[filePath].length)
  {
    var n := if filePath in disk then ToInt32(disk[filePath].length) else 0;
    if n < 0 then Failure(NegativeArraySize)
    else if filePath !in disk then Failure(FileNotFound)
    else if n == 0 then Success([])
    else
      var f := disk[filePath];
      var limit := Limit(f.content, f.failsAt);
      if limit == 0 then (if Drops(f.content, f.failsAt) then Failure(ReadIoError) else Failure(EndOfFile))
      else
        var k := Min(Min(n, f.packet(0)), limit);
        Success(f.content[..k] + Zeros(n - k))
  }

  /** The end-of-file exception is raised exactly when a non-empty array meets a file with nothing to read. */
  lemma FileBytesEndOfFileIff(disk: Disk, filePath: string)
    ensures FileBytes(disk, filePath) == Failure(EndOfFile) <==>
              filePath in disk && 0 < ToInt32(disk[filePath].length) &&
              disk[filePath].content == [] && disk[filePath].failsAt != Some(0)
  {
  }

  /** A file whose length and contents agree is read whole. */
  lemma ConsistentFileReadsWhole(disk: Disk, filePath: string)
    requires filePath in disk && Consistent(disk[filePath])
    requires disk[filePath].length < 0x8000_0000
    ensures FileBytes(disk, filePath) == Success(disk[filePath].content)
  {
    var f := disk[filePath];
    assert f.content[..|f.content|] + Zeros(0) == f.content;
  }

  /** Whatever is read is the file's beginning, followed only by zeros. */
  lemma FileBytesPrefixOfContent(disk: Disk, filePath: string) returns (k: nat)
    requires FileBytes(disk, filePath).Success?
    ensures k <= |FileBytes(disk, filePath).value| && k <= |disk[filePath].content|
    ensures FileBytes(disk, filePath).value[..k] == disk[filePath].content[..k]
    ensures forall t :: k <= t < |FileBytes(disk, filePath).value| ==> FileBytes(disk, filePath).value[t] == 0
  {
    var f := disk[filePath];
    var n := ToInt32(f.length);
    if n == 0 {
      k := 0;
    } else {
      k := Min(Min(n, f.packet(0)), Limit(f.content, f.failsAt));
      var b := FileBytes(disk, filePath).value;
      assert b == f.content[..k] + Zeros(n - k);
      assert b[..k] == f.content[..k];
    }
  }

  /** A file reported 2^32 + 3 bytes long gives a 3-byte array: the length is cut to 32 bits. */
  lemma FileBytesLengthWraps(disk: Disk, filePath: string)
    requires filePath in disk && disk[filePath].length == 0x1_0000_0003
    requires FileBytes(disk, filePath).Success?
    ensures |FileBytes(disk, filePath).value| == 3
  {
  }

  /** A file reported 2^31 bytes long makes the array size negative. */
  lemma FileBytesNegativeSize(disk: Disk, filePath: string)
    requires filePath in disk && disk[filePath].length == 0x8000_0000
    ensures FileBytes(disk, filePath) == Failure(NegativeArraySize)
  {
  }

  /**
   * `readImageFileAsBinary`: allocates `new byte[(int) file.length()]`, opens
   * the file, makes one `read(fileData, 0, fileData.length)` and throws if it
   * returned -1.
   */
  method ReadImageFileAsBinary(disk: Disk, filePath: string) returns (r: Result<seq<byte>, ReadFailure>)
    ensures r == FileBytes(disk, filePath)
  {
    var length: nat := if filePath in disk then disk[filePath].length else 0;
    var n := ToInt32(length);
    if n < 0 {
      return Failure(NegativeArraySize);
    }
    var fileData := new byte[n](_ => 0);
    if filePath !in disk {
      return Failure(FileNotFound);
    }
    var f := disk[filePath];
    var fileInputStream := new InputStream(f.content, f.packet, f.failsAt);
    var bytesRead := fileInputStream.Read(fileData, 0, fileData.Length);
    if bytesRead.IoError? {
      return Failure(ReadIoError);
    }
    if bytesRead.EndOfStream? {
      return Failure(EndOfFile);
    }
    var k := bytesRead.n;
    assert fileData[..] == f.content[..k] + Zeros(n - k) by {
      assert fileData[..k] == f.content[..k];
      assert forall t :: k <= t < n ==> fileData[t] == 0;
    }
    r := Success(fileData[..]);
  }

  // ------------------------------------------------------------------
  // The collection and the upload loop
  // ------------------------------------------------------------------

  /** The document inserted for one file. */
  datatype Document = Document(country: string, flag: seq<byte>)

  /** The server still accepts an insert when the collection holds `count` documents. */
  predicate Accepting(outageAt: Option<nat>, count: nat)
  {
    outageAt.None? || count < outageAt.value
  }

  /** The `flags` collection; inserts fail once it holds `outageAt` documents, if ever. */
  class Collection {
    const outageAt: Option<nat>
    var documents: seq<Document>

    constructor (outageAt: Option<nat>, documents: seq<Document>)
      ensures this.outageAt == outageAt && this.documents == documents
    {
      this.outageAt := outageAt;
      this.documents := documents;
    }

    /** `insertOne(document)`: appends the document, or throws and changes nothing. */
    method InsertOne(document: Document) returns (ok: bool)
      modifies this
      ensures ok == Accepting(outageAt, |old(documents)|)
      ensures documents == if ok then old(documents) + [document] else old(documents)
    {
      ok := Accepting(outageAt, |documents|);
      if ok {
        documents := documents + [document];
      }
    }
  }

  /** The exception that ended the upload, with the file it happened on. */
  datatype UploadError = CannotRead(path: string, cause: ReadFailure) | CannotInsert(path: string)

  /**
   * One pass of the loop body on `path`, the collection holding `count`
   * documents: read the file, then insert its country and bytes; the document
   * inserted, or the first exception.
   */
  function UploadOne(path: string, disk: Disk, outageAt: Option<nat>, count: nat): Result<Document, UploadError>
  {
    match FileBytes(disk, path)
    case Failure(e) => Failure(CannotRead(path, e))
    case Success(flag) =>
      if Accepting(outageAt, count) then Success(Document(ExtractCountryNameFromFilePath(path), flag))
      else Failure(CannotInsert(path))
  }

  /** The loop body: `readImageFileAsBinary`, the document, `insertOne`. */
  method InsertFile(filePath: string, disk: Disk, collection: Collection) returns (outcome: Result<Document, UploadError>)
    modifies collection
    ensures outcome == UploadOne(filePath, disk, collection.outageAt, |old(collection.documents)|)
    ensures collection.documents ==
              if outcome.Success? then old(collection.documents) + [outcome.value] else old(collection.documents)
  {
    var flagData := ReadImageFileAsBinary(disk, filePath);
    if flagData.Failure? {
      return Failure(CannotRead(filePath, flagData.error));
    }
    var document := Document(ExtractCountryNameFromFilePath(filePath), flagData.value);
    var ok := collection.InsertOne(document);
    if !ok {
      return Failure(CannotInsert(filePath));
    }
    return Success(document);
  }

  /** The documents the loop inserted, and the exception that stopped it, if any. */
  datatype UploadReport = UploadReport(inserted: seq<Document>, failure: Option<UploadError>)

  /**
   * `report` is what the loop over `paths` leaves, the collection holding
   * `stored` documents when it starts: the documents of the first paths, each
   * the one its loop body inserted (the collection one document fuller each
   * time); no failure exactly when every path was done; otherwise the
   * exception of the first path not done.
   */
  ghost predicate Reports(report: UploadReport, paths: seq<string>, disk: Disk, outageAt: Option<nat>, stored: nat)
  {
    && |report.inserted| <= |paths|
    && (forall k :: 0 <= k < |report.inserted| ==>
          UploadOne(paths[k], disk, outageAt, stored + k) == Success(report.inserted[k]))
    && (report.failure.None? <==> |report.inserted| == |paths|)
    && (report.failure.Some? ==>
          UploadOne(paths[|report.inserted|], disk, outageAt, stored + |report.inserted|) ==
          Failure(report.failure.value))
  }

  /** At most one report fits a run: `Reports` pins the outcome of the loop down completely. */
  lemma ReportsDeterminesReport(r1: UploadReport, r2: UploadReport, paths: seq<string>, disk: Disk,
                                outageAt: Option<nat>, stored: nat)
    requires Reports(r1, paths, disk, outageAt, stored) && Reports(r2, paths, disk, outageAt, stored)
    ensures r1 == r2
  {
  }

  /**
   * The upload loop over `paths`, the collection holding `stored` documents
   * when it starts: the loop body's document for each path in order, until
   * the first path whose loop body throws; then nothing more.
   */
  function Upload(paths: seq<string>, disk: Disk, outageAt: Option<nat>, stored: nat): (report: UploadReport)
    ensures Reports(report, paths, disk, outageAt, stored)
    decreases |paths|
  {
    if paths == [] then UploadReport([], None)
    else
      match UploadOne(paths[0], disk, outageAt, stored)
      case Failure(e) => UploadReport([], Some(e))
      case Success(document) =>
        var rest := Upload(paths[1..], disk, outageAt, stored + 1);
        assert forall k :: 0 < k < |paths| ==> paths[1..][k - 1] == paths[k];
        UploadReport([document] + rest.inserted, rest.failure)
  }

  /**
   * One step of the loop, against its report: when path `i`'s loop body
   * succeeds, its document is the next one inserted; when it throws, the loop
   * stops there with that exception.
   */
  lemma UploadStep(report: UploadReport, paths: seq<string>, disk: Disk, outageAt: Option<nat>, stored: nat, i: nat,
                   outcome: Result<Document, UploadError>)
    requires Reports(report, paths, disk, outageAt, stored)
    requires i < |paths| && i <= |report.inserted|
    requires outcome == UploadOne(paths[i], disk, outageAt, stored + i)
    ensures outcome.Success? ==>
              i < |report.inserted| && report.inserted[..i + 1] == report.inserted[..i] + [outcome.value]
    ensures outcome.Failure? ==> i == |report.inserted| && report.failure == Some(outcome.error)
  {
    if outcome.Success? {
      PrefixSnoc(report.inserted, i);
    }
  }

  /** A prefix one longer is the prefix and the next element. */
  lemma PrefixSnoc<T>(s: seq<T>, i: nat)
    requires i < |s|
    ensures s[..i + 1] == s[..i] + [s[i]]
  {
  }

  /** With every file consistent and room for every insert, each path gives its document, country and contents. */
  lemma UploadHealthy(paths: seq<string>, disk: Disk, outageAt: Option<nat>, stored: nat)
    requires forall k :: 0 <= k < |paths| ==>
               paths[k] in disk && Consistent(disk[paths[k]]) && disk[paths[k]].length < 0x8000_0000
    requires outageAt.None? || stored + |paths| <= outageAt.value
    ensures Upload(paths, disk, outageAt, stored).failure.None?
    ensures forall k :: 0 <= k < |paths| ==>
              Upload(paths, disk, outageAt, stored).inserted[k] ==
              Document(ExtractCountryNameFromFilePath(paths[k]), disk[paths[k]].content)
  {
    forall k | 0 <= k < |paths|
      ensures UploadOne(paths[k], disk, outageAt, stored + k) ==
              Success(Document(ExtractCountryNameFromFilePath(paths[k]), disk[paths[k]].content))
    {
      ConsistentFileReadsWhole(disk, paths[k]);
    }
  }

  /** A missing, unreadable or empty directory gives no paths, so the loop inserts nothing and nothing fails. */
  lemma NothingListedNothingInserted(workDir: string, directory: Directory, disk: Disk, outageAt: Option<nat>,
                                     stored: nat)
    requires !directory.Listing? || directory.entries == []
    ensures Upload(ListedFilePaths(workDir, directory), disk, outageAt, stored) == UploadReport([], None)
  {
  }

  /**
   * A directory of `K` regular files, each consistent and at its absolute path
   * on the disk, with room for `K` inserts, gets exactly `K` documents: entry
   * `k`'s country and its exact contents, in listing order, and no failure.
   */
  lemma HealthyDirectoryUploadsEveryFile(workDir: string, entries: seq<Entry>, disk: Disk, outageAt: Option<nat>,
                                         stored: nat)
    requires forall k :: 0 <= k < |entries| ==> entries[k].isFile
    requires forall k :: 0 <= k < |entries| ==>
               var p := AbsolutePath(workDir, entries[k].name);
               p in disk && Consistent(disk[p]) && disk[p].length < 0x8000_0000
    requires outageAt.None? || stored + |entries| <= outageAt.value
    ensures var report := Upload(ListedFilePaths(workDir, Listing(entries)), disk, outageAt, stored);
            && report.failure.None?
            && |report.inserted| == |entries|
            && forall k :: 0 <= k < |entries| ==>
                 var p := AbsolutePath(workDir, entries[k].name);
                 report.inserted[k] == Document(ExtractCountryNameFromFilePath(p), disk[p].content)
  {
    var paths := ListedFilePaths(workDir, Listing(entries));
    RegularFilePathsAllFiles(workDir, entries);
    UploadHealthy(paths, disk, outageAt, stored);
  }

  /**
   * The loop of `main` over the listed paths: runs the loop body on each path
   * in order; the first exception ends the loop, and what was inserted before
   * it stays in the collection.
   */
  method UploadAll(flagsList: seq<string>, disk: Disk, collection: Collection)
    returns (failure: Option<UploadError>)
    modifies collection
    ensures var report := Upload(flagsList, disk, collection.outageAt, |old(collection.documents)|);
            collection.documents == old(collection.documents) + report.inserted &&
            failure == report.failure
  {
    ghost var before := collection.documents;
    ghost var report := Upload(flagsList, disk, collection.outageAt, |before|);
    for i := 0 to |flagsList|
      invariant i <= |report.inserted|
      invariant collection.documents == before + report.inserted[..i]
    {
      var outcome := UploadNext(flagsList, i, disk, collection, before, report);
      if outcome.Failure? {
        return Some(outcome.error);
      }
    }
    assert report.inserted[..|flagsList|] == report.inserted;
    failure := None;
  }

  /** Pass `i` of the loop, against the report of the whole loop. */
  method UploadNext(flagsList: seq<string>, i: nat, disk: Disk, collection: Collection,
                    ghost before: seq<Document>, ghost report: UploadReport)
    returns (outcome: Result<Document, UploadError>)
    requires Reports(report, flagsList, disk, collection.outageAt, |before|)
    requires i < |flagsList| && i <= |report.inserted|
    requires collection.documents == before + report.inserted[..i]
    modifies collection
    ensures outcome.Success? ==> i + 1 <= |report.inserted| && collection.documents == before + report.inserted[..i + 1]
    ensures outcome.Failure? ==> collection.documents == before + report.inserted && report.failure == Some(outcome.error)
  {
    assert |collection.documents| == |before| + i;
    outcome := InsertFile(flagsList[i], disk, collection);
    UploadStep(report, flagsList, disk, collection.outageAt, |before|, i, outcome);
  }

  /** `main`: lists the flags directory, then uploads every listed file. */
  method Run(workDir: string, directory: Directory, disk: Disk, collection: Collection)
    returns (failure: Option<UploadError>)
    modifies collection
    ensures var report := Upload(ListedFilePaths(workDir, directory), disk, collection.outageAt,
                                 |old(collection.documents)|);
            collection.documents == old(collection.documents) + report.inserted &&
            failure == report.failure
  {
    var flagsList := GetFlagImageFilePaths(workDir, directory);
    failure := UploadAll(flagsList, disk, collection);
  }
}
