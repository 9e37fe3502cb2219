/**
 * The flag retriever: for each element of the country listing it derives a
 * country identifier from the flag's PNG URL and streams the image into
 * `flags/<identifier>.png`, one 4096-byte buffer at a time.
 *
 * The HTTP listing request and JSON parsing are abstracted to the parsed
 * array (or its absence); the image server is a map from URL to what it
 * sends; the local disk is a `FileStore` object.
 */
module FlagRetriever {
  import opened Common
  import opened Streams

  /** The directory the images are written to. */
  const FlagsDirectory: string := "flags"
  /** The size of the copy buffer. */
  const BufferSize: nat := 4096

  // ------------------------------------------------------------------
  // Identifier derivation
  // ------------------------------------------------------------------

  /** `i` is the last `/` of `url`, `j` its last `.`, and the dot comes after the slash. */
  ghost predicate StemBounds(url: string, i: int, j: int)
  {
    && 0 <= i < j < |url|
    && url[i] == '/' && url[j] == '.'
    && '/' !in url[i + 1..] && '.' !in url[j + 1..]
  }

  /** The URL's last path segment carries an extension, so an identifier can be cut out of it. */
  ghost predicate HasStem(url: string)
  {
    exists i, j :: StemBounds(url, i, j)
  }

  /** `extractCountryNameFromUrl`: the text between the last `/` and the last `.`, or the whole URL. */
  function ExtractCountryNameFromUrl(flagUrl: string): (name: string)
    ensures |name| <= |flagUrl|
  {
    var lastSlashIndex := LastIndexOf(flagUrl, '/');
    var lastDotIndex := LastIndexOf(flagUrl, '.');
    if lastSlashIndex != -1 && lastDotIndex != -1 && lastDotIndex > lastSlashIndex then
      flagUrl[lastSlashIndex + 1..lastDotIndex]
    else
      flagUrl
  }

  /** The Java guard on the two indices holds exactly when the URL has a stem. */
  lemma StemIffIndicesInOrder(url: string)
    ensures HasStem(url) <==>
              (LastIndexOf(url, '/') != -1 && LastIndexOf(url, '.') != -1 &&
               LastIndexOf(url, '.') > LastIndexOf(url, '/'))
  {
    LastIndexOfSpec(url, '/');
    LastIndexOfSpec(url, '.');
    var s, d := LastIndexOf(url, '/'), LastIndexOf(url, '.');
    if s != -1 && d != -1 && d > s {
      assert StemBounds(url, s, d);
    }
    if HasStem(url) {
      var i, j :| StemBounds(url, i, j);
      LastIndexOfAt(url, '/', i);
      LastIndexOfAt(url, '.', j);
    }
  }

  /** With a stem, the identifier is exactly the text strictly between the last `/` and the last `.`. */
  lemma UrlNameIsStem(url: string, i: int, j: int)
    requires StemBounds(url, i, j)
    ensures ExtractCountryNameFromUrl(url) == url[i + 1..j]
    ensures '/' !in ExtractCountryNameFromUrl(url)
  {
    LastIndexOfAt(url, '/', i);
    LastIndexOfAt(url, '.', j);
    assert url[i + 1..j] == url[i + 1..][..j - i - 1];
  }

  /** The URL comes back unchanged exactly when it has no stem (no `/`, no `.`, or the dot before the slash). */
  lemma UrlNameUnchangedIff(url: string)
    ensures ExtractCountryNameFromUrl(url) == url <==> !HasStem(url)
  {
    StemIffIndicesInOrder(url);
  }

  /** The identifier is always one contiguous piece of the URL. */
  lemma UrlNameIsInfix(url: string)
    ensures IsInfix(ExtractCountryNameFromUrl(url), url)
  {
    var s, d := LastIndexOf(url, '/'), LastIndexOf(url, '.');
    if s != -1 && d != -1 && d > s {
      assert url[s + 1..d] == ExtractCountryNameFromUrl(url);
    } else {
      assert url[0..|url|] == url;
    }
  }

  /** Building a URL from a directory, a slash-free name and a plain extension, and extracting, gives the name back. */
  lemma UrlNameRoundTrip(base: string, name: string, ext: string)
    requires '/' !in name && '/' !in ext && '.' !in ext
    ensures ExtractCountryNameFromUrl(base + "/" + name + "." + ext) == name
  {
    var url := base + "/" + name + "." + ext;
    var i, j := |base|, |base| + 1 + |name|;
    assert url[i + 1..] == name + "." + ext;
    assert url[j + 1..] == ext;
    assert url[i + 1..j] == name;
    UrlNameIsStem(url, i, j);
  }

  /** A typical flag URL gives the country code between the last `/` and the `.png`. */
  lemma UrlNameExampleCanada()
    ensures ExtractCountryNameFromUrl("https://x/y/Canada.png") == "Canada"
  {
    assert "https://x/y" + "/" + "Canada" + "." + "png" == "https://x/y/Canada.png";
    UrlNameRoundTrip("https://x/y", "Canada", "png");
  }

  /** Only the last dot ends the identifier: inner dots stay in it. */
  lemma UrlNameExampleInnerDot()
    ensures ExtractCountryNameFromUrl("x/a.b.png") == "a.b"
  {
    assert "x" + "/" + "a.b" + "." + "png" == "x/a.b.png";
    UrlNameRoundTrip("x", "a.b", "png");
  }

  /** A URL without any dot comes back unchanged. */
  lemma UrlNameExampleNoDot()
    ensures ExtractCountryNameFromUrl("https://x/y/weird") == "https://x/y/weird"
  {
    var weird := "https://x/y/weird";
    assert forall k :: 0 <= k < |weird| ==> weird[k] != '.';
    LastIndexOfSpec(weird, '.');
  }

  /** The file an image is saved to: `flags/<identifier>.png`. */
  function TargetPath(flagUrl: string): string
  {
    FlagsDirectory + "/" + ExtractCountryNameFromUrl(flagUrl) + ".png"
  }

  // ------------------------------------------------------------------
  // The local disk
  // ------------------------------------------------------------------

  /** The directory part of a path: the text before its last `/`, or "." when it has none. */
  function ParentDirectory(path: string): string
  {
    var i := LastIndexOf(path, '/');
    if i == -1 then "." else path[..i]
  }

  /** The directory part is "." for a bare name, and otherwise what precedes a last `/`. */
  lemma ParentDirectorySplitsAtLastSlash(path: string)
    ensures '/' !in path ==> ParentDirectory(path) == "."
    ensures '/' in path ==>
              var dir := ParentDirectory(path);
              |dir| < |path| && path[..|dir|] == dir && path[|dir|] == '/' && '/' !in path[|dir| + 1..]
  {
    LastIndexOfSpec(path, '/');
  }

  /** Joining a directory and a slash-free name with `/` gives a path whose parent is that directory. */
  lemma ParentOfJoin(dir: string, name: string)
    requires '/' !in name
    ensures ParentDirectory(dir + "/" + name) == dir
  {
    var path := dir + "/" + name;
    assert path[|dir| + 1..] == name;
    LastIndexOfAt(path, '/', |dir|);
    assert path[..|dir|] == dir;
  }

  /** A `<dir>/<id>.png` path with a slash-free identifier lies directly in `dir`. */
  lemma ParentOfPngPath(dir: string, id: string)
    requires '/' !in id
    ensures ParentDirectory(dir + "/" + id + ".png") == dir
  {
    var name := id + ".png";
    assert '/' !in name by {
      assert forall k :: 0 <= k < |".png"| ==> ".png"[k] != '/';
    }
    assert dir + "/" + id + ".png" == dir + "/" + name;
    ParentOfJoin(dir, name);
  }

  /** A target path of a URL with a stem lies directly in the flags directory. */
  lemma TargetPathInFlagsDirectory(flagUrl: string)
    requires HasStem(flagUrl)
    ensures ParentDirectory(TargetPath(flagUrl)) == FlagsDirectory
  {
    var i, j :| StemBounds(flagUrl, i, j);
    UrlNameIsStem(flagUrl, i, j);
    ParentOfPngPath(FlagsDirectory, ExtractCountryNameFromUrl(flagUrl));
  }

  /**
   * The files of the working directory. A file can be created (or truncated)
   * only inside a directory that exists; the script never creates directories.
   */
  class FileStore {
    const dirs: set<string>
    var files: map<string, seq<byte>>

    constructor (dirs: set<string>, files: map<string, seq<byte>>)
      ensures this.dirs == dirs && this.files == files
    {
      this.dirs := dirs;
      this.files := files;
    }

    /** `Files.newOutputStream(path)`: creates or truncates the file, or throws. */
    method Create(path: string) returns (ok: bool)
      modifies this
      ensures ok == (ParentDirectory(path) in dirs)
      ensures files == if ok then old(files)[path := []] else old(files)
    {
      ok := ParentDirectory(path) in dirs;
      if ok {
        files := files[path := []];
      }
    }

    /** `write(buffer, off, len)` on an open output stream: appends `buffer[off..off + len]`. */
    method Write(path: string, buffer: array<byte>, off: nat, len: nat)
      requires path in files && off + len <= buffer.Length
      modifies this
      ensures files == old(files)[path := old(files)[path] + buffer[off..off + len]]
    {
      files := files[path := files[path] + buffer[off..off + len]];
    }
  }

  // ------------------------------------------------------------------
  // Downloading one image
  // ------------------------------------------------------------------

  /** What the image server sends for a URL: the body, its packet sizes by position, and where the connection breaks. */
  datatype Resource = Resource(body: seq<byte>, packet: nat -> Positive, dropAt: Option<nat>)

  /** URLs the server answers; opening any other URL throws. */
  type Network = map<string, Resource>

  /** The bytes a download of the resource receives before the end or the break. */
  function Received(res: Resource): seq<byte>
  {
    Delivered(res.body, res.dropAt)
  }

  /** `new URL(imageUrl).openStream()`. */
  method OpenStream(net: Network, imageUrl: string) returns (s: InputStream?)
    ensures s == null <==> imageUrl !in net
    ensures s != null ==> fresh(s) && s.Valid() && s.pos == 0 &&
                          s.data == net[imageUrl].body && s.packet == net[imageUrl].packet &&
                          s.dropAt == net[imageUrl].dropAt
  {
    if imageUrl !in net {
      return null;
    }
    var res := net[imageUrl];
    s := new InputStream(res.body, res.packet, res.dropAt);
  }

  /**
   * The disk after one `downloadFlagImage(url, path)`: nothing changes when the
   * URL cannot be opened or the file cannot be created; otherwise the file holds
   * what was received, the whole body or, after a broken connection, the bytes
   * before the break.
   */
  function DownloadEffect(net: Network, url: string, path: string, dirs: set<string>,
                          files: map<string, seq<byte>>): map<string, seq<byte>>
  {
    if url in net && ParentDirectory(path) in dirs then files[path := Received(net[url])]
    else files
  }

  /** A download whose connection does not break writes the image byte for byte, and touches no other file. */
  lemma DownloadCopiesWholeBody(net: Network, url: string, path: string, dirs: set<string>,
                                files: map<string, seq<byte>>)
    requires url in net && ParentDirectory(path) in dirs && !Drops(net[url].body, net[url].dropAt)
    ensures var after := DownloadEffect(net, url, path, dirs, files);
            && path in after && after[path] == net[url].body
            && forall p :: p != path ==> (p in after <==> p in files) && (p in files ==> after[p] == files[p])
  {
  }

  /**
   * `downloadFlagImage`: opens the URL, then the file, then copies through a
   * 4096-byte buffer until `read` returns -1. Every exception is caught here,
   * so the caller only sees the effect on the disk.
   */
  method DownloadFlagImage(net: Network, imageUrl: string, filePath: string, fs: FileStore)
    modifies fs
    ensures fs.files == DownloadEffect(net, imageUrl, filePath, fs.dirs, old(fs.files))
  {
    var input := OpenStream(net, imageUrl);
    if input == null {
      return;
    }
    var created := fs.Create(filePath);
    if !created {
      return;
    }
    CopyToFile(input, fs, filePath);
  }

  /**
   * The copy loop of `downloadFlagImage`: read into a 4096-byte buffer and
   * write the bytes read, until `read` returns -1 (or throws, which ends the
   * copy with the bytes before the break written).
   */
  method CopyToFile(input: InputStream, fs: FileStore, filePath: string)
    requires input.Valid() && input.pos == 0
    requires filePath in fs.files && fs.files[filePath] == []
    modifies input, fs
    ensures fs.files == old(fs.files)[filePath := Delivered(input.data, input.dropAt)]
  {
    var buffer := new byte[BufferSize];
    ghost var written := 0;
    var bytesRead := input.Read(buffer, 0, buffer.Length);
    while bytesRead.Count?
      invariant input.Valid() && 0 <= written <= input.pos <= |input.data|
      invariant fs.files == old(fs.files)[filePath := input.data[..written]]
      invariant bytesRead.Count? ==>
                  1 <= bytesRead.n <= buffer.Length && written + bytesRead.n == input.pos &&
                  buffer[..bytesRead.n] == input.data[written..input.pos]
      invariant !bytesRead.Count? ==> written == input.pos == Limit(input.data, input.dropAt)
      decreases Limit(input.data, input.dropAt) - input.pos + (if bytesRead.Count? then 1 else 0)
    {
      fs.Write(filePath, buffer, 0, bytesRead.n);
      assert input.data[..written] + input.data[written..input.pos] == input.data[..input.pos];
      written := input.pos;
      bytesRead := input.Read(buffer, 0, buffer.Length);
    }
  }

  // ------------------------------------------------------------------
  // The batch
  // ------------------------------------------------------------------

  /**
   * The URLs the loop downloads from the parsed array: one per element, in
   * index order, up to the first element without a `flags.png` URL.
   */
  function Plan(elements: seq<Option<string>>): (urls: seq<string>)
    ensures |urls| <= |elements|
    ensures forall k :: 0 <= k < |urls| ==> elements[k] == Some(urls[k])
    ensures |urls| < |elements| ==> elements[|urls|].None?
  {
    if elements == [] then []
    else match elements[0]
      case None => []
      case Some(url) => [url] + Plan(elements[1..])
  }

  /** The three facts of `Plan`'s contract determine it: a loop that meets them has computed the plan. */
  lemma PlanDeterminedByContract(elements: seq<Option<string>>, done: seq<string>)
    requires |done| <= |elements|
    requires forall k :: 0 <= k < |done| ==> elements[k] == Some(done[k])
    requires |done| < |elements| ==> elements[|done|].None?
    ensures Plan(elements) == done
  {
    var urls := Plan(elements);
    assert |urls| == |done|;
  }

  /** One call of `downloadFlagImage(url, path)`. */
  datatype Download = Download(url: string, path: string)

  /** The calls the loop makes for the given URLs: each to the URL's target path. */
  function Targets(urls: seq<string>): (calls: seq<Download>)
  {
    seq(|urls|, k requires 0 <= k < |urls| => Download(urls[k], TargetPath(urls[k])))
  }

  /** The disk after the given downloads, performed in order. */
  function ApplyDownloads(calls: seq<Download>, net: Network, dirs: set<string>,
                          files: map<string, seq<byte>>): map<string, seq<byte>>
    decreases |calls|
  {
    if calls == [] then files
    else
      var last := calls[|calls| - 1];
      DownloadEffect(net, last.url, last.path, dirs, ApplyDownloads(calls[..|calls| - 1], net, dirs, files))
  }

  /** One more download acts on the disk the earlier ones left. */
  lemma ApplyDownloadsSnoc(calls: seq<Download>, d: Download, net: Network, dirs: set<string>,
                           files: map<string, seq<byte>>)
    ensures ApplyDownloads(calls + [d], net, dirs, files) ==
            DownloadEffect(net, d.url, d.path, dirs, ApplyDownloads(calls, net, dirs, files))
  {
    assert (calls + [d])[..|calls|] == calls;
  }

  /** The call list of one more URL is the old call list plus that URL's call. */
  lemma TargetsSnoc(urls: seq<string>, url: string)
    ensures Targets(urls + [url]) == Targets(urls) + Targets([url])
  {
  }

  /** Downloads never touch a path that none of them targets. */
  lemma {:induction false} ApplyDownloadsFrame(calls: seq<Download>, net: Network, dirs: set<string>,
                                               files: map<string, seq<byte>>, p: string)
    requires forall k :: 0 <= k < |calls| ==> calls[k].path != p
    ensures p in ApplyDownloads(calls, net, dirs, files) <==> p in files
    ensures p in files ==> ApplyDownloads(calls, net, dirs, files)[p] == files[p]
  {
    if calls != [] {
      ApplyDownloadsFrame(calls[..|calls| - 1], net, dirs, files, p);
    }
  }

  /**
   * A download that succeeds in opening both ends leaves its file holding what
   * the server sent, whatever failed before it, unless a later download
   * targets the same path.
   */
  lemma {:induction false} ApplyDownloadsLastWriter(calls: seq<Download>, net: Network, dirs: set<string>,
                                                    files: map<string, seq<byte>>, i: nat)
    requires i < |calls|
    requires forall k :: i < k < |calls| ==> calls[k].path != calls[i].path
    requires calls[i].url in net && ParentDirectory(calls[i].path) in dirs
    ensures calls[i].path in ApplyDownloads(calls, net, dirs, files)
    ensures ApplyDownloads(calls, net, dirs, files)[calls[i].path] == Received(net[calls[i].url])
  {
    if i < |calls| - 1 {
      ApplyDownloadsLastWriter(calls[..|calls| - 1], net, dirs, files, i);
    }
  }

  /** Running two batches one after the other is running their concatenation. */
  lemma {:induction false} ApplyDownloadsConcat(first: seq<Download>, second: seq<Download>, net: Network,
                                                dirs: set<string>, files: map<string, seq<byte>>)
    ensures ApplyDownloads(first + second, net, dirs, files) ==
            ApplyDownloads(second, net, dirs, ApplyDownloads(first, net, dirs, files))
  {
    if second == [] {
      assert first + second == first;
    } else {
      var n := |second|;
      assert (first + second)[..|first + second| - 1] == first + second[..n - 1];
      ApplyDownloadsConcat(first, second[..n - 1], net, dirs, files);
    }
  }

  /** A download whose URL or file cannot be opened leaves no trace: the batch ends as if it had been skipped. */
  lemma FailedOpenLeavesNoTrace(calls: seq<Download>, net: Network, dirs: set<string>,
                                files: map<string, seq<byte>>, j: nat)
    requires j < |calls|
    requires calls[j].url !in net || ParentDirectory(calls[j].path) !in dirs
    ensures ApplyDownloads(calls, net, dirs, files) == ApplyDownloads(calls[..j] + calls[j + 1..], net, dirs, files)
  {
    var before, after := calls[..j], calls[j + 1..];
    assert calls == (before + [calls[j]]) + after;
    ApplyDownloadsConcat(before + [calls[j]], after, net, dirs, files);
    assert (before + [calls[j]])[..j] == before;
    ApplyDownloadsConcat(before, after, net, dirs, files);
  }

  /** An empty array plans no downloads, so the disk is left as it was. */
  lemma EmptyListingDownloadsNothing(net: Network, dirs: set<string>, files: map<string, seq<byte>>)
    ensures Plan([]) == []
    ensures ApplyDownloads(Targets(Plan([])), net, dirs, files) == files
  {
  }

  /** The path expression of the loop body: `FLAGS_DIRECTORY + File.separator + <identifier> + ".png"`. */
  method FlagPath(flagUrl: string) returns (path: string)
    ensures Targets([flagUrl]) == [Download(flagUrl, path)]
  {
    path := FlagsDirectory + "/" + ExtractCountryNameFromUrl(flagUrl) + ".png";
  }

  /** Why the batch stopped early. */
  datatype Abort = ListingUnavailable | MissingFlagUrl(index: nat)

  /**
   * `main`: `listing` is the parsed JSON array (absent when the request or the
   * parse fails); each element is the element's `flags.png` string, absent when
   * `getJSONObject`/`getString` would throw. A failed download is swallowed
   * inside `DownloadFlagImage`; a missing URL ends the loop.
   */
  method Run(listing: Option<seq<Option<string>>>, net: Network, fs: FileStore)
    returns (downloaded: seq<string>, aborted: Option<Abort>)
    modifies fs
    ensures downloaded == if listing.None? then [] else Plan(listing.value)
    ensures fs.files == ApplyDownloads(Targets(downloaded), net, fs.dirs, old(fs.files))
    ensures listing.None? ==> aborted == Some(ListingUnavailable)
    ensures listing.Some? ==>
              aborted == if |downloaded| < |listing.value| then Some(MissingFlagUrl(|downloaded|)) else None
  {
    downloaded := [];
    if listing.None? {
      return downloaded, Some(ListingUnavailable);
    }
    var flagsArray := listing.value;
    ghost var calls: seq<Download> := [];
    for i := 0 to |flagsArray|
      invariant |downloaded| == i
      invariant forall k :: 0 <= k < i ==> flagsArray[k] == Some(downloaded[k])
      invariant calls == Targets(downloaded)
      invariant fs.files == ApplyDownloads(calls, net, fs.dirs, old(fs.files))
    {
      if flagsArray[i].None? {
        PlanDeterminedByContract(flagsArray, downloaded);
        return downloaded, Some(MissingFlagUrl(i));
      }
      var flagUrl := flagsArray[i].value;
      var path := FlagPath(flagUrl);
      DownloadFlagImage(net, flagUrl, path, fs);
      ApplyDownloadsSnoc(calls, Download(flagUrl, path), net, fs.dirs, old(fs.files));
      TargetsSnoc(downloaded, flagUrl);
      calls := calls + [Download(flagUrl, path)];
      downloaded := downloaded + [flagUrl];
    }
    PlanDeterminedByContract(flagsArray, downloaded);
    aborted := None;
  }
}
