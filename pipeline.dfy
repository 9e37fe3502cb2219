/**
 * The two scripts share the `flags` directory: the retriever saves each image
 * as `flags/<identifier>.png`, and the uploader later reads the country back
 * from each file's name.
 */
module Pipeline {
  import FlagRetriever
  import FlagImageUploader

  /** A file `<id>.png` with a non-empty slash-free `id` in the flags directory is read back as `id`. */
  lemma PngEntryNameRecovered(workDir: string, id: string)
    requires id != [] && '/' !in id
    ensures '/' !in id + ".png"
    ensures FlagImageUploader.ExtractCountryNameFromFilePath(FlagImageUploader.AbsolutePath(workDir, id + ".png")) == id
  {
    var ext := "png";
    assert '/' !in ext && '.' !in ext by {
      assert forall k :: 0 <= k < |ext| ==> ext[k] != '/' && ext[k] != '.';
    }
    assert '/' !in id + ".png" by {
      assert forall k :: 0 <= k < |".png"| ==> ".png"[k] != '/';
    }
    var dir := workDir + "/" + FlagImageUploader.FlagsDirectory;
    assert FlagImageUploader.AbsolutePath(workDir, id + ".png") == dir + "/" + id + "." + ext;
    FlagImageUploader.FilePathNameRoundTrip(dir, id, ext);
  }

  /**
   * For a URL with a non-empty identifier, the retriever's file is the entry
   * `<identifier>.png` of the directory the uploader lists, and the uploader
   * reads that identifier back as the country, inner dots included.
   */
  lemma CountryNameSurvivesBothScripts(url: string, workDir: string)
    requires FlagRetriever.HasStem(url) && FlagRetriever.ExtractCountryNameFromUrl(url) != []
    ensures var id := FlagRetriever.ExtractCountryNameFromUrl(url);
            && FlagRetriever.TargetPath(url) == FlagImageUploader.FlagsDirectory + "/" + (id + ".png")
            && '/' !in id + ".png"
            && FlagImageUploader.ExtractCountryNameFromFilePath(FlagImageUploader.AbsolutePath(workDir, id + ".png")) == id
  {
    var i, j :| FlagRetriever.StemBounds(url, i, j);
    FlagRetriever.UrlNameIsStem(url, i, j);
    PngEntryNameRecovered(workDir, FlagRetriever.ExtractCountryNameFromUrl(url));
  }

  /**
   * A URL whose last segment is just `.png` gives the empty identifier; the
   * file it produces, `flags/.png`, is read back as the country `.png`.
   */
  lemma EmptyIdentifierComesBackAsDotPng(base: string, workDir: string)
    ensures FlagRetriever.ExtractCountryNameFromUrl(base + "/.png") == ""
    ensures FlagRetriever.TargetPath(base + "/.png") == FlagImageUploader.FlagsDirectory + "/" + ".png"
    ensures FlagImageUploader.ExtractCountryNameFromFilePath(FlagImageUploader.AbsolutePath(workDir, ".png")) == ".png"
  {
    assert base + "/" + "" + "." + "png" == base + "/.png";
    FlagRetriever.UrlNameRoundTrip(base, "", "png");
    assert FlagRetriever.FlagsDirectory + "/" + "" + ".png" == FlagImageUploader.FlagsDirectory + "/" + ".png";
    var dir := workDir + "/" + FlagImageUploader.FlagsDirectory;
    assert FlagImageUploader.AbsolutePath(workDir, ".png") == dir + "/" + ".png";
    assert forall k :: 0 <= k < |".png"| ==> ".png"[k] != '/';
    FlagImageUploader.FilePathNameIgnoresDirectory(dir, ".png");
    FlagImageUploader.FilePathNameExampleLeadingDot();
  }
}
