/** The dashboard page's core: the allow-lists of pre-built charts, the startup
    check that they are all on disk, and the two loaders that list the charts
    and pictures found for the page. */
module Dashboard {
  import opened Wrappers
  import opened DisplayNames
  import opened FileSystem
  import opened Listing

  const GraphsDir: Path := "static/graphs"
  const ImagesDir: Path := "static/images"

  /** The interactive charts the page shows, as HTML fragments, in page order. */
  const GraphFiles: seq<string> := [
    "expense_flow_sankey.html",
    "vendor_comparison_chart.html",
    "vendor_repetition_rate_comparison.html",
    "vendor_metrics_dashboard.html"
  ]

  /** The static pictures the page shows, in page order. */
  const ImageFiles: seq<string> := [
    "Anomoly_Detection_Heatmap.jpg",
    "Correlation_Matrix.jpg",
    "Payment_Trend.jpg",
    "Top_Vendors_By_anomoly.jpg"
  ]

  datatype GraphEntry = GraphEntry(name: string, content: string)
  datatype ImageEntry = ImageEntry(file: string, name: string)

  /** What the startup check reports: its success flag, the lists it prints as
      missing, and the file system after it created the two directories. */
  datatype Verdict = Verdict(ok: bool, missingGraphs: seq<string>, missingImages: seq<string>, after: FileSystem)

  // ---------------------------------------------------------------------------
  // Specification

  function TextOf(r: ReadResult): string {
    if r.Text? then r.text else ""
  }

  function GraphEntryFor(fs: FileSystem, file: string): GraphEntry {
    GraphEntry(DisplayName(file, ".html"), TextOf(Read(fs, GraphsDir, file)))
  }

  function GraphEntries(fs: FileSystem, files: seq<string>): seq<GraphEntry> {
    seq(|files|, i requires 0 <= i < |files| => GraphEntryFor(fs, files[i]))
  }

  function ImageEntries(files: seq<string>): seq<ImageEntry> {
    seq(|files|, i requires 0 <= i < |files| => ImageEntry(files[i], DisplayName(files[i], ".jpg")))
  }

  /** The graphs the page gets: one entry per allow-listed graph that exists, or
      nothing at all when any step raises. */
  function LoadedGraphs(fs: FileSystem): seq<GraphEntry> {
    if LookupRaises(fs, GraphsDir, GraphFiles) || ReadRaises(fs, GraphsDir, GraphFiles) then []
    else GraphEntries(fs, Select(fs, GraphsDir, GraphFiles, Present))
  }

  /** The pictures the page gets: one entry per allow-listed picture that exists, or
      nothing at all when any step raises. */
  function IndexedImages(fs: FileSystem): seq<ImageEntry> {
    if LookupRaises(fs, ImagesDir, ImageFiles) then []
    else ImageEntries(Select(fs, ImagesDir, ImageFiles, Present))
  }

  /** The startup check: create both directories, then list the allow-listed files
      that are absent; any exception makes it fail without a report. */
  function Verification(fs: FileSystem): Verdict {
    match MakeDirs(fs, GraphsDir)
    case None => Verdict(false, [], [], fs)
    case Some(fs1) =>
      match MakeDirs(fs1, ImagesDir)
      case None => Verdict(false, [], [], fs1)
      case Some(fs2) =>
        if LookupRaises(fs2, GraphsDir, GraphFiles) || LookupRaises(fs2, ImagesDir, ImageFiles) then
          Verdict(false, [], [], fs2)
        else
          var missingGraphs := Select(fs2, GraphsDir, GraphFiles, Absent);
          var missingImages := Select(fs2, ImagesDir, ImageFiles, Absent);
          Verdict(missingGraphs == [] && missingImages == [], missingGraphs, missingImages, fs2)
  }

  /** One step of the chart loader's scan over `files`. */
  lemma GraphsStep(fs: FileSystem, files: seq<string>, i: int)
    requires 0 <= i < |files|
    ensures LookupRaises(fs, GraphsDir, files[..i + 1]) <==> LookupRaises(fs, GraphsDir, files[..i]) || Exists(fs, GraphsDir, files[i]) == Raised
    ensures ReadRaises(fs, GraphsDir, files[..i + 1]) <==> ReadRaises(fs, GraphsDir, files[..i]) || (Exists(fs, GraphsDir, files[i]) == Present && Read(fs, GraphsDir, files[i]) == ReadFailed)
    ensures GraphEntries(fs, Select(fs, GraphsDir, files[..i + 1], Present)) ==
      GraphEntries(fs, Select(fs, GraphsDir, files[..i], Present)) +
      (if Exists(fs, GraphsDir, files[i]) == Present then [GraphEntryFor(fs, files[i])] else [])
  {
    SelectSnoc(fs, GraphsDir, files, i, Present);
    RaisesSnoc(fs, GraphsDir, files, i);
    var before := Select(fs, GraphsDir, files[..i], Present);
    assert GraphEntries(fs, before + [files[i]]) == GraphEntries(fs, before) + [GraphEntryFor(fs, files[i])];
  }

  /** One step of the picture loader's scan over `files`. */
  lemma ImagesStep(fs: FileSystem, files: seq<string>, i: int)
    requires 0 <= i < |files|
    ensures LookupRaises(fs, ImagesDir, files[..i + 1]) <==> LookupRaises(fs, ImagesDir, files[..i]) || Exists(fs, ImagesDir, files[i]) == Raised
    ensures ImageEntries(Select(fs, ImagesDir, files[..i + 1], Present)) ==
      ImageEntries(Select(fs, ImagesDir, files[..i], Present)) +
      (if Exists(fs, ImagesDir, files[i]) == Present then [ImageEntry(files[i], DisplayName(files[i], ".jpg"))] else [])
  {
    SelectSnoc(fs, ImagesDir, files, i, Present);
    RaisesSnoc(fs, ImagesDir, files, i);
    var before := Select(fs, ImagesDir, files[..i], Present);
    assert ImageEntries(before + [files[i]]) == ImageEntries(before) + [ImageEntry(files[i], DisplayName(files[i], ".jpg"))];
  }

  // ---------------------------------------------------------------------------
  // The operations, as the program runs them

  /** `verify_files`, returning besides its flag the missing lists it prints and
      the file system with the directories it created. */
  method VerifyFiles(fs: FileSystem) returns (ok: bool, missingGraphs: seq<string>, missingImages: seq<string>, after: FileSystem)
    ensures Verdict(ok, missingGraphs, missingImages, after) == Verification(fs)
  {
    var graphsReady := MakeDirs(fs, GraphsDir);
    if graphsReady.None? {
      return false, [], [], fs;
    }
    var imagesReady := MakeDirs(graphsReady.value, ImagesDir);
    if imagesReady.None? {
      return false, [], [], graphsReady.value;
    }
    after := imagesReady.value;

    missingGraphs := [];
    for i := 0 to |GraphFiles|
      invariant !LookupRaises(after, GraphsDir, GraphFiles[..i])
      invariant missingGraphs == Select(after, GraphsDir, GraphFiles[..i], Absent)
    {
      var file := GraphFiles[i];
      var found := Exists(after, GraphsDir, file);
      if found == Raised {
        return false, [], [], after;
      }
      SelectSnoc(after, GraphsDir, GraphFiles, i, Absent);
      RaisesSnoc(after, GraphsDir, GraphFiles, i);
      if found == Absent {
        missingGraphs := missingGraphs + [file];
      }
    }
    assert GraphFiles[..|GraphFiles|] == GraphFiles;

    missingImages := [];
    for i := 0 to |ImageFiles|
      invariant !LookupRaises(after, ImagesDir, ImageFiles[..i])
      invariant missingImages == Select(after, ImagesDir, ImageFiles[..i], Absent)
    {
      var file := ImageFiles[i];
      var found := Exists(after, ImagesDir, file);
      if found == Raised {
        return false, [], [], after;
      }
      SelectSnoc(after, ImagesDir, ImageFiles, i, Absent);
      RaisesSnoc(after, ImagesDir, ImageFiles, i);
      if found == Absent {
        missingImages := missingImages + [file];
      }
    }
    assert ImageFiles[..|ImageFiles|] == ImageFiles;

    ok := missingGraphs == [] && missingImages == [];
  }

  /** `get_plotly_graphs` */
  method GetPlotlyGraphs(fs: FileSystem) returns (graphs: seq<GraphEntry>)
    ensures graphs == LoadedGraphs(fs)
  {
    graphs := [];
    for i := 0 to |GraphFiles|
      invariant !LookupRaises(fs, GraphsDir, GraphFiles[..i]) && !ReadRaises(fs, GraphsDir, GraphFiles[..i])
      invariant graphs == GraphEntries(fs, Select(fs, GraphsDir, GraphFiles[..i], Present))
    {
      var file := GraphFiles[i];
      var found := Exists(fs, GraphsDir, file);
      if found == Raised {
        return [];
      }
      GraphsStep(fs, GraphFiles, i);
      if found == Present {
        var content := Read(fs, GraphsDir, file);
        if content.ReadFailed? {
          return [];
        }
        var displayName := DisplayName(file, ".html");
        graphs := graphs + [GraphEntry(displayName, content.text)];
      }
    }
    LoadedGraphsOverScan(fs);
  }

  /** The chart list, stated over the whole of the scanned allow-list. */
  lemma LoadedGraphsOverScan(fs: FileSystem)
    ensures LoadedGraphs(fs) ==
      if LookupRaises(fs, GraphsDir, GraphFiles[..|GraphFiles|]) || ReadRaises(fs, GraphsDir, GraphFiles[..|GraphFiles|]) then []
      else GraphEntries(fs, Select(fs, GraphsDir, GraphFiles[..|GraphFiles|], Present))
  {
    assert GraphFiles[..|GraphFiles|] == GraphFiles;
  }

  /** `get_images`: existence checks only, no file is read. */
  method GetImages(fs: FileSystem) returns (images: seq<ImageEntry>)
    ensures images == IndexedImages(fs)
  {
    images := [];
    for i := 0 to |ImageFiles|
      invariant !LookupRaises(fs, ImagesDir, ImageFiles[..i])
      invariant images == ImageEntries(Select(fs, ImagesDir, ImageFiles[..i], Present))
    {
      var file := ImageFiles[i];
      var found := Exists(fs, ImagesDir, file);
      if found == Raised {
        return [];
      }
      ImagesStep(fs, ImageFiles, i);
      if found == Present {
        var displayName := DisplayName(file, ".jpg");
        images := images + [ImageEntry(file, displayName)];
      }
    }
    assert ImageFiles[..|ImageFiles|] == ImageFiles;
  }
}
