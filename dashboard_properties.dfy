/** What the startup check and the two loaders promise together. */
module DashboardProperties {
  import opened Wrappers
  import opened FileSystem
  import opened Listing
  import opened DisplayNames
  import opened Dashboard

  /** The titles the page shows for the allow-listed charts and pictures, in order. */
  const GraphTitles: seq<string> := [
    "Expense Flow Sankey",
    "Vendor Comparison Chart",
    "Vendor Repetition Rate Comparison",
    "Vendor Metrics Dashboard"
  ]
  const ImageTitles: seq<string> := [
    "Anomoly Detection Heatmap",
    "Correlation Matrix",
    "Payment Trend",
    "Top Vendors By Anomoly"
  ]

  /** Creating the two directories does not raise. */
  predicate DirsCreatable(fs: FileSystem) {
    (GraphsDir in fs.dirs || GraphsDir !in fs.mkdirFaults) &&
    (ImagesDir in fs.dirs || ImagesDir !in fs.mkdirFaults)
  }

  /** No existence check on an allow-listed file raises. */
  predicate LookupsSucceed(fs: FileSystem) {
    !LookupRaises(fs, GraphsDir, GraphFiles) && !LookupRaises(fs, ImagesDir, ImageFiles)
  }

  // ---------------------------------------------------------------------------
  // The startup check

  /** The file system once both directories exist, when creating them succeeds. */
  lemma DirsCreated(fs: FileSystem) returns (fs2: FileSystem)
    requires DirsCreatable(fs)
    ensures MakeDirs(fs, GraphsDir).Some? && MakeDirs(MakeDirs(fs, GraphsDir).value, ImagesDir) == Some(fs2)
    ensures fs2.dirs.Keys == fs.dirs.Keys + {GraphsDir, ImagesDir}
    ensures forall d, n :: Exists(fs2, d, n) == Exists(fs, d, n) && Read(fs2, d, n) == Read(fs, d, n)
  {
    var fs1 := MakeDirs(fs, GraphsDir).value;
    assert ImagesDir in fs1.dirs || ImagesDir !in fs1.mkdirFaults;
    fs2 := MakeDirs(fs1, ImagesDir).value;
  }

  /** When nothing raises, verification reports as missing exactly the allow-listed
      files that do not exist, in allow-list order, succeeds exactly when it reports
      none, and leaves both directories in place and every file as it was. */
  lemma MissingListsExact(fs: FileSystem)
    requires DirsCreatable(fs) && LookupsSucceed(fs)
    ensures var v := Verification(fs);
      v.missingGraphs == Select(fs, GraphsDir, GraphFiles, Absent) &&
      v.missingImages == Select(fs, ImagesDir, ImageFiles, Absent)
    ensures var v := Verification(fs); v.ok <==> v.missingGraphs == [] && v.missingImages == []
    ensures var v := Verification(fs); v.after.dirs.Keys == fs.dirs.Keys + {GraphsDir, ImagesDir}
    ensures var v := Verification(fs);
      forall d, n :: Exists(v.after, d, n) == Exists(fs, d, n) && Read(v.after, d, n) == Read(fs, d, n)
  {
    var fs2 := DirsCreated(fs);
    SelectCongruent(fs2, GraphsDir, fs, GraphsDir, GraphFiles, Absent);
    SelectCongruent(fs2, ImagesDir, fs, ImagesDir, ImageFiles, Absent);
    assert !LookupRaises(fs2, GraphsDir, GraphFiles) && !LookupRaises(fs2, ImagesDir, ImageFiles);
  }

  /** A chart directory that does not exist yet is created, and every
      allow-listed chart is reported missing. */
  lemma AbsentGraphsDirAllMissing(fs: FileSystem)
    requires GraphsDir !in fs.dirs && DirsCreatable(fs) && LookupsSucceed(fs)
    ensures Verification(fs).missingGraphs == GraphFiles
    ensures GraphsDir in Verification(fs).after.dirs && !Verification(fs).ok
  {
    MissingListsExact(fs);
    SelectAll(fs, GraphsDir, GraphFiles, Absent);
  }

  /** A picture directory that does not exist yet is created, and every
      allow-listed picture is reported missing. */
  lemma AbsentImagesDirAllMissing(fs: FileSystem)
    requires ImagesDir !in fs.dirs && DirsCreatable(fs) && LookupsSucceed(fs)
    ensures Verification(fs).missingImages == ImageFiles
    ensures ImagesDir in Verification(fs).after.dirs && !Verification(fs).ok
  {
    MissingListsExact(fs);
    SelectAll(fs, ImagesDir, ImageFiles, Absent);
  }

  /** When creating a directory or checking a file raises, verification fails and
      reports nothing missing. */
  lemma VerifyFailsWhenAStepRaises(fs: FileSystem)
    requires !DirsCreatable(fs) || !LookupsSucceed(fs)
    ensures var v := Verification(fs); !v.ok && v.missingGraphs == [] && v.missingImages == []
  {
    if DirsCreatable(fs) {
      var fs2 := DirsCreated(fs);
      if LookupRaises(fs, GraphsDir, GraphFiles) {
        var k :| 0 <= k < |GraphFiles| && Exists(fs, GraphsDir, GraphFiles[k]) == Raised;
        assert Exists(fs2, GraphsDir, GraphFiles[k]) == Raised;
      } else {
        var k :| 0 <= k < |ImageFiles| && Exists(fs, ImagesDir, ImageFiles[k]) == Raised;
        assert Exists(fs2, ImagesDir, ImageFiles[k]) == Raised;
      }
    }
  }

  /** Verification succeeds exactly when every allow-listed file exists, and then it
      changes nothing. */
  lemma VerifiedIffAllPresent(fs: FileSystem)
    ensures Verification(fs).ok <==> AllPresent(fs, GraphsDir, GraphFiles) && AllPresent(fs, ImagesDir, ImageFiles)
    ensures Verification(fs).ok ==> Verification(fs).after == fs
  {
    if AllPresent(fs, GraphsDir, GraphFiles) && AllPresent(fs, ImagesDir, ImageFiles) {
      assert Exists(fs, GraphsDir, GraphFiles[0]) == Present && Exists(fs, ImagesDir, ImageFiles[0]) == Present;
      assert MakeDirs(fs, GraphsDir) == Some(fs) && MakeDirs(fs, ImagesDir) == Some(fs);
      assert !LookupRaises(fs, GraphsDir, GraphFiles) && !LookupRaises(fs, ImagesDir, ImageFiles);
      SelectEmptyIff(fs, GraphsDir, GraphFiles, Absent);
      SelectEmptyIff(fs, ImagesDir, ImageFiles, Absent);
    } else if DirsCreatable(fs) && LookupsSucceed(fs) {
      MissingListsExact(fs);
      SelectEmptyIff(fs, GraphsDir, GraphFiles, Absent);
      SelectEmptyIff(fs, ImagesDir, ImageFiles, Absent);
    } else {
      VerifyFailsWhenAStepRaises(fs);
    }
  }

  // ---------------------------------------------------------------------------
  // The two loaders

  /** Either every existing allow-listed chart is loaded, in allow-list order, under
      its display name and with exactly the text its file holds, or, when an existence check
      or a read raises, nothing is. */
  lemma GraphEntriesAreTheFilesRead(fs: FileSystem)
    ensures LookupRaises(fs, GraphsDir, GraphFiles) || ReadRaises(fs, GraphsDir, GraphFiles) ==> LoadedGraphs(fs) == []
    ensures !LookupRaises(fs, GraphsDir, GraphFiles) && !ReadRaises(fs, GraphsDir, GraphFiles) ==>
      var present := Select(fs, GraphsDir, GraphFiles, Present);
      |LoadedGraphs(fs)| == |present| &&
      forall j | 0 <= j < |present| ::
        LoadedGraphs(fs)[j].name == DisplayName(present[j], ".html") &&
        Read(fs, GraphsDir, present[j]) == Text(LoadedGraphs(fs)[j].content)
  {
    if !LookupRaises(fs, GraphsDir, GraphFiles) && !ReadRaises(fs, GraphsDir, GraphFiles) {
      var present := Select(fs, GraphsDir, GraphFiles, Present);
      forall j | 0 <= j < |present|
        ensures Read(fs, GraphsDir, present[j]).Text?
      {
        SelectMembers(fs, GraphsDir, GraphFiles, Present, present[j]);
        var k :| 0 <= k < |GraphFiles| && GraphFiles[k] == present[j];
      }
    }
  }

  /** When no existence check raises, the pictures listed are the existing
      allow-listed ones: entry j is the picture at the j-th position of the
      allow-list whose file exists, under its own file name and its display name,
      the positions increase strictly, and every existing picture's position is
      among them. When a check raises, none is listed. */
  lemma ImageEntriesAreExistingFiles(fs: FileSystem)
    ensures LookupRaises(fs, ImagesDir, ImageFiles) ==> IndexedImages(fs) == []
    ensures !LookupRaises(fs, ImagesDir, ImageFiles) ==>
      var pos := Positions(fs, ImagesDir, ImageFiles, Present);
      |IndexedImages(fs)| == |pos| &&
      (forall j | 0 <= j < |pos| :: 0 <= pos[j] < |ImageFiles| &&
        IndexedImages(fs)[j] == ImageEntry(ImageFiles[pos[j]], DisplayName(ImageFiles[pos[j]], ".jpg"))) &&
      (forall j, j' | 0 <= j < j' < |pos| :: pos[j] < pos[j']) &&
      (forall k | 0 <= k < |ImageFiles| :: k in pos <==> Exists(fs, ImagesDir, ImageFiles[k]) == Present)
  {
    SelectIsOrderedSubsequence(fs, ImagesDir, ImageFiles, Present);
  }

  /** A picture is listed exactly when it is allow-listed and exists. */
  lemma ImageListedIffPresent(fs: FileSystem, file: string)
    requires !LookupRaises(fs, ImagesDir, ImageFiles)
    ensures (exists j | 0 <= j < |IndexedImages(fs)| :: IndexedImages(fs)[j].file == file) <==>
      file in ImageFiles && Exists(fs, ImagesDir, file) == Present
  {
    var present := Select(fs, ImagesDir, ImageFiles, Present);
    SelectMembers(fs, ImagesDir, ImageFiles, Present, file);
    if file in present {
      var j :| 0 <= j < |present| && present[j] == file;
      assert IndexedImages(fs)[j].file == file;
    }
  }

  /** The pictures depend on nothing but the existence checks in their directory:
      no picture is read. */
  lemma ImagesReadNoContent(fs: FileSystem, fs': FileSystem)
    requires forall k | 0 <= k < |ImageFiles| :: Exists(fs, ImagesDir, ImageFiles[k]) == Exists(fs', ImagesDir, ImageFiles[k])
    ensures IndexedImages(fs) == IndexedImages(fs')
  {
    SelectCongruent(fs, ImagesDir, fs', ImagesDir, ImageFiles, Present);
    assert LookupRaises(fs, ImagesDir, ImageFiles) <==> LookupRaises(fs', ImagesDir, ImageFiles);
  }

  /** Rewriting a file's content leaves the pictures listed as they were. */
  lemma ImagesIgnoreRewrite(fs: FileSystem, dir: Path, name: string, content: ReadResult)
    ensures IndexedImages(Rewrite(fs, dir, name, content)) == IndexedImages(fs)
  {
    ImagesReadNoContent(Rewrite(fs, dir, name, content), fs);
  }

  /** The charts depend on nothing but the existence checks and reads in their directory. */
  lemma GraphsDependOnTheirDirectory(fs: FileSystem, fs': FileSystem)
    requires forall k | 0 <= k < |GraphFiles| ::
      Exists(fs, GraphsDir, GraphFiles[k]) == Exists(fs', GraphsDir, GraphFiles[k]) &&
      Read(fs, GraphsDir, GraphFiles[k]) == Read(fs', GraphsDir, GraphFiles[k])
    ensures LoadedGraphs(fs) == LoadedGraphs(fs')
  {
    SelectCongruent(fs, GraphsDir, fs', GraphsDir, GraphFiles, Present);
    assert LookupRaises(fs, GraphsDir, GraphFiles) <==> LookupRaises(fs', GraphsDir, GraphFiles);
    assert ReadRaises(fs, GraphsDir, GraphFiles) <==> ReadRaises(fs', GraphsDir, GraphFiles);
    var present := Select(fs, GraphsDir, GraphFiles, Present);
    forall j | 0 <= j < |present|
      ensures GraphEntryFor(fs, present[j]) == GraphEntryFor(fs', present[j])
    {
      SelectMembers(fs, GraphsDir, GraphFiles, Present, present[j]);
      var k :| 0 <= k < |GraphFiles| && GraphFiles[k] == present[j];
    }
  }

  /** Deleting one existing picture removes exactly its entry, keeps the other
      pictures in order and leaves the charts as they were. */
  lemma RemovingAnImageDropsOnlyItsEntry(fs: FileSystem, j: int)
    requires 0 <= j < |ImageFiles| && Exists(fs, ImagesDir, ImageFiles[j]) == Present
    requires !LookupRaises(fs, ImagesDir, ImageFiles)
    ensures
      var fs' := RemoveFile(fs, ImagesDir, ImageFiles[j]);
      var images := IndexedImages(fs);
      var k := |Select(fs, ImagesDir, ImageFiles[..j], Present)|;
      k < |images| && images[k].file == ImageFiles[j] &&
      IndexedImages(fs') == images[..k] + images[k + 1..] &&
      LoadedGraphs(fs') == LoadedGraphs(fs)
  {
    var fs' := RemoveFile(fs, ImagesDir, ImageFiles[j]);
    ImageFilesDistinct();
    SelectAfterRemoval(fs, ImagesDir, ImageFiles, j);
    assert !LookupRaises(fs', ImagesDir, ImageFiles) by {
      assert forall k | 0 <= k < |ImageFiles| :: Exists(fs', ImagesDir, ImageFiles[k]) != Raised;
    }
    var s := Select(fs, ImagesDir, ImageFiles, Present);
    var k := |Select(fs, ImagesDir, ImageFiles[..j], Present)|;
    ImageEntriesWithout(s, k);
    GraphsDependOnTheirDirectory(fs', fs);
  }

  /** Dropping one file from a list drops its entry and no other. */
  lemma ImageEntriesWithout(files: seq<string>, k: int)
    requires 0 <= k < |files|
    ensures |ImageEntries(files)| == |files| && ImageEntries(files)[k].file == files[k]
    ensures ImageEntries(files[..k] + files[k + 1..]) == ImageEntries(files)[..k] + ImageEntries(files)[k + 1..]
  {
    var rest := files[..k] + files[k + 1..];
    var entries := ImageEntries(files);
    assert forall i | 0 <= i < |rest| :: rest[i] == if i < k then files[i] else files[i + 1];
    assert forall i | 0 <= i < |rest| :: ImageEntries(rest)[i] == (entries[..k] + entries[k + 1..])[i];
  }

  /** Loading after a verification that raised nothing: the charts loaded and the charts
      reported missing together account for the whole allow-list, and so do the
      pictures. */
  lemma LoadedAndMissingPartition(fs: FileSystem)
    requires DirsCreatable(fs) && LookupsSucceed(fs) && !ReadRaises(fs, GraphsDir, GraphFiles)
    ensures var v := Verification(fs);
      |LoadedGraphs(v.after)| + |v.missingGraphs| == |GraphFiles| &&
      |IndexedImages(v.after)| + |v.missingImages| == |ImageFiles|
  {
    var v := Verification(fs);
    MissingListsExact(fs);
    GraphsDependOnTheirDirectory(v.after, fs);
    ImagesReadNoContent(v.after, fs);
    GraphEntriesAreTheFilesRead(fs);
    SelectPartitionCount(fs, GraphsDir, GraphFiles);
    SelectPartitionCount(fs, ImagesDir, ImageFiles);
  }

  // ---------------------------------------------------------------------------
  // The page after a successful verification

  /** The display names of the allow-listed charts. */
  lemma GraphTitlesOfAllowList()
    ensures forall j | 0 <= j < |GraphFiles| :: DisplayName(GraphFiles[j], ".html") == GraphTitles[j]
  {
    forall j | 0 <= j < |GraphFiles|
      ensures DisplayName(GraphFiles[j], ".html") == GraphTitles[j]
    {
      if j == 0 {
        ExpenseFlowSankeyName();
      } else if j == 1 {
        VendorComparisonChartName();
      } else if j == 2 {
        VendorRepetitionRateComparisonName();
      } else {
        VendorMetricsDashboardName();
      }
    }
  }

  /** The display names of the allow-listed pictures. */
  lemma ImageTitlesOfAllowList()
    ensures forall j | 0 <= j < |ImageFiles| :: DisplayName(ImageFiles[j], ".jpg") == ImageTitles[j]
  {
    forall j | 0 <= j < |ImageFiles|
      ensures DisplayName(ImageFiles[j], ".jpg") == ImageTitles[j]
    {
      if j == 0 {
        AnomolyDetectionHeatmapName();
      } else if j == 1 {
        CorrelationMatrixName();
      } else if j == 2 {
        PaymentTrendName();
      } else {
        TopVendorsByAnomolyName();
      }
    }
  }

  /** The allow-listed pictures have pairwise different names. */
  lemma ImageFilesDistinct()
    ensures forall k, k' | 0 <= k < k' < |ImageFiles| :: ImageFiles[k] != ImageFiles[k']
  {
    assert |ImageFiles[0]| == 29 && |ImageFiles[1]| == 22 && |ImageFiles[2]| == 17 && |ImageFiles[3]| == 26;
  }

  /** After a successful verification nothing has changed and nothing is left out: both
      loaders take every allow-listed file, the charts when every read succeeds. */
  lemma VerifiedLoadsEverything(fs: FileSystem)
    requires Verification(fs).ok
    ensures Verification(fs).after == fs
    ensures IndexedImages(fs) == ImageEntries(ImageFiles)
    ensures !ReadRaises(fs, GraphsDir, GraphFiles) ==> LoadedGraphs(fs) == GraphEntries(fs, GraphFiles)
  {
    VerifiedIffAllPresent(fs);
    SelectAll(fs, GraphsDir, GraphFiles, Present);
    SelectAll(fs, ImagesDir, ImageFiles, Present);
    assert !LookupRaises(fs, GraphsDir, GraphFiles) && !LookupRaises(fs, ImagesDir, ImageFiles);
  }

  /** After a successful verification the page gets all four pictures, in allow-list
      order, under their titles. */
  lemma VerifiedPageHasAllImages(fs: FileSystem)
    requires Verification(fs).ok
    ensures |IndexedImages(fs)| == |ImageFiles| &&
      forall j | 0 <= j < |ImageFiles| :: IndexedImages(fs)[j] == ImageEntry(ImageFiles[j], ImageTitles[j])
  {
    VerifiedLoadsEverything(fs);
    ImageTitlesOfAllowList();
  }

  /** After a successful verification, and when every read succeeds, the page gets all
      four charts, in allow-list order, under their titles and with the text of
      their files. */
  lemma VerifiedPageHasAllGraphs(fs: FileSystem)
    requires Verification(fs).ok && !ReadRaises(fs, GraphsDir, GraphFiles)
    ensures |LoadedGraphs(fs)| == |GraphFiles|
    ensures forall j | 0 <= j < |GraphFiles| ::
      LoadedGraphs(fs)[j].name == GraphTitles[j] &&
      Read(fs, GraphsDir, GraphFiles[j]) == Text(LoadedGraphs(fs)[j].content)
  {
    VerifiedLoadsEverything(fs);
    VerifiedIffAllPresent(fs);
    GraphTitlesOfAllowList();
    forall j | 0 <= j < |GraphFiles|
      ensures Read(fs, GraphsDir, GraphFiles[j]).Text?
    {
      assert Exists(fs, GraphsDir, GraphFiles[j]) == Present;
    }
  }
}
