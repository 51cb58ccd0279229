/** `Main` from the directory listing onward: create the output folder when
    there is anything to do, then process the files batch by batch. */
module Driver {
  import opened Wrappers
  import Batching
  import Folders
  import Resize

  /** `GetFilesFromDirectory`: the listing of an existing directory, or None
      (the source's `null`) when the directory does not exist. */
  function GetFilesFromDirectory(dirExists: bool, listing: seq<string>): Option<seq<string>>
  {
    if dirExists then Some(listing) else None
  }

  /** How a run ends: normally, with the output folder ("" when none was
      made), the directories afterwards and each batch's result map; or with
      an unhandled exception. */
  datatype RunResult =
    | Finished(folder: string, dirs: set<string>, batches: seq<map<string, Resize.Resized>>)
    | Crashed

  /** Every file of batch i comes from the list, so if every listed file's
      search ends, so does every search of batch i. */
  lemma BatchSearchesEnd(c: Resize.Codec, files: seq<string>, b: nat, i: nat)
    requires b > 0
    requires Resize.AllSearchesEnd(c, files)
    requires i < |Batching.Batches(files, b)|
    ensures Resize.AllSearchesEnd(c, Batching.Batches(files, b)[i])
  {
    forall j | 0 <= j < |Batching.Batches(files, b)[i]|
      ensures Resize.SearchEnds(c, Batching.Batches(files, b)[i][j])
    {
      Batching.BatchElement(files, b, i, j);
    }
  }

  /** Results r are the result maps of batches bs, one for one and in
      order, every batch having searches that end. */
  ghost predicate ResultsOf(c: Resize.Codec, bs: seq<seq<string>>, r: seq<map<string, Resize.Resized>>)
    decreases |bs|
  {
    && |bs| == |r|
    && (|bs| > 0 ==>
          && Resize.AllSearchesEnd(c, bs[|bs| - 1])
          && r[|r| - 1] == Resize.BatchResult(c, bs[|bs| - 1])
          && ResultsOf(c, bs[..|bs| - 1], r[..|r| - 1]))
  }

  /** Results of batches, read off by index: result i is the result map of
      batch i. */
  lemma {:induction false} ResultsOfIndex(c: Resize.Codec, bs: seq<seq<string>>, r: seq<map<string, Resize.Resized>>)
    requires ResultsOf(c, bs, r)
    ensures |r| == |bs|
    ensures forall i :: 0 <= i < |bs| ==>
      Resize.AllSearchesEnd(c, bs[i]) && r[i] == Resize.BatchResult(c, bs[i])
    decreases |bs|
  {
    if |bs| > 0 {
      var n := |bs| - 1;
      ResultsOfIndex(c, bs[..n], r[..n]);
      assert forall i :: 0 <= i < n ==> bs[..n][i] == bs[i] && r[..n][i] == r[i];
    }
  }

  lemma ResultsOfSnoc(c: Resize.Codec, bs: seq<seq<string>>, r: seq<map<string, Resize.Resized>>,
                      batch: seq<string>, m: map<string, Resize.Resized>)
    requires ResultsOf(c, bs, r)
    requires Resize.AllSearchesEnd(c, batch)
    requires m == Resize.BatchResult(c, batch)
    ensures ResultsOf(c, bs + [batch], r + [m])
  {
    assert (bs + [batch])[..|bs|] == bs;
    assert (r + [m])[..|r|] == r;
  }

  /** What a run over the files of an existing directory promises: with no
      files, no folder is made and there are no batches; otherwise the first
      free folder name is created and nothing else; and the results are the
      result maps of the batches of size b, one for one and in order. */
  ghost predicate RunSpec(files: seq<string>, existing: set<string>, path: string, name: string,
                          b: nat, c: Resize.Codec,
                          folder: string, dirs: set<string>, results: seq<map<string, Resize.Resized>>)
    requires b > 0
  {
    && (|files| == 0 ==> folder == "" && dirs == existing && results == [])
    && (|files| > 0 ==>
          && dirs == existing + {folder}
          && folder !in existing
          && exists k: nat :: folder == Folders.Candidate(path, name, k) && Folders.IsFirstFree(existing, path, name, k))
    && ResultsOf(c, Batching.Batches(files, b), results)
  }

  /** One pass of the batch loop of `Main`: while the list is longer than
      b*i, batch i is `Skip(b*i).Take(b)`, and its result map is appended to
      the results of the batches before it. */
  method ProcessBatch(files: seq<string>, b: nat, c: Resize.Codec, i: nat,
                      results: seq<map<string, Resize.Resized>>)
    returns (results': seq<map<string, Resize.Resized>>)
    requires b > 0
    requires Resize.AllSearchesEnd(c, files)
    requires |files| > Batching.Times(b, i)
    requires i <= |Batching.Batches(files, b)|
    requires ResultsOf(c, Batching.Batches(files, b)[..i], results)
    ensures i < |Batching.Batches(files, b)|
    ensures ResultsOf(c, Batching.Batches(files, b)[..i + 1], results')
  {
    ghost var all := Batching.Batches(files, b);
    Batching.NextBatch(files, b, i);
    var batch := Batching.Take(Batching.Skip(files, Batching.Times(b, i)), b);
    BatchSearchesEnd(c, files, b, i);
    var images := Resize.ChangeImageResolution(c, batch);
    ResultsOfSnoc(c, all[..i], results, batch, images);
    Batching.PrefixSnoc(all, i);
    results' := results + [images];
  }

  /** The batch loop of `Main`: for i = 0, 1, ... while the list is longer
      than b*i, process the files `Skip(b*i).Take(b)`. The results are the
      result maps of the batches, one for one and in order. */
  method ProcessBatches(files: seq<string>, b: nat, c: Resize.Codec)
    returns (results: seq<map<string, Resize.Resized>>)
    requires b > 0
    requires Resize.AllSearchesEnd(c, files)
    ensures ResultsOf(c, Batching.Batches(files, b), results)
  {
    ghost var all := Batching.Batches(files, b);
    results := [];
    var i: nat := 0;
    while |files| > Batching.Times(b, i)
      invariant i <= |all|
      invariant ResultsOf(c, all[..i], results)
      decreases |files| - Batching.Times(b, i)
    {
      results := ProcessBatch(files, b, c, i, results);
      i := i + 1;
    }
    Batching.LoopGuard(files, b, i);
    assert all[..i] == all;
  }

  /** `Main` given the files of an existing directory: make the output folder
      if there is a file, then process the batches. */
  method RunFiles(files: seq<string>, existing: set<string>, path: string, name: string,
                  b: nat, c: Resize.Codec)
    returns (folder: string, dirs: set<string>, results: seq<map<string, Resize.Resized>>)
    requires b > 0
    requires Resize.AllSearchesEnd(c, files)
    ensures RunSpec(files, existing, path, name, b, c, folder, dirs, results)
  {
    folder := "";
    dirs := existing;
    if |files| > 0 {
      folder, dirs := Folders.CreateFolder(existing, path, name);
    }
    results := ProcessBatches(files, b, c);
  }

  /** `Main` as written: a missing directory yields a null listing, and
      `files.Any()` on it throws, so the run crashes; an existing directory
      is processed. */
  method RunAsWritten(dirExists: bool, listing: seq<string>, existing: set<string>,
                      path: string, name: string, b: nat, c: Resize.Codec)
    returns (r: RunResult)
    requires b > 0
    requires dirExists ==> Resize.AllSearchesEnd(c, listing)
    ensures r.Crashed? <==> !dirExists
    ensures r.Finished? ==> RunSpec(listing, existing, path, name, b, c, r.folder, r.dirs, r.batches)
  {
    var files := GetFilesFromDirectory(dirExists, listing);
    if files.None? {
      return Crashed;
    }
    var folder, dirs, results := RunFiles(files.value, existing, path, name, b, c);
    r := Finished(folder, dirs, results);
  }

  /** `Main` as evidently intended: a missing directory is a run with no work
      that ends normally, creating no folder; an existing directory is
      processed as before. */
  method RunCorrected(dirExists: bool, listing: seq<string>, existing: set<string>,
                      path: string, name: string, b: nat, c: Resize.Codec)
    returns (r: RunResult)
    requires b > 0
    requires dirExists ==> Resize.AllSearchesEnd(c, listing)
    ensures r.Finished?
    ensures !dirExists ==> r == Finished("", existing, [])
    ensures dirExists ==> RunSpec(listing, existing, path, name, b, c, r.folder, r.dirs, r.batches)
  {
    var files := GetFilesFromDirectory(dirExists, listing);
    if files.None? {
      return Finished("", existing, []);
    }
    var folder, dirs, results := RunFiles(files.value, existing, path, name, b, c);
    r := Finished(folder, dirs, results);
  }
}
