/**
 * The two phases of a run: ingest the training listing into a list of
 * references, then predict one label per test video. Directory listings
 * come in as sequences (in the order `sorted` gave them) and the results
 * go out as a sequence instead of a file; `extract` maps a path to its
 * feature vector, or `None` when the video or the extraction fails.
 */
module BatchRunner {
  import opened Wrappers
  import opened Strings
  import opened Taxonomy
  import opened LabelResolver
  import opened FrameSampler
  import opened Classifier

  /** `os.path.join(train_path, file)` is the directory prefix followed by the name. */
  const TrainPath: string := "traindata/"
  const TestPath: string := "test/"

  /** `file.lower().endswith(".mp4")`. */
  predicate IsMp4(file: string)
  {
    EndsWith(Lower(file), ".mp4")
  }

  /** The extension test ignores case, and only case. */
  lemma IsMp4Spec(file: string)
    ensures IsMp4(file) <==>
      && |file| >= 4
      && file[|file| - 4] == '.'
      && (file[|file| - 3] == 'm' || file[|file| - 3] == 'M')
      && (file[|file| - 2] == 'p' || file[|file| - 2] == 'P')
      && file[|file| - 1] == '4'
  {
    var low := Lower(file);
    if |file| >= 4 {
      var n := |file|;
      assert low[n - 4..] == [low[n - 4], low[n - 3], low[n - 2], low[n - 1]];
    }
  }

  // ---------------------------------------------------------------- ingest

  /** What one training file adds to the references: one entry, or nothing. */
  function IngestOne(file: string, extract: string -> Option<Feature>): seq<GestureFeature>
  {
    if !IsMp4(file) then []
    else
      match DecideGestureByTrainFilename(file)
      case None => []
      case Some(g) =>
        match extract(TrainPath + file)
        case None => []
        case Some(v) => [GestureFeature(g, v)]
  }

  /** The references built from a listing, in listing order. */
  function IngestSpec(files: seq<string>, extract: string -> Option<Feature>): seq<GestureFeature>
  {
    if |files| == 0 then []
    else IngestSpec(files[..|files| - 1], extract) + IngestOne(files[|files| - 1], extract)
  }

  /** Ingesting one more file of the listing appends what that file contributes. */
  lemma IngestSpecStep(files: seq<string>, i: nat, extract: string -> Option<Feature>)
    requires i < |files|
    ensures IngestSpec(files[..i + 1], extract) == IngestSpec(files[..i], extract) + IngestOne(files[i], extract)
  {
    assert files[..i + 1][..i] == files[..i];
  }

  /** The training loop of `main`, which appends to `featureVectorList`. */
  method Ingest(trainFiles: seq<string>, extract: string -> Option<Feature>)
    returns (featureVectorList: seq<GestureFeature>)
    ensures featureVectorList == IngestSpec(trainFiles, extract)
  {
    featureVectorList := [];
    var i := 0;
    while i < |trainFiles|
      invariant 0 <= i <= |trainFiles|
      invariant featureVectorList == IngestSpec(trainFiles[..i], extract)
    {
      var file := trainFiles[i];
      IngestSpecStep(trainFiles, i, extract);
      if IsMp4(file) {
        var gestureDetail := DecideGestureByTrainFilename(file);
        if gestureDetail.Some? {
          var feature := extract(TrainPath + file);
          if feature.Some? {
            featureVectorList := featureVectorList + [GestureFeature(gestureDetail.value, feature.value)];
          }
        }
      }
      i := i + 1;
    }
    assert trainFiles[..i] == trainFiles;
  }

  /** A training file is kept: an `.mp4` whose name resolves and whose feature extracts. */
  predicate Admitted(file: string, extract: string -> Option<Feature>)
  {
    IsMp4(file) && DecideGestureByTrainFilename(file).Some? && extract(TrainPath + file).Some?
  }

  /** The reference a kept file becomes. */
  function EntryFor(file: string, extract: string -> Option<Feature>): GestureFeature
    requires Admitted(file, extract)
  {
    GestureFeature(DecideGestureByTrainFilename(file).value, extract(TrainPath + file).value)
  }

  /** The kept files of a listing, in listing order. */
  function AdmittedFiles(files: seq<string>, extract: string -> Option<Feature>): (r: seq<string>)
    ensures forall f :: f in r <==> f in files && Admitted(f, extract)
  {
    if |files| == 0 then []
    else
      var init := files[..|files| - 1];
      var last := files[|files| - 1];
      assert files == init + [last];
      AdmittedFiles(init, extract) + (if Admitted(last, extract) then [last] else [])
  }

  /** One file contributes its entry when it is kept, and nothing otherwise. */
  lemma IngestOneEntry(file: string, extract: string -> Option<Feature>)
    ensures IngestOne(file, extract) == if Admitted(file, extract) then [EntryFor(file, extract)] else []
  {
  }

  /** The references are exactly the kept files' entries, one each, in the same order. */
  lemma {:induction false} IngestSpecEntries(files: seq<string>, extract: string -> Option<Feature>)
    ensures |IngestSpec(files, extract)| == |AdmittedFiles(files, extract)|
    ensures forall k :: 0 <= k < |IngestSpec(files, extract)| ==>
      IngestSpec(files, extract)[k] == EntryFor(AdmittedFiles(files, extract)[k], extract)
  {
    if |files| > 0 {
      var init, last := files[..|files| - 1], files[|files| - 1];
      IngestSpecEntries(init, extract);
      IngestOneEntry(last, extract);
      var refs, kept := IngestSpec(files, extract), AdmittedFiles(files, extract);
      var refs0, kept0 := IngestSpec(init, extract), AdmittedFiles(init, extract);
      if Admitted(last, extract) {
        assert refs == refs0 + [EntryFor(last, extract)];
        assert kept == kept0 + [last];
      } else {
        assert refs == refs0 && kept == kept0;
      }
    }
  }

  /** Keeping some files of a sorted listing leaves them sorted. */
  lemma {:induction false} AdmittedFilesSorted(files: seq<string>, extract: string -> Option<Feature>)
    requires StrictlySorted(files)
    ensures StrictlySorted(AdmittedFiles(files, extract))
  {
    if |files| > 0 {
      var init := files[..|files| - 1];
      assert StrictlySorted(init);
      AdmittedFilesSorted(init, extract);
      var r := AdmittedFiles(files, extract);
      var r0 := AdmittedFiles(init, extract);
      forall i, j | 0 <= i < j < |r|
        ensures LexLess(r[i], r[j])
      {
        if j == |r0| {
          assert r[i] in init;
          var a :| 0 <= a < |init| && init[a] == r[i];
          assert files[a] == r[i] && files[|files| - 1] == r[j];
        } else {
          assert r[i] == r0[i] && r[j] == r0[j];
        }
      }
    }
  }

  /** A kept file's record is the catalogue entry its label numbers. */
  lemma EntryLabel(file: string, extract: string -> Option<Feature>)
    requires Admitted(file, extract)
    ensures ParseDecimal(EntryFor(file, extract).detail.outputLabel).Some?
    ensures var n := LabelOf(EntryFor(file, extract));
      0 <= n < |GestureData| && EntryFor(file, extract).detail == GestureData[n]
  {
    DecideTrainSpec(file);
    var i :| 0 <= i < |GestureData| && DecideGestureByTrainFilename(file) == Some(GestureData[i]);
    TableLabelValues(i);
  }

  /**
   * Every reference comes from the catalogue: its label reads as an
   * integer from 0 through 16, the position of its record.
   */
  lemma {:induction false} IngestLabels(files: seq<string>, extract: string -> Option<Feature>)
    ensures Labelled(IngestSpec(files, extract))
    ensures forall k :: 0 <= k < |IngestSpec(files, extract)| ==>
      var r := IngestSpec(files, extract)[k];
      0 <= LabelOf(r) <= 16 && r.detail == GestureData[LabelOf(r)]
  {
    var refs := IngestSpec(files, extract);
    IngestSpecEntries(files, extract);
    forall k | 0 <= k < |refs|
      ensures ParseDecimal(refs[k].detail.outputLabel).Some?
      ensures 0 <= LabelOf(refs[k]) <= 16 && refs[k].detail == GestureData[LabelOf(refs[k])]
    {
      EntryLabel(AdmittedFiles(files, extract)[k], extract);
    }
  }

  // --------------------------------------------------------------- predict

  /** The test files the prediction loop does not skip, in listing order. */
  function Mp4Files(files: seq<string>): (r: seq<string>)
    ensures forall f :: f in r <==> f in files && IsMp4(f)
  {
    if |files| == 0 then []
    else
      var init := files[..|files| - 1];
      var last := files[|files| - 1];
      assert files == init + [last];
      Mp4Files(init) + (if IsMp4(last) then [last] else [])
  }

  /** Skipping the other test files of a sorted listing leaves the `.mp4` files sorted. */
  lemma {:induction false} Mp4FilesSorted(files: seq<string>)
    requires StrictlySorted(files)
    ensures StrictlySorted(Mp4Files(files))
  {
    if |files| > 0 {
      var init := files[..|files| - 1];
      assert StrictlySorted(init);
      Mp4FilesSorted(init);
      var r := Mp4Files(files);
      var r0 := Mp4Files(init);
      forall i, j | 0 <= i < j < |r|
        ensures LexLess(r[i], r[j])
      {
        if j == |r0| {
          assert r[i] in init;
          var a :| 0 <= a < |init| && init[a] == r[i];
          assert files[a] == r[i] && files[|files| - 1] == r[j];
        } else {
          assert r[i] == r0[i] && r[j] == r0[j];
        }
      }
    }
  }

  /**
   * The prediction for one test file: the sentinel when its feature cannot
   * be extracted, the rule's label otherwise.
   */
  ghost function PredictOne(file: string, refs: seq<GestureFeature>, extract: string -> Option<Feature>,
                            sim: (Feature, Feature) -> real): int
    requires Labelled(refs)
  {
    match extract(TestPath + file)
    case None => Sentinel
    case Some(query) => Classify(query, refs, sim)
  }

  /** The results of a test listing, in listing order. */
  ghost function PredictSpec(files: seq<string>, refs: seq<GestureFeature>, extract: string -> Option<Feature>,
                             sim: (Feature, Feature) -> real): seq<int>
    requires Labelled(refs)
  {
    if |files| == 0 then []
    else
      var last := files[|files| - 1];
      PredictSpec(files[..|files| - 1], refs, extract, sim)
        + (if IsMp4(last) then [PredictOne(last, refs, extract, sim)] else [])
  }

  /** Predicting over one more file of the listing appends what that file yields. */
  lemma PredictSpecStep(files: seq<string>, i: nat, refs: seq<GestureFeature>, extract: string -> Option<Feature>,
                        sim: (Feature, Feature) -> real)
    requires i < |files|
    requires Labelled(refs)
    ensures PredictSpec(files[..i + 1], refs, extract, sim)
      == PredictSpec(files[..i], refs, extract, sim)
         + (if IsMp4(files[i]) then [PredictOne(files[i], refs, extract, sim)] else [])
  {
    assert files[..i + 1][..i] == files[..i];
  }

  /** The prediction loop of `main`, which appends to `results`. */
  method Predict(testFiles: seq<string>, refs: seq<GestureFeature>, extract: string -> Option<Feature>,
                 sim: (Feature, Feature) -> real) returns (results: seq<int>)
    requires Labelled(refs)
    ensures results == PredictSpec(testFiles, refs, extract, sim)
  {
    results := [];
    var i := 0;
    while i < |testFiles|
      invariant 0 <= i <= |testFiles|
      invariant results == PredictSpec(testFiles[..i], refs, extract, sim)
    {
      var testFile := testFiles[i];
      PredictSpecStep(testFiles, i, refs, extract, sim);
      if IsMp4(testFile) {
        var testFeature := extract(TestPath + testFile);
        if testFeature.None? {
          results := results + [Sentinel];
        } else {
          var recognized := Recognize(testFeature.value, refs, sim);
          results := results + [recognized];
        }
      }
      i := i + 1;
    }
    assert testFiles[..i] == testFiles;
  }

  /**
   * One result per `.mp4` test file, in order; a failed extraction gives
   * the sentinel whatever the references are, and a successful one the
   * rule's label.
   */
  lemma {:induction false} PredictSpecEntries(files: seq<string>, refs: seq<GestureFeature>,
                                              extract: string -> Option<Feature>, sim: (Feature, Feature) -> real)
    requires Labelled(refs)
    ensures |PredictSpec(files, refs, extract, sim)| == |Mp4Files(files)|
    ensures forall k :: 0 <= k < |Mp4Files(files)| && extract(TestPath + Mp4Files(files)[k]).None? ==>
      PredictSpec(files, refs, extract, sim)[k] == Sentinel
    ensures forall k :: 0 <= k < |Mp4Files(files)| && extract(TestPath + Mp4Files(files)[k]).Some? ==>
      PredictSpec(files, refs, extract, sim)[k] == Classify(extract(TestPath + Mp4Files(files)[k]).value, refs, sim)
  {
    if |files| > 0 {
      PredictSpecEntries(files[..|files| - 1], refs, extract, sim);
    }
  }

  /** Every result is the sentinel or the label of some stored reference. */
  lemma {:induction false} PredictionsAreLabels(files: seq<string>, refs: seq<GestureFeature>,
                                                extract: string -> Option<Feature>, sim: (Feature, Feature) -> real)
    requires Labelled(refs)
    ensures forall k :: 0 <= k < |PredictSpec(files, refs, extract, sim)| ==>
      PredictSpec(files, refs, extract, sim)[k] == Sentinel
      || exists i :: 0 <= i < |refs| && PredictSpec(files, refs, extract, sim)[k] == LabelOf(refs[i])
  {
    if |files| > 0 {
      PredictionsAreLabels(files[..|files| - 1], refs, extract, sim);
    }
  }

  // ------------------------------------------------------------------- run

  /** The extractor `main` uses for every path: middle frame, then feature. */
  function FeatureOf<Frame>(frameCount: string -> real, readAt: (string, nat) -> Option<Frame>,
                            extractor: Frame -> Option<Feature>): string -> Option<Feature>
  {
    path => ExtractFeature(path, frameCount, readAt, extractor)
  }

  /**
   * `main` without the file system: ingest the sorted training listing,
   * then predict over the sorted test listing.
   */
  method Run<Frame>(trainFiles: seq<string>, testFiles: seq<string>,
                    frameCount: string -> real, readAt: (string, nat) -> Option<Frame>,
                    extractor: Frame -> Option<Feature>, sim: (Feature, Feature) -> real)
    returns (results: seq<int>)
    ensures var extract := FeatureOf(frameCount, readAt, extractor);
      && Labelled(IngestSpec(trainFiles, extract))
      && results == PredictSpec(testFiles, IngestSpec(trainFiles, extract), extract, sim)
    ensures |results| == |Mp4Files(testFiles)|
    ensures forall k :: 0 <= k < |results| ==> 0 <= results[k] <= 16
  {
    var extract := FeatureOf(frameCount, readAt, extractor);
    var featureVectorList := Ingest(trainFiles, extract);
    IngestLabels(trainFiles, extract);
    results := Predict(testFiles, featureVectorList, extract, sim);
    PredictSpecEntries(testFiles, featureVectorList, extract, sim);
    PredictionsAreLabels(testFiles, featureVectorList, extract, sim);
  }

  /** The training file names of the worked example below, decoded. */
  lemma ExampleTrainNames()
    ensures IsMp4("FanOn_1.mp4") && IsMp4("Num0_1.mp4")
    ensures DecideGestureByTrainFilename("FanOn_1.mp4") == Some(GestureData[12])
    ensures DecideGestureByTrainFilename("Num0_1.mp4") == Some(GestureData[0])
  {
    IsMp4Spec("FanOn_1.mp4");
    IsMp4Spec("Num0_1.mp4");
    TrainExample();
    TrainFanOnExample();
  }

  /** A two-file listing contributes the first file's entry, then the second's. */
  lemma IngestPair(a: string, b: string, extract: string -> Option<Feature>)
    ensures IngestSpec([a, b], extract) == IngestOne(a, extract) + IngestOne(b, extract)
  {
    var files := [a, b];
    assert files[..1] == [a];
    assert [a][..0] == [];
    assert IngestSpec([a], extract) == IngestOne(a, extract);
  }

  /** The two training videos of the example both become references, `FanOn` first. */
  lemma ExampleReferences(extract: string -> Option<Feature>, v0: Feature, v12: Feature)
    requires extract(TrainPath + "FanOn_1.mp4") == Some(v12)
    requires extract(TrainPath + "Num0_1.mp4") == Some(v0)
    ensures IngestSpec(["FanOn_1.mp4", "Num0_1.mp4"], extract)
      == [GestureFeature(GestureData[12], v12), GestureFeature(GestureData[0], v0)]
  {
    ExampleTrainNames();
    IngestPair("FanOn_1.mp4", "Num0_1.mp4", extract);
    IngestOneEntry("FanOn_1.mp4", extract);
    IngestOneEntry("Num0_1.mp4", extract);
  }

  /** A one-file listing yields one result when the file is an `.mp4`, and none otherwise. */
  lemma PredictSingle(file: string, refs: seq<GestureFeature>, extract: string -> Option<Feature>,
                      sim: (Feature, Feature) -> real)
    requires Labelled(refs)
    ensures PredictSpec([file], refs, extract, sim) == if IsMp4(file) then [PredictOne(file, refs, extract, sim)] else []
  {
    assert [file][..0] == [];
  }

  /** Against the example's references, a query closer to the `Num0` vector gets label 0. */
  lemma ExampleClassify(sim: (Feature, Feature) -> real, v0: Feature, v12: Feature, query: Feature)
    requires sim(query, v0) > sim(query, v12) && sim(query, v0) > InitialSimilarity
    ensures Labelled([GestureFeature(GestureData[12], v12), GestureFeature(GestureData[0], v0)])
    ensures Classify(query, [GestureFeature(GestureData[12], v12), GestureFeature(GestureData[0], v0)], sim) == 0
  {
    var refs := [GestureFeature(GestureData[12], v12), GestureFeature(GestureData[0], v0)];
    TableLabelValues(0);
    TableLabelValues(12);
    assert WinsAmong(query, refs, sim, 1, 2);
    forall k: nat | WinsAmong(query, refs, sim, k, |refs|)
      ensures k == 1
    {
      WinnerUnique(query, refs, sim, k, 1);
    }
  }

  /** A test video named `A-B-0.mp4` yields the label the rule gives its feature. */
  lemma ExamplePrediction(refs: seq<GestureFeature>, extract: string -> Option<Feature>,
                          sim: (Feature, Feature) -> real, query: Feature)
    requires Labelled(refs)
    requires extract(TestPath + "A-B-0.mp4") == Some(query)
    ensures PredictSpec(["A-B-0.mp4"], refs, extract, sim) == [Classify(query, refs, sim)]
  {
    IsMp4Spec("A-B-0.mp4");
    PredictSingle("A-B-0.mp4", refs, extract, sim);
  }

  /**
   * Two training videos and one test video whose feature is closer to the
   * `Num0` one: the result is the single label 0.
   */
  lemma NearestTrainingExample(extract: string -> Option<Feature>, sim: (Feature, Feature) -> real,
                               v0: Feature, v12: Feature, query: Feature)
    requires extract(TrainPath + "FanOn_1.mp4") == Some(v12)
    requires extract(TrainPath + "Num0_1.mp4") == Some(v0)
    requires extract(TestPath + "A-B-0.mp4") == Some(query)
    requires sim(query, v0) > sim(query, v12) && sim(query, v0) > InitialSimilarity
    ensures Labelled(IngestSpec(["FanOn_1.mp4", "Num0_1.mp4"], extract))
    ensures PredictSpec(["A-B-0.mp4"], IngestSpec(["FanOn_1.mp4", "Num0_1.mp4"], extract), extract, sim) == [0]
  {
    ExampleReferences(extract, v0, v12);
    ExampleClassify(sim, v0, v12, query);
    ExamplePrediction(IngestSpec(["FanOn_1.mp4", "Num0_1.mp4"], extract), extract, sim, query);
  }
}
