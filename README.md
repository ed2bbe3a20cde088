# Gesture recognition pipeline: a Dafny model

This project models the offline matching pipeline of a one-nearest-neighbour
hand-gesture classifier (`main.py`). The pipeline has four parts:

- **A fixed gesture catalogue.** It holds seventeen records. Each record has an
  output label `"0"`..`"16"`, the filename tokens that name the gesture in the
  training set, and the tokens that name it in the test set.
- **Filename decoding.** A training name `<token>_<rest>` is resolved to a
  catalogue record by the text before its first underscore. A test name
  `<a>-<b>-<token>.<ext>` is resolved by the text after its second hyphen, once
  the extension is stripped.
- **Middle-frame sampling.** Each video is reduced to a single feature vector
  taken from its middle frame, at index `max(0, T // 2)`.
- **The batch run.**
  - Ingestion keeps every training `.mp4` whose name resolves and whose feature
    extracts, as a reference.
  - Prediction gives one label per test `.mp4`. A failed extraction gives the
    sentinel 0.
  - Otherwise the label comes from a scan over the references. The scan starts
    at similarity -1 and label 0, replaces the best only on a strictly greater
    similarity, and so lets the first of equal maxima win.

Modules, one per concern:

- `Wrappers`: `Option`.
- `Strings`: the Python string operations used. These are `split` with and
  without `maxsplit`, POSIX `os.path.splitext`, `lower`, `endswith`, `int` on
  decimal strings, and the order `sorted` uses.
- `Taxonomy`: the catalogue and its in-order scan.
- `LabelResolver`: the two filename decoders.
- `FrameSampler`: the middle-frame index and feature extraction over injected
  video and extractor functions.
- `Classifier`: the nearest-neighbour rule, as a specification (`Classify`) and
  as the loop of the program (`Recognize`).
- `BatchRunner`: the ingest loop, the prediction loop and the whole run.

The two loops of `main` are methods, each proved equal to a recursive
specification function over the listing. The properties are lemmas about those
functions:

- order;
- one entry per kept file;
- labels within 0..16;
- the sentinel on failure;
- every prediction is 0 or a stored label.

Two consequences of the program's own rules:

- The scan's strict `>` (main.py:137) means a single reference with similarity
  exactly -1 gives the sentinel 0, not that reference's label
  (`Classifier.SingleReference`).
- The program has no rule for all-zero vectors, so the similarity stays an
  arbitrary function of the two vectors.

## Model

| member | source | states |
|---|---|---|
| Strings.SplitMax | main.py:78 | `s.split(sep, maxsplit)` yields at least one and at most `maxsplit + 1` parts, and never more than `len(s) + 1` |
| Strings.SplitMaxJoin | main.py:78 | joining the parts of a split with the separator gives the original string back |
| Strings.SplitMaxParts | main.py:78 | no part but the last holds the separator, and the last holds none when fewer than `maxsplit` cuts were made |
| Strings.SplitMaxCount | main.py:78 | a split makes at most as many cuts as there are separators, and exactly as many when it stops short of `maxsplit` |
| Strings.SplitMaxFirstPart | main.py:78 | a leading field free of the separator is cut off whole and uses up one cut |
| Strings.SplitTwice | main.py:78-80 | `split('-', 2)` has fewer than three parts exactly when the string holds fewer than two hyphens; otherwise the third part is everything after the second hyphen |
| Strings.SplitSpec | main.py:69 | `split('_')` without a limit cuts at every underscore: the parts join back to the name, none holds an underscore, and there is one more part than underscores |
| Strings.SplitExt | main.py:77 | `os.path.splitext` splits the path into root and extension that concatenate to it; the extension is empty or one dot followed by no dot and no slash, and is non-empty only after a non-dot character of the last path component |
| Strings.SplitExtPlainName | main.py:77 | on a plain `<root>.<ext>` name whose root is not all dots, `splitext` removes exactly `.<ext>` |
| Strings.Lower | main.py:99 | `lower()` keeps the length and lowers each character (ASCII letters) in place |
| Strings.ParseDecimal | main.py:139 | `int(s)` succeeds exactly on non-empty strings of decimal digits |
| Strings.ParseDecimalString | main.py:139 | reading back the decimal numeral of `n` with `int` gives `n` |
| FrameSampler.TruncateToInt | main.py:44 | `int(x)` on a float truncates toward zero: the result lies within one of `x`, on the side of zero |
| FrameSampler.MiddleFrameIndex | main.py:45 | `max(0, T // 2)` is never negative, is the lower middle `T div 2` for `T >= 0`, is below `T` whenever `T >= 1`, and is 0 for `T <= 1` |
| FrameSampler.ExtractMiddleFrame | main.py:41-52 | the frame returned is the read at the middle index of the truncated frame count, and `None` when that read fails |
| FrameSampler.MiddleFrameOfCount | main.py:44-48 | for a capture reporting `n` frames, the frame read is the one at index `n // 2` |
| FrameSampler.ExtractFeature | main.py:55-62 | a feature is produced exactly when the middle frame is read and the extractor succeeds on it, and it is then the extractor's vector for the frame at the middle index |
| Taxonomy.FirstMatch | main.py:70-73 | the in-order scan returns an index inside the table, or none |
| Taxonomy.FirstMatchSpec | main.py:70-73 | the scan returns the first record whose keys hold the token, and returns none exactly when no record holds it |
| Taxonomy.TableLabels | main.py:19-37 | the catalogue has 17 records and record `i` is labelled with the decimal numeral of `i` |
| Taxonomy.TableLabelValues | main.py:19-37 | `int` of record `i`'s label is `i` |
| Taxonomy.TrainKeysDisjoint | main.py:19-37 | no training token appears in two records |
| Taxonomy.TestKeysDisjoint | main.py:19-37 | no test token appears in two records |
| Taxonomy.KeysNonEmpty | main.py:19-37 | no record lists the empty token, in either naming convention |
| Taxonomy.ResolveNone | main.py:70-73 | a token listed by no record resolves to none |
| Taxonomy.FirstMatchUnique | main.py:70-73 | in a table with disjoint keys the scan returns the one record holding the token |
| Taxonomy.FirstMatchIsOnlyMatch | main.py:19-37 | in the catalogue, first-match lookup equals unique-match lookup, in both naming conventions |
| Taxonomy.FanSpeedSpellings | main.py:30 | the test tokens `DecreaseFanSpeed` and `DecereaseFanSpeed` both resolve to the record labelled `"10"` |
| LabelResolver.TrainToken | main.py:69 | the training token is a prefix of the name without underscores, and is either the whole name or followed by an underscore |
| LabelResolver.DecideTrainSpec | main.py:68-73 | a training name resolves to none exactly when no record's training keys hold its token, and otherwise to a record that holds it |
| LabelResolver.TrainTokenOfFields | main.py:69 | the token of `<token>_<rest>` is `token`, whatever `rest` holds |
| LabelResolver.TrainExample | main.py:68-73 | `Num0_1.mp4` has token `Num0` and resolves to record 0 |
| LabelResolver.TrainFanOnExample | main.py:68-73 | `FanOn_1.mp4` resolves to record 12 |
| LabelResolver.TrainWithoutUnderscore | main.py:68-73 | `Num0.mp4` keeps its extension in the token and resolves to none |
| LabelResolver.TestTokenSpec | main.py:77-81 | a test name has a token exactly when its base name holds at least two hyphens, and the token is then everything after the second hyphen, further hyphens included |
| LabelResolver.DecideTestSpec | main.py:76-85 | a test name resolves exactly when it has a token that some record's test keys hold, and then to such a record |
| LabelResolver.SplitTestBase | main.py:78 | `<a>-<b>-<token>` with hyphen-free `a` and `b` splits into exactly those three fields |
| LabelResolver.TestTokenOfFields | main.py:76-81 | the token of `<a>-<b>-<token>.<ext>` is `token` when `a` and `b` hold no hyphen |
| LabelResolver.TestExampleToken | main.py:76-81 | `P1-A-FanOn.mp4` has token `FanOn` |
| LabelResolver.TestExample | main.py:76-85 | `P1-A-FanOn.mp4` resolves to the record labelled `"12"` |
| LabelResolver.TestEmptyToken | main.py:76-85 | `A-B-.mp4` has the empty token and resolves to none |
| Classifier.WinnerUnique | main.py:137-139 | at most one reference is the earliest to reach the maximum similarity above -1 |
| Classifier.WinnerExists | main.py:128-139 | when some reference's similarity is above -1, an earliest reference with the maximum similarity exists |
| Classifier.Classify | main.py:128-141 | the rule's label is the sentinel or the label of some reference |
| Classifier.Recognize | main.py:128-141 | the scan returns the sentinel when no similarity beats -1, and otherwise the label of the earliest reference with the maximum similarity; this is the rule `Classify` |
| Classifier.EmptyGivesSentinel | main.py:128-141 | with no references the result is the sentinel 0 |
| Classifier.SingleReference | main.py:128-141 | one reference gives its label when its similarity is above -1, and the sentinel when it is -1 or less |
| Classifier.FirstOfEqualsWins | main.py:137-139 | appending a reference that is no more similar than the current winner never displaces it |
| BatchRunner.IsMp4Spec | main.py:99 | the extension test accepts exactly the names ending in `.mp4` in any letter case, and nothing else |
| BatchRunner.Ingest | main.py:97-112 | the ingest loop builds the references of `IngestSpec` over the listing |
| BatchRunner.AdmittedFiles | main.py:98-109 | the kept training files are exactly the listed `.mp4` files that resolve and extract |
| BatchRunner.IngestSpecEntries | main.py:98-112 | the references are the kept files' entries, one per kept file, in listing order |
| BatchRunner.AdmittedFilesSorted | main.py:98 | the kept files of a sorted listing are sorted |
| BatchRunner.EntryLabel | main.py:102-111 | a kept file's record is the catalogue record at the position its label reads as |
| BatchRunner.IngestLabels | main.py:97-112 | every reference label parses to an integer in 0..16, the position of its record in the catalogue |
| BatchRunner.Mp4Files | main.py:117-119 | the test files the prediction loop processes are exactly the listed `.mp4` files |
| BatchRunner.Mp4FilesSorted | main.py:117-119 | the test files processed from a sorted listing are in sorted order, so each appears once and in listing order |
| BatchRunner.Predict | main.py:115-141 | the prediction loop builds the results of `PredictSpec` over the listing |
| BatchRunner.PredictSpecEntries | main.py:117-141 | there is one result per test `.mp4`, in order: the sentinel when its extraction fails, the rule's label otherwise |
| BatchRunner.PredictionsAreLabels | main.py:124-141 | every result is the sentinel or the label of some stored reference |
| BatchRunner.Run | main.py:91-141 | a run returns `PredictSpec` over the ingested references, one result per test `.mp4`, each in 0..16 |
| BatchRunner.ExampleTrainNames | main.py:98-102 | `FanOn_1.mp4` and `Num0_1.mp4` pass the extension test and resolve to records 12 and 0 |
| BatchRunner.ExampleReferences | main.py:97-112 | ingesting `FanOn_1.mp4` and `Num0_1.mp4` gives their two references, `FanOn` first |
| BatchRunner.ExampleClassify | main.py:128-141 | with those references, a query closer to the `Num0` vector gets label 0 |
| BatchRunner.ExamplePrediction | main.py:117-141 | a test listing of just `A-B-0.mp4` gives one result, the rule's label for its feature |
| BatchRunner.NearestTrainingExample | main.py:97-141 | the worked example end to end: the results are `[0]` |

## Left out

- Video decoding (`cv2.VideoCapture`, `cap.get`, `cap.set`, `cap.read`, `cap.release`). A video is a frame-count function and a read-at-index function supplied by the caller. Releasing the capture handle is not modelled.
- The hand-shape feature extractor. It is a parameter from a frame to an optional vector. `handshape_feature_extractor` is not part of this model.
- `cosine_similarity`, `reshape` and `flatten`. The similarity is an arbitrary real-valued function of two vectors, so floating point, NaN on all-zero vectors and the `[-1, 1]` range are not modelled. `cosine_similarity` raises `ValueError` on vectors of different lengths; the model's similarity cannot raise, so the extractor's vectors are taken to have one fixed length.
- `os.listdir`, `sorted` and the CSV file. Listings are input sequences in the order `sorted` produced. Results are returned as a sequence instead of being written to `Results.csv`. `os.path.join(dir, f)` is `dir + f`, which holds for the two directory constants ending in `/`.
- Strings.Lower: handles ASCII letters only. Python's `lower` also maps non-ASCII letters, but no such mapping can change whether a name ends in `.mp4`.
- Strings.ParseDecimal: accepts only plain decimal digits. Python's `int` also accepts signs, whitespace and underscores, but it is only applied to catalogue labels, which are plain numerals.
- Strings.SplitExt: follows POSIX `os.path.splitext` (separator `/` only). Windows path rules are not modelled.
- A NaN or infinite frame count makes Python's `int` raise. The model's frame count is a real number, so that exception is not modelled.
