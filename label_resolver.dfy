/**
 * Decoding a filename into a catalogue record. Training and test sets use
 * different naming conventions: `<token>_<anything>` for training files,
 * `<a>-<b>-<token>.<ext>` for test files.
 */
module LabelResolver {
  import opened Wrappers
  import opened Strings
  import opened Taxonomy

  /**
   * `filename.split('_')[0]`: everything before the first underscore, or
   * the whole name, extension included, when there is none.
   */
  function TrainToken(filename: string): (t: string)
    ensures t <= filename
    ensures '_' !in t
    ensures t == filename || filename[|t|] == '_'
  {
    var parts := Split(filename, '_');
    SplitSpec(filename, '_');
    assert |parts| > 1 ==> Join(parts, '_') == parts[0] + ['_'] + Join(parts[1..], '_');
    parts[0]
  }

  /** `decide_gesture_by_train_filename`: the first record whose training keys hold the token. */
  function DecideGestureByTrainFilename(filename: string): Option<GestureDetail>
  {
    Resolve(Train, TrainToken(filename))
  }

  /**
   * A training name resolves exactly when some record lists its token, and
   * then to the first (and only) such record.
   */
  lemma DecideTrainSpec(filename: string)
    ensures DecideGestureByTrainFilename(filename).None? <==>
      forall i :: 0 <= i < |GestureData| ==> TrainToken(filename) !in GestureData[i].trainKeys
    ensures DecideGestureByTrainFilename(filename).Some? ==>
      exists i :: 0 <= i < |GestureData| && DecideGestureByTrainFilename(filename) == Some(GestureData[i])
        && TrainToken(filename) in GestureData[i].trainKeys
  {
    FirstMatchSpec(GestureData, Train, TrainToken(filename));
  }

  /**
   * The part of a test filename that names the gesture: drop the
   * extension, `split('-', 2)`, and take the third part if there is one.
   */
  function TestToken(filename: string): Option<string>
  {
    var parts := SplitMax(SplitExt(filename).0, '-', 2);
    if |parts| < 3 then None else Some(parts[2])
  }

  /**
   * A test name has a token exactly when its base name holds at least two
   * hyphens, and the token is then everything after the second one,
   * further hyphens included.
   */
  lemma TestTokenSpec(filename: string)
    ensures var base := SplitExt(filename).0;
      && (TestToken(filename).None? <==> Count(base, '-') < 2)
      && (TestToken(filename).Some? ==> AfterSecond(base, '-', TestToken(filename).value))
  {
    SplitTwice(SplitExt(filename).0, '-');
  }

  /** `decide_gesture_by_test_filename`: the first record whose test keys hold the token. */
  function DecideGestureByTestFilename(filename: string): Option<GestureDetail>
  {
    match TestToken(filename)
    case None => None
    case Some(token) => Resolve(Test, token)
  }

  /**
   * A test name resolves exactly when it has a token and some record lists
   * it, and then to the first (and only) such record.
   */
  lemma DecideTestSpec(filename: string)
    ensures DecideGestureByTestFilename(filename).Some? <==>
      TestToken(filename).Some? && exists i :: 0 <= i < |GestureData| && TestToken(filename).value in GestureData[i].testKeys
    ensures DecideGestureByTestFilename(filename).Some? ==>
      exists i :: 0 <= i < |GestureData| && DecideGestureByTestFilename(filename) == Some(GestureData[i])
        && TestToken(filename).value in GestureData[i].testKeys
  {
    if TestToken(filename).Some? {
      FirstMatchSpec(GestureData, Test, TestToken(filename).value);
    }
  }

  /** A training name `<token>_<rest>` yields `token`, whatever `rest` holds. */
  lemma TrainTokenOfFields(token: string, rest: string)
    requires '_' !in token
    ensures TrainToken(token + ['_'] + rest) == token
  {
    var f := token + ['_'] + rest;
    var t := TrainToken(f);
    assert f[|token|] == '_';
    assert forall k :: 0 <= k < |token| ==> f[k] == token[k];
    assert |t| == |token| && t == f[..|token|];
  }

  /** A training name's token stops at its first underscore. */
  lemma TrainExample()
    ensures TrainToken("Num0_1.mp4") == "Num0"
    ensures DecideGestureByTrainFilename("Num0_1.mp4") == Some(GestureData[0])
  {
    assert "Num0_1.mp4" == "Num0" + ['_'] + "1.mp4";
    TrainTokenOfFields("Num0", "1.mp4");
    FirstMatchIsOnlyMatch(Train, "Num0", 0);
  }

  lemma TrainFanOnExample()
    ensures DecideGestureByTrainFilename("FanOn_1.mp4") == Some(GestureData[12])
  {
    assert "FanOn_1.mp4" == "FanOn" + ['_'] + "1.mp4";
    TrainTokenOfFields("FanOn", "1.mp4");
    FirstMatchIsOnlyMatch(Train, "FanOn", 12);
  }

  /** Without an underscore the token keeps the extension, so nothing matches. */
  lemma TrainWithoutUnderscore()
    ensures TrainToken("Num0.mp4") == "Num0.mp4"
    ensures DecideGestureByTrainFilename("Num0.mp4") == None
  {
    var f := "Num0.mp4";
    assert TrainToken(f) == f by {
      assert forall k :: 0 <= k < |f| ==> f[k] != '_';
    }
    KeyCounts();
    assert forall i :: 0 <= i < |GestureData| ==> Signature(f) != Signature(GestureData[i].trainKeys[0]);
    ResolveNone(Train, f);
  }

  /** A base name `<a>-<b>-<token>` whose first two fields hold no hyphen splits into those fields. */
  lemma {:induction false} SplitTestBase(a: string, b: string, token: string)
    requires '-' !in a && '-' !in b
    ensures SplitMax(a + ['-'] + b + ['-'] + token, '-', 2) == [a, b, token]
  {
    var tail := b + ['-'] + token;
    assert a + ['-'] + b + ['-'] + token == a + ['-'] + tail;
    SplitMaxFirstPart(a, tail, '-', 2);
    SplitMaxFirstPart(b, token, '-', 1);
  }

  /** A test name `<a>-<b>-<token>.<ext>` whose first two fields hold no hyphen yields `token`. */
  lemma TestTokenOfFields(a: string, b: string, token: string, ext: string)
    requires '-' !in a && '-' !in b
    requires '/' !in a && '/' !in b && '/' !in token && '/' !in ext
    requires '.' !in ext
    requires |a| > 0 && a[0] != '.'
    ensures TestToken(a + ['-'] + b + ['-'] + token + ['.'] + ext) == Some(token)
  {
    var base := a + ['-'] + b + ['-'] + token;
    assert multiset(base + ext)['/'] == 0;
    assert base[0] == a[0];
    SplitExtPlainName(base, ext);
    SplitTestBase(a, b, token);
  }

  /** The token is what follows the second hyphen of the base name. */
  lemma TestExampleToken()
    ensures TestToken("P1-A-FanOn.mp4") == Some("FanOn")
  {
    assert "P1-A-FanOn.mp4" == "P1" + ['-'] + "A" + ['-'] + "FanOn" + ['.'] + "mp4";
    TestTokenOfFields("P1", "A", "FanOn", "mp4");
  }

  lemma TestExample()
    ensures DecideGestureByTestFilename("P1-A-FanOn.mp4") == Some(GestureData[12])
    ensures GestureData[12].outputLabel == "12"
  {
    TestExampleToken();
    FirstMatchIsOnlyMatch(Test, "FanOn", 12);
  }

  /** Two hyphens and nothing after them: an empty token, which no record holds. */
  lemma TestEmptyToken()
    ensures TestToken("A-B-.mp4") == Some("")
    ensures DecideGestureByTestFilename("A-B-.mp4") == None
  {
    assert "A-B-.mp4" == "A" + ['-'] + "B" + ['-'] + "" + ['.'] + "mp4";
    TestTokenOfFields("A", "B", "", "mp4");
    KeysNonEmpty(Test);
    ResolveNone(Test, "");
  }
}
