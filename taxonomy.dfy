/**
 * The fixed gesture catalogue: seventeen records, in order, each with the
 * label written to the results and the filename tokens that name the
 * gesture in the training set and in the test set.
 */
module Taxonomy {
  import opened Wrappers
  import opened Strings

  datatype GestureDetail = GestureDetail(outputLabel: string, trainKeys: seq<string>, testKeys: seq<string>)

  /** Which naming convention a token comes from. */
  datatype Namespace = Train | Test

  function Keys(g: GestureDetail, ns: Namespace): seq<string>
  {
    match ns
    case Train => g.trainKeys
    case Test => g.testKeys
  }

  const GestureData: seq<GestureDetail> := [
    GestureDetail("0",  ["Num0"],      ["0"]),
    GestureDetail("1",  ["Num1"],      ["1"]),
    GestureDetail("2",  ["Num2"],      ["2"]),
    GestureDetail("3",  ["Num3"],      ["3"]),
    GestureDetail("4",  ["Num4"],      ["4"]),
    GestureDetail("5",  ["Num5"],      ["5"]),
    GestureDetail("6",  ["Num6"],      ["6"]),
    GestureDetail("7",  ["Num7"],      ["7"]),
    GestureDetail("8",  ["Num8"],      ["8"]),
    GestureDetail("9",  ["Num9"],      ["9"]),
    GestureDetail("10", ["FanDown"],   ["DecreaseFanSpeed", "DecereaseFanSpeed"]),
    GestureDetail("11", ["FanOff"],    ["FanOff"]),
    GestureDetail("12", ["FanOn"],     ["FanOn"]),
    GestureDetail("13", ["FanUp"],     ["IncreaseFanSpeed"]),
    GestureDetail("14", ["LightOff"],  ["LightOff"]),
    GestureDetail("15", ["LightOn"],   ["LightOn"]),
    GestureDetail("16", ["SetThermo"], ["SetThermo"])
  ]

  /**
   * The scan `for gd in gesture_data: if token in keys: return gd`: the
   * index of the first record of `table` whose keys hold `token`, if any.
   */
  function FirstMatch(table: seq<GestureDetail>, ns: Namespace, token: string): (r: Option<nat>)
    ensures r.Some? ==> r.value < |table|
  {
    if |table| == 0 then None
    else if token in Keys(table[0], ns) then Some(0)
    else
      match FirstMatch(table[1..], ns, token)
      case None => None
      case Some(i) => Some(i + 1)
  }

  /** The scan finds the first record holding the token, and finds nothing only when none does. */
  lemma {:induction false} FirstMatchSpec(table: seq<GestureDetail>, ns: Namespace, token: string)
    ensures var r := FirstMatch(table, ns, token);
      && (r.None? <==> forall j :: 0 <= j < |table| ==> token !in Keys(table[j], ns))
      && (r.Some? ==> r.value < |table| && token in Keys(table[r.value], ns))
      && (r.Some? ==> forall j :: 0 <= j < r.value ==> token !in Keys(table[j], ns))
  {
    if |table| > 0 && token !in Keys(table[0], ns) {
      FirstMatchSpec(table[1..], ns, token);
      assert forall j :: 1 <= j < |table| ==> table[j] == table[1..][j - 1];
    }
  }

  /** The record the catalogue gives for `token`, scanning in order. */
  function Resolve(ns: Namespace, token: string): Option<GestureDetail>
  {
    match FirstMatch(GestureData, ns, token)
    case None => None
    case Some(i) => Some(GestureData[i])
  }

  /** Record `i` is labelled with the decimal numeral of `i`. */
  lemma TableLabels()
    ensures |GestureData| == 17
    ensures forall i :: 0 <= i < 17 ==> GestureData[i].outputLabel == DecimalString(i)
  {
  }

  /** Every label of the catalogue reads back, through `int`, as its own position. */
  lemma TableLabelValues(i: nat)
    requires i < |GestureData|
    ensures ParseDecimal(GestureData[i].outputLabel) == Some(i)
  {
    TableLabels();
    ParseDecimalString(i);
  }

  /** No token of namespace `ns` names two records of `table`. */
  ghost predicate KeysDisjoint(table: seq<GestureDetail>, ns: Namespace)
  {
    forall i, j, token :: 0 <= i < j < |table| && token in Keys(table[i], ns) ==> token !in Keys(table[j], ns)
  }

  /** Length, first and last character: enough to tell every catalogue key apart. */
  function Signature(s: string): (int, char, char)
  {
    if |s| == 0 then (0, ' ', ' ') else (|s|, s[0], s[|s| - 1])
  }

  /** Every record has one training key and one test key, except record 10, which has two test keys. */
  lemma KeyCounts()
    ensures forall i :: 0 <= i < |GestureData| ==> |GestureData[i].trainKeys| == 1
    ensures forall i :: 0 <= i < |GestureData| && i != 10 ==> |GestureData[i].testKeys| == 1
    ensures |GestureData[10].testKeys| == 2
  {
  }

  /** The first training keys of any two records have different signatures. */
  lemma FirstTrainKeySignatures()
    ensures forall i, j :: 0 <= i < j < |GestureData| ==>
      Signature(GestureData[i].trainKeys[0]) != Signature(GestureData[j].trainKeys[0])
  {
  }

  /** So do the first test keys of any two records. */
  lemma FirstTestKeySignatures()
    ensures forall i, j :: 0 <= i < j < |GestureData| ==>
      Signature(GestureData[i].testKeys[0]) != Signature(GestureData[j].testKeys[0])
  {
  }

  /** The misspelt second test key of record 10 differs from every other record's test key. */
  lemma SecondTestKeySignature()
    ensures forall j :: 0 <= j < |GestureData| && j != 10 ==>
      Signature(GestureData[10].testKeys[1]) != Signature(GestureData[j].testKeys[0])
  {
  }

  /**
   * Keys are disjoint across the records of a table once every record's
   * keys are told apart from every later record's keys by their signatures.
   */
  lemma {:induction false} DisjointBySignature(table: seq<GestureDetail>, ns: Namespace)
    requires forall i, j, k, l :: 0 <= i < j < |table| && 0 <= k < |Keys(table[i], ns)| && 0 <= l < |Keys(table[j], ns)| ==>
      Signature(Keys(table[i], ns)[k]) != Signature(Keys(table[j], ns)[l])
    ensures KeysDisjoint(table, ns)
  {
    forall i, j, token | 0 <= i < j < |table| && token in Keys(table[i], ns)
      ensures token !in Keys(table[j], ns)
    {
      var k :| 0 <= k < |Keys(table[i], ns)| && Keys(table[i], ns)[k] == token;
      forall l | 0 <= l < |Keys(table[j], ns)|
        ensures Keys(table[j], ns)[l] != token
      {
        assert Signature(Keys(table[i], ns)[k]) != Signature(Keys(table[j], ns)[l]);
      }
    }
  }

  /** Within the training convention no token names two records. */
  lemma TrainKeysDisjoint()
    ensures KeysDisjoint(GestureData, Train)
  {
    KeyCounts();
    FirstTrainKeySignatures();
    DisjointBySignature(GestureData, Train);
  }

  /** Within the test convention no token names two records. */
  lemma TestKeysDisjoint()
    ensures KeysDisjoint(GestureData, Test)
  {
    KeyCounts();
    FirstTestKeySignatures();
    SecondTestKeySignature();
    forall i, j, k, l | 0 <= i < j < |GestureData| && 0 <= k < |GestureData[i].testKeys| && 0 <= l < |GestureData[j].testKeys|
      ensures Signature(GestureData[i].testKeys[k]) != Signature(GestureData[j].testKeys[l])
    {
      if k == 1 {
        assert i == 10;
      } else if l == 1 {
        assert j == 10;
      }
    }
    DisjointBySignature(GestureData, Test);
  }

  /** No record lists the empty token. */
  lemma KeysNonEmpty(ns: Namespace)
    ensures forall i :: 0 <= i < |GestureData| ==> "" !in Keys(GestureData[i], ns)
  {
  }

  /** A token that no record lists resolves to nothing. */
  lemma ResolveNone(ns: Namespace, token: string)
    requires forall i :: 0 <= i < |GestureData| ==> token !in Keys(GestureData[i], ns)
    ensures Resolve(ns, token) == None
  {
    FirstMatchSpec(GestureData, ns, token);
  }

  /** In a table whose keys are disjoint, the first match is the only match. */
  lemma FirstMatchUnique(table: seq<GestureDetail>, ns: Namespace, token: string, i: nat)
    requires KeysDisjoint(table, ns)
    requires i < |table| && token in Keys(table[i], ns)
    ensures FirstMatch(table, ns, token) == Some(i)
  {
    FirstMatchSpec(table, ns, token);
  }

  /** Hence the scan order of the catalogue never decides anything. */
  lemma FirstMatchIsOnlyMatch(ns: Namespace, token: string, i: nat)
    requires i < |GestureData|
    requires token in Keys(GestureData[i], ns)
    ensures Resolve(ns, token) == Some(GestureData[i])
  {
    if ns == Train { TrainKeysDisjoint(); } else { TestKeysDisjoint(); }
    FirstMatchUnique(GestureData, ns, token, i);
  }

  /** The misspelt test token is kept as an alternative name of the same gesture. */
  lemma FanSpeedSpellings()
    ensures Resolve(Test, "DecreaseFanSpeed") == Some(GestureData[10])
    ensures Resolve(Test, "DecereaseFanSpeed") == Some(GestureData[10])
    ensures GestureData[10].outputLabel == "10"
  {
    FirstMatchIsOnlyMatch(Test, "DecreaseFanSpeed", 10);
    FirstMatchIsOnlyMatch(Test, "DecereaseFanSpeed", 10);
  }
}
