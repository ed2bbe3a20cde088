/**
 * The nearest-neighbour rule: a query vector takes the label of the stored
 * reference it is most similar to. The similarity measure (cosine
 * similarity in the program) is a parameter.
 */
module Classifier {
  import opened Wrappers
  import opened Strings
  import opened Taxonomy
  import opened FrameSampler

  /** One stored training example: its catalogue record and its feature vector. */
  datatype GestureFeature = GestureFeature(detail: GestureDetail, extractedFeature: Feature)

  /** Where the scan starts: a similarity that only a strictly greater one replaces. */
  const InitialSimilarity: real := -1.0

  /** The label given when nothing better is found (and for failed extractions). */
  const Sentinel: int := 0

  /** Every reference's label reads as an integer, so `int(output_label)` cannot raise. */
  predicate Labelled(refs: seq<GestureFeature>)
  {
    forall i :: 0 <= i < |refs| ==> ParseDecimal(refs[i].detail.outputLabel).Some?
  }

  /** `int(fv.gesture_detail.output_label)`. */
  function LabelOf(g: GestureFeature): int
    requires ParseDecimal(g.detail.outputLabel).Some?
  {
    ParseDecimal(g.detail.outputLabel).value
  }

  /** Similarity of the query to reference `i`. */
  function SimAt(query: Feature, refs: seq<GestureFeature>, sim: (Feature, Feature) -> real, i: nat): real
    requires i < |refs|
  {
    sim(query, refs[i].extractedFeature)
  }

  /** Some reference beats the initial similarity. */
  ghost predicate AnyAboveInitial(query: Feature, refs: seq<GestureFeature>, sim: (Feature, Feature) -> real)
  {
    exists i :: 0 <= i < |refs| && SimAt(query, refs, sim, i) > InitialSimilarity
  }

  /**
   * Reference `k` wins among the first `n`: it beats the initial
   * similarity, nothing among the first `n` is more similar, and nothing
   * before it is as similar.
   */
  ghost predicate WinsAmong(query: Feature, refs: seq<GestureFeature>, sim: (Feature, Feature) -> real, k: nat, n: nat)
    requires n <= |refs|
  {
    && k < n
    && SimAt(query, refs, sim, k) > InitialSimilarity
    && (forall j :: 0 <= j < n ==> SimAt(query, refs, sim, j) <= SimAt(query, refs, sim, k))
    && (forall j :: 0 <= j < k ==> SimAt(query, refs, sim, j) < SimAt(query, refs, sim, k))
  }

  /** At most one reference wins. */
  lemma WinnerUnique(query: Feature, refs: seq<GestureFeature>, sim: (Feature, Feature) -> real, k1: nat, k2: nat)
    requires WinsAmong(query, refs, sim, k1, |refs|) && WinsAmong(query, refs, sim, k2, |refs|)
    ensures k1 == k2
  {
  }

  /** Whenever some reference beats the initial similarity, there is a winner. */
  lemma {:induction false} WinnerExists(query: Feature, refs: seq<GestureFeature>, sim: (Feature, Feature) -> real, n: nat)
    requires n <= |refs|
    requires exists i :: 0 <= i < n && SimAt(query, refs, sim, i) > InitialSimilarity
    ensures exists k: nat :: WinsAmong(query, refs, sim, k, n)
  {
    var last := n - 1;
    if exists i :: 0 <= i < last && SimAt(query, refs, sim, i) > InitialSimilarity {
      WinnerExists(query, refs, sim, last);
      var k: nat :| WinsAmong(query, refs, sim, k, last);
      if SimAt(query, refs, sim, last) > SimAt(query, refs, sim, k) {
        assert WinsAmong(query, refs, sim, last, n);
      } else {
        assert WinsAmong(query, refs, sim, k, n);
      }
    } else {
      assert WinsAmong(query, refs, sim, last, n);
    }
  }

  /**
   * The label the rule assigns: the winner's label, or the sentinel when
   * no reference beats the initial similarity (in particular when there
   * are no references).
   */
  ghost function Classify(query: Feature, refs: seq<GestureFeature>, sim: (Feature, Feature) -> real): (recognized: int)
    requires Labelled(refs)
    ensures recognized == Sentinel || exists i :: 0 <= i < |refs| && recognized == LabelOf(refs[i])
  {
    if AnyAboveInitial(query, refs, sim) then
      WinnerExists(query, refs, sim, |refs|);
      var k: nat :| WinsAmong(query, refs, sim, k, |refs|);
      LabelOf(refs[k])
    else
      Sentinel
  }

  /**
   * The scan of the prediction loop: keep the best similarity so far and
   * its label, replacing them only on a strictly greater similarity.
   */
  method Recognize(query: Feature, refs: seq<GestureFeature>, sim: (Feature, Feature) -> real) returns (recognized: int)
    requires Labelled(refs)
    ensures !AnyAboveInitial(query, refs, sim) ==> recognized == Sentinel
    ensures AnyAboveInitial(query, refs, sim) ==>
      exists k: nat :: WinsAmong(query, refs, sim, k, |refs|) && recognized == LabelOf(refs[k])
    ensures recognized == Classify(query, refs, sim)
  {
    var maxSimilarity := InitialSimilarity;
    recognized := Sentinel;
    ghost var best: int := -1;
    var i := 0;
    while i < |refs|
      invariant 0 <= i <= |refs|
      invariant -1 <= best < i
      invariant best == -1 ==> maxSimilarity == InitialSimilarity && recognized == Sentinel
      invariant best == -1 ==> forall j :: 0 <= j < i ==> SimAt(query, refs, sim, j) <= InitialSimilarity
      invariant best >= 0 ==> WinsAmong(query, refs, sim, best, i)
      invariant best >= 0 ==> maxSimilarity == SimAt(query, refs, sim, best) && recognized == LabelOf(refs[best])
    {
      var similarity := sim(query, refs[i].extractedFeature);
      if similarity > maxSimilarity {
        maxSimilarity := similarity;
        recognized := LabelOf(refs[i]);
        best := i;
      }
      i := i + 1;
    }
    if best >= 0 {
      assert WinsAmong(query, refs, sim, best, |refs|);
      forall k | WinsAmong(query, refs, sim, k, |refs|)
        ensures k == best
      {
        WinnerUnique(query, refs, sim, k, best);
      }
    }
  }

  /** With no references the rule gives the sentinel. */
  lemma EmptyGivesSentinel(query: Feature, sim: (Feature, Feature) -> real)
    ensures Classify(query, [], sim) == Sentinel
  {
  }

  /**
   * A single reference gives its own label when it beats the initial
   * similarity, and the sentinel when it is exactly -1 (or less).
   */
  lemma SingleReference(query: Feature, r: GestureFeature, sim: (Feature, Feature) -> real)
    requires ParseDecimal(r.detail.outputLabel).Some?
    ensures sim(query, r.extractedFeature) > InitialSimilarity ==> Classify(query, [r], sim) == LabelOf(r)
    ensures sim(query, r.extractedFeature) <= InitialSimilarity ==> Classify(query, [r], sim) == Sentinel
  {
    if sim(query, r.extractedFeature) > InitialSimilarity {
      assert SimAt(query, [r], sim, 0) > InitialSimilarity;
    }
  }

  /** Of two equally similar references, the earlier one wins; appending cannot displace it. */
  lemma FirstOfEqualsWins(query: Feature, refs: seq<GestureFeature>, sim: (Feature, Feature) -> real, k: nat, later: GestureFeature)
    requires Labelled(refs) && ParseDecimal(later.detail.outputLabel).Some?
    requires WinsAmong(query, refs, sim, k, |refs|)
    requires sim(query, later.extractedFeature) <= SimAt(query, refs, sim, k)
    ensures Classify(query, refs + [later], sim) == LabelOf(refs[k])
  {
    var refs' := refs + [later];
    assert forall j :: 0 <= j < |refs| ==> SimAt(query, refs', sim, j) == SimAt(query, refs, sim, j);
    assert WinsAmong(query, refs', sim, k, |refs'|);
    assert AnyAboveInitial(query, refs', sim);
    forall k' | WinsAmong(query, refs', sim, k', |refs'|)
      ensures k' == k
    {
      WinnerUnique(query, refs', sim, k', k);
    }
  }
}
