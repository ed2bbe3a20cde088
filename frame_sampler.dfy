/**
 * Choosing and decoding the one frame of a video the classifier looks at,
 * and turning it into a feature vector. Video decoding and the feature
 * extractor are outside the model: they are passed in as functions.
 */
module FrameSampler {
  import opened Wrappers

  /** A feature vector, as the extractor produces it (already flattened). */
  type Feature = seq<real>

  /**
   * `int(x)` on a float: drop the fractional part, rounding toward zero
   * (the frame-count property of a capture is a float).
   */
  function TruncateToInt(x: real): (n: int)
    ensures x >= 0.0 ==> n as real <= x < n as real + 1.0
    ensures x < 0.0 ==> n as real - 1.0 < x <= n as real
  {
    if x >= 0.0 then x.Floor else -((-x).Floor)
  }

  /**
   * `max(0, total_frames // 2)`. Python's `//` rounds toward minus
   * infinity; with the positive divisor 2 that is what Dafny's `/` does.
   * The index is the lower middle of the frames, and 0 when the count is
   * zero or negative.
   */
  function MiddleFrameIndex(totalFrames: int): (m: nat)
    ensures totalFrames >= 0 ==> 2 * m <= totalFrames <= 2 * m + 1
    ensures totalFrames >= 1 ==> m < totalFrames
    ensures totalFrames <= 1 ==> m == 0
  {
    if totalFrames / 2 > 0 then totalFrames / 2 else 0
  }

  /**
   * `extract_middle_frame`: read the capture's frame count, seek to the
   * middle index and decode one frame there. `frameCount` stands for the
   * frame-count property of a capture opened on `path` and `readAt` for
   * seeking and reading; `None` is a failed read.
   */
  function ExtractMiddleFrame<Frame>(path: string, frameCount: string -> real,
                                     readAt: (string, nat) -> Option<Frame>): (r: Option<Frame>)
    ensures r == readAt(path, MiddleFrameIndex(TruncateToInt(frameCount(path))))
  {
    var totalFrames := TruncateToInt(frameCount(path));
    readAt(path, MiddleFrameIndex(totalFrames))
  }

  /**
   * `extract_feature`: the extractor's vector for the middle frame, or
   * `None` when either the frame or the extraction fails.
   */
  function ExtractFeature<Frame>(path: string, frameCount: string -> real,
                                 readAt: (string, nat) -> Option<Frame>,
                                 extractor: Frame -> Option<Feature>): (r: Option<Feature>)
    ensures r.Some? <==>
      && ExtractMiddleFrame(path, frameCount, readAt).Some?
      && extractor(ExtractMiddleFrame(path, frameCount, readAt).value).Some?
    ensures r.Some? ==> r == extractor(readAt(path, MiddleFrameIndex(TruncateToInt(frameCount(path)))).value)
  {
    match ExtractMiddleFrame(path, frameCount, readAt)
    case None => None
    case Some(frame) => extractor(frame)
  }

  /**
   * For a capture reporting `n` frames, the frame read is the one at
   * index `n // 2`.
   */
  lemma MiddleFrameOfCount<Frame>(path: string, frameCount: string -> real,
                                  readAt: (string, nat) -> Option<Frame>, n: nat)
    requires frameCount(path) == n as real
    ensures ExtractMiddleFrame(path, frameCount, readAt) == readAt(path, n / 2)
  {
    assert TruncateToInt(n as real) == n;
  }
}
