/**
 * The frame scorer `calculateMotion`: one non-negative number saying how much
 * the current frame differs from the background.
 */
module MotionScore {

  import opened Frames

  /** Bytes between two sampled pixels: every 4th RGBA pixel is examined. */
  const SampleStride: nat := 16
  /** A sampled pixel is significant when some channel moved by more than this. */
  const SignificantDelta: nat := 40
  /** Fraction of significant pixels below which the score is damped (MIN_MOTION_AREA). */
  const MinMotionArea: real := 0.10
  /** Factor applied to the average difference of a small-area change. */
  const Damping: real := 0.1
  /** Weight of the change ratio in an undamped score. */
  const AreaWeight: real := 1.2

  /**
   * What the model asks of `Math.sqrt`: it is non-negative on non-negative
   * arguments and maps 0 to 0. Dafny has no real square root; the scorer is
   * given one as a parameter.
   */
  ghost predicate IsSqrt(sqrt: real -> real)
  {
    sqrt(0.0) == 0.0 && forall x :: 0.0 <= x ==> 0.0 <= sqrt(x)
  }

  /** Two frames the scorer can compare: same size, four bytes per pixel. */
  predicate Comparable(a: seq<Byte>, b: seq<Byte>)
  {
    IsFrame(a) && |a| == |b|
  }

  /** Number of loop iterations `i = 0, 16, 32, ... < n`. */
  function SampleCount(n: nat): (count: nat)
    ensures n <= SampleStride * count
    ensures count > 0 ==> SampleStride * (count - 1) < n
  {
    (n + SampleStride - 1) / SampleStride
  }

  /** `Math.abs(x - y)` of two channel values. */
  function Delta(x: Byte, y: Byte): (d: nat)
    ensures d == x - y || d == y - x
  {
    if x < y then y - x else x - y
  }

  /** Sample k exists exactly when its first byte lies inside the frame. */
  lemma SampleCountExact(n: nat, k: nat)
    ensures k < SampleCount(n) <==> SampleStride * k < n
  {
  }

  /** The k-th sampled pixel starts inside the frame, with its three colour bytes. */
  lemma SampleInFrame(n: nat, k: nat)
    requires n % 4 == 0 && k < SampleCount(n)
    ensures SampleStride * k + 2 < n
  {
    SampleCountExact(n, k);
    var q := n / 4;
    assert n == 4 * q;
    assert 4 * k < q;
  }

  /** Euclidean RGB distance of the pixels starting at byte i. */
  function ColorDiff(a: seq<Byte>, b: seq<Byte>, i: nat, sqrt: real -> real): (d: real)
    requires i + 2 < |a| && |a| == |b|
    ensures IsSqrt(sqrt) ==> 0.0 <= d
    ensures sqrt(0.0) == 0.0 && a[i] == b[i] && a[i + 1] == b[i + 1] && a[i + 2] == b[i + 2] ==> d == 0.0
  {
    var dr, dg, db := Delta(a[i], b[i]), Delta(a[i + 1], b[i + 1]), Delta(a[i + 2], b[i + 2]);
    sqrt((dr * dr + dg * dg + db * db) as real)
  }

  /** Some colour channel of the pixel at byte i moved by more than 40. */
  predicate IsSignificant(a: seq<Byte>, b: seq<Byte>, i: nat)
    requires i + 2 < |a| && |a| == |b|
    ensures a[i] == b[i] && a[i + 1] == b[i + 1] && a[i + 2] == b[i + 2] ==> !IsSignificant(a, b, i)
  {
    Delta(a[i], b[i]) > SignificantDelta
    || Delta(a[i + 1], b[i + 1]) > SignificantDelta
    || Delta(a[i + 2], b[i + 2]) > SignificantDelta
  }

  /** Sum of the colour distances of the first k sampled pixels. */
  function TotalDiff(a: seq<Byte>, b: seq<Byte>, sqrt: real -> real, k: nat): (total: real)
    requires Comparable(a, b) && k <= SampleCount(|a|)
    ensures IsSqrt(sqrt) ==> 0.0 <= total
  {
    if k == 0 then 0.0
    else
      SampleInFrame(|a|, k - 1);
      TotalDiff(a, b, sqrt, k - 1) + ColorDiff(a, b, SampleStride * (k - 1), sqrt)
  }

  /** Number of significant pixels among the first k sampled pixels. */
  function SignificantChanges(a: seq<Byte>, b: seq<Byte>, k: nat): (count: nat)
    requires Comparable(a, b) && k <= SampleCount(|a|)
    ensures count <= k
  {
    if k == 0 then 0
    else
      SampleInFrame(|a|, k - 1);
      SignificantChanges(a, b, k - 1) + if IsSignificant(a, b, SampleStride * (k - 1)) then 1 else 0
  }

  /** The mean colour distance over the sampled pixels. */
  function AvgDiff(a: seq<Byte>, b: seq<Byte>, sqrt: real -> real): (avg: real)
    requires Comparable(a, b)
    ensures IsSqrt(sqrt) ==> 0.0 <= avg
  {
    TotalDiff(a, b, sqrt, SampleCount(|a|)) / (SampleCount(|a|) as real)
  }

  /** The share of sampled pixels that changed significantly. */
  function ChangeRatio(a: seq<Byte>, b: seq<Byte>): (ratio: real)
    requires Comparable(a, b)
    ensures 0.0 <= ratio <= 1.0
  {
    var n := SampleCount(|a|);
    FractionAtMostOne(SignificantChanges(a, b, n) as real, n as real);
    (SignificantChanges(a, b, n) as real) / (n as real)
  }

  /**
   * The value `calculateMotion(background, current)` returns. For a
   * non-negative average difference it lies between 0 and 2.2 times it.
   */
  function Score(a: seq<Byte>, b: seq<Byte>, sqrt: real -> real): (score: real)
    requires Comparable(a, b)
    ensures 0.0 <= AvgDiff(a, b, sqrt) ==> 0.0 <= score <= AvgDiff(a, b, sqrt) * (1.0 + AreaWeight)
  {
    var avgDiff, changeRatio := AvgDiff(a, b, sqrt), ChangeRatio(a, b);
    var score := if changeRatio < MinMotionArea then avgDiff * Damping
                 else avgDiff * (1.0 + changeRatio * AreaWeight);
    if 0.0 <= avgDiff then ScoreCases(avgDiff, changeRatio, score); score else score
  }

  /** `calculateMotion`: sample the two frames, then damp or weight the average difference. */
  method CalculateMotion(data1: seq<Byte>, data2: seq<Byte>, sqrt: real -> real) returns (motion: real)
    requires Comparable(data1, data2)
    ensures motion == Score(data1, data2, sqrt)
  {
    var totalDiff, significantChanges, pixelCount := SampleFrames(data1, data2, sqrt);
    var avgDiff := totalDiff / (pixelCount as real);
    var changeRatio := (significantChanges as real) / (pixelCount as real);
    if changeRatio < MinMotionArea {
      return avgDiff * Damping;
    }
    motion := avgDiff * (1.0 + changeRatio * AreaWeight);
  }

  /**
   * The sampling loop of `calculateMotion`: every 16th byte starts a sampled
   * pixel; its RGB distance is summed and a channel change above 40 counted.
   */
  method SampleFrames(data1: seq<Byte>, data2: seq<Byte>, sqrt: real -> real)
    returns (totalDiff: real, significantChanges: nat, pixelCount: nat)
    requires Comparable(data1, data2)
    ensures pixelCount == SampleCount(|data1|)
    ensures totalDiff == TotalDiff(data1, data2, sqrt, pixelCount)
    ensures significantChanges == SignificantChanges(data1, data2, pixelCount)
  {
    totalDiff, significantChanges, pixelCount := 0.0, 0, 0;
    var i := 0;
    while i < |data1|
      invariant i == SampleStride * pixelCount
      invariant pixelCount <= SampleCount(|data1|)
      invariant totalDiff == TotalDiff(data1, data2, sqrt, pixelCount)
      invariant significantChanges == SignificantChanges(data1, data2, pixelCount)
    {
      SampleCountExact(|data1|, pixelCount);
      SampleInFrame(|data1|, pixelCount);
      var rDiff := Delta(data1[i], data2[i]);
      var gDiff := Delta(data1[i + 1], data2[i + 1]);
      var bDiff := Delta(data1[i + 2], data2[i + 2]);
      var colorDiff := sqrt((rDiff * rDiff + gDiff * gDiff + bDiff * bDiff) as real);
      totalDiff := totalDiff + colorDiff;
      pixelCount := pixelCount + 1;
      if rDiff > SignificantDelta || gDiff > SignificantDelta || bDiff > SignificantDelta {
        significantChanges := significantChanges + 1;
      }
      i := i + SampleStride;
    }
    SampleCountExact(|data1|, pixelCount);
    if pixelCount > 0 {
      SampleCountExact(|data1|, pixelCount - 1);
    }
  }

  lemma {:induction false} TotalDiffOfIdentical(f: seq<Byte>, sqrt: real -> real, k: nat)
    requires IsFrame(f) && IsSqrt(sqrt) && k <= SampleCount(|f|)
    ensures TotalDiff(f, f, sqrt, k) == 0.0
  {
    if k > 0 {
      TotalDiffOfIdentical(f, sqrt, k - 1);
    }
  }

  lemma {:induction false} NoSignificantChangeInIdentical(f: seq<Byte>, k: nat)
    requires IsFrame(f) && k <= SampleCount(|f|)
    ensures SignificantChanges(f, f, k) == 0
  {
    if k > 0 {
      NoSignificantChangeInIdentical(f, k - 1);
    }
  }

  /** Scoring a frame against itself gives 0: no distance, no change, 0 * 0.1. */
  lemma ScoreOfIdenticalFrames(f: seq<Byte>, sqrt: real -> real)
    requires IsFrame(f) && IsSqrt(sqrt)
    ensures Score(f, f, sqrt) == 0.0
  {
    TotalDiffOfIdentical(f, sqrt, SampleCount(|f|));
    NoSignificantChangeInIdentical(f, SampleCount(|f|));
  }

  lemma FractionAtMostOne(x: real, y: real)
    requires 0.0 <= x <= y && 0.0 < y
    ensures 0.0 <= x / y <= 1.0
  {
  }

  /** Offsets within a sample: byte 16k + c sits at position c of its 16-byte group. */
  lemma StrideOffset(k: nat, c: nat)
    requires c < SampleStride
    ensures (SampleStride * k + c) % SampleStride == c
  {
  }

  /**
   * The score is never negative. A change covering less than 10% of the
   * sampled pixels is damped to at most a tenth of the average difference;
   * a larger one scores between the average difference and 2.2 times it.
   */
  lemma ScoreBounds(a: seq<Byte>, b: seq<Byte>, sqrt: real -> real)
    requires Comparable(a, b) && IsSqrt(sqrt)
    ensures 0.0 <= AvgDiff(a, b, sqrt)
    ensures 0.0 <= Score(a, b, sqrt)
    ensures ChangeRatio(a, b) < MinMotionArea ==> Score(a, b, sqrt) == AvgDiff(a, b, sqrt) * Damping <= AvgDiff(a, b, sqrt)
    ensures ChangeRatio(a, b) >= MinMotionArea ==>
              AvgDiff(a, b, sqrt) <= Score(a, b, sqrt) <= AvgDiff(a, b, sqrt) * (1.0 + AreaWeight)
  {
    ScoreFormula(a, b, sqrt);
    ScoreCases(AvgDiff(a, b, sqrt), ChangeRatio(a, b), Score(a, b, sqrt));
  }

  /** The score in terms of its two parts. */
  lemma ScoreFormula(a: seq<Byte>, b: seq<Byte>, sqrt: real -> real)
    requires Comparable(a, b)
    ensures var avg, ratio := AvgDiff(a, b, sqrt), ChangeRatio(a, b);
      Score(a, b, sqrt) == if ratio < MinMotionArea then avg * Damping else avg * (1.0 + ratio * AreaWeight)
  {
  }

  /** The two score formulas, for a non-negative average and a fraction. */
  lemma ScoreCases(avg: real, ratio: real, score: real)
    requires 0.0 <= avg && 0.0 <= ratio <= 1.0
    requires score == if ratio < MinMotionArea then avg * Damping else avg * (1.0 + ratio * AreaWeight)
    ensures 0.0 <= score
    ensures ratio < MinMotionArea ==> score == avg * Damping <= avg
    ensures ratio >= MinMotionArea ==> avg <= score <= avg * (1.0 + AreaWeight)
  {
    assert 0.0 <= avg * ratio <= avg;
  }

  /** The two frames agree on every byte the scorer reads: R, G, B of every 4th pixel. */
  predicate SampledAgree(x: seq<Byte>, y: seq<Byte>)
  {
    |x| == |y| && forall i :: 0 <= i < |x| && i % SampleStride < 3 ==> x[i] == y[i]
  }

  lemma {:induction false} TotalDiffReadsSamples(a: seq<Byte>, b: seq<Byte>, a': seq<Byte>, b': seq<Byte>,
                                                 sqrt: real -> real, k: nat)
    requires Comparable(a, b) && SampledAgree(a, a') && SampledAgree(b, b') && k <= SampleCount(|a|)
    ensures Comparable(a', b')
    ensures TotalDiff(a, b, sqrt, k) == TotalDiff(a', b', sqrt, k)
    ensures SignificantChanges(a, b, k) == SignificantChanges(a', b', k)
  {
    if k > 0 {
      TotalDiffReadsSamples(a, b, a', b', sqrt, k - 1);
      SampleInFrame(|a|, k - 1);
      SampleReadsColour(a, b, a', b', sqrt, k - 1);
    }
  }

  /** One sampled pixel: its distance and significance depend only on its R, G, B bytes. */
  lemma SampleReadsColour(a: seq<Byte>, b: seq<Byte>, a': seq<Byte>, b': seq<Byte>,
                          sqrt: real -> real, j: nat)
    requires Comparable(a, b) && SampledAgree(a, a') && SampledAgree(b, b') && j < SampleCount(|a|)
    ensures SampleStride * j + 2 < |a'| == |b'|
    ensures ColorDiff(a, b, SampleStride * j, sqrt) == ColorDiff(a', b', SampleStride * j, sqrt)
    ensures IsSignificant(a, b, SampleStride * j) == IsSignificant(a', b', SampleStride * j)
  {
    SampleInFrame(|a|, j);
    var i := SampleStride * j;
    StrideOffset(j, 0);
    StrideOffset(j, 1);
    StrideOffset(j, 2);
    assert a[i] == a'[i] && b[i] == b'[i];
    assert a[i + 1] == a'[i + 1] && b[i + 1] == b'[i + 1];
    assert a[i + 2] == a'[i + 2] && b[i + 2] == b'[i + 2];
  }

  /**
   * Only bytes i, i+1, i+2 with i a multiple of 16 matter: alpha bytes and the
   * other three pixels of each group of four never change the score.
   */
  lemma ScoreReadsOnlySampledColour(a: seq<Byte>, b: seq<Byte>, a': seq<Byte>, b': seq<Byte>,
                                    sqrt: real -> real)
    requires Comparable(a, b) && SampledAgree(a, a') && SampledAgree(b, b')
    ensures Comparable(a', b')
    ensures Score(a, b, sqrt) == Score(a', b', sqrt)
  {
    var n := SampleCount(|a|);
    TotalDiffReadsSamples(a, b, a', b', sqrt, n);
    assert AvgDiff(a, b, sqrt) == AvgDiff(a', b', sqrt);
    assert ChangeRatio(a, b) == ChangeRatio(a', b');
  }

  /** The sampled pixels (by index) that are significant. */
  function SignificantSet(a: seq<Byte>, b: seq<Byte>, k: nat): set<nat>
    requires Comparable(a, b) && k <= SampleCount(|a|)
  {
    set j: nat | j < k && IsSignificantSample(a, b, j)
  }

  predicate IsSignificantSample(a: seq<Byte>, b: seq<Byte>, j: nat)
    requires Comparable(a, b)
  {
    j < SampleCount(|a|) && (SampleInFrame(|a|, j); IsSignificant(a, b, SampleStride * j))
  }

  /**
   * significantChanges counts exactly the sampled pixels in which some colour
   * channel moved by more than 40.
   */
  lemma {:induction false} SignificantChangesCounts(a: seq<Byte>, b: seq<Byte>, k: nat)
    requires Comparable(a, b) && k <= SampleCount(|a|)
    ensures SignificantChanges(a, b, k) == |SignificantSet(a, b, k)|
  {
    if k > 0 {
      SignificantChangesCounts(a, b, k - 1);
      var prev := SignificantSet(a, b, k - 1);
      if IsSignificantSample(a, b, k - 1) {
        assert SignificantSet(a, b, k) == prev + {k - 1};
      } else {
        assert SignificantSet(a, b, k) == prev;
      }
    } else {
      assert SignificantSet(a, b, 0) == {};
    }
  }
}
