/**
 * The background model: built once by `initializeBackground`, then blended
 * towards the current frame and overwritten after confirmed motion, both in
 * place, by `detectMotion`.
 */
module Background {

  import opened Wrappers
  import opened Frames
  import opened MotionScore

  /** Frames averaged into the initial background. */
  const FramesToAverage: nat := 30
  /** Weight of the current frame in one adaptation step (BACKGROUND_LEARNING_RATE). */
  const LearningRate: real := 0.003

  /** A burst of frames that all have `size` bytes. */
  predicate SameSize(frames: seq<seq<Byte>>, size: nat)
  {
    forall f :: 0 <= f < |frames| ==> |frames[f]| == size
  }

  /** Sum of byte i over the first k frames. */
  function ChannelSum(frames: seq<seq<Byte>>, size: nat, i: nat, k: nat): (sum: int)
    requires SameSize(frames, size) && i < size && k <= |frames|
    ensures 0 <= sum <= 255 * k
  {
    if k == 0 then 0 else ChannelSum(frames, size, i, k - 1) + frames[k - 1][i]
  }

  lemma {:induction false} ChannelSumBetween(frames: seq<seq<Byte>>, size: nat, i: nat, k: nat, lo: int, hi: int)
    requires SameSize(frames, size) && i < size && k <= |frames|
    requires forall f :: 0 <= f < k ==> lo <= frames[f][i] <= hi
    ensures lo * k <= ChannelSum(frames, size, i, k) <= hi * k
  {
    if k > 0 {
      ChannelSumBetween(frames, size, i, k - 1, lo, hi);
      assert lo * k == lo * (k - 1) + lo && hi * k == hi * (k - 1) + hi;
    }
  }

  /** `Math.round(sum / n)`. */
  function RoundedMean(sum: int, n: nat): (r: int)
    requires n > 0
    ensures (r as real) - 0.5 <= sum as real / n as real < (r as real) + 0.5
  {
    JsRound(sum as real / n as real)
  }

  /** A rounded mean of values in [lo, hi] lies in [lo, hi]. */
  lemma RoundedMeanBetween(sum: int, n: nat, lo: int, hi: int)
    requires n > 0 && lo * n <= sum <= hi * n
    ensures lo <= RoundedMean(sum, n) <= hi
  {
    var q := sum as real / n as real;
    assert q * (n as real) == sum as real;
    assert (lo as real) * (n as real) <= q * (n as real) <= (hi as real) * (n as real);
    MulCancel(lo as real, q, n as real);
    MulCancel(q, hi as real, n as real);
  }

  lemma MulCancel(x: real, y: real, n: real)
    requires 0.0 < n && x * n <= y * n
    ensures x <= y
  {
  }

  /** Byte i of the averaged background: the rounded per-channel mean, alpha 255. */
  function AveragedByte(frames: seq<seq<Byte>>, size: nat, i: nat): (r: Byte)
    requires |frames| > 0 && SameSize(frames, size) && i < size
    ensures IsAlpha(i) ==> r == 255
    ensures !IsAlpha(i) ==>
              var mean := ChannelSum(frames, size, i, |frames|) as real / |frames| as real;
              (r as real) - 0.5 <= mean < (r as real) + 0.5
  {
    if IsAlpha(i) then 255
    else
      ChannelSumBetween(frames, size, i, |frames|, 0, 255);
      RoundedMeanBetween(ChannelSum(frames, size, i, |frames|), |frames|, 0, 255);
      RoundedMean(ChannelSum(frames, size, i, |frames|), |frames|)
  }

  /** The background built from a burst of equally sized frames. */
  function Averaged(frames: seq<seq<Byte>>, size: nat): (bg: seq<Byte>)
    requires |frames| > 0 && SameSize(frames, size)
    ensures |bg| == size
    ensures forall i :: 0 <= i < size && IsAlpha(i) ==> bg[i] == 255
  {
    seq(size, i requires 0 <= i < size => AveragedByte(frames, size, i))
  }

  /**
   * Every colour byte of the averaged background lies between the smallest and
   * the largest sample of that byte, and every alpha byte is 255.
   */
  lemma AveragedBetween(frames: seq<seq<Byte>>, size: nat, i: nat, lo: int, hi: int)
    requires |frames| > 0 && SameSize(frames, size)
    requires i < size && !IsAlpha(i)
    requires forall f :: 0 <= f < |frames| ==> lo <= frames[f][i] <= hi
    ensures lo <= Averaged(frames, size)[i] <= hi
  {
    ChannelSumBetween(frames, size, i, |frames|, lo, hi);
    RoundedMeanBetween(ChannelSum(frames, size, i, |frames|), |frames|, lo, hi);
  }

  lemma AveragedAlpha(frames: seq<seq<Byte>>, size: nat, i: nat)
    requires |frames| > 0 && SameSize(frames, size)
    requires i < size && IsAlpha(i)
    ensures Averaged(frames, size)[i] == 255
  {
  }

  /** Averaging identical frames reproduces that frame's colour bytes. */
  lemma AveragedIdentical(frames: seq<seq<Byte>>, frame: seq<Byte>)
    requires |frames| > 0 && forall f :: 0 <= f < |frames| ==> frames[f] == frame
    ensures forall i :: 0 <= i < |frame| && !IsAlpha(i) ==> Averaged(frames, |frame|)[i] == frame[i]
  {
    forall i | 0 <= i < |frame| && !IsAlpha(i)
      ensures Averaged(frames, |frame|)[i] == frame[i]
    {
      AveragedBetween(frames, |frame|, i, frame[i], frame[i]);
    }
  }

  /** Index of the first failed capture (None), or |captures| if none failed. */
  function FirstFailure(captures: seq<Option<seq<Byte>>>): (k: nat)
    ensures k <= |captures|
    ensures forall j :: 0 <= j < k ==> captures[j].Some?
    ensures k < |captures| ==> captures[k].None?
  {
    if captures == [] || captures[0].None? then 0 else 1 + FirstFailure(captures[1..])
  }

  /** The frames of a run of successful captures. */
  function Captured(captures: seq<Option<seq<Byte>>>): (frames: seq<seq<Byte>>)
    requires forall j :: 0 <= j < |captures| ==> captures[j].Some?
    ensures |frames| == |captures|
  {
    seq(|captures|, j requires 0 <= j < |captures| => captures[j].value)
  }

  /** Every successful capture is a canvas-sized frame. */
  predicate CapturesOfSize(captures: seq<Option<seq<Byte>>>, size: nat)
  {
    forall j :: 0 <= j < |captures| && captures[j].Some? ==> |captures[j].value| == size
  }

  /**
   * The background `initializeBackground` settles on, given the outcome of each
   * capture attempt (None: the capture threw): the average of 30 frames when
   * the first 30 attempts succeed; the first frame, unaveraged, when a later
   * attempt fails; no background at all when the very first attempt fails.
   */
  function InitialBackground(captures: seq<Option<seq<Byte>>>, size: nat): (r: Option<seq<Byte>>)
    requires |captures| >= FramesToAverage && CapturesOfSize(captures, size)
    ensures r.Some? ==> |r.value| == size
  {
    var k := FirstFailure(captures[..FramesToAverage]);
    if k == FramesToAverage then Some(Averaged(Captured(captures[..FramesToAverage]), size))
    else if k > 0 then Some(captures[0].value)
    else None
  }

  /**
   * `initializeBackground`: collects frames until 30 are in hand or a capture
   * fails, then averages them channel by channel into a new buffer.
   */
  method InitializeBackground(captures: seq<Option<seq<Byte>>>, size: nat) returns (bg: Option<array<Byte>>)
    requires |captures| >= FramesToAverage && CapturesOfSize(captures, size)
    requires size % 4 == 0
    ensures bg.Some? == InitialBackground(captures, size).Some?
    ensures bg.Some? ==> bg.value[..] == InitialBackground(captures, size).value
  {
    var frameData: seq<seq<Byte>> := [];
    var failed := false;
    while |frameData| < FramesToAverage && !failed
      invariant |frameData| <= FramesToAverage
      invariant forall j :: 0 <= j < |frameData| ==> captures[j].Some? && frameData[j] == captures[j].value
      invariant failed ==> |frameData| < FramesToAverage && captures[|frameData|].None?
      decreases FramesToAverage - |frameData|, !failed
    {
      match captures[|frameData|]
      case None => failed := true;
      case Some(frame) => frameData := frameData + [frame];
    }
    ghost var k := FirstFailure(captures[..FramesToAverage]);
    if failed {
      assert k == |frameData|;
      if |frameData| > 0 {
        var first := frameData[0];
        var a := new Byte[|first|](j requires 0 <= j < |first| => first[j]);
        assert a[..] == first;
        return Some(a);
      }
      return None;
    }
    assert k == FramesToAverage;
    assert frameData == Captured(captures[..FramesToAverage]);
    var bgData := AverageFrames(frameData, size);
    bg := Some(bgData);
  }

  /** The averaging loop of `initializeBackground`, over a fresh canvas-sized buffer. */
  method AverageFrames(frameData: seq<seq<Byte>>, size: nat) returns (bgData: array<Byte>)
    requires |frameData| > 0 && SameSize(frameData, size)
    requires size % 4 == 0
    ensures fresh(bgData)
    ensures bgData[..] == Averaged(frameData, size)
  {
    var n := |frameData|;
    ghost var avg := Averaged(frameData, size);
    bgData := new Byte[size];
    var i := 0;
    while i < size
      invariant 0 <= i <= size && i % 4 == 0
      invariant forall j :: 0 <= j < i ==> bgData[j] == avg[j]
    {
      var rSum, gSum, bSum := SumPixel(frameData, size, i);
      PixelAverage(frameData, size, i, rSum, gSum, bSum);
      PixelLayout(i, size);
      var r: Byte, g: Byte, b: Byte := RoundedMean(rSum, n), RoundedMean(gSum, n), RoundedMean(bSum, n);
      bgData[i], bgData[i + 1], bgData[i + 2], bgData[i + 3] := r, g, b, 255;
      i := i + 4;
    }
    assert bgData[..] == avg;
  }

  /** The averaged pixel at byte i, from its three channel sums. */
  lemma PixelAverage(frames: seq<seq<Byte>>, size: nat, i: nat, rSum: int, gSum: int, bSum: int)
    requires |frames| > 0 && SameSize(frames, size)
    requires i % 4 == 0 && i < size && size % 4 == 0
    requires rSum == ChannelSum(frames, size, i, |frames|)
    requires gSum == ChannelSum(frames, size, i + 1, |frames|)
    requires bSum == ChannelSum(frames, size, i + 2, |frames|)
    ensures i + 3 < size
    ensures 0 <= RoundedMean(rSum, |frames|) <= 255 && Averaged(frames, size)[i] == RoundedMean(rSum, |frames|)
    ensures 0 <= RoundedMean(gSum, |frames|) <= 255 && Averaged(frames, size)[i + 1] == RoundedMean(gSum, |frames|)
    ensures 0 <= RoundedMean(bSum, |frames|) <= 255 && Averaged(frames, size)[i + 2] == RoundedMean(bSum, |frames|)
    ensures Averaged(frames, size)[i + 3] == 255
  {
    PixelLayout(i, size);
    ChannelAverage(frames, size, i, rSum);
    ChannelAverage(frames, size, i + 1, gSum);
    ChannelAverage(frames, size, i + 2, bSum);
  }

  /** One averaged colour byte: the rounded mean of its sum, which is a byte. */
  lemma ChannelAverage(frames: seq<seq<Byte>>, size: nat, i: nat, sum: int)
    requires |frames| > 0 && SameSize(frames, size)
    requires i < size && !IsAlpha(i) && sum == ChannelSum(frames, size, i, |frames|)
    ensures 0 <= RoundedMean(sum, |frames|) <= 255
    ensures Averaged(frames, size)[i] == RoundedMean(sum, |frames|)
  {
    ChannelSumBetween(frames, size, i, |frames|, 0, 255);
    RoundedMeanBetween(sum, |frames|, 0, 255);
  }

  /** The inner loop: the R, G and B sums of the pixel at byte i over all frames. */
  method SumPixel(frameData: seq<seq<Byte>>, size: nat, i: nat) returns (rSum: int, gSum: int, bSum: int)
    requires SameSize(frameData, size) && i + 2 < size
    ensures rSum == ChannelSum(frameData, size, i, |frameData|)
    ensures gSum == ChannelSum(frameData, size, i + 1, |frameData|)
    ensures bSum == ChannelSum(frameData, size, i + 2, |frameData|)
  {
    rSum, gSum, bSum := 0, 0, 0;
    var f := 0;
    while f < |frameData|
      invariant 0 <= f <= |frameData|
      invariant rSum == ChannelSum(frameData, size, i, f)
      invariant gSum == ChannelSum(frameData, size, i + 1, f)
      invariant bSum == ChannelSum(frameData, size, i + 2, f)
    {
      rSum := rSum + frameData[f][i];
      gSum := gSum + frameData[f][i + 1];
      bSum := bSum + frameData[f][i + 2];
      f := f + 1;
    }
  }

  /** One channel blended toward the frame: `bg * (1 - rate) + cur * rate`, as a real. */
  function Blend(b: Byte, c: Byte): (x: real)
    ensures x == (b as real) + LearningRate * ((c - b) as real)
  {
    (b as real) * (1.0 - LearningRate) + (c as real) * LearningRate
  }

  /** The background after one adaptation step: each colour byte stores its blend, alpha 255. */
  function Adapted(bg: seq<Byte>, cur: seq<Byte>): (r: seq<Byte>)
    requires |bg| == |cur|
    ensures |r| == |bg|
  {
    seq(|bg|, i requires 0 <= i < |bg| => AdaptedByte(bg[i], cur[i], i))
  }

  /** Byte i of the adapted background, from the old byte b and the frame's byte c. */
  function AdaptedByte(b: Byte, c: Byte, i: nat): (r: Byte)
    ensures IsAlpha(i) ==> r == 255
    ensures !IsAlpha(i) ==> -0.5 <= (r as real) - Blend(b, c) <= 0.5
  {
    if IsAlpha(i) then 255 else ToUint8Clamp(Blend(b, c))
  }

  /**
   * Each adapted colour byte lies between its old background value and the
   * current frame's value; each alpha byte is 255.
   */
  lemma AdaptedBetween(bg: seq<Byte>, cur: seq<Byte>, i: nat)
    requires |bg| == |cur| && i < |bg|
    ensures IsAlpha(i) ==> Adapted(bg, cur)[i] == 255
    ensures !IsAlpha(i) && bg[i] <= cur[i] ==> bg[i] <= Adapted(bg, cur)[i] <= cur[i]
    ensures !IsAlpha(i) && cur[i] <= bg[i] ==> cur[i] <= Adapted(bg, cur)[i] <= bg[i]
  {
    if !IsAlpha(i) {
      var x := Blend(bg[i], cur[i]);
      if bg[i] <= cur[i] {
        assert bg[i] as real <= x <= cur[i] as real;
        ClampStaysBetween(bg[i], cur[i], x);
      } else {
        assert cur[i] as real <= x <= bg[i] as real;
        ClampStaysBetween(cur[i], bg[i], x);
      }
    }
  }

  /**
   * Because the blend is stored back into bytes, one adaptation step leaves a
   * channel unchanged unless it differs from the frame by at least 167 levels,
   * and then moves it by exactly one level toward the frame.
   */
  lemma AdaptedChannel(b: Byte, c: Byte)
    ensures ToUint8Clamp(Blend(b, c)) == if Delta(b, c) <= 166 then b else if b < c then b + 1 else b - 1
  {
    var x := Blend(b, c);
    var d := (c - b) as real;
    if Delta(b, c) <= 166 {
      assert -166.0 <= d <= 166.0;
      assert (b as real) - 0.5 < x < (b as real) + 0.5;
    } else if b < c {
      assert 167.0 <= d <= 255.0;
      assert (b as real) + 0.5 < x < (b as real) + 1.0;
      assert x.Floor == b;
    } else {
      assert -255.0 <= d <= -167.0;
      assert (b as real) - 1.0 < x < (b as real) - 0.5;
      assert x.Floor == b - 1;
    }
  }

  /** A frame whose colours all lie within 166 levels of the background does not move it. */
  lemma AdaptToNearbyFrameIsIdentity(bg: seq<Byte>, cur: seq<Byte>)
    requires |bg| == |cur|
    requires forall i :: 0 <= i < |bg| && !IsAlpha(i) ==> Delta(bg[i], cur[i]) <= 166
    ensures forall i :: 0 <= i < |bg| && !IsAlpha(i) ==> Adapted(bg, cur)[i] == bg[i]
  {
    forall i | 0 <= i < |bg| && !IsAlpha(i)
      ensures Adapted(bg, cur)[i] == bg[i]
    {
      AdaptedChannel(bg[i], cur[i]);
    }
  }

  /** The adaptation loop of `detectMotion`: blends the current frame into the background in place. */
  method Adapt(bgData: array<Byte>, curData: seq<Byte>)
    requires |curData| == bgData.Length && bgData.Length % 4 == 0
    modifies bgData
    ensures bgData[..] == Adapted(old(bgData[..]), curData)
  {
    ghost var before := bgData[..];
    var i := 0;
    while i < |curData|
      invariant 0 <= i <= |curData| && i % 4 == 0
      invariant forall j :: 0 <= j < i ==> bgData[j] == AdaptedByte(before[j], curData[j], j)
      invariant forall j :: i <= j < bgData.Length ==> bgData[j] == before[j]
    {
      PixelLayout(i, |curData|);
      var r := ToUint8Clamp(Blend(bgData[i], curData[i]));
      var g := ToUint8Clamp(Blend(bgData[i + 1], curData[i + 1]));
      var b := ToUint8Clamp(Blend(bgData[i + 2], curData[i + 2]));
      assert r == AdaptedByte(before[i], curData[i], i);
      assert g == AdaptedByte(before[i + 1], curData[i + 1], i + 1);
      assert b == AdaptedByte(before[i + 2], curData[i + 2], i + 2);
      bgData[i], bgData[i + 1], bgData[i + 2], bgData[i + 3] := r, g, b, 255;
      i := i + 4;
    }
    assert bgData[..] == Adapted(before, curData);
  }

  /**
   * The delayed reset: copies every byte of a fresh frame into the background,
   * in place. Each value is already a byte, so the clamped store keeps it.
   */
  method Reset(bgData: array<Byte>, newData: seq<Byte>)
    requires |newData| == bgData.Length
    modifies bgData
    ensures bgData[..] == newData
  {
    var i := 0;
    while i < |newData|
      invariant 0 <= i <= |newData|
      invariant forall j :: 0 <= j < i ==> bgData[j] == newData[j]
    {
      ClampOfByte(newData[i]);
      bgData[i] := newData[i];
      i := i + 1;
    }
    assert bgData[..] == newData;
  }
}
