/** What the time compression of wasapi_renderer.cpp computes: the splice score over
    interleaved frames, and the spliced output. */
module Splice {
  import opened Words
  import opened Gain

  /** Index of a channel's sample in interleaved audio. */
  function At(frame: nat, channels: nat, ch: nat): nat { frame * channels + ch }

  /** The frame and the channel of an index. */
  function FrameOf(i: nat, channels: nat): nat
    requires channels >= 1
  {
    i / channels
  }

  function ChannelOf(i: nat, channels: nat): (ch: nat)
    requires channels >= 1
    ensures ch < channels
  {
    i % channels
  }

  lemma AtIs(frame: nat, channels: nat, ch: nat)
    requires ch < channels
    ensures FrameOf(At(frame, channels, ch), channels) == frame
    ensures ChannelOf(At(frame, channels, ch), channels) == ch
  {
    var i := At(frame, channels, ch);
    var q, r := i / channels, i % channels;
    assert i == q * channels + r;
    ProductMonotone(frame + 1, q, channels);
    ProductMonotone(q + 1, frame, channels);
    assert (frame + 1) * channels == frame * channels + channels;
    assert (q + 1) * channels == q * channels + channels;
  }

  lemma FrameAtLeast(i: nat, channels: nat, frame: nat)
    requires channels >= 1
    ensures i >= At(frame, channels, 0) <==> FrameOf(i, channels) >= frame
  {
    var q := i / channels;
    assert i == q * channels + i % channels;
    ProductMonotone(frame, q, channels);
    ProductMonotone(q + 1, frame, channels);
    assert (q + 1) * channels == q * channels + channels;
  }

  /** A channel's sample of a frame among the whole frames of `count` samples. */
  lemma Place(frame: nat, frames: nat, count: nat, channels: nat, ch: nat)
    requires ch < channels && frame < frames <= FrameOf(count, channels)
    ensures At(frame, channels, ch) < At(frames, channels, 0) <= count
    ensures FrameOf(At(frame, channels, ch), channels) == frame
    ensures ChannelOf(At(frame, channels, ch), channels) == ch
    ensures At(frame, channels, ch + 1) == At(frame, channels, ch) + 1
    ensures At(frame, channels, channels) == At(frame + 1, channels, 0)
  {
    AtIs(frame, channels, ch);
    FrameAtLeast(count, channels, frames);
    ProductMonotone(frame + 1, frames, channels);
    assert (frame + 1) * channels == frame * channels + channels;
  }

  lemma ProductMonotone(a: nat, b: nat, s: nat)
    ensures a <= b ==> a * s <= b * s
  {
    if a <= b {
      assert b * s == a * s + (b - a) * s;
    }
  }

  function Sample(input: seq<i16>, i: int): i16 {
    if 0 <= i < |input| then input[i] else 0
  }

  // --- The splice score -------------------------------------------------------------------

  /** The summed difference of two frames over their first `upTo` channels. */
  function FrameDifference(input: seq<i16>, channels: nat, left: nat, right: nat, upTo: nat): nat {
    if upTo == 0 then 0
    else FrameDifference(input, channels, left, right, upTo - 1)
         + Abs(Sample(input, At(left, channels, upTo - 1)) - Sample(input, At(right, channels, upTo - 1)))
  }

  /** Every how many frames the score looks. */
  function ScoreStep(fade: nat): nat { Max(1, fade / 32) }

  /** How many frames the score looks at. */
  function SampledFrames(fade: nat): nat { (fade + ScoreStep(fade) - 1) / ScoreStep(fade) }

  function Multiple(k: nat, step: nat): nat { k * step }

  lemma MultipleSteps(k: nat, step: nat)
    ensures Multiple(0, step) == 0 && Multiple(k + 1, step) == Multiple(k, step) + step
  {
  }

  lemma ScoreNext(input: seq<i16>, channels: nat, start: nat, skip: nat, fade: nat, k: nat)
    ensures var frame := Multiple(k, ScoreStep(fade));
            Score(input, channels, start, skip, fade, k + 1)
            == Score(input, channels, start, skip, fade, k)
               + FrameDifference(input, channels, start + frame, start + skip + frame, channels)
    ensures Score(input, channels, start, skip, fade, 0) == 0
  {
  }

  /** The difference between the sound before a splice at `start` and the sound `skip`
      frames later, over the first `m` sampled frames. */
  function Score(input: seq<i16>, channels: nat, start: nat, skip: nat, fade: nat, m: nat): nat {
    if m == 0 then 0
    else
      var frame := Multiple(m - 1, ScoreStep(fade));
      Score(input, channels, start, skip, fade, m - 1)
      + FrameDifference(input, channels, start + frame, start + skip + frame, channels)
  }

  function TotalScore(input: seq<i16>, channels: nat, start: nat, skip: nat, fade: nat): nat {
    Score(input, channels, start, skip, fade, SampledFrames(fade))
  }

  lemma {:induction false} FrameDifferenceBound(input: seq<i16>, channels: nat, left: nat, right: nat, upTo: nat)
    ensures FrameDifference(input, channels, left, right, upTo) <= 0xffff * upTo
    decreases upTo
  {
    if upTo > 0 { FrameDifferenceBound(input, channels, left, right, upTo - 1); }
  }

  /** For the one or two channels of an accepted configuration: the channels' distances added. */
  lemma FrameDifferenceIs(input: seq<i16>, channels: nat, left: nat, right: nat)
    ensures var l := Abs(Sample(input, At(left, channels, 0)) - Sample(input, At(right, channels, 0)));
            var r := Abs(Sample(input, At(left, channels, 1)) - Sample(input, At(right, channels, 1)));
            && FrameDifference(input, channels, left, right, 1) == l
            && FrameDifference(input, channels, left, right, 2) == l + r
  {
    hide At, Sample;
    assert FrameDifference(input, channels, left, right, 0) == 0;
    assert FrameDifference(input, channels, left, right, 1)
           == Abs(Sample(input, At(left, channels, 0)) - Sample(input, At(right, channels, 0)));
  }

  ghost predicate SameFrame(input: seq<i16>, channels: nat, left: nat, right: nat, upTo: nat) {
    forall ch: nat :: ch < upTo ==> Sample(input, At(left, channels, ch)) == Sample(input, At(right, channels, ch))
  }

  lemma {:induction false} FrameDifferenceZeroIff(input: seq<i16>, channels: nat, left: nat, right: nat, upTo: nat)
    ensures FrameDifference(input, channels, left, right, upTo) == 0 <==> SameFrame(input, channels, left, right, upTo)
    decreases upTo
  {
    if upTo > 0 {
      hide At, Sample;
      FrameDifferenceZeroIff(input, channels, left, right, upTo - 1);
    }
  }

  /** The frames looked at from a splice at `start` on are those `skip` frames later. */
  ghost predicate Matches(input: seq<i16>, channels: nat, start: nat, skip: nat, fade: nat, m: nat) {
    forall k: nat :: k < m ==>
      var frame := Multiple(k, ScoreStep(fade));
      SameFrame(input, channels, start + frame, start + skip + frame, channels)
  }

  lemma {:induction false} ScoreZeroIff(input: seq<i16>, channels: nat, start: nat, skip: nat, fade: nat, m: nat)
    ensures Score(input, channels, start, skip, fade, m) == 0 <==> Matches(input, channels, start, skip, fade, m)
    decreases m
  {
    if m > 0 {
      hide FrameDifference, SameFrame, ScoreStep, Multiple;
      ScoreZeroIff(input, channels, start, skip, fade, m - 1);
      var frame := Multiple(m - 1, ScoreStep(fade));
      FrameDifferenceZeroIff(input, channels, start + frame, start + skip + frame, channels);
    }
  }

  /** If the sound repeats after the skip anywhere the search may splice, the search finds
      the first such place. */
  lemma RepeatIsFound(input: seq<i16>, channels: nat, maxStart: nat, skip: nat, fade: nat, best: nat, s: nat)
    requires IsBestSplice(input, channels, maxStart, skip, fade, best)
    requires s <= maxStart && Matches(input, channels, s, skip, fade, SampledFrames(fade))
    ensures best <= s && Matches(input, channels, best, skip, fade, SampledFrames(fade))
  {
    hide Score, Matches;
    ScoreZeroIff(input, channels, s, skip, fade, SampledFrames(fade));
    ScoreZeroIff(input, channels, best, skip, fade, SampledFrames(fade));
    assert TotalScore(input, channels, best, skip, fade) <= TotalScore(input, channels, s, skip, fade);
  }

  lemma {:induction false} ScoreBound(input: seq<i16>, channels: u8, start: nat, skip: nat, fade: nat, m: nat)
    ensures Score(input, channels, start, skip, fade, m) <= 0xffff * 0xff * m
    decreases m
  {
    if m > 0 {
      ScoreBound(input, channels, start, skip, fade, m - 1);
      var frame := Multiple(m - 1, ScoreStep(fade));
      FrameDifferenceBound(input, channels, start + frame, start + skip + frame, channels);
    }
  }

  /** The score looks at fewer than 64 frames, however long the fade. */
  lemma FewFramesSampled(fade: nat)
    ensures SampledFrames(fade) <= 63
  {
    var s, m := ScoreStep(fade), SampledFrames(fade);
    assert m * s <= fade + s - 1;
    ProductMonotone(64, m, s);
    if fade >= 64 {
      assert fade <= 32 * s + 31;
    }
  }

  /** It looks at every frame of a fade of fewer than 64, and at 32 or more of a longer one. */
  lemma EnoughFramesSampled(fade: nat)
    ensures fade < 64 ==> ScoreStep(fade) == 1 && SampledFrames(fade) == fade
    ensures fade >= 64 ==> SampledFrames(fade) >= 32
  {
    var s, m := ScoreStep(fade), SampledFrames(fade);
    assert m * s >= fade;
    if fade >= 64 && m <= 31 {
      ProductMonotone(m, 31, s);
    }
  }

  /** The loop's frame counter `k` steps past the end exactly when all frames are sampled. */
  lemma SampledFramesIs(fade: nat, k: nat)
    ensures k < SampledFrames(fade) <==> Multiple(k, ScoreStep(fade)) < fade
  {
    var s, m := ScoreStep(fade), SampledFrames(fade);
    assert m * s <= fade + s - 1 < m * s + s;
    hide ScoreStep, SampledFrames;
    ProductMonotone(k + 1, m, s);
    ProductMonotone(m, k, s);
    assert (k + 1) * s == k * s + s;
  }

  lemma ScoreBegins(input: seq<i16>, channels: nat, start: nat, skip: nat, fade: nat)
    ensures Score(input, channels, start, skip, fade, 0) == 0
    ensures Multiple(0, ScoreStep(fade)) == 0
  {
  }

  /** One more sampled frame keeps the score inside 64 bits. */
  lemma ScoreAdvances(input: seq<i16>, channels: u8, start: nat, skip: nat, fade: nat, k: nat)
    requires Multiple(k, ScoreStep(fade)) < fade
    ensures k < SampledFrames(fade) && ScoreStep(fade) >= 1
    ensures Multiple(k + 1, ScoreStep(fade)) == Multiple(k, ScoreStep(fade)) + ScoreStep(fade)
    ensures var frame := Multiple(k, ScoreStep(fade));
            Score(input, channels, start, skip, fade, k + 1)
            == Score(input, channels, start, skip, fade, k)
               + FrameDifference(input, channels, start + frame, start + skip + frame, channels)
    ensures Score(input, channels, start, skip, fade, k) <= 0xffff * 0xff * 63
  {
    SampledFramesIs(fade, k);
    FewFramesSampled(fade);
    MultipleSteps(k, ScoreStep(fade));
    ScoreNext(input, channels, start, skip, fade, k);
    ScoreBound(input, channels, start, skip, fade, k);
    hide Score, Multiple, FrameDifference, SampledFrames;
  }

  lemma ScoreEnds(input: seq<i16>, channels: u8, start: nat, skip: nat, fade: nat, k: nat)
    requires k <= SampledFrames(fade) && Multiple(k, ScoreStep(fade)) >= fade
    ensures Score(input, channels, start, skip, fade, k) == TotalScore(input, channels, start, skip, fade) <= 0xffff * 0xff * 63
  {
    SampledFramesIs(fade, k);
    FewFramesSampled(fade);
    ScoreBound(input, channels, start, skip, fade, k);
    hide Score, Multiple, FrameDifference;
  }

  // --- The spliced output -----------------------------------------------------------------

  /** Sample `i` of the output: the input up to the splice, then the crossfade, then the
      input again, `skip` frames further on. */
  function SplicedSample(input: seq<i16>, channels: nat, splice: nat, skip: nat, fade: nat, i: nat): int
    requires channels >= 1
  {
    var frame := FrameOf(i, channels);
    var later := Sample(input, i + skip * channels);
    if frame < splice then Sample(input, i)
    else if frame < splice + fade then Crossfade(Sample(input, i), later, frame - splice, fade)
    else later
  }

  /** Every output sample lies between the input sample at its own place and the one `skip`
      frames later, so splicing never leaves the 16-bit range. */
  lemma SplicedBetween(input: seq<i16>, channels: nat, splice: nat, skip: nat, fade: nat, i: nat)
    requires channels >= 1
    ensures var a, b := Sample(input, i), Sample(input, i + skip * channels);
            Min(a, b) <= SplicedSample(input, channels, splice, skip, fade, i) <= Max(a, b)
  {
    var frame := FrameOf(i, channels);
    if splice <= frame < splice + fade {
      CrossfadeBetween(Sample(input, i), Sample(input, i + skip * channels), frame - splice, fade);
    }
  }

  /** The shape of compressed audio, for an input of `out + skip` frames: unchanged up to the
      splice, then crossfaded between the two places joined, beginning and ending within one
      fade step of the sound on either side, then unchanged `skip` frames further on; every
      index read lies inside the input. */
  lemma TimeCompressionShape(input: seq<i16>, channels: nat, out: nat, splice: nat, skip: nat, fade: nat, i: nat)
    requires channels >= 1 && |input| >= At(out + skip, channels, 0)
    requires splice + fade <= out && i < At(out, channels, 0)
    ensures i + skip * channels < |input|
    ensures var y, frame := SplicedSample(input, channels, splice, skip, fade, i), FrameOf(i, channels);
            && (frame < splice ==> y == input[i])
            && (splice <= frame < splice + fade ==>
                  Min(input[i], input[i + skip * channels]) <= y <= Max(input[i], input[i + skip * channels]))
            && (frame == splice && fade >= 1 ==>
                  StepApart(input[i], y, input[i], input[i + skip * channels], fade + 1))
            && (splice <= frame && frame + 1 == splice + fade ==>
                  StepApart(y, input[i + skip * channels], input[i], input[i + skip * channels], fade + 1))
            && (splice + fade <= frame ==> y == input[i + skip * channels])
  {
    if splice <= FrameOf(i, channels) < splice + fade {
      CrossfadeSeam(Sample(input, i), Sample(input, i + skip * channels), FrameOf(i, channels) - splice, fade);
    }
    assert (out + skip) * channels == out * channels + skip * channels;
    SplicedBetween(input, channels, splice, skip, fade, i);
    hide FrameOf, Crossfade, StepApart;
  }

  /** `best` is the smallest of the starts 0 to `maxStart` with the least score. */
  ghost predicate IsBestSplice(input: seq<i16>, channels: nat, maxStart: nat, skip: nat, fade: nat, best: nat) {
    && best <= maxStart
    && (forall s :: 0 <= s <= maxStart ==>
          TotalScore(input, channels, best, skip, fade) <= TotalScore(input, channels, s, skip, fade))
    && (forall s :: 0 <= s < best ==>
          TotalScore(input, channels, best, skip, fade) < TotalScore(input, channels, s, skip, fade))
  }
}
