/** The renderer's signal logic: fades around silence, the splice search, pitch-preserving
    compression and the render callback, over the buffers they overwrite in place. */
module Renderer {
  import opened Words
  import opened Gain
  import opened Splice
  import opened CatchUp
  import RB = RingBuffer

  // --- What the loops write, told sample by sample ------------------------------------------

  /** `now` is `was` with its samples below `upTo` faded in. */
  ghost predicate FadedUpTo(was: seq<i16>, now: seq<i16>, channels: nat, fade: nat, upTo: nat)
    requires channels >= 1
  {
    |now| == |was| && forall i :: 0 <= i < |was| ==>
      now[i] == if i < upTo then FadeInSample(was[i], FrameOf(i, channels), fade) else was[i]
  }

  ghost predicate FadedIn(was: seq<i16>, now: seq<i16>, channels: nat, fade: nat)
    requires channels >= 1
  {
    |now| == |was| && forall i :: 0 <= i < |was| ==> now[i] == FadeInSample(was[i], FrameOf(i, channels), fade)
  }

  lemma FadeBegins(was: seq<i16>, channels: nat, fade: nat)
    requires channels >= 1
    ensures FadedUpTo(was, was, channels, fade, At(0, channels, 0))
  {
  }

  lemma FadeStep(was: seq<i16>, now: seq<i16>, channels: nat, fade: nat, p: nat, y: i16)
    requires channels >= 1 && FadedUpTo(was, now, channels, fade, p) && p < |now|
    requires y == FadeInSample(now[p], FrameOf(p, channels), fade)
    ensures FadedUpTo(was, now[p := y], channels, fade, p + 1)
  {
    hide FadeInSample, FrameOf;
  }

  lemma FadedWhole(was: seq<i16>, now: seq<i16>, channels: nat, fade: nat)
    requires channels >= 1 && FadedUpTo(was, now, channels, fade, At(fade, channels, 0))
    ensures FadedIn(was, now, channels, fade)
  {
    hide At, FrameOf;
    forall i | 0 <= i < |was| ensures now[i] == FadeInSample(was[i], FrameOf(i, channels), fade) {
      FrameAtLeast(i, channels, fade);
    }
  }

  /** What the fill takes a channel's last played sample to be. */
  function StartOf(was: seq<i16>, last: seq<i16>, channels: nat, startSample: nat, ch: nat): i16
    requires channels >= 1
  {
    if startSample >= channels then Sample(was, At(FrameOf(startSample, channels) - 1, channels, ch))
    else Sample(last, ch)
  }

  /** Sample `i` after the fill of the frames from that of `startSample` on. */
  function FilledSample(was: seq<i16>, last: seq<i16>, channels: nat, startSample: nat, fade: nat, i: nat): int
    requires channels >= 1 && fade >= 1 && FrameOf(i, channels) >= FrameOf(startSample, channels)
  {
    FillSample(StartOf(was, last, channels, startSample, ChannelOf(i, channels)), FrameOf(i, channels) - FrameOf(startSample, channels), fade)
  }

  ghost predicate FilledUpTo(was: seq<i16>, now: seq<i16>, last: seq<i16>, channels: nat,
                             startSample: nat, fade: nat, upTo: nat)
    requires channels >= 1 && fade >= 1
  {
    |now| == |was| && forall i :: 0 <= i < |was| ==>
      now[i] == if FrameOf(startSample, channels) <= FrameOf(i, channels) && i < upTo
                then FilledSample(was, last, channels, startSample, fade, i) else was[i]
  }

  lemma FillBegins(was: seq<i16>, last: seq<i16>, channels: nat, startSample: nat, fade: nat)
    requires channels >= 1 && fade >= 1
    ensures FilledUpTo(was, was, last, channels, startSample, fade, At(FrameOf(startSample, channels), channels, 0))
  {
    hide FilledSample, At, FrameOf;
    forall i: nat | i < |was| ensures !(FrameOf(startSample, channels) <= FrameOf(i, channels)
                                        && i < At(FrameOf(startSample, channels), channels, 0)) {
      FrameAtLeast(i, channels, FrameOf(startSample, channels));
    }
  }

  lemma FilledLength(was: seq<i16>, now: seq<i16>, last: seq<i16>, channels: nat, startSample: nat, fade: nat, p: nat)
    requires channels >= 1 && fade >= 1 && FilledUpTo(was, now, last, channels, startSample, fade, p)
    ensures |was| == |now|
  {
  }

  lemma FillStep(was: seq<i16>, now: seq<i16>, last: seq<i16>, channels: nat, startSample: nat, fade: nat, p: nat, y: i16)
    requires channels >= 1 && fade >= 1 && FilledUpTo(was, now, last, channels, startSample, fade, p)
    requires p < |now| && FrameOf(p, channels) >= FrameOf(startSample, channels)
    requires y == FilledSample(was, last, channels, startSample, fade, p)
    ensures FilledUpTo(was, now[p := y], last, channels, startSample, fade, p + 1)
  {
    hide FilledSample, FrameOf;
  }

  lemma FillValue(was: seq<i16>, last: seq<i16>, channels: nat, startSample: nat, fade: nat, frame: nat, ch: nat)
    requires ch < channels && fade >= 1
    ensures var p := At(FrameOf(startSample, channels) + frame, channels, ch);
            && FrameOf(p, channels) >= FrameOf(startSample, channels)
            && FilledSample(was, last, channels, startSample, fade, p)
               == FillSample(StartOf(was, last, channels, startSample, ch), frame, fade)
  {
    hide At, FrameOf, ChannelOf, StartOf, FillSample;
    AtIs(FrameOf(startSample, channels) + frame, channels, ch);
  }

  /** The code reads the last played sample from the frame before the fill, untouched yet. */
  lemma StartUntouched(was: seq<i16>, now: seq<i16>, last: seq<i16>, channels: nat, startSample: nat, fade: nat, p: nat, ch: nat)
    requires channels >= 1 && fade >= 1 && FilledUpTo(was, now, last, channels, startSample, fade, p)
    requires startSample >= channels && ch < channels && startSample < |was|
    ensures var i := At(FrameOf(startSample, channels) - 1, channels, ch);
            FrameOf(startSample, channels) >= 1 && i < |now| && now[i] == StartOf(was, last, channels, startSample, ch)
  {
    hide FilledSample, At, FrameOf;
    AtOne(channels);
    FrameAtLeast(startSample, channels, 1);
    Place(FrameOf(startSample, channels) - 1, FrameOf(startSample, channels), startSample, channels, ch);
  }

  lemma StartFromLast(was: seq<i16>, last: seq<i16>, channels: nat, startSample: nat, ch: nat)
    requires channels >= 1 && startSample < channels
    ensures StartOf(was, last, channels, startSample, ch) == if ch < |last| then last[ch] else 0
  {
  }

  lemma AtOne(channels: nat)
    ensures At(1, channels, 0) == channels
  {
  }

  /** `now` is the spliced output below `upTo` and `was` above. */
  ghost predicate SplicedUpTo(input: seq<i16>, was: seq<i16>, now: seq<i16>, channels: nat,
                              splice: nat, skip: nat, fade: nat, upTo: nat)
    requires channels >= 1
  {
    |now| == |was| && forall i :: 0 <= i < |was| ==>
      now[i] == if i < upTo then SplicedSample(input, channels, splice, skip, fade, i) else was[i]
  }

  /** The sound just before sample `i` in its channel: the frame before it in the output, or
      what the callback before played last. */
  function Preceding(now: seq<i16>, last: seq<i16>, channels: nat, i: nat): i16 {
    if i >= channels then Sample(now, i - channels) else Sample(last, i)
  }

  /** The filled region, seam included: no sample is louder than the one before it in its
      channel, neighbours differ by at most the slew bound of the last played sample, and
      from the end of the fade on everything is exactly zero. */
  lemma FilledRegionIsSmooth(was: seq<i16>, now: seq<i16>, last: seq<i16>, channels: nat,
                             startSample: nat, fade: nat, i: nat)
    requires channels >= 1 && fade >= 1 && i < |now| == |was| && startSample <= |was|
    ensures FilledUpTo(was, now, last, channels, startSample, fade, |now|)
            && FrameOf(i, channels) >= FrameOf(startSample, channels) ==>
              var before, start := Preceding(now, last, channels, i), StartOf(was, last, channels, startSample, ChannelOf(i, channels));
              && Abs(now[i]) <= Abs(before) <= Abs(start)
              && (Abs(now[i] - before) as real) <= StepBound(start, fade)
              && (FrameOf(i, channels) + 1 >= FrameOf(startSample, channels) + fade ==> now[i] == 0)
  {
    hide At, FrameOf, ChannelOf, FillSample, StartOf, StepBound, Preceding, FilledUpTo;
    var frame, first, ch := FrameOf(i, channels), FrameOf(startSample, channels), ChannelOf(i, channels);
    if FilledUpTo(was, now, last, channels, startSample, fade, |now|) && frame >= first {
      PrecedingIs(was, now, last, channels, startSample, fade, i);
      UnderrunSlew(StartOf(was, last, channels, startSample, ch), frame - first, fade);
    }
  }

  lemma IndexIsAt(i: nat, channels: nat)
    requires channels >= 1
    ensures i == At(FrameOf(i, channels), channels, ChannelOf(i, channels))
  {
  }

  lemma PrecedingFrame(i: nat, channels: nat)
    requires channels >= 1
    ensures i >= channels <==> FrameOf(i, channels) >= 1
    ensures i >= channels ==> FrameOf(i - channels, channels) == FrameOf(i, channels) - 1
                              && ChannelOf(i - channels, channels) == ChannelOf(i, channels)
    ensures i < channels ==> ChannelOf(i, channels) == i
  {
    IndexIsAt(i, channels);
    AtOne(channels);
    FrameAtLeast(i, channels, 1);
    if i >= channels {
      var frame, ch := FrameOf(i, channels), ChannelOf(i, channels);
      assert frame * channels == (frame - 1) * channels + channels;
      AtIs(frame - 1, channels, ch);
    }
    if i < channels {
      AtIs(0, channels, i);
    }
  }

  lemma PrecedingIs(was: seq<i16>, now: seq<i16>, last: seq<i16>, channels: nat, startSample: nat, fade: nat, i: nat)
    requires channels >= 1 && fade >= 1 && i < |now| == |was| && startSample <= |was|
    requires FilledUpTo(was, now, last, channels, startSample, fade, |now|)
    requires FrameOf(i, channels) >= FrameOf(startSample, channels)
    ensures var start, frame := StartOf(was, last, channels, startSample, ChannelOf(i, channels)),
                                FrameOf(i, channels) - FrameOf(startSample, channels);
            now[i] == FillSample(start, frame, fade) && Preceding(now, last, channels, i) == BeforeFill(start, frame, fade)
  {
    hide At, FrameOf, ChannelOf, FillSample;
    IndexIsAt(i, channels);
    PrecedingFrame(i, channels);
    PrecedingFrame(startSample, channels);
    if i >= channels {
      IndexIsAt(i - channels, channels);
    }
  }

  lemma SpliceBegins(input: seq<i16>, was: seq<i16>, channels: nat, splice: nat, skip: nat, fade: nat)
    requires channels >= 1
    ensures SplicedUpTo(input, was, was, channels, splice, skip, fade, At(0, channels, 0))
  {
  }

  lemma SpliceStep(input: seq<i16>, was: seq<i16>, now: seq<i16>, channels: nat,
                   splice: nat, skip: nat, fade: nat, p: nat, y: i16)
    requires channels >= 1 && SplicedUpTo(input, was, now, channels, splice, skip, fade, p) && p < |now|
    requires y == SplicedSample(input, channels, splice, skip, fade, p)
    ensures |now| == |was|
    ensures SplicedUpTo(input, was, now[p := y], channels, splice, skip, fade, p + 1)
  {
    hide SplicedSample;
  }

  /** The spliced sample of a channel of output frame `frame`, by the input frames it is made of. */
  lemma SpliceValue(input: seq<i16>, channels: nat, splice: nat, skip: nat, fade: nat, frame: nat, ch: nat)
    requires ch < channels
    ensures var a, b := Sample(input, At(frame, channels, ch)), Sample(input, At(frame + skip, channels, ch));
            SplicedSample(input, channels, splice, skip, fade, At(frame, channels, ch))
            == if frame < splice then a
               else if frame < splice + fade then Crossfade(a, b, frame - splice, fade)
               else b
  {
    AtIs(frame, channels, ch);
    assert (frame + skip) * channels == frame * channels + skip * channels;
    hide FrameOf, Crossfade;
  }

  /** What a ring of `capacity` holds after the producer offers it `burst`: as much as fits. */
  ghost predicate Offered(before: seq<i16>, burst: seq<i16>, capacity: nat, offered: seq<i16>) {
    |before| <= capacity && offered == before + burst[..Min(|burst|, capacity - |before|)]
  }

  /** How `played` samples of output come from the first `consumed` of those offered, with
      `input` the renderer's working copy: taken as they are when nothing is skipped or the
      crossfade would be shorter than two frames, spliced at the best place otherwise. */
  ghost predicate PlayedFrom(offered: seq<i16>, input: seq<i16>, was: seq<i16>, now: seq<i16>, channels: nat,
                             frames: nat, fade: nat, consumed: nat, played: nat, splice: nat)
    requires channels >= 1
  {
    && |now| == |was| && played <= |now| && now[played..] == was[played..]
    && played <= consumed <= |offered|
    && (consumed == played || fade < 2 ==> now[..played] == offered[..played])
    && (consumed > played && fade >= 2 ==>
          && fade <= frames < FrameOf(consumed, channels)
          && consumed <= |input| && input[..consumed] == offered[..consumed]
          && IsBestSplice(input, channels, frames - fade, FrameOf(consumed, channels) - frames, fade, splice)
          && SplicedUpTo(input, was, now, channels, splice, FrameOf(consumed, channels) - frames, fade, played))
  }

  /** The channels of the last frame of `now`. */
  function LastFrame(now: seq<i16>, channels: nat): (last: seq<i16>)
    requires channels >= 1
    ensures |last| == channels
  {
    seq<i16>(channels, c => Sample(now, (FrameOf(|now|, channels) - 1) * channels + c))
  }

  lemma LastFrameAt(now: seq<i16>, channels: nat, c: nat)
    requires c < channels && FrameOf(|now|, channels) >= 1
    ensures LastFrame(now, channels)[c] == Sample(now, At(FrameOf(|now|, channels) - 1, channels, c))
  {
  }

  /** The shape of a spliced callback, told of the samples the ring offered: each output
      sample is the offered one at its place before the splice, lies between that one and the
      one after the skip across it, next to the former in the first frame and to the latter in
      the last, and is the latter afterwards; all lie in what was consumed. */
  lemma PlayedShape(offered: seq<i16>, input: seq<i16>, was: seq<i16>, now: seq<i16>, channels: nat,
                    frames: nat, fade: nat, consumed: nat, played: nat, splice: nat, i: nat)
    requires channels >= 1 && i < played == At(frames, channels, 0) && consumed == At(FrameOf(consumed, channels), channels, 0)
    ensures PlayedFrom(offered, input, was, now, channels, frames, fade, consumed, played, splice) && consumed > played && fade >= 2 ==>
              var later, frame := i + (FrameOf(consumed, channels) - frames) * channels, FrameOf(i, channels);
              && i <= later < consumed <= |offered|
              && splice + fade <= frames
              && (frame < splice ==> now[i] == offered[i])
              && (splice <= frame < splice + fade ==>
                    Min(offered[i], offered[later]) <= now[i] <= Max(offered[i], offered[later]))
              && (frame == splice ==> StepApart(offered[i], now[i], offered[i], offered[later], fade + 1))
              && (splice <= frame && frame + 1 == splice + fade ==>
                    StepApart(now[i], offered[later], offered[i], offered[later], fade + 1))
              && (splice + fade <= frame ==> now[i] == offered[later])
  {
    hide At, FrameOf, SplicedSample, TotalScore, StepApart;
    if PlayedFrom(offered, input, was, now, channels, frames, fade, consumed, played, splice) && consumed > played && fade >= 2 {
      var skip := FrameOf(consumed, channels) - frames;
      TimeCompressionShape(input, channels, frames, splice, skip, fade, i);
      LaterInside(frames, skip, channels, i);
      var later := i + skip * channels;
      assert input[..consumed][i] == offered[..consumed][i] && input[..consumed][later] == offered[..consumed][later];
    }
  }

  lemma LaterInside(frames: nat, skip: nat, channels: nat, i: nat)
    requires i < At(frames, channels, 0)
    ensures i <= i + skip * channels < At(frames + skip, channels, 0)
  {
    assert (frames + skip) * channels == frames * channels + skip * channels;
  }

  /** What one callback of the render thread meets: the frames asked for, the settings in
      force, and what the producer writes meanwhile. */
  datatype CallbackInput = CallbackInput(frames: nat, baseline: u32, protect: u32, early: seq<i16>, burst: seq<i16>) {
    /** The sizes fit the machine's. */
    ghost predicate Fits(channels: nat) {
      At(frames, channels, 0) < TWO64 && |early| < TWO64 && |burst| < TWO64
    }
  }

  class WasapiRenderer {
    const sampleRate: u32
    const channels: u8
    const ring: RB.RingBuffer
    const lastOutputSamples: array<i16>
    var stretchInputBuf: array<i16>
    var recoveringFromSilence: bool
    var currentSpeed: real
    var maxSpeedPermille: u32
    var bufferLow: bool

    ghost predicate Valid()
      reads this, ring
    {
      && ring.Valid()
      && channels >= 1 && sampleRate >= 1 && 1 <= sampleRate * channels < 0x1_0000_0000
      && lastOutputSamples.Length == channels
      && 1000 <= maxSpeedPermille <= 4000
      && currentSpeed >= 1.0
      && lastOutputSamples != ring.buffer && stretchInputBuf != ring.buffer
      && stretchInputBuf != lastOutputSamples
    }

    /** After silence the next sound starts from zero. */
    ghost predicate SilenceInv()
      reads this, lastOutputSamples
    {
      recoveringFromSilence ==> forall c :: 0 <= c < lastOutputSamples.Length ==> lastOutputSamples[c] == 0
    }

    /** The longest fade around silence, 5 ms. */
    function FadeLimit(): nat { Max(1, sampleRate / 200) }

    /** How long the fade of an underrun lasts that starts at sample `startSample`. */
    function FillFade(startSample: nat, totalSamples: nat): (fade: nat)
      requires channels >= 1
      ensures fade >= 1
    {
      Max(1, Min(FrameOf(totalSamples, channels) - FrameOf(startSample, channels), FadeLimit()))
    }

    /** Around silence the sound fades over the greatest number of whole frames within 5 ms, at
        least one, or over all the frames missing if those are fewer. */
    lemma FadesAre(startSample: nat, totalSamples: nat)
      requires channels >= 1 && FrameOf(startSample, channels) < FrameOf(totalSamples, channels)
      ensures var limit := FadeLimit();
              && 1 <= limit && (limit == 1 || limit * 200 <= sampleRate) && sampleRate < (limit + 1) * 200
      ensures var missing, fade := FrameOf(totalSamples, channels) - FrameOf(startSample, channels), FillFade(startSample, totalSamples);
              && fade <= missing && fade <= FadeLimit() && (fade == missing || fade == FadeLimit())
    {
      hide FrameOf;
    }

    constructor (sampleRate: u32, channels: u8, ring: RB.RingBuffer)
      requires ring.Valid() && channels >= 1 && sampleRate >= 1 && 1 <= sampleRate * channels < 0x1_0000_0000
      ensures Valid() && SilenceInv() && this.ring == ring
      ensures this.sampleRate == sampleRate && this.channels == channels
      ensures fresh(stretchInputBuf) && fresh(lastOutputSamples)
      ensures !recoveringFromSilence && currentSpeed == 1.0 && maxSpeedPermille == 1250 && !bufferLow
    {
      this.sampleRate := sampleRate;
      this.channels := channels;
      this.ring := ring;
      lastOutputSamples := new i16[channels](_ => 0);
      stretchInputBuf := new i16[0];
      recoveringFromSilence := false;
      currentSpeed := 1.0;
      maxSpeedPermille := 1250;
      bufferLow := false;
    }

    /** The speed limit, kept in thousandths; None stands for a speed that is not finite. */
    method SetMaxSpeed(speed: Option<real>)
      requires Valid()
      modifies this`maxSpeedPermille
      ensures Valid()
      ensures AbsReal(MaxSpeed(maxSpeedPermille) - Clamp(if speed.Some? then speed.value else 1.0, 1.0, 4.0)) <= 0.0005
    {
      var x := Clamp(if speed.Some? then speed.value else 1.0, 1.0, 4.0);
      LrintOfInt(1000);
      LrintOfInt(4000);
      LrintMonotone(1000.0, x * 1000.0);
      LrintMonotone(x * 1000.0, 4000.0);
      LrintNear(x * 1000.0);
      hide Lrint;
      maxSpeedPermille := Lrint(x * 1000.0);
    }

    method FadeInAfterSilence(samples: array<i16>, sampleCount: nat)
      requires sampleCount <= samples.Length
      modifies this`recoveringFromSilence, samples
      ensures !old(recoveringFromSilence) || channels == 0 || sampleCount == 0 ==>
                samples[..] == old(samples[..]) && recoveringFromSilence == old(recoveringFromSilence)
      ensures old(recoveringFromSilence) && channels != 0 && sampleCount != 0 ==>
                && !recoveringFromSilence
                && FadedIn(old(samples[..]), samples[..], channels, Min(FrameOf(sampleCount, channels), FadeLimit()))
    {
      if !recoveringFromSilence || channels == 0 || sampleCount == 0 {
        return;
      }
      hide SmoothStep, Lrint, Scale, Part, FadedUpTo, FadedIn, At, FrameOf;
      var frameCount := FrameOf(sampleCount, channels);
      var fadeFrames := Min(frameCount, FadeLimit());
      ghost var was := samples[..];
      FadeBegins(was, channels, fadeFrames);
      var frame := 0;
      while frame < fadeFrames
        invariant 0 <= frame <= fadeFrames
        invariant FadedUpTo(was, samples[..], channels, fadeFrames, At(frame, channels, 0))
      {
        var gain := SmoothStep(Part(frame + 1, fadeFrames));
        var ch := 0;
        Place(frame, fadeFrames, sampleCount, channels, 0);
        while ch < channels
          invariant 0 <= ch <= channels
          invariant FadedUpTo(was, samples[..], channels, fadeFrames, At(frame, channels, ch))
        {
          Place(frame, fadeFrames, sampleCount, channels, ch);
          var index := At(frame, channels, ch);
          FadeInShrinks(samples[index], frame, fadeFrames);
          ghost var now := samples[..];
          samples[index] := Lrint(Scale(samples[index] as real, gain));
          assert samples[..] == now[index := samples[index]];
          FadeStep(was, now, channels, fadeFrames, index, samples[index]);
          ch := ch + 1;
        }
        frame := frame + 1;
      }
      FadedWhole(was, samples[..], channels, fadeFrames);
      recoveringFromSilence := false;
    }

    method FillSmoothSilence(samples: array<i16>, startSample: nat, totalSamples: nat)
      requires totalSamples <= samples.Length && samples != lastOutputSamples
      modifies this`recoveringFromSilence, samples
      ensures channels == 0 || startSample >= totalSamples ==>
                samples[..] == old(samples[..]) && recoveringFromSilence == old(recoveringFromSilence)
      ensures channels != 0 && startSample < totalSamples ==>
                && recoveringFromSilence
                && FilledUpTo(old(samples[..]), samples[..], lastOutputSamples[..], channels, startSample,
                              FillFade(startSample, totalSamples), At(FrameOf(totalSamples, channels), channels, 0))
    {
      hide SmoothStep, Lrint, Scale, Part, FilledUpTo, FilledSample, At, FrameOf, ChannelOf, StartOf;
      if channels == 0 || startSample >= totalSamples {
        return;
      }
      var startFrame := FrameOf(startSample, channels);
      var totalFrames := FrameOf(totalSamples, channels);
      FrameAtLeast(totalSamples, channels, startFrame);
      FrameAtLeast(startSample, channels, startFrame);
      var fillFrames := totalFrames - startFrame;
      var fadeFrames := Min(fillFrames, FadeLimit());
      ghost var was := samples[..];
      ghost var last := lastOutputSamples[..];
      ghost var fade := Max(1, fadeFrames);
      FillBegins(was, last, channels, startSample, fade);
      var frame := 0;
      while frame < fillFrames
        invariant 0 <= frame <= fillFrames
        invariant lastOutputSamples[..] == last
        invariant FilledUpTo(was, samples[..], last, channels, startSample, fade, At(startFrame + frame, channels, 0))
      {
        FillFrame(samples, startSample, totalSamples, frame, fadeFrames, was);
        frame := frame + 1;
      }
      recoveringFromSilence := true;
    }

    /** The inner loop of the fill: one frame, channel by channel. */
    method FillFrame(samples: array<i16>, startSample: nat, totalSamples: nat, frame: nat, fadeFrames: nat, ghost was: seq<i16>)
      requires channels >= 1 && fadeFrames >= 1 && startSample < totalSamples <= samples.Length && samples != lastOutputSamples
      requires FrameOf(startSample, channels) + frame < FrameOf(totalSamples, channels)
      requires FilledUpTo(was, samples[..], lastOutputSamples[..], channels, startSample, fadeFrames,
                          At(FrameOf(startSample, channels) + frame, channels, 0))
      modifies samples
      ensures FilledUpTo(was, samples[..], lastOutputSamples[..], channels, startSample, fadeFrames,
                         At(FrameOf(startSample, channels) + frame + 1, channels, 0))
    {
      hide SmoothStep, Lrint, Scale, Part, FilledUpTo, FilledSample, At, FrameOf, ChannelOf, StartOf;
      var startFrame := FrameOf(startSample, channels);
      ghost var last := lastOutputSamples[..];
      var gain := if frame < fadeFrames then 1.0 - SmoothStep(Part(frame + 1, fadeFrames)) else 0.0;
      var ch := 0;
      Place(startFrame + frame, startFrame + frame + 1, totalSamples, channels, 0);
      while ch < channels
        invariant 0 <= ch <= channels
        invariant lastOutputSamples[..] == last
        invariant FilledUpTo(was, samples[..], last, channels, startSample, fadeFrames, At(startFrame + frame, channels, ch))
      {
        Place(startFrame + frame, startFrame + frame + 1, totalSamples, channels, ch);
        var index := At(startFrame + frame, channels, ch);
        ghost var now := samples[..];
        FilledLength(was, now, last, channels, startSample, fadeFrames, index);
        var start: i16 := 0;
        if startSample >= channels {
          StartUntouched(was, now, last, channels, startSample, fadeFrames, index, ch);
          start := samples[At(startFrame - 1, channels, ch)];
        } else {
          StartFromLast(was, last, channels, startSample, ch);
          if ch < lastOutputSamples.Length {
            start := lastOutputSamples[ch];
          }
        }
        FillFits(start, frame, fadeFrames);
        FillValue(was, last, channels, startSample, fadeFrames, frame, ch);
        samples[index] := if frame < fadeFrames then Lrint(Scale(start as real, gain)) else 0;
        assert samples[..] == now[index := samples[index]];
        FillStep(was, now, last, channels, startSample, fadeFrames, index, samples[index]);
        ch := ch + 1;
      }
    }

    method RememberLastSamples(samples: array<i16>, sampleCount: nat)
      requires sampleCount <= samples.Length && lastOutputSamples.Length == channels
      requires samples != lastOutputSamples
      modifies lastOutputSamples
      ensures channels == 0 || sampleCount < channels ==> lastOutputSamples[..] == old(lastOutputSamples[..])
      ensures channels != 0 && sampleCount >= channels ==>
                lastOutputSamples[..] == LastFrame(samples[..sampleCount], channels)
    {
      if channels == 0 || sampleCount < channels {
        return;
      }
      AtOne(channels);
      FrameAtLeast(sampleCount, channels, 1);
      hide At, FrameOf, LastFrame;
      ghost var last := LastFrame(samples[..sampleCount], channels);
      var lastFrame := FrameOf(sampleCount, channels) - 1;
      var ch := 0;
      while ch < channels
        invariant 0 <= ch <= channels
        invariant lastOutputSamples[..ch] == last[..ch]
      {
        Place(lastFrame, lastFrame + 1, sampleCount, channels, ch);
        LastFrameAt(samples[..sampleCount], channels, ch);
        lastOutputSamples[ch] := samples[At(lastFrame, channels, ch)];
        assert lastOutputSamples[..ch + 1] == lastOutputSamples[..ch] + [last[ch]];
        ch := ch + 1;
      }
      assert lastOutputSamples[..] == lastOutputSamples[..channels];
    }

    /** The splice search. The score never overflows its 64 bits. */
    method FindSmoothSkip(inputFrames: nat, skipFrames: nat, fadeFrames: nat) returns (best: nat)
      requires At(inputFrames, channels, 0) <= stretchInputBuf.Length
      ensures channels == 0 || inputFrames <= skipFrames + fadeFrames ==> best == 0
      ensures channels != 0 && inputFrames > skipFrames + fadeFrames ==>
                IsBestSplice(stretchInputBuf[..], channels, inputFrames - skipFrames - fadeFrames, skipFrames, fadeFrames, best)
    {
      if channels == 0 || inputFrames <= skipFrames + fadeFrames {
        return 0;
      }
      ghost var input := stretchInputBuf[..];
      hide At, TotalScore;
      var maxStart := inputFrames - skipFrames - fadeFrames;
      best := maxStart / 2;
      var bestScore: u64 := TWO64 - 1;
      var start := 0;
      while start <= maxStart
        invariant 0 <= start <= maxStart + 1
        invariant start == 0 ==> bestScore == TWO64 - 1
        invariant start > 0 ==> bestScore == TotalScore(input, channels, best, skipFrames, fadeFrames)
        invariant start > 0 ==> IsBestSplice(input, channels, start - 1, skipFrames, fadeFrames, best)
      {
        var score := SpliceScore(start, inputFrames, skipFrames, fadeFrames);
        if score < bestScore {
          bestScore := score;
          best := start;
        }
        start := start + 1;
      }
    }

    /** The two inner loops of the search: the score of one start. */
    method SpliceScore(start: nat, inputFrames: nat, skipFrames: nat, fadeFrames: nat) returns (score: u64)
      requires channels >= 1 && At(inputFrames, channels, 0) <= stretchInputBuf.Length
      requires start + skipFrames + fadeFrames <= inputFrames
      ensures score == TotalScore(stretchInputBuf[..], channels, start, skipFrames, fadeFrames) < TWO64 - 1
    {
      ghost var input := stretchInputBuf[..];
      hide At, FrameOf, ChannelOf;
      hide SampledFrames, FrameDifference, Score, Multiple, ScoreStep;
      var step := ScoreStep(fadeFrames);
      score := 0;
      var frame := 0;
      ghost var k := 0;
      ScoreBegins(input, channels, start, skipFrames, fadeFrames);
      while frame < fadeFrames
        invariant frame == Multiple(k, step) && k <= SampledFrames(fadeFrames)
        invariant score == Score(input, channels, start, skipFrames, fadeFrames, k)
        decreases fadeFrames - frame
      {
        ScoreAdvances(input, channels, start, skipFrames, fadeFrames, k);
        var difference := FramesDiffer(start + frame, start + skipFrames + frame, inputFrames);
        score := score + difference;
        frame := frame + step;
        k := k + 1;
      }
      ScoreEnds(input, channels, start, skipFrames, fadeFrames, k);
    }

    method FramesDiffer(leftFrame: nat, rightFrame: nat, inputFrames: nat) returns (difference: u64)
      requires channels >= 1 && At(inputFrames, channels, 0) <= stretchInputBuf.Length
      requires leftFrame < inputFrames && rightFrame < inputFrames
      ensures difference == FrameDifference(stretchInputBuf[..], channels, leftFrame, rightFrame, channels)
      ensures difference <= 0xffff * 0xff
    {
      ghost var input := stretchInputBuf[..];
      hide At;
      difference := 0;
      var ch := 0;
      while ch < channels
        invariant 0 <= ch <= channels
        invariant difference == FrameDifference(input, channels, leftFrame, rightFrame, ch) <= 0xffff * ch
      {
        InFrame(leftFrame, inputFrames, channels, ch);
        InFrame(rightFrame, inputFrames, channels, ch);
        var a: i32 := stretchInputBuf[At(leftFrame, channels, ch)];
        var b: i32 := stretchInputBuf[At(rightFrame, channels, ch)];
        difference := difference + Abs(a - b);
        ch := ch + 1;
      }
    }

    lemma InFrame(frame: nat, frames: nat, channels: nat, ch: nat)
      requires frame < frames && ch < channels
      ensures At(frame, channels, ch) < At(frames, channels, 0)
    {
      ProductMonotone(frame + 1, frames, channels);
      assert (frame + 1) * channels == frame * channels + channels;
    }

    /** The longest crossfade of a splice, 2 ms. */
    function SpliceFade(outputFrames: nat): nat {
      Min(Max(1, sampleRate / 500), outputFrames / 4)
    }

    /** A splice fades over the greatest number of whole frames within 2 ms and a quarter of
        the request, a single one if 2 ms is less than a frame. */
    lemma SpliceFadeIs(outputFrames: nat)
      ensures var fade := SpliceFade(outputFrames);
              && 4 * fade <= outputFrames && (fade <= 1 || fade * 500 <= sampleRate)
              && (4 * (fade + 1) > outputFrames || (fade >= 1 && (fade + 1) * 500 > sampleRate))
    {
    }

    /** One output frame copied from the input. */
    method PlayFrame(output: array<i16>, outFrame: nat, srcFrame: nat, outputFrames: nat, gotFrames: nat,
                     ghost was: seq<i16>, ghost splice: nat, ghost skip: nat, ghost fade: nat)
      requires channels >= 1 && output != stretchInputBuf
      requires outFrame < outputFrames && At(outputFrames, channels, 0) <= output.Length
      requires srcFrame < gotFrames && At(gotFrames, channels, 0) <= stretchInputBuf.Length
      requires (outFrame < splice && srcFrame == outFrame)
               || (splice + fade <= outFrame && srcFrame == outFrame + skip)
      requires SplicedUpTo(stretchInputBuf[..], was, output[..], channels, splice, skip, fade, At(outFrame, channels, 0))
      modifies output
      ensures SplicedUpTo(stretchInputBuf[..], was, output[..], channels, splice, skip, fade, At(outFrame + 1, channels, 0))
    {
      hide At, FrameOf, ChannelOf, SplicedSample, SplicedUpTo, Crossfade;
      ghost var input := stretchInputBuf[..];
      var ch := 0;
      AtNext(outFrame, channels, 0);
      while ch < channels
        invariant 0 <= ch <= channels
        invariant stretchInputBuf[..] == input
        invariant SplicedUpTo(input, was, output[..], channels, splice, skip, fade, At(outFrame, channels, ch))
      {
        AtNext(outFrame, channels, ch);
        InFrame(outFrame, outputFrames, channels, ch);
        InFrame(srcFrame, gotFrames, channels, ch);
        SpliceValue(input, channels, splice, skip, fade, outFrame, ch);
        ghost var now := output[..];
        var index := At(outFrame, channels, ch);
        output[index] := stretchInputBuf[At(srcFrame, channels, ch)];
        assert output[..] == now[index := output[index]];
        SpliceStep(input, was, now, channels, splice, skip, fade, index, output[index]);
        ch := ch + 1;
      }
    }

    /** One output frame of the crossfade. */
    method CrossfadeFrame(output: array<i16>, outFrame: nat, outputFrames: nat, gotFrames: nat,
                          skipStart: nat, skipFrames: nat, fadeFrames: nat, ghost was: seq<i16>)
      requires channels >= 1 && output != stretchInputBuf
      requires outFrame < outputFrames && At(outputFrames, channels, 0) <= output.Length
      requires outFrame + skipFrames < gotFrames && At(gotFrames, channels, 0) <= stretchInputBuf.Length
      requires skipStart <= outFrame < skipStart + fadeFrames
      requires SplicedUpTo(stretchInputBuf[..], was, output[..], channels, skipStart, skipFrames, fadeFrames, At(outFrame, channels, 0))
      modifies output
      ensures SplicedUpTo(stretchInputBuf[..], was, output[..], channels, skipStart, skipFrames, fadeFrames, At(outFrame + 1, channels, 0))
    {
      hide At, FrameOf, ChannelOf, SplicedSample, SplicedUpTo, SmoothStep, Part, Scale, Lrint;
      ghost var input := stretchInputBuf[..];
      var frame := outFrame - skipStart;
      var t := SmoothStep(Part(frame + 1, fadeFrames + 1));
      var leftFrame := skipStart + frame;
      var rightFrame := skipStart + skipFrames + frame;
      var ch := 0;
      AtNext(outFrame, channels, 0);
      while ch < channels
        invariant 0 <= ch <= channels
        invariant stretchInputBuf[..] == input
        invariant SplicedUpTo(input, was, output[..], channels, skipStart, skipFrames, fadeFrames, At(outFrame, channels, ch))
      {
        AtNext(outFrame, channels, ch);
        InFrame(outFrame, outputFrames, channels, ch);
        InFrame(leftFrame, gotFrames, channels, ch);
        InFrame(rightFrame, gotFrames, channels, ch);
        SpliceValue(input, channels, skipStart, skipFrames, fadeFrames, outFrame, ch);
        var a: i16 := stretchInputBuf[At(leftFrame, channels, ch)];
        var b: i16 := stretchInputBuf[At(rightFrame, channels, ch)];
        CrossfadeBetween(a, b, frame, fadeFrames);
        ghost var now := output[..];
        var index := At(outFrame, channels, ch);
        output[index] := Lrint(a as real + Scale(b as real - a as real, t));
        assert output[..] == now[index := output[index]];
        SpliceStep(input, was, now, channels, skipStart, skipFrames, fadeFrames, index, output[index]);
        ch := ch + 1;
      }
    }

    lemma AtNext(frame: nat, channels: nat, ch: nat)
      ensures At(frame, channels, ch + 1) == At(frame, channels, ch) + 1
      ensures At(frame, channels, channels) == At(frame + 1, channels, 0)
    {
      assert (frame + 1) * channels == frame * channels + channels;
    }

    /** The three output loops: up to the splice, across it, and after it. */
    method PlaySpliced(output: array<i16>, outputFrames: nat, gotFrames: nat,
                       skipStart: nat, skipFrames: nat, fadeFrames: nat) returns (outFrame: nat)
      requires channels >= 1 && output != stretchInputBuf
      requires At(outputFrames, channels, 0) <= output.Length
      requires gotFrames == outputFrames + skipFrames && At(gotFrames, channels, 0) <= stretchInputBuf.Length
      requires skipStart + fadeFrames <= outputFrames
      modifies output
      ensures outFrame == outputFrames
      ensures SplicedUpTo(stretchInputBuf[..], old(output[..]), output[..], channels, skipStart, skipFrames, fadeFrames,
                          At(outputFrames, channels, 0))
    {
      hide At, SplicedUpTo;
      ghost var was := output[..];
      ghost var input := stretchInputBuf[..];
      SpliceBegins(input, was, channels, skipStart, skipFrames, fadeFrames);
      outFrame := 0;
      var frame := 0;
      while frame < skipStart && outFrame < outputFrames
        invariant frame == outFrame <= skipStart
        invariant stretchInputBuf[..] == input
        invariant SplicedUpTo(input, was, output[..], channels, skipStart, skipFrames, fadeFrames, At(outFrame, channels, 0))
      {
        PlayFrame(output, outFrame, frame, outputFrames, gotFrames, was, skipStart, skipFrames, fadeFrames);
        frame := frame + 1;
        outFrame := outFrame + 1;
      }
      frame := 0;
      while frame < fadeFrames && outFrame < outputFrames
        invariant frame <= fadeFrames && outFrame == skipStart + frame
        invariant stretchInputBuf[..] == input
        invariant SplicedUpTo(input, was, output[..], channels, skipStart, skipFrames, fadeFrames, At(outFrame, channels, 0))
      {
        CrossfadeFrame(output, outFrame, outputFrames, gotFrames, skipStart, skipFrames, fadeFrames, was);
        frame := frame + 1;
        outFrame := outFrame + 1;
      }
      var srcFrame := skipStart + skipFrames + fadeFrames;
      while outFrame < outputFrames && srcFrame < gotFrames
        invariant skipStart + fadeFrames <= outFrame <= outputFrames && srcFrame == outFrame + skipFrames
        invariant stretchInputBuf[..] == input
        invariant SplicedUpTo(input, was, output[..], channels, skipStart, skipFrames, fadeFrames, At(outFrame, channels, 0))
      {
        PlayFrame(output, outFrame, srcFrame, outputFrames, gotFrames, was, skipStart, skipFrames, fadeFrames);
        outFrame := outFrame + 1;
        srcFrame := srcFrame + 1;
      }
    }

    /** The speed a compressing read runs at. */
    function ReadSpeed(requested: real): real
      reads this
    {
      Clamp(requested, 1.0, MaxSpeed(maxSpeedPermille))
    }

    /** Fill `outputSamples` of output from the ring, taking more than that when the speed
        is raised. `burst` is what the producer writes after the ring is looked at and before
        it is read. */
    method RenderPitchPreserved(output: array<i16>, outputSamples: nat, requested: real, burst: seq<i16>)
      returns (played: nat, ghost consumed: nat, ghost offered: seq<i16>, ghost splice: nat)
      requires Valid() && outputSamples <= output.Length && |burst| < TWO64
      requires outputSamples == At(FrameOf(outputSamples, channels), channels, 0)
      requires output != ring.buffer && output != stretchInputBuf && output != lastOutputSamples
      modifies this`stretchInputBuf, stretchInputBuf, ring`head, ring`tail, ring.buffer, output
      ensures Valid() && (stretchInputBuf == old(stretchInputBuf) || fresh(stretchInputBuf))
      ensures Offered(old(ring.Contents()), burst, ring.capacity, offered)
      ensures consumed <= |offered| && ring.Contents() == offered[consumed..]
      ensures var frames, available := FrameOf(outputSamples, channels), FrameOf(|old(ring.Contents())|, channels);
              && played == At(Min(frames, available), channels, 0)
              && consumed == At(ConsumedFrames(frames, available, ReadSpeed(requested)), channels, 0)
      ensures PlayedFrom(offered, stretchInputBuf[..], old(output[..]), output[..], channels, FrameOf(outputSamples, channels),
                         SpliceFade(FrameOf(outputSamples, channels)), consumed, played, splice)
    {
      splice := 0;
      hide At, FrameOf, PlayedFrom, TargetFrames, Clamp, MaxSpeed, Ceil;
      ghost var before := ring.Contents();
      ghost var was := output[..];
      var outputFrames := FrameOf(outputSamples, channels);
      var buffered := ring.AvailableToRead();
      var availableFrames := FrameOf(buffered, channels);
      FrameAtLeast(buffered, channels, availableFrames);
      AtZero(channels);
      var took := ring.Write(burst, |burst|);
      offered := ring.Contents();
      var speed := ReadSpeed(requested);
      if outputFrames == 0 || availableFrames == 0 {
        played, consumed := 0, 0;
        NothingPlayed(offered, stretchInputBuf[..], was, channels, outputFrames, SpliceFade(outputFrames));
      } else if speed <= 1.001 || availableFrames <= outputFrames {
        AtMonotone(Min(outputFrames, availableFrames), outputFrames, channels);
        AtMonotone(Min(outputFrames, availableFrames), availableFrames, channels);
        played := ring.Read(output, At(Min(outputFrames, availableFrames), channels, 0));
        consumed := played;
        CopiedStraight(offered, stretchInputBuf[..], was, output[..], channels, outputFrames, SpliceFade(outputFrames), played);
      } else {
        var target := TargetFrames(outputFrames, availableFrames, speed);
        CompressingConsumesMore(outputFrames, availableFrames, speed, speed);
        AtMonotone(target, availableFrames, channels);
        consumed := At(target, channels, 0);
        played, splice := CompressFrames(output, outputFrames, target);
      }
    }

    /** The compressing branch: read `target` frames and play `outputFrames` of them. */
    method CompressFrames(output: array<i16>, outputFrames: nat, target: nat) returns (played: nat, ghost splice: nat)
      requires Valid() && 1 <= outputFrames < target
      requires At(outputFrames, channels, 0) <= output.Length && At(target, channels, 0) <= |ring.Contents()|
      requires output != ring.buffer && output != stretchInputBuf && output != lastOutputSamples
      modifies this`stretchInputBuf, stretchInputBuf, ring`tail, output
      ensures Valid() && (stretchInputBuf == old(stretchInputBuf) || fresh(stretchInputBuf))
      ensures ring.Contents() == old(ring.Contents())[At(target, channels, 0)..]
      ensures played == At(outputFrames, channels, 0)
      ensures PlayedFrom(old(ring.Contents()), stretchInputBuf[..], old(output[..]), output[..], channels, outputFrames,
                         SpliceFade(outputFrames), At(target, channels, 0), played, splice)
    {
      hide At, FrameOf, SplicedUpTo, IsBestSplice;
      ghost var offered, was := ring.Contents(), output[..];
      AtMonotone(outputFrames + 1, target, channels);
      AtNext(outputFrames, channels, 0);
      AtStrict(outputFrames, channels);
      AtIs(target, channels, 0);
      splice := 0;
      var inputSamples := At(target, channels, 0);
      var outputSamples := At(outputFrames, channels, 0);
      Reserve(inputSamples);
      var gotSamples := ring.Read(stretchInputBuf, inputSamples);
      var gotFrames := FrameOf(gotSamples, channels);
      var skipFrames := gotFrames - outputFrames;
      var fadeFrames := SpliceFade(outputFrames);
      if fadeFrames < 2 {
        forall i | 0 <= i < outputSamples { output[i] := stretchInputBuf[i]; }
        assert output[..outputSamples] == stretchInputBuf[..outputSamples] == offered[..outputSamples];
        assert output[outputSamples..] == was[outputSamples..];
        return outputSamples, 0;
      }
      var skipStart := FindSmoothSkip(gotFrames, skipFrames, fadeFrames);
      splice := skipStart;
      BestSpliceInRange(stretchInputBuf[..], channels, outputFrames - fadeFrames, skipFrames, fadeFrames, skipStart);
      ghost var input := stretchInputBuf[..];
      var outFrame := PlaySpliced(output, outputFrames, gotFrames, skipStart, skipFrames, fadeFrames);
      played := At(outFrame, channels, 0);
      assert stretchInputBuf[..] == input;
      RestKept(input, was, output[..], channels, splice, skipFrames, fadeFrames, played);
    }

    lemma NothingPlayed(offered: seq<i16>, input: seq<i16>, was: seq<i16>, channels: nat, frames: nat, fade: nat)
      requires channels >= 1
      ensures PlayedFrom(offered, input, was, was, channels, frames, fade, 0, 0, 0)
    {
    }

    lemma CopiedStraight(offered: seq<i16>, input: seq<i16>, was: seq<i16>, now: seq<i16>, channels: nat,
                         frames: nat, fade: nat, n: nat)
      requires channels >= 1 && |now| == |was| && n <= |now| && n <= |offered|
      requires now[..n] == offered[..n] && now[n..] == was[n..]
      ensures PlayedFrom(offered, input, was, now, channels, frames, fade, n, n, 0)
    {
    }

    lemma AtStrict(frames: nat, channels: nat)
      requires channels >= 1
      ensures At(frames, channels, 0) < At(frames + 1, channels, 0)
    {
      AtNext(frames, channels, 0);
    }

    lemma AtZero(channels: nat)
      ensures At(0, channels, 0) == 0
    {
    }

    lemma AtMonotone(a: nat, b: nat, channels: nat)
      ensures a <= b ==> At(a, channels, 0) <= At(b, channels, 0)
    {
      ProductMonotone(a, b, channels);
    }

    lemma BestSpliceInRange(input: seq<i16>, channels: nat, maxStart: nat, skip: nat, fade: nat, best: nat)
      requires IsBestSplice(input, channels, maxStart, skip, fade, best)
      ensures best <= maxStart
    {
    }

    lemma RestKept(input: seq<i16>, was: seq<i16>, now: seq<i16>, channels: nat, splice: nat, skip: nat, fade: nat, p: nat)
      requires channels >= 1 && SplicedUpTo(input, was, now, channels, splice, skip, fade, p) && p <= |was|
      ensures |now| == |was| && now[p..] == was[p..]
    {
      hide SplicedSample;
    }

    /** stretchInputBuf_.resize when it is too short: kept samples, then zeros. */
    method Reserve(size: nat)
      requires Valid()
      modifies this`stretchInputBuf
      ensures Valid() && stretchInputBuf.Length >= size
      ensures stretchInputBuf == old(stretchInputBuf) || fresh(stretchInputBuf)
    {
      if stretchInputBuf.Length < size {
        var bigger := new i16[size](_ => 0);
        forall i | 0 <= i < stretchInputBuf.Length { bigger[i] := stretchInputBuf[i]; }
        stretchInputBuf := bigger;
      }
    }

    /** The speed a callback aims at with `buffered` samples in the ring. */
    function TargetNow(exp: real -> real, buffered: nat, baseline: u32, protect: u32): real
      requires Valid()
      reads this, ring
    {
      TargetSpeed(exp, buffered, sampleRate * channels, baseline, protect, MaxSpeed(maxSpeedPermille))
    }

    /** The output is a whole number of frames, at least one. */
    ghost predicate WholeFrameBuffer(length: nat) {
      channels >= 1 && 0 < length < TWO64 && length == At(FrameOf(length, channels), channels, 0)
    }

    /** The renderer as the catch-up argument sees it: whole frames buffered, and speed. */
    ghost function PlayerNow(): Player
      requires Valid()
      reads this, ring, ring.buffer
    {
      Player(FrameOf(|ring.Contents()|, channels), currentSpeed)
    }

    /** A callback in whole frames, when the ring held `before` samples as it began, `looked`
        as it was looked at and `offered` as it was read. */
    ghost function CallbackOf(frames: nat, target: real, before: nat, looked: nat, offered: nat): Callback
      requires channels >= 1 && before <= looked <= offered
    {
      FramesGrow(before, looked, channels);
      FramesGrow(looked, offered, channels);
      Callback(frames, target, FrameOf(looked, channels) - FrameOf(before, channels),
               FrameOf(offered, channels) - FrameOf(looked, channels))
    }

    /** One render callback for a whole output buffer. `early` and `burst` are what the
        producer writes after the backlog is measured and after the ring is looked at. The
        ghost results say how many samples were read, what they were before any fade, what the
        ring held when it was looked at and when it was read, how much was taken from it and
        where it was spliced. */
    method RenderCallback(output: array<i16>, baseline: u32, protect: u32, exp: real -> real,
                          early: seq<i16>, burst: seq<i16>)
      returns (ghost readSamples: nat, ghost raw: seq<i16>, ghost consumed: nat, ghost looked: seq<i16>,
               ghost offered: seq<i16>, ghost splice: nat)
      requires Valid() && SilenceInv()
      requires WholeFrameBuffer(output.Length)
      requires |early| < TWO64 && |burst| < TWO64
      requires output != ring.buffer && output != stretchInputBuf && output != lastOutputSamples
      modifies this, stretchInputBuf, lastOutputSamples, ring`head, ring`tail, ring.buffer, output
      ensures Valid() && SilenceInv() && (stretchInputBuf == old(stretchInputBuf) || fresh(stretchInputBuf))
      ensures currentSpeed == NextSpeed(old(currentSpeed), old(TargetNow(exp, |ring.Contents()|, baseline, protect)))
      ensures 1.0 <= currentSpeed <= MaxSpeed(maxSpeedPermille) && currentSpeed <= old(currentSpeed) + 0.02
      ensures maxSpeedPermille == old(maxSpeedPermille)
      ensures readSamples <= output.Length == |raw|
      ensures bufferLow == (old(bufferLow) || readSamples < output.Length)
      ensures recoveringFromSilence <==> readSamples < output.Length
      ensures Finished(raw, output[..], old(lastOutputSamples[..]), old(recoveringFromSilence), readSamples)
      ensures lastOutputSamples[..] == LastFrame(output[..], channels)
      ensures old(recoveringFromSilence) && readSamples == 0 ==> forall i :: 0 <= i < output.Length ==> output[i] == 0
      ensures old(recoveringFromSilence) && readSamples == output.Length ==>
                forall i :: 0 <= i < output.Length ==> Abs(output[i]) <= Abs(raw[i])
      ensures Offered(old(ring.Contents()), early, ring.capacity, looked)
      ensures Offered(looked, if baseline == 0 then [] else burst, ring.capacity, offered)
      ensures readSamples <= consumed <= |offered| && ring.Contents() == offered[consumed..]
      ensures baseline == 0 ==>
                && readSamples == consumed == Min(output.Length, |looked|)
                && raw == offered[..readSamples] + old(output[..])[readSamples..]
      ensures baseline != 0 ==>
                var frames, available := FrameOf(output.Length, channels), FrameOf(|looked|, channels);
                && readSamples == At(Min(frames, available), channels, 0)
                && consumed == At(ConsumedFrames(frames, available, currentSpeed), channels, 0)
                && PlayedFrom(offered, stretchInputBuf[..], old(output[..]), raw, channels, frames, SpliceFade(frames),
                              consumed, readSamples, splice)
      ensures baseline != 0 ==>
                PlayerNow() == AfterCallback(old(PlayerNow()),
                  CallbackOf(FrameOf(output.Length, channels), old(TargetNow(exp, |ring.Contents()|, baseline, protect)),
                             |old(ring.Contents())|, |looked|, |offered|))
      ensures |old(ring.Contents())| >= output.Length ==> readSamples == output.Length
      ensures |old(ring.Contents())| == 0 && early == [] && burst == [] ==> readSamples == 0
    {
      hide At, FrameOf, PlayedFrom, NextSpeed, TargetSpeed, ConsumedFrames, Finished, AfterCallback, CallbackOf;
      var got;
      got, consumed, looked, offered, splice := ReadCallback(output, baseline, protect, exp, early, burst);
      readSamples := got;
      raw := output[..];
      ghost var input := stretchInputBuf[..];
      FinishCallback(output, got);
      assert stretchInputBuf[..] == input;
    }

    /** The first half of the callback: set the speed and read. */
    method ReadCallback(output: array<i16>, baseline: u32, protect: u32, exp: real -> real,
                        early: seq<i16>, burst: seq<i16>)
      returns (got: nat, ghost consumed: nat, ghost looked: seq<i16>, ghost offered: seq<i16>, ghost splice: nat)
      requires Valid() && WholeFrameBuffer(output.Length)
      requires |early| < TWO64 && |burst| < TWO64
      requires output != ring.buffer && output != stretchInputBuf && output != lastOutputSamples
      modifies this`currentSpeed, this`stretchInputBuf, stretchInputBuf, ring`head, ring`tail, ring.buffer, output
      ensures Valid() && (stretchInputBuf == old(stretchInputBuf) || fresh(stretchInputBuf))
      ensures currentSpeed == NextSpeed(old(currentSpeed), old(TargetNow(exp, |ring.Contents()|, baseline, protect)))
      ensures 1.0 <= currentSpeed <= MaxSpeed(maxSpeedPermille) && currentSpeed <= old(currentSpeed) + 0.02
      ensures Offered(old(ring.Contents()), early, ring.capacity, looked)
      ensures Offered(looked, if baseline == 0 then [] else burst, ring.capacity, offered)
      ensures got <= output.Length && got <= consumed <= |offered| && ring.Contents() == offered[consumed..]
      ensures baseline == 0 ==>
                && got == consumed == Min(output.Length, |looked|)
                && output[..] == offered[..got] + old(output[..])[got..]
      ensures baseline != 0 ==>
                var frames, available := FrameOf(output.Length, channels), FrameOf(|looked|, channels);
                && got == At(Min(frames, available), channels, 0)
                && consumed == At(ConsumedFrames(frames, available, currentSpeed), channels, 0)
                && PlayedFrom(offered, stretchInputBuf[..], old(output[..]), output[..], channels, frames, SpliceFade(frames),
                              consumed, got, splice)
      ensures baseline != 0 ==>
                PlayerNow() == AfterCallback(old(PlayerNow()),
                  CallbackOf(FrameOf(output.Length, channels), old(TargetNow(exp, |ring.Contents()|, baseline, protect)),
                             |old(ring.Contents())|, |looked|, |offered|))
      ensures |old(ring.Contents())| >= output.Length ==> got == output.Length
      ensures |old(ring.Contents())| == 0 && early == [] && burst == [] ==> got == 0
    {
      hide At, FrameOf, PlayedFrom, NextSpeed, TargetSpeed, ConsumedFrames, AfterCallback, CallbackOf;
      ghost var before, speedBefore := |ring.Contents()|, currentSpeed;
      var buffered := ring.AvailableToRead();
      ghost var target := TargetNow(exp, buffered, baseline, protect);
      SetSpeed(buffered, baseline, protect, exp);
      var took := ring.Write(early, |early|);
      looked := ring.Contents();
      got, consumed, offered, splice := ReadFrames(output, baseline, burst);
      NoFramesInNothing(channels);
      if baseline != 0 {
        StepInFrames(Player(FrameOf(before, channels), speedBefore), FrameOf(output.Length, channels), target,
                     before, |looked|, |offered|, consumed);
      }
    }

    /** The latency control: aim at a speed for what is buffered, and move towards it. */
    method SetSpeed(buffered: nat, baseline: u32, protect: u32, exp: real -> real)
      requires Valid()
      modifies this`currentSpeed
      ensures Valid()
      ensures currentSpeed == NextSpeed(old(currentSpeed), old(TargetNow(exp, buffered, baseline, protect)))
      ensures 1.0 <= currentSpeed <= MaxSpeed(maxSpeedPermille) && currentSpeed <= old(currentSpeed) + 0.02
    {
      hide NextSpeed, TargetSpeed;
      SpeedStaysInRange(exp, currentSpeed, buffered, sampleRate * channels, baseline, protect, MaxSpeed(maxSpeedPermille));
      currentSpeed := NextSpeed(currentSpeed, TargetNow(exp, buffered, baseline, protect));
    }

    /** The read of a callback: as it is without latency control, compressed with it. */
    method ReadFrames(output: array<i16>, baseline: u32, burst: seq<i16>)
      returns (got: nat, ghost consumed: nat, ghost offered: seq<i16>, ghost splice: nat)
      requires Valid() && WholeFrameBuffer(output.Length) && |burst| < TWO64
      requires currentSpeed <= MaxSpeed(maxSpeedPermille)
      requires output != ring.buffer && output != stretchInputBuf && output != lastOutputSamples
      modifies this`stretchInputBuf, stretchInputBuf, ring`head, ring`tail, ring.buffer, output
      ensures Valid() && (stretchInputBuf == old(stretchInputBuf) || fresh(stretchInputBuf))
      ensures Offered(old(ring.Contents()), if baseline == 0 then [] else burst, ring.capacity, offered)
      ensures got <= output.Length && got <= consumed <= |offered| && ring.Contents() == offered[consumed..]
      ensures var looked := old(ring.Contents());
              && (baseline == 0 ==>
                    && got == consumed == Min(output.Length, |looked|)
                    && output[..] == offered[..got] + old(output[..])[got..])
              && (baseline != 0 ==>
                    var frames, available := FrameOf(output.Length, channels), FrameOf(|looked|, channels);
                    && got == At(Min(frames, available), channels, 0)
                    && consumed == At(ConsumedFrames(frames, available, currentSpeed), channels, 0)
                    && PlayedFrom(offered, stretchInputBuf[..], old(output[..]), output[..], channels, frames, SpliceFade(frames),
                                  consumed, got, splice))
              && (|looked| >= output.Length ==> got == output.Length)
              && (FrameOf(|looked|, channels) == 0 ==> baseline != 0 ==> got == 0)
    {
      hide At, FrameOf, PlayedFrom, ConsumedFrames;
      ghost var looked, was := ring.Contents(), output[..];
      splice := 0;
      NoFramesInNothing(channels);
      if baseline == 0 {
        offered := looked;
        got := ring.Read(output, output.Length);
        consumed := got;
      } else {
        got, consumed, offered, splice := RenderPitchPreserved(output, output.Length, currentSpeed, burst);
        PlayedAtMost(offered, stretchInputBuf[..], was, output[..], channels, FrameOf(output.Length, channels),
                     SpliceFade(FrameOf(output.Length, channels)), consumed, got, splice);
        FrameAtLeast(|looked|, channels, FrameOf(output.Length, channels));
      }
    }

    /** The samples left in the ring, in whole frames, are what the player model says. */
    lemma StepInFrames(p: Player, frames: nat, target: real, before: nat, looked: nat, offered: nat, consumed: nat)
      requires channels >= 1 && before <= looked <= offered && p.backlog == FrameOf(before, channels)
      requires consumed == At(ConsumedFrames(frames, FrameOf(looked, channels), NextSpeed(p.speed, target)), channels, 0)
      ensures consumed <= offered
      ensures AfterCallback(p, CallbackOf(frames, target, before, looked, offered))
              == Player(FrameOf(offered - consumed, channels), NextSpeed(p.speed, target))
    {
      hide At, FrameOf, NextSpeed, ConsumedFrames;
      FramesGrow(before, looked, channels);
      FramesGrow(looked, offered, channels);
      ConsumedAtMost(frames, FrameOf(looked, channels), NextSpeed(p.speed, target));
      FramesTaken(offered, ConsumedFrames(frames, FrameOf(looked, channels), NextSpeed(p.speed, target)), channels);
    }

    lemma ConsumedAtMost(request: nat, available: nat, speed: real)
      ensures ConsumedFrames(request, available, speed) <= available
    {
    }

    lemma FramesGrow(a: nat, b: nat, channels: nat)
      requires channels >= 1 && a <= b
      ensures FrameOf(a, channels) <= FrameOf(b, channels)
    {
      FrameAtLeast(a, channels, FrameOf(a, channels));
      FrameAtLeast(b, channels, FrameOf(a, channels));
    }

    /** Taking whole frames off `n` samples. */
    lemma FramesTaken(n: nat, k: nat, channels: nat)
      requires channels >= 1 && k <= FrameOf(n, channels)
      ensures At(k, channels, 0) <= n && FrameOf(n - At(k, channels, 0), channels) == FrameOf(n, channels) - k
    {
      FrameAtLeast(n, channels, k);
      IndexIsAt(n, channels);
      var f, c := FrameOf(n, channels), ChannelOf(n, channels);
      AtIs(f - k, channels, c);
      assert f * channels == (f - k) * channels + k * channels;
      assert n - At(k, channels, 0) == At(f - k, channels, c);
    }

    /** A producer that writes at most one request of samples adds at most one request of
        whole frames. */
    lemma ProducerWithinRequest(frames: nat, target: real, before: nat, looked: nat, offered: nat)
      requires channels >= 1 && before <= looked <= offered <= before + At(frames, channels, 0)
      ensures var c := CallbackOf(frames, target, before, looked, offered); c.early + c.late <= c.request
    {
      FramesGrow(before, looked, channels);
      FramesGrow(looked, offered, channels);
      FramesGrow(offered, before + At(frames, channels, 0), channels);
      FramesAdded(before, frames, channels);
    }

    lemma FramesAdded(n: nat, k: nat, channels: nat)
      requires channels >= 1
      ensures FrameOf(n + At(k, channels, 0), channels) == FrameOf(n, channels) + k
    {
      IndexIsAt(n, channels);
      var f, c := FrameOf(n, channels), ChannelOf(n, channels);
      AtIs(f + k, channels, c);
      assert (f + k) * channels == f * channels + k * channels;
    }

    /** The render thread's loop over the callbacks it is woken for. Each writes a buffer the
        audio client hands out. While every callback catches up, the backlog falls with each,
        so catching up ends within as many callbacks as there were frames of backlog. A backlog
        that is too much does start it: after as many callbacks as it has frames too many, the
        backlog is below the bound and stays there. */
    method RenderLoop(inputs: seq<CallbackInput>, exp: real -> real)
      returns (outputs: seq<seq<i16>>, ghost steps: seq<Callback>)
      requires Valid() && SilenceInv()
      requires forall i :: 0 <= i < |inputs| ==> inputs[i].Fits(channels)
      modifies this, stretchInputBuf, lastOutputSamples, ring`head, ring`tail, ring.buffer
      ensures Valid() && SilenceInv() && maxSpeedPermille == old(maxSpeedPermille)
      ensures |outputs| == |inputs| && forall i :: 0 <= i < |inputs| ==> |outputs[i]| == At(inputs[i].frames, channels, 0)
      ensures AllRead(inputs) ==>
                && Follows(old(PlayerNow()), steps, inputs, exp, MaxSpeed(maxSpeedPermille))
                && PlayerNow() == AfterCallbacks(old(PlayerNow()), steps)
                && (AllCatchingUp(old(PlayerNow()), steps) ==> PlayerNow().backlog + |inputs| <= old(PlayerNow()).backlog)
      ensures (forall y :: exp(y) >= 1.0 + y) && maxSpeedPermille > 1001 ==>
                forall bound: nat, k: real :: AllTooMuch(inputs, bound, k) ==>
                  PlayerNow().backlog < bound || PlayerNow().backlog + |inputs| <= old(PlayerNow()).backlog
    {
      hide At, AfterCallback, AllCatchingUp, Follows, AllTooMuch;
      ghost var start := PlayerNow();
      outputs, steps := [], [];
      var n := 0;
      FollowsNothing(start, exp, MaxSpeed(maxSpeedPermille));
      assert inputs[..0] == [];
      while n < |inputs|
        invariant 0 <= n <= |inputs| && |outputs| == n
        invariant Valid() && SilenceInv() && (stretchInputBuf == old(stretchInputBuf) || fresh(stretchInputBuf))
        invariant maxSpeedPermille == old(maxSpeedPermille)
        invariant forall i :: 0 <= i < n ==> |outputs[i]| == At(inputs[i].frames, channels, 0)
        invariant AllRead(inputs[..n]) ==>
                    && Follows(start, steps, inputs[..n], exp, MaxSpeed(maxSpeedPermille))
                    && PlayerNow() == AfterCallbacks(start, steps)
      {
        hide PlayerNow, AllRead;
        var output, step := Wakeup(inputs[n], exp);
        ReadNext(inputs, n);
        if AllRead(inputs[..n + 1]) {
          FollowsNext(start, steps, inputs[..n], step, inputs[n], exp, MaxSpeed(maxSpeedPermille));
        }
        steps := steps + [step];
        outputs := outputs + [output];
        n := n + 1;
      }
      assert inputs[..n] == inputs;
      hide PlayerNow, AllRead;
      if AllRead(inputs) {
        BacklogFalls(start, steps, inputs, exp, MaxSpeed(maxSpeedPermille));
      }
      if (forall y :: exp(y) >= 1.0 + y) && maxSpeedPermille > 1001 {
        forall bound: nat, k: real | AllTooMuch(inputs, bound, k)
          ensures PlayerNow().backlog < bound || PlayerNow().backlog + |inputs| <= start.backlog
        {
          TooMuchIsRead(inputs, bound, k);
          LatencyReturns(start, steps, inputs, exp, MaxSpeed(maxSpeedPermille), bound, k);
        }
      }
    }

    /** Every callback has room for a frame, with latency control on. */
    ghost predicate AllRead(inputs: seq<CallbackInput>) {
      forall i :: 0 <= i < |inputs| ==> inputs[i].frames > 0 && inputs[i].baseline != 0
    }

    lemma ReadNext(inputs: seq<CallbackInput>, n: nat)
      requires n < |inputs|
      ensures inputs[..n + 1] == inputs[..n] + [inputs[n]]
      ensures AllRead(inputs[..n + 1]) <==> AllRead(inputs[..n]) && inputs[n].frames > 0 && inputs[n].baseline != 0
    {
    }

    /** The steps of the player model that the callbacks took from `start` on. */
    ghost predicate Follows(start: Player, steps: seq<Callback>, inputs: seq<CallbackInput>, exp: real -> real, maxSpeed: real) {
      && channels >= 1 && sampleRate * channels >= 1
      && |steps| == |inputs|
      && start.speed >= 1.0
      && forall i :: 0 <= i < |steps| ==>
           StepOf(steps[i], inputs[i]) && Aims(steps[i], AfterCallbacks(start, steps[..i]).backlog, inputs[i], exp, maxSpeed)
    }

    /** A step aims at the speed for a ring that holds `backlog` whole frames. */
    ghost predicate Aims(step: Callback, backlog: nat, input: CallbackInput, exp: real -> real, maxSpeed: real)
      requires channels >= 1 && sampleRate * channels >= 1
    {
      exists buffered: nat ::
        && FrameOf(buffered, channels) == backlog
        && step.target == TargetSpeed(exp, buffered, sampleRate * channels, input.baseline, input.protect, maxSpeed)
    }

    lemma FollowsNothing(start: Player, exp: real -> real, maxSpeed: real)
      requires channels >= 1 && sampleRate * channels >= 1 && start.speed >= 1.0
      ensures Follows(start, [], [], exp, maxSpeed)
    {
    }

    lemma FollowsNext(start: Player, steps: seq<Callback>, inputs: seq<CallbackInput>, step: Callback,
                      input: CallbackInput, exp: real -> real, maxSpeed: real)
      requires Follows(start, steps, inputs, exp, maxSpeed)
      requires channels >= 1 && sampleRate * channels >= 1
      requires StepOf(step, input) && Aims(step, AfterCallbacks(start, steps).backlog, input, exp, maxSpeed)
      ensures Follows(start, steps + [step], inputs + [input], exp, maxSpeed)
      ensures AfterCallbacks(start, steps + [step]) == AfterCallback(AfterCallbacks(start, steps), step)
    {
      CallbacksAppend(start, steps, step);
      hide AfterCallback, AfterCallbacks, StepOf, Aims;
      var all := steps + [step];
      forall i | 0 <= i < |all|
        ensures StepOf(all[i], (inputs + [input])[i])
                && Aims(all[i], AfterCallbacks(start, all[..i]).backlog, (inputs + [input])[i], exp, maxSpeed)
      {
        assert all[..i] == if i < |steps| then steps[..i] else steps;
      }
    }

    lemma BacklogFalls(start: Player, steps: seq<Callback>, inputs: seq<CallbackInput>, exp: real -> real, maxSpeed: real)
      requires Follows(start, steps, inputs, exp, maxSpeed)
      ensures AllCatchingUp(start, steps) ==> AfterCallbacks(start, steps).backlog + |inputs| <= start.backlog
    {
      if AllCatchingUp(start, steps) {
        CatchUpTerminates(start, steps);
      }
    }

    /** `bound` frames are at least `k` baselines above the protected latency, and k cubed
        times the latter is 0.002 baselines or more. */
    ghost predicate TooMuch(bound: nat, baseline: u32, protect: u32, k: real) {
      && k > 0.0
      && (At(bound, channels, 0) * 1000) as real >= (sampleRate * channels) as real * (protect as real + k * baseline as real)
      && k * k * k * protect as real >= 0.002 * baseline as real
    }

    /** That, for the settings of every callback, while each asks for fewer than `bound` frames
        and the producer writes no more than it asks for. */
    ghost predicate AllTooMuch(inputs: seq<CallbackInput>, bound: nat, k: real) {
      forall i :: 0 <= i < |inputs| ==>
        && 0 < inputs[i].frames < bound && inputs[i].baseline != 0
        && |inputs[i].early| + |inputs[i].burst| <= At(inputs[i].frames, channels, 0)
        && TooMuch(bound, inputs[i].baseline, inputs[i].protect, k)
    }

    lemma TooMuchIsRead(inputs: seq<CallbackInput>, bound: nat, k: real)
      requires AllTooMuch(inputs, bound, k)
      ensures AllRead(inputs)
    {
      hide TooMuch;
    }

    /** A latency that is too much is worked off, whatever the producer does within its share:
        after as many callbacks as there were frames beyond the bound, the ring holds fewer. */
    lemma LatencyReturns(start: Player, steps: seq<Callback>, inputs: seq<CallbackInput>, exp: real -> real,
                         maxSpeed: real, bound: nat, k: real)
      requires forall y :: exp(y) >= 1.0 + y
      requires maxSpeed > 1.001
      requires Follows(start, steps, inputs, exp, maxSpeed) && AllTooMuch(inputs, bound, k)
      ensures AfterCallbacks(start, steps).backlog < bound || AfterCallbacks(start, steps).backlog + |inputs| <= start.backlog
    {
      hide At, AfterCallback, AfterCallbacks, CatchesUpFrom;
      forall i | 0 <= i < |steps| ensures CatchesUpFrom(AfterCallbacks(start, steps[..i]), steps[i], bound) {
        var p := AfterCallbacks(start, steps[..i]);
        SpeedIsNormalOrMore(start, steps, inputs, exp, maxSpeed, i);
        StepCatchesUp(p, steps[i], inputs[i], exp, maxSpeed, bound, k);
      }
      BacklogComesDown(start, steps, bound);
    }

    lemma {:induction false} SpeedIsNormalOrMore(start: Player, steps: seq<Callback>, inputs: seq<CallbackInput>, exp: real -> real,
                                                 maxSpeed: real, i: nat)
      requires Follows(start, steps, inputs, exp, maxSpeed) && i <= |steps| && maxSpeed >= 1.0
      ensures AfterCallbacks(start, steps[..i]).speed >= 1.0
      decreases i
    {
      if i > 0 {
        hide Follows, AfterCallback, AfterCallbacks, Aims;
        SpeedIsNormalOrMore(start, steps, inputs, exp, maxSpeed, i - 1);
        StepAims(start, steps, inputs, exp, maxSpeed, i - 1);
        CallbacksAppend(start, steps[..i - 1], steps[i - 1]);
        assert steps[..i - 1] + [steps[i - 1]] == steps[..i];
        AimIsNormalOrMore(AfterCallbacks(start, steps[..i - 1]), steps[i - 1], inputs[i - 1], exp, maxSpeed);
      }
    }

    lemma StepAims(start: Player, steps: seq<Callback>, inputs: seq<CallbackInput>, exp: real -> real, maxSpeed: real, i: nat)
      requires Follows(start, steps, inputs, exp, maxSpeed) && i < |steps|
      ensures |inputs| == |steps| && channels >= 1 && sampleRate * channels >= 1
      ensures Aims(steps[i], AfterCallbacks(start, steps[..i]).backlog, inputs[i], exp, maxSpeed)
    {
      hide Aims, AfterCallbacks, StepOf;
    }

    lemma AimIsNormalOrMore(p: Player, step: Callback, input: CallbackInput, exp: real -> real, maxSpeed: real)
      requires channels >= 1 && sampleRate * channels >= 1 && maxSpeed >= 1.0
      requires Aims(step, p.backlog, input, exp, maxSpeed) && p.speed >= 1.0
      ensures AfterCallback(p, step).speed >= 1.0
    {
      hide FrameOf, CachedMs, Exponent, ConsumedFrames;
    }

    lemma StepCatchesUp(p: Player, step: Callback, input: CallbackInput, exp: real -> real, maxSpeed: real, bound: nat, k: real)
      requires forall y :: exp(y) >= 1.0 + y
      requires channels >= 1 && sampleRate * channels >= 1 && maxSpeed > 1.001 && p.speed >= 1.0
      requires StepOf(step, input) && Aims(step, p.backlog, input, exp, maxSpeed)
      requires 0 < input.frames < bound && input.baseline != 0
      requires |input.early| + |input.burst| <= At(input.frames, channels, 0)
      requires TooMuch(bound, input.baseline, input.protect, k)
      ensures CatchesUpFrom(p, step, bound)
    {
      hide At, FrameOf, TargetSpeed, NextSpeed;
      if p.backlog >= bound {
        var buffered: nat :| FrameOf(buffered, channels) == p.backlog
          && step.target == TargetSpeed(exp, buffered, sampleRate * channels, input.baseline, input.protect, maxSpeed);
        FrameAtLeast(buffered, channels, bound);
        TargetReaches(exp, buffered, sampleRate * channels, input.baseline, input.protect, maxSpeed, k, 0.002);
        CatchUpStarts(p.speed, step.target, maxSpeed);
      }
    }

    /** One turn of that loop: a buffer from the audio client, unless it has no room. */
    method Wakeup(input: CallbackInput, exp: real -> real) returns (output: seq<i16>, ghost step: Callback)
      requires Valid() && SilenceInv() && input.Fits(channels)
      modifies this, stretchInputBuf, lastOutputSamples, ring`head, ring`tail, ring.buffer
      ensures Valid() && SilenceInv() && (stretchInputBuf == old(stretchInputBuf) || fresh(stretchInputBuf))
      ensures |output| == At(input.frames, channels, 0)
      ensures maxSpeedPermille == old(maxSpeedPermille)
      ensures input.frames > 0 && input.baseline != 0 ==>
                && StepOf(step, input)
                && Aims(step, old(PlayerNow()).backlog, input, exp, MaxSpeed(maxSpeedPermille))
                && PlayerNow() == AfterCallback(old(PlayerNow()), step)
    {
      hide At, FrameOf, AfterCallback, CallbackOf, Finished, PlayedFrom;
      WholeBuffer(input.frames, channels);
      var buffer := new i16[At(input.frames, channels, 0)](_ => 0);
      step := Callback(0, 1.0, 0, 0);
      if input.frames > 0 {
        ghost var before, target := |ring.Contents()|, TargetNow(exp, |ring.Contents()|, input.baseline, input.protect);
        ghost var readSamples, raw, consumed, looked, offered, splice;
        readSamples, raw, consumed, looked, offered, splice :=
          RenderCallback(buffer, input.baseline, input.protect, exp, input.early, input.burst);
        step := CallbackOf(input.frames, target, before, |looked|, |offered|);
        assert FrameOf(before, channels) == old(PlayerNow()).backlog;
        CallbackRequests(input.frames, target, before, |looked|, |offered|);
        if |input.early| + |input.burst| <= At(input.frames, channels, 0) {
          ProducerWithinRequest(input.frames, target, before, |looked|, |offered|);
        }
      }
      output := buffer[..];
    }

    lemma CallbackRequests(frames: nat, target: real, before: nat, looked: nat, offered: nat)
      requires channels >= 1 && before <= looked <= offered
      ensures CallbackOf(frames, target, before, looked, offered).request == frames
      ensures CallbackOf(frames, target, before, looked, offered).target == target
    {
    }

    /** A step asks for the callback's frames, and a producer that wrote at most as many
        samples added at most as many frames. */
    ghost predicate StepOf(step: Callback, input: CallbackInput) {
      && step.request == input.frames
      && (|input.early| + |input.burst| <= At(input.frames, channels, 0) ==> step.early + step.late <= step.request)
    }

    lemma WholeBuffer(frames: nat, channels: nat)
      requires channels >= 1
      ensures FrameOf(At(frames, channels, 0), channels) == frames
      ensures frames > 0 ==> At(frames, channels, 0) > 0
    {
      AtIs(frames, channels, 0);
      AtMonotone(1, frames, channels);
      AtOne(channels);
    }

    lemma PlayedAtMost(offered: seq<i16>, input: seq<i16>, was: seq<i16>, now: seq<i16>, channels: nat,
                       frames: nat, fade: nat, consumed: nat, played: nat, splice: nat)
      requires channels >= 1 && PlayedFrom(offered, input, was, now, channels, frames, fade, consumed, played, splice)
      ensures played <= |now| && played <= consumed
    {
    }

    lemma NoFramesInNothing(channels: nat)
      requires channels >= 1
      ensures FrameOf(0, channels) == 0 && At(0, channels, 0) == 0
    {
      AtIs(0, channels, 0);
    }

    /** What a callback makes of the `raw` samples it read: faded in after silence, with
        frames missing at the end filled by a fade from the last sound to zero. */
    ghost predicate Finished(raw: seq<i16>, now: seq<i16>, last: seq<i16>, recovering: bool, readSamples: nat) {
      channels >= 1 ==>
        && |now| == |raw|
        && (readSamples >= |raw| && !recovering ==> now == raw)
        && (readSamples >= |raw| && recovering ==> FadedIn(raw, now, channels, Min(FrameOf(|raw|, channels), FadeLimit())))
        && (readSamples < |raw| ==>
              exists faded :: && |faded| == |raw|
                              && (!recovering || readSamples == 0 ==> faded == raw)
                              && (recovering && readSamples > 0 ==>
                                    FadedIn(raw, faded, channels, Min(FrameOf(readSamples, channels), FadeLimit())))
                              && FilledUpTo(faded, now, last, channels, readSamples, FillFade(readSamples, |raw|), |raw|))
    }

    /** The second half of the callback: fade in, fill, remember. */
    method FinishCallback(output: array<i16>, readSamples: nat)
      requires Valid() && SilenceInv() && 0 < output.Length && readSamples <= output.Length
      requires output.Length == At(FrameOf(output.Length, channels), channels, 0)
      requires output != lastOutputSamples && output != ring.buffer
      modifies this`recoveringFromSilence, this`bufferLow, lastOutputSamples, output
      ensures Valid() && SilenceInv()
      ensures bufferLow == (old(bufferLow) || readSamples < output.Length)
      ensures recoveringFromSilence <==> readSamples < output.Length
      ensures Finished(old(output[..]), output[..], old(lastOutputSamples[..]), old(recoveringFromSilence), readSamples)
      ensures lastOutputSamples[..] == LastFrame(output[..], channels)
      ensures old(recoveringFromSilence) && readSamples == 0 ==> forall i :: 0 <= i < output.Length ==> output[i] == 0
      ensures old(recoveringFromSilence) && readSamples == output.Length ==>
                forall i :: 0 <= i < output.Length ==> Abs(output[i]) <= Abs(old(output[..])[i])
    {
      hide At, FrameOf, FadedIn, FilledUpTo, LastFrame;
      WholeFrames(output.Length, channels);
      ghost var raw, last, recovering := output[..], lastOutputSamples[..], recoveringFromSilence;
      if readSamples > 0 {
        FadeInAfterSilence(output, readSamples);
      }
      ghost var faded := output[..];
      if readSamples < output.Length {
        FillSmoothSilence(output, readSamples, output.Length);
        bufferLow := true;
        FilledKeepsLength(faded, output[..], last, channels, readSamples,
          FillFade(readSamples, output.Length), output.Length);
        EndsInSilence(faded, output[..], last, readSamples);
      }
      RememberLastSamples(output, output.Length);
      assert output[..output.Length] == output[..];
      if recovering && readSamples == 0 {
        forall i | 0 <= i < output.Length ensures output[..][i] == 0 {
          SilenceStaysSilent(raw, output[..], last, i);
        }
      }
      if recovering && readSamples == output.Length {
        forall i | 0 <= i < output.Length ensures Abs(output[..][i]) <= Abs(raw[i]) {
          FirstSoundFadesIn(raw, output[..], last, i);
        }
      }
    }

    lemma WholeFrames(n: nat, channels: nat)
      requires channels >= 1 && 0 < n == At(FrameOf(n, channels), channels, 0)
      ensures n >= channels && FrameOf(n, channels) >= 1
    {
      AtOne(channels);
      FrameAtLeast(n, channels, 1);
      AtZero(channels);
    }

    lemma FilledKeepsLength(was: seq<i16>, now: seq<i16>, last: seq<i16>, channels: nat, startSample: nat, fade: nat, p: nat)
      requires channels >= 1 && fade >= 1 && FilledUpTo(was, now, last, channels, startSample, fade, p)
      ensures |now| == |was|
    {
    }

    /** After a fill the last frame is silent. */
    lemma EndsInSilence(was: seq<i16>, now: seq<i16>, last: seq<i16>, readSamples: nat)
      requires channels >= 1 && readSamples < |now| == |was| && |now| == At(FrameOf(|now|, channels), channels, 0)
      requires FilledUpTo(was, now, last, channels, readSamples, FillFade(readSamples, |now|), |now|)
      ensures forall c :: 0 <= c < channels ==> LastFrame(now, channels)[c] == 0
    {
      hide At, FrameOf, ChannelOf, FilledUpTo, LastFrame, StartOf, Preceding, StepBound, FadeLimit, FillFade;
      WholeFrames(|now|, channels);
      var frames := FrameOf(|now|, channels);
      FrameAtLeast(readSamples, channels, frames);
      FadesAre(readSamples, |now|);
      forall c: nat | c < channels ensures LastFrame(now, channels)[c] == 0 {
        Place(frames - 1, frames, |now|, channels, c);
        LastFrameAt(now, channels, c);
        FilledRegionIsSmooth(was, now, last, channels, readSamples, FillFade(readSamples, |now|), At(frames - 1, channels, c));
      }
    }

    /** Every empty callback after an underrun is exact silence, as long as it lasts. */
    lemma SilenceStaysSilent(raw: seq<i16>, now: seq<i16>, last: seq<i16>, i: nat)
      requires channels >= 1 && i < |raw| && forall c :: 0 <= c < |last| ==> last[c] == 0
      ensures Finished(raw, now, last, true, 0) ==> |now| == |raw| && now[i] == 0
    {
      NoFramesInNothing(channels);
      hide At, FrameOf, StepBound, FilledUpTo;
      if Finished(raw, now, last, true, 0) {
        FilledRegionIsSmooth(raw, now, last, channels, 0, FillFade(0, |raw|), i);
      }
    }

    /** The first full read after silence is faded in over its whole length or 5 ms: it starts
        next to silence, and nothing grows or changes sign. */
    lemma FirstSoundFadesIn(raw: seq<i16>, now: seq<i16>, last: seq<i16>, i: nat)
      requires channels >= 1 && i < |raw| && Finished(raw, now, last, true, |raw|)
      ensures |now| == |raw| && Abs(now[i]) <= Abs(raw[i])
      ensures (raw[i] >= 0 ==> now[i] >= 0) && (raw[i] <= 0 ==> now[i] <= 0)
      ensures var frame, fade := FrameOf(i, channels), Min(FrameOf(|raw|, channels), FadeLimit());
              && (frame < fade ==> (Abs(now[i]) as real) <= FlatBound(raw[i], frame + 1, fade))
              && (frame + 1 >= fade ==> now[i] == raw[i])
    {
      var frame, fade := FrameOf(i, channels), Min(FrameOf(|raw|, channels), FadeLimit());
      FadeInShrinks(raw[i], frame, fade);
      hide FadeInSample, FrameOf, FlatBound;
      if frame < fade {
        FadeInRises(raw[i], frame, fade);
      }
    }

    /** An underrun callback has no click: from the last sound played, in this buffer or the
        one before, every channel's magnitude falls step by step to exactly zero, neighbours
        differing by at most the slew bound of that sound. */
    lemma UnderrunIsSmooth(raw: seq<i16>, now: seq<i16>, last: seq<i16>, recovering: bool, readSamples: nat, i: nat)
      requires channels >= 1 && readSamples < |raw| && i < |raw|
      ensures Finished(raw, now, last, recovering, readSamples) && FrameOf(i, channels) >= FrameOf(readSamples, channels) ==>
                && |now| == |raw|
                && var before := Preceding(now, last, channels, i);
                   var start := StartOf(now, last, channels, readSamples, ChannelOf(i, channels));
                   && Abs(now[i]) <= Abs(before) <= Abs(start)
                   && (Abs(now[i] - before) as real) <= StepBound(start, FillFade(readSamples, |raw|))
                   && (FrameOf(i, channels) + 1 >= FrameOf(readSamples, channels) + FillFade(readSamples, |raw|) ==> now[i] == 0)
    {
      hide At, FrameOf, ChannelOf, FilledUpTo, FadedIn, StepBound, Preceding, FillFade, StartOf;
      if Finished(raw, now, last, recovering, readSamples) {
        var fade := FillFade(readSamples, |raw|);
        var faded :| |faded| == |raw| && FilledUpTo(faded, now, last, channels, readSamples, fade, |raw|);
        FilledKeepsLength(faded, now, last, channels, readSamples, fade, |raw|);
        SameStart(faded, now, last, channels, readSamples, fade, ChannelOf(i, channels));
        FilledRegionIsSmooth(faded, now, last, channels, readSamples, fade, i);
      }
    }

    /** What was read is played: frames before the missing ones are as they were read, or faded
        in after silence, when none grows or changes sign. */
    lemma PlayedPartIsKept(raw: seq<i16>, now: seq<i16>, last: seq<i16>, recovering: bool, readSamples: nat, i: nat)
      requires channels >= 1 && readSamples < |raw| && i < |raw| && FrameOf(i, channels) < FrameOf(readSamples, channels)
      ensures Finished(raw, now, last, recovering, readSamples) ==>
                && |now| == |raw|
                && (!recovering ==> now[i] == raw[i])
                && Abs(now[i]) <= Abs(raw[i])
                && (raw[i] >= 0 ==> now[i] >= 0) && (raw[i] <= 0 ==> now[i] <= 0)
                && (FrameOf(i, channels) + 1 >= FadeLimit() ==> now[i] == raw[i])
    {
      hide FadeInSample, FillSample, FrameOf, ChannelOf, StartOf;
      NoFramesInNothing(channels);
      if Finished(raw, now, last, recovering, readSamples) {
        FadeInShrinks(raw[i], FrameOf(i, channels), Min(FrameOf(readSamples, channels), FadeLimit()));
      }
    }

    lemma SameStart(was: seq<i16>, now: seq<i16>, last: seq<i16>, channels: nat, startSample: nat, fade: nat, ch: nat)
      requires channels >= 1 && fade >= 1 && startSample < |was| == |now| && ch < channels
      requires FilledUpTo(was, now, last, channels, startSample, fade, |now|)
      ensures StartOf(now, last, channels, startSample, ch) == StartOf(was, last, channels, startSample, ch)
    {
      if startSample >= channels {
        StartUntouched(was, now, last, channels, startSample, fade, |now|, ch);
      }
      hide At, FrameOf, FilledUpTo;
    }
  }
}
