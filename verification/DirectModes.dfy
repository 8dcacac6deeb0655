/** The receive modes of main.cpp without a sorting area: QUIC, with packet-loss
    concealment of short gaps, and UDP with out-of-order packets discarded. */
module DirectModes {
  import opened Words
  import opened Protocol

  /** One packet. `pcm` is what its payload decodes to; `conceal(i)` what the decoder makes
      of the i-th concealment call, should it be asked. */
  datatype Packet = Packet(seqNo: u8, pcm: Option<Pcm>, conceal: int -> Option<Pcm>)

  datatype Mode = Quic(opus: bool) | Discard

  datatype Rx = Rx(expected: u8, out: seq<Pcm>)

  function Gap(s: Rx, p: Packet): u8 { Sub8(p.seqNo, s.expected) }

  function Written(pcm: Option<Pcm>): seq<Pcm> { if pcm.Some? then [pcm.value] else [] }

  function Concealed(conceal: int -> Option<Pcm>, n: nat): seq<Pcm> {
    if n == 0 then [] else Concealed(conceal, n - 1) + Written(conceal(n - 1))
  }

  /** How many lost packets a mode conceals. */
  function ConcealedCount(mode: Mode, gap: u8): nat {
    if mode.Quic? && mode.opus && gap <= 3 then gap else 0
  }

  predicate InWindow(s: Rx, p: Packet) { IsNewer(Sub8(s.expected, 1), p.seqNo) }

  function Step(mode: Mode, s: Rx, p: Packet): Rx {
    if InWindow(s, p)
    then Rx(Add8(p.seqNo, 1), s.out + Concealed(p.conceal, ConcealedCount(mode, Gap(s, p))) + Written(p.pcm))
    else s
  }

  function Run(mode: Mode, s: Rx, packets: seq<Packet>): Rx {
    if packets == [] then s else Step(mode, Run(mode, s, packets[..|packets| - 1]), packets[|packets| - 1])
  }

  class Receiver {
    const mode: Mode
    var expectedSeq: u8
    var written: seq<Pcm>

    ghost function Model(): Rx
      reads this
    {
      Rx(expectedSeq, written)
    }

    constructor (mode: Mode)
      ensures this.mode == mode && Model() == Rx(0, [])
    {
      this.mode := mode;
      expectedSeq := 0;
      written := [];
    }

    /** One packet. `clearsLow` reports the store to the renderer's buffer-low flag. */
    method Receive(p: Packet) returns (clearsLow: bool)
      modifies this
      ensures Model() == Step(mode, old(Model()), p)
      ensures clearsLow <==> mode.Quic? && InWindow(old(Model()), p) && p.pcm.Some?
    {
      clearsLow := false;
      if IsNewer(Sub8(expectedSeq, 1), p.seqNo) {
        var gap := Sub8(p.seqNo, expectedSeq);
        if mode.Quic? && gap > 0 {
          if mode.opus && gap <= 3 {
            ConcealLoss(p, gap);
          }
        }
        if p.pcm.Some? {
          written := written + [p.pcm.value];
          clearsLow := mode.Quic?;
        }
        expectedSeq := Add8(p.seqNo, 1);
      }
    }

    /** The concealment loop: each lost packet is asked for once; failures write nothing. */
    method ConcealLoss(p: Packet, gap: nat)
      modifies this`written
      ensures written == old(written) + Concealed(p.conceal, gap)
    {
      var i := 0;
      while i < gap
        invariant 0 <= i <= gap
        invariant written == old(written) + Concealed(p.conceal, i)
      {
        var pcm := p.conceal(i);
        if pcm.Some? {
          written := written + [pcm.value];
        }
        i := i + 1;
      }
    }
  }

  // --- Counting without wrap-around -----------------------------------------------------------

  /** How many numbers a packet moves the expected one past. */
  function Moves(s: Rx, p: Packet): nat { if InWindow(s, p) then Gap(s, p) + 1 else 0 }

  function Moved(mode: Mode, s: Rx, packets: seq<Packet>): nat {
    if packets == [] then 0
    else
      var init := packets[..|packets| - 1];
      Moved(mode, s, init) + Moves(Run(mode, s, init), packets[|packets| - 1])
  }

  /** The byte counter is the unwrapped one modulo 256, and one packet moves it by 1 to 14. */
  lemma {:induction false} ExpectedIsMoved(mode: Mode, s: Rx, packets: seq<Packet>)
    ensures Run(mode, s, packets).expected == Wrap8(s.expected + Moved(mode, s, packets))
    decreases |packets|
  {
    if packets != [] {
      var init, p := packets[..|packets| - 1], packets[|packets| - 1];
      ExpectedIsMoved(mode, s, init);
      StepMoves(mode, Run(mode, s, init), p);
      WrapPlus(s.expected + Moved(mode, s, init), Moves(Run(mode, s, init), p));
    }
  }

  lemma StepMoves(mode: Mode, s: Rx, p: Packet)
    ensures Step(mode, s, p).expected == Wrap8(s.expected + Moves(s, p))
    ensures Moves(s, p) <= 14
  {
    hide Wrap8, Sub8, IsNewer;
    WindowIsFourteenWide(s.expected, p.seqNo);
    DistanceThenAdd(p.seqNo, s.expected);
    WrapPlus(s.expected + Gap(s, p), 1);
    ByteIsWrapped(s.expected);
  }

  // --- Timeline ---------------------------------------------------------------------------------

  /** Every call to the decoder succeeds. */
  ghost predicate Decodes(p: Packet) { p.pcm.Some? && forall i :: p.conceal(i).Some? }

  /** No gap in the run is too long to be concealed. */
  predicate AllGapsConcealed(mode: Mode, s: Rx, packets: seq<Packet>) {
    packets == [] ||
    var init, p := packets[..|packets| - 1], packets[|packets| - 1];
    var before := Run(mode, s, init);
    && AllGapsConcealed(mode, s, init)
    && (InWindow(before, p) ==> Gap(before, p) == 0 || (mode == Quic(true) && Gap(before, p) <= 3))
  }

  /** When every concealment call decodes, its buffers stand in the order of the calls. */
  lemma {:induction false} ConcealedInOrder(conceal: int -> Option<Pcm>, n: nat)
    requires forall i :: conceal(i).Some?
    ensures |Concealed(conceal, n)| == n
    ensures forall i :: 0 <= i < n ==> Concealed(conceal, n)[i] == conceal(i).value
    decreases n
  {
    if n > 0 { ConcealedInOrder(conceal, n - 1); }
  }

  /** What an accepted packet writes when every call decodes: for each number of a gap of up
      to three over Opus on QUIC a concealment buffer, in order, and its own buffer last;
      after any other gap its own buffer alone. */
  lemma AcceptedWrites(mode: Mode, s: Rx, p: Packet)
    requires Decodes(p) && InWindow(s, p)
    ensures var out, gap := Step(mode, s, p).out, Gap(s, p);
            && s.out <= out && |out| > |s.out| && out[|out| - 1] == p.pcm.value
            && (mode == Quic(true) && gap <= 3 ==>
                  |out| == |s.out| + gap + 1 && forall i :: 0 <= i < gap ==> out[|s.out| + i] == p.conceal(i).value)
            && (mode != Quic(true) || gap > 3 ==> |out| == |s.out| + 1)
  {
    hide InWindow;
    ConcealedInOrder(p.conceal, ConcealedCount(mode, Gap(s, p)));
  }

  /** A packet of which nothing decodes writes nothing, but its number is passed all the same. */
  lemma SilentPacketPasses(mode: Mode, s: Rx, p: Packet)
    requires InWindow(s, p) && p.pcm.None? && forall i :: p.conceal(i).None?
    ensures Step(mode, s, p) == Rx(Add8(p.seqNo, 1), s.out)
  {
    NothingConcealed(p.conceal, ConcealedCount(mode, Gap(s, p)));
  }

  lemma {:induction false} NothingConcealed(conceal: int -> Option<Pcm>, n: nat)
    requires forall i :: conceal(i).None?
    ensures Concealed(conceal, n) == []
    decreases n
  {
    if n > 0 { NothingConcealed(conceal, n - 1); }
  }

  /** The unwrapped number of packet `j` of a run, counted from the first expected number. */
  function NumberIn(mode: Mode, s: Rx, packets: seq<Packet>, j: nat): nat
    requires j < |packets|
  {
    Moved(mode, s, packets[..j]) + Gap(Run(mode, s, packets[..j]), packets[j])
  }

  /** It is a number its sequence byte stands for. */
  lemma NumberInIsNamed(mode: Mode, s: Rx, packets: seq<Packet>, j: nat)
    requires j < |packets|
    ensures Wrap8(s.expected + NumberIn(mode, s, packets, j)) == packets[j].seqNo
  {
    hide Wrap8, Sub8, Run, Moved;
    ExpectedIsMoved(mode, s, packets[..j]);
    DistanceThenAdd(packets[j].seqNo, Run(mode, s, packets[..j]).expected);
    WrapPlus(s.expected + Moved(mode, s, packets[..j]), Gap(Run(mode, s, packets[..j]), packets[j]));
  }

  /** The packet's buffer stands at `place`, after the concealment buffers of its gap. */
  ghost predicate StandsAt(out: seq<Pcm>, p: Packet, gap: nat, place: nat) {
    && gap <= place < |out| && p.pcm == Some(out[place])
    && forall i :: 0 <= i < gap ==> p.conceal(i) == Some(out[place - gap + i])
  }

  /** Playback is aligned with the sender's numbering: when every call decodes and every gap
      is concealed, each accepted packet's buffer stands at the place of its own number, and
      the concealment calls made for it stand at the places of the numbers lost before it. */
  lemma {:induction false} PlaybackIsAligned(mode: Mode, s: Rx, packets: seq<Packet>, j: nat)
    requires forall i :: 0 <= i < |packets| ==> Decodes(packets[i])
    requires AllGapsConcealed(mode, s, packets)
    requires j < |packets| && InWindow(Run(mode, s, packets[..j]), packets[j])
    ensures StandsAt(Run(mode, s, packets).out, packets[j], Gap(Run(mode, s, packets[..j]), packets[j]),
                     |s.out| + NumberIn(mode, s, packets, j))
    decreases |packets|
  {
    hide InWindow, Gap, StandsAt, Decodes, Step, Moved;
    var init := packets[..|packets| - 1];
    if j < |init| {
      assert init[..j] == packets[..j];
      PlaybackIsAligned(mode, s, init, j);
      StepOnlyGrows(mode, Run(mode, s, init), packets[|init|]);
      hide Run, AllGapsConcealed;
      StillStands(Run(mode, s, init).out, Run(mode, s, packets).out, packets[j],
                  Gap(Run(mode, s, init[..j]), init[j]), |s.out| + NumberIn(mode, s, init, j));
    } else {
      LastIsAligned(mode, s, packets);
    }
  }

  lemma LastIsAligned(mode: Mode, s: Rx, packets: seq<Packet>)
    requires forall i :: 0 <= i < |packets| ==> Decodes(packets[i])
    requires packets != [] && AllGapsConcealed(mode, s, packets)
    requires InWindow(Run(mode, s, packets[..|packets| - 1]), packets[|packets| - 1])
    ensures var j := |packets| - 1;
            StandsAt(Run(mode, s, packets).out, packets[j], Gap(Run(mode, s, packets[..j]), packets[j]),
                     |s.out| + NumberIn(mode, s, packets, j))
  {
    hide InWindow, Gap, StandsAt, Decodes, Step, Moved;
    var init, last := packets[..|packets| - 1], packets[|packets| - 1];
    TimelineKeptIff(mode, s, init);
    LastStands(mode, Run(mode, s, init), last);
  }

  lemma StillStands(out: seq<Pcm>, more: seq<Pcm>, p: Packet, gap: nat, place: nat)
    requires StandsAt(out, p, gap, place) && out <= more
    ensures StandsAt(more, p, gap, place)
  {
  }

  lemma LastStands(mode: Mode, s: Rx, p: Packet)
    requires Decodes(p) && InWindow(s, p)
    requires Gap(s, p) == 0 || (mode == Quic(true) && Gap(s, p) <= 3)
    ensures StandsAt(Step(mode, s, p).out, p, Gap(s, p), |s.out| + Gap(s, p))
  {
    hide InWindow, Gap;
    AcceptedWrites(mode, s, p);
    hide Step;
  }

  lemma StepOnlyGrows(mode: Mode, s: Rx, p: Packet)
    ensures s.out <= Step(mode, s, p).out
  {
  }

  /** When the decoder never fails, playback stays aligned with the sender's numbering, one
      buffer written per number passed, exactly when every gap was concealed: over Opus on
      QUIC that is gaps of at most three, elsewhere no gap at all. Otherwise it runs short. */
  lemma {:induction false} TimelineKeptIff(mode: Mode, s: Rx, packets: seq<Packet>)
    requires forall i :: 0 <= i < |packets| ==> Decodes(packets[i])
    ensures |Run(mode, s, packets).out| - |s.out| <= Moved(mode, s, packets)
    ensures |Run(mode, s, packets).out| - |s.out| == Moved(mode, s, packets) <==> AllGapsConcealed(mode, s, packets)
    decreases |packets|
  {
    if packets != [] {
      var init, p := packets[..|packets| - 1], packets[|packets| - 1];
      TimelineKeptIff(mode, s, init);
      var before := Run(mode, s, init);
      ConcealedInOrder(p.conceal, ConcealedCount(mode, Gap(before, p)));
      hide InWindow, Gap;
    }
  }

  /** A packet outside the window, late or far ahead, changes nothing. */
  lemma OutsideIsRejected(mode: Mode, s: Rx, p: Packet)
    requires Gap(s, p) >= 14
    ensures Step(mode, s, p) == s
  {
    WindowIsFourteenWide(s.expected, p.seqNo);
  }

  // --- A gap wider than the window --------------------------------------------------------------

  predicate Consecutive(first: nat, packets: seq<Packet>) {
    forall i :: 0 <= i < |packets| ==> packets[i].seqNo == Wrap8(first + i)
  }

  /** After a gap of 14 to 255 numbers, a consecutive stream is rejected for exactly 256 - k
      packets, at most 242, and the next one is the expected one and accepted. */
  lemma {:induction false} LargeGapResync(mode: Mode, s: Rx, k: nat, packets: seq<Packet>)
    requires 14 <= k <= 255 && |packets| <= 0x100 - k && Consecutive(s.expected + k, packets)
    ensures Run(mode, s, packets) == s
    ensures 0x100 - k <= 242
    ensures forall p: Packet :: p.seqNo == Wrap8(s.expected + k + (0x100 - k)) ==>
              p.seqNo == s.expected && Step(mode, s, p) == Rx(Add8(s.expected, 1), s.out + Written(p.pcm))
    decreases |packets|
  {
    if packets != [] {
      var init, p := packets[..|packets| - 1], packets[|packets| - 1];
      LargeGapResync(mode, s, k, init);
      AddThenDistance(s.expected, k + |init|);
      OutsideIsRejected(mode, s, p);
    } else {
      forall p: Packet | p.seqNo == Wrap8(s.expected + k + (0x100 - k))
        ensures p.seqNo == s.expected && Step(mode, s, p) == Rx(Add8(s.expected, 1), s.out + Written(p.pcm))
      {
        WrapWhole(s.expected, 1);
        ExpectedIsTaken(mode, s, p);
      }
    }
  }

  lemma ExpectedIsTaken(mode: Mode, s: Rx, p: Packet)
    requires p.seqNo == s.expected
    ensures Step(mode, s, p) == Rx(Add8(s.expected, 1), s.out + Written(p.pcm))
  {
    WindowIsFourteenWide(s.expected, p.seqNo);
    assert Gap(s, p) == 0;
    assert s.out + Concealed(p.conceal, 0) == s.out;
  }
}
