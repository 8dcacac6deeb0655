/** The ring buffer under one producer thread and one consumer thread. Each load of a shared
    counter, each copied sample and each publishing store is a step of its own, the two
    threads interleave in any way, and a load of the other thread's counter may return any
    value published since the last one that thread saw. */
module SpscRing {
  import opened Words
  import opened Bits
  import opened RingBuffer

  /** Where `write` stands: the own counter loaded, then `k` of `n` samples copied. */
  datatype Producer =
    | PIdle
    | PLoaded(data: seq<i16>, ownHead: u64)
    | PCopying(data: seq<i16>, ownHead: u64, n: nat, k: nat)

  /** Where `read` stands: the own counter loaded, then `out` copied of `n` samples. */
  datatype Consumer =
    | CIdle
    | CLoaded(count: nat, ownTail: u64)
    | CCopying(ownTail: u64, n: nat, out: seq<i16>)

  /** `accepted` and `delivered` are the samples published by finished writes and reads;
      `seenTail` and `seenHead` count what each thread has seen of the other. */
  datatype State = State(bits: nat, buffer: seq<i16>, head: u64, tail: u64,
                         producer: Producer, consumer: Consumer,
                         seenTail: nat, seenHead: nat,
                         accepted: seq<i16>, delivered: seq<i16>)
  {
    function Capacity(): nat { Pow2(bits) }
  }

  datatype Action =
    | StartWrite(data: seq<i16>)
    | LoadTail(seen: nat)
    | CopyIn
    | PublishHead
    | StartRead(count: nat)
    | LoadHead(seen: nat)
    | CopyOut
    | PublishTail

  function Start(bits: nat): State {
    State(bits, seq(Pow2(bits), _ => 0), 0, 0, PIdle, CIdle, 0, 0, [], [])
  }

  /** The array index of sample `k` of a transfer of `n` that starts at `counter`: the
      masked counter for the first chunk, the array's beginning for the second. */
  function ChunkIndex(counter: u64, n: nat, k: nat, capacity: nat): int
    requires capacity >= 1
  {
    var index := BitAnd(counter, capacity - 1);
    var first := Min(n, capacity - index);
    if k < first then index + k else k - first
  }

  predicate Enabled(s: State, a: Action) {
    match a
    case StartWrite(data) => s.producer.PIdle? && |data| < TWO64
    case LoadTail(seen) => s.producer.PLoaded? && s.seenTail <= seen <= |s.delivered|
    case CopyIn => s.producer.PCopying? && s.producer.k < s.producer.n
    case PublishHead => s.producer.PCopying? && s.producer.k == s.producer.n
    case StartRead(count) => s.consumer.CIdle? && count < TWO64
    case LoadHead(seen) => s.consumer.CLoaded? && s.seenHead <= seen <= |s.accepted|
    case CopyOut => s.consumer.CCopying? && |s.consumer.out| < s.consumer.n
    case PublishTail => s.consumer.CCopying? && |s.consumer.out| == s.consumer.n
  }

  /** size_t capacity_ - (current_head - current_tail) */
  function Free(s: State, seen: nat): u64
    requires s.producer.PLoaded?
  {
    (s.Capacity() - Distance(s.producer.ownHead, seen % TWO64)) % TWO64
  }

  function Filled(s: State, seen: nat): u64
    requires s.consumer.CLoaded?
  {
    Distance(seen % TWO64, s.consumer.ownTail)
  }

  function WriteTarget(s: State): int
    requires s.producer.PCopying?
  {
    ChunkIndex(s.producer.ownHead, s.producer.n, s.producer.k, s.Capacity())
  }

  function ReadSource(s: State): int
    requires s.consumer.CCopying?
  {
    ChunkIndex(s.consumer.ownTail, s.consumer.n, |s.consumer.out|, s.Capacity())
  }

  ghost predicate Inv(s: State) {
    var h, t := |s.accepted|, |s.delivered|;
    && s.bits <= 63 && |s.buffer| == s.Capacity()
    && s.head == h % TWO64 && s.tail == t % TWO64
    && t <= h <= t + s.Capacity()
    && s.seenTail <= t && h <= s.seenTail + s.Capacity()
    && t <= s.seenHead <= h
    && s.delivered == s.accepted[..t]
    && (forall i: nat :: t <= i < h ==> SampleAt(s, i) == s.accepted[i])
    && (s.producer.PLoaded? ==> s.producer.ownHead == s.head && |s.producer.data| < TWO64)
    && (s.producer.PCopying? ==>
          && s.producer.ownHead == s.head
          && 1 <= s.producer.n <= |s.producer.data|
          && h + s.producer.n <= s.seenTail + s.Capacity()
          && s.producer.k <= s.producer.n
          && forall j: nat :: j < s.producer.k ==> SampleAt(s, h + j) == s.producer.data[j])
    && (s.consumer.CLoaded? ==> s.consumer.ownTail == s.tail)
    && (s.consumer.CCopying? ==>
          && s.consumer.ownTail == s.tail
          && 1 <= s.consumer.n
          && t + s.consumer.n <= s.seenHead
          && |s.consumer.out| <= s.consumer.n
          && s.consumer.out == s.accepted[t..t + |s.consumer.out|])
  }

  /** The buffer's sample with running number `i`. */
  function SampleAt(s: State, i: nat): i16 {
    if |s.buffer| == 0 then 0 else s.buffer[Slot(i, |s.buffer|)]
  }

  /** The array index a copy uses is the slot of the sample's running number. */
  lemma ChunkIndexIsSlot(x: nat, bits: nat, n: nat, k: nat)
    requires bits <= 63 && k < n <= Pow2(bits)
    ensures ChunkIndex(x % TWO64, n, k, Pow2(bits)) == Slot(x + k, Pow2(bits))
  {
    hide Slot, Pow2, BitAnd;
    MaskIsRemainder(x % TWO64, bits);
    MaskedIsSlot(x, bits);
    SlotBelow(x, Pow2(bits));
    SlotOfChunk(x, k, Pow2(bits));
  }

  lemma MaskedIsSlot(x: nat, bits: nat)
    requires bits <= 63
    ensures BitAnd(x % TWO64, Pow2(bits) - 1) == Slot(x, Pow2(bits))
  {
    MaskIsRemainder(x % TWO64, bits);
    WrapKeepsSlot(x, bits);
  }

  /** One step. Index and length tests keep it total; the invariant shows they always hold. */
  function Apply(s: State, a: Action): State
    requires Enabled(s, a)
  {
    match a
    case StartWrite(data) => s.(producer := PLoaded(data, s.head))
    case LoadTail(seen) =>
      var n := Min(|s.producer.data|, Free(s, seen));
      s.(seenTail := seen,
         producer := if n == 0 then PIdle else PCopying(s.producer.data, s.producer.ownHead, n, 0))
    case CopyIn =>
      var i := WriteTarget(s);
      s.(buffer := if 0 <= i < |s.buffer| && s.producer.k < |s.producer.data|
                   then s.buffer[i := s.producer.data[s.producer.k]] else s.buffer,
         producer := s.producer.(k := s.producer.k + 1))
    case PublishHead =>
      s.(head := Advance(s.producer.ownHead, s.producer.n % TWO64),
         accepted := if s.producer.n <= |s.producer.data|
                     then s.accepted + s.producer.data[..s.producer.n] else s.accepted,
         producer := PIdle)
    case StartRead(count) => s.(consumer := CLoaded(count, s.tail))
    case LoadHead(seen) =>
      var n := Min(s.consumer.count, Filled(s, seen));
      s.(seenHead := seen,
         consumer := if n == 0 then CIdle else CCopying(s.consumer.ownTail, n, []))
    case CopyOut =>
      var i := ReadSource(s);
      s.(consumer := s.consumer.(out := s.consumer.out + [if 0 <= i < |s.buffer| then s.buffer[i] else 0]))
    case PublishTail =>
      s.(tail := Advance(s.consumer.ownTail, s.consumer.n % TWO64),
         delivered := s.delivered + s.consumer.out,
         consumer := CIdle)
  }

  predicate Schedule(s: State, actions: seq<Action>)
    decreases |actions|
  {
    actions == [] || (Enabled(s, actions[0]) && Schedule(Apply(s, actions[0]), actions[1..]))
  }

  function Run(s: State, actions: seq<Action>): State
    requires Schedule(s, actions)
    decreases |actions|
  {
    if actions == [] then s else Run(Apply(s, actions[0]), actions[1..])
  }

  // --- Each step keeps the invariant -----------------------------------------------------

  lemma WrappedDistance(h: nat, t: nat)
    requires t <= h < t + TWO64
    ensures Distance(h % TWO64, t % TWO64) == h - t
  {
  }

  lemma WrappedAdvance(x: nat, n: nat)
    ensures Advance(x % TWO64, n % TWO64) == (x + n) % TWO64
  {
  }

  lemma CapacityBelow64(bits: nat)
    requires bits <= 63
    ensures Pow2(bits) < TWO64
  {
    Pow2Of64();
    PowMonotone(bits, 63);
    assert Pow2(64) == 2 * Pow2(63);
  }

  /** What the producer computes as free space: the true room, less what the consumer has
      freed since the value loaded. Never an underflow, because a thread's successive loads
      of a counter never go backwards. */
  lemma FreeIs(s: State, seen: nat)
    requires Inv(s) && Enabled(s, LoadTail(seen))
    ensures Free(s, seen) == s.Capacity() - (|s.accepted| - seen)
  {
    CapacityBelow64(s.bits);
    hide Slot, Pow2, BitAnd, SampleAt;
    if seen <= |s.accepted| {
      WrappedDistance(|s.accepted|, seen);
    }
  }

  lemma FilledIs(s: State, seen: nat)
    requires Inv(s) && Enabled(s, LoadHead(seen))
    ensures Filled(s, seen) == seen - |s.delivered|
  {
    CapacityBelow64(s.bits);
    hide Slot, Pow2, BitAnd, SampleAt;
    WrappedDistance(seen, |s.delivered|);
  }

  lemma LoadTailKeeps(s: State, seen: nat)
    requires Inv(s) && Enabled(s, LoadTail(seen))
    ensures Inv(Apply(s, LoadTail(seen)))
  {
    FreeIs(s, seen);
    hide Slot, Pow2, Free, SampleAt;
    SameSamples(s, Apply(s, LoadTail(seen)));
  }

  lemma LoadHeadKeeps(s: State, seen: nat)
    requires Inv(s) && Enabled(s, LoadHead(seen))
    ensures Inv(Apply(s, LoadHead(seen)))
  {
    FilledIs(s, seen);
    hide Slot, Pow2, Filled, SampleAt;
    SameSamples(s, Apply(s, LoadHead(seen)));
  }

  lemma SameSamples(s: State, t: State)
    requires s.buffer == t.buffer
    ensures forall i: nat :: SampleAt(t, i) == SampleAt(s, i)
  {
  }

  lemma WriteTargetIs(s: State)
    requires Inv(s) && Enabled(s, CopyIn)
    ensures WriteTarget(s) == Slot(|s.accepted| + s.producer.k, s.Capacity())
    ensures 0 <= WriteTarget(s) < s.Capacity()
  {
    hide Slot, Pow2, ChunkIndex, SampleAt;
    ChunkIndexIsSlot(|s.accepted|, s.bits, s.producer.n, s.producer.k);
    SlotBelow(|s.accepted| + s.producer.k, s.Capacity());
  }

  lemma ReadSourceIs(s: State)
    requires Inv(s) && Enabled(s, CopyOut)
    ensures ReadSource(s) == Slot(|s.delivered| + |s.consumer.out|, s.Capacity())
    ensures 0 <= ReadSource(s) < s.Capacity()
  {
    hide Slot, Pow2, ChunkIndex, SampleAt;
    ChunkIndexIsSlot(|s.delivered|, s.bits, s.consumer.n, |s.consumer.out|);
    SlotBelow(|s.delivered| + |s.consumer.out|, s.Capacity());
  }

  /** A copied sample lands in a slot that holds nothing unread: no sample between the
      consumer's and the producer's counters is touched. */
  lemma CopyInKeeps(s: State)
    requires Inv(s) && Enabled(s, CopyIn)
    ensures Inv(Apply(s, CopyIn))
    ensures forall i: nat :: |s.delivered| <= i < |s.accepted| ==> SampleAt(Apply(s, CopyIn), i) == SampleAt(s, i)
  {
    var h, t, p := |s.accepted|, |s.delivered|, s.producer;
    var g := Apply(s, CopyIn);
    WriteTargetIs(s);
    hide Slot, Pow2, WriteTarget;
    forall i: nat | t <= i < h + p.k ensures SampleAt(g, i) == SampleAt(s, i) {
      SlotsDiffer(i, h + p.k, s.Capacity());
    }
    assert SampleAt(g, h + p.k) == p.data[p.k];
    hide SampleAt;
  }

  lemma CopyOutKeeps(s: State)
    requires Inv(s) && Enabled(s, CopyOut)
    ensures Inv(Apply(s, CopyOut))
  {
    var t, k := |s.delivered|, |s.consumer.out|;
    ReadSourceIs(s);
    hide Slot, Pow2, ReadSource;
    assert SampleAt(s, t + k) == s.accepted[t + k];
    SameSamples(s, Apply(s, CopyOut));
    assert s.buffer[ReadSource(s)] == s.accepted[t + k];
    hide SampleAt;
    assert s.accepted[t..t + k + 1] == s.accepted[t..t + k] + [s.accepted[t + k]];
  }

  lemma PublishHeadKeeps(s: State)
    requires Inv(s) && Enabled(s, PublishHead)
    ensures Inv(Apply(s, PublishHead))
    ensures Apply(s, PublishHead).accepted == s.accepted + s.producer.data[..s.producer.n]
  {
    var h, p := |s.accepted|, s.producer;
    var g := Apply(s, PublishHead);
    WrappedAdvance(h, p.n);
    hide Slot, Pow2, SampleAt, Advance;
    SameSamples(s, g);
    forall i: nat | |s.delivered| <= i < |g.accepted| ensures SampleAt(g, i) == g.accepted[i] {
      if i >= h {
        assert SampleAt(s, h + (i - h)) == p.data[i - h];
      }
    }
  }

  lemma PublishTailKeeps(s: State)
    requires Inv(s) && Enabled(s, PublishTail)
    ensures Inv(Apply(s, PublishTail))
  {
    var t, c := |s.delivered|, s.consumer;
    var g := Apply(s, PublishTail);
    WrappedAdvance(t, c.n);
    hide Slot, Pow2, SampleAt, Advance;
    SameSamples(s, g);
    assert s.accepted[..t + c.n] == s.accepted[..t] + s.accepted[t..t + c.n];
  }

  lemma StartKeeps(s: State, a: Action)
    requires Inv(s) && Enabled(s, a) && (a.StartWrite? || a.StartRead?)
    ensures Inv(Apply(s, a))
  {
    hide Slot, Pow2, SampleAt;
    SameSamples(s, Apply(s, a));
  }

  lemma StepKeeps(s: State, a: Action)
    requires Inv(s) && Enabled(s, a)
    ensures Inv(Apply(s, a))
  {
    match a
    case StartWrite(data) => StartKeeps(s, a);
    case LoadTail(seen) => LoadTailKeeps(s, seen);
    case CopyIn => CopyInKeeps(s);
    case PublishHead => PublishHeadKeeps(s);
    case StartRead(count) => StartKeeps(s, a);
    case LoadHead(seen) => LoadHeadKeeps(s, seen);
    case CopyOut => CopyOutKeeps(s);
    case PublishTail => PublishTailKeeps(s);
  }

  lemma StartHolds(bits: nat)
    requires bits <= 63
    ensures Inv(Start(bits))
  {
  }

  lemma {:induction false} RunKeeps(s: State, actions: seq<Action>)
    requires Inv(s) && Schedule(s, actions)
    ensures Inv(Run(s, actions))
    ensures s.accepted <= Run(s, actions).accepted && s.delivered <= Run(s, actions).delivered
    ensures Run(s, actions).bits == s.bits
    decreases |actions|
  {
    if actions != [] {
      hide Slot, Pow2, SampleAt, ChunkIndex;
      StepKeeps(s, actions[0]);
      RunKeeps(Apply(s, actions[0]), actions[1..]);
    }
  }

  // --- What every interleaving guarantees ------------------------------------------------

  /** First in, first out, in every interleaving: what the consumer has been given is a
      prefix of what the producer's writes accepted, and the occupancy the wrapping counters
      show is the number of samples in between, at most the capacity. */
  lemma ConcurrentFifo(bits: nat, actions: seq<Action>)
    requires bits <= 63 && Schedule(Start(bits), actions)
    ensures var s := Run(Start(bits), actions);
            && s.delivered <= s.accepted
            && Distance(s.head, s.tail) == |s.accepted| - |s.delivered| <= Pow2(bits)
  {
    StartHolds(bits);
    RunKeeps(Start(bits), actions);
    var s := Run(Start(bits), actions);
    CapacityBelow64(bits);
    hide Run, Pow2;
    WrappedDistance(|s.accepted|, |s.delivered|);
  }

  /** No data race: whenever the producer is in the middle of its copy, the sample it is
      about to write lies in another slot than every unread published sample, and than the
      sample the consumer is about to read. */
  lemma NoSlotIsShared(bits: nat, actions: seq<Action>, i: nat)
    requires bits <= 63 && Schedule(Start(bits), actions)
    requires var s := Run(Start(bits), actions);
             s.producer.PCopying? && s.producer.k < s.producer.n && |s.delivered| <= i < |s.accepted|
    ensures var s := Run(Start(bits), actions);
            && 0 <= WriteTarget(s) < Pow2(bits)
            && WriteTarget(s) != Slot(i, Pow2(bits))
            && (Enabled(s, CopyOut) ==>
                  && ReadSource(s) == Slot(|s.delivered| + |s.consumer.out|, Pow2(bits))
                  && WriteTarget(s) != ReadSource(s))
  {
    hide Pow2, Slot, WriteTarget, ReadSource, Inv;
    StartHolds(bits);
    RunKeeps(Start(bits), actions);
    SlotsApart(Run(Start(bits), actions), i);
  }

  lemma SlotsApart(s: State, i: nat)
    requires Inv(s) && Enabled(s, CopyIn) && |s.delivered| <= i < |s.accepted|
    ensures 0 <= WriteTarget(s) < s.Capacity() && WriteTarget(s) != Slot(i, s.Capacity())
    ensures Enabled(s, CopyOut) ==>
              && ReadSource(s) == Slot(|s.delivered| + |s.consumer.out|, s.Capacity())
              && WriteTarget(s) != ReadSource(s)
  {
    hide Pow2, Slot, WriteTarget, ReadSource, SampleAt;
    var next := |s.accepted| + s.producer.k;
    WriteTargetIs(s);
    SlotsDiffer(i, next, s.Capacity());
    if Enabled(s, CopyOut) {
      ReadSourceIs(s);
      SlotsDiffer(|s.delivered| + |s.consumer.out|, next, s.Capacity());
    }
  }

  // --- A write or read that is not interrupted -------------------------------------------

  function Copies(a: Action, n: nat): seq<Action> { seq(n, _ => a) }

  lemma {:induction false} RunJoins(s: State, first: seq<Action>, second: seq<Action>)
    requires Schedule(s, first) && Schedule(Run(s, first), second)
    ensures Schedule(s, first + second)
    ensures Run(s, first + second) == Run(Run(s, first), second)
    decreases |first|
  {
    if first == [] {
      assert first + second == second;
    } else {
      RunJoins(Apply(s, first[0]), first[1..], second);
      assert (first + second)[1..] == first[1..] + second;
    }
  }

  lemma {:induction false} CopyInAll(s: State)
    requires Inv(s) && s.producer.PCopying?
    ensures Schedule(s, Copies(CopyIn, s.producer.n - s.producer.k))
    ensures var g := Run(s, Copies(CopyIn, s.producer.n - s.producer.k));
            && Inv(g)
            && g.producer == s.producer.(k := s.producer.n)
            && g == s.(buffer := g.buffer, producer := g.producer)
    decreases s.producer.n - s.producer.k
  {
    var n := s.producer.n - s.producer.k;
    if n > 0 {
      CopyInKeeps(s);
      var g := Apply(s, CopyIn);
      hide Inv, Slot, Pow2, ChunkIndex, SampleAt;
      CopyInAll(g);
      assert Copies(CopyIn, n)[1..] == Copies(CopyIn, n - 1);
    }
  }

  /** The steps of one `write`, with the consumer's counter read as it is. */
  function WholeWrite(s: State, data: seq<i16>): seq<Action> {
    var n := Min(|data|, s.Capacity() - (|s.accepted| - |s.delivered|));
    [StartWrite(data), LoadTail(|s.delivered|)]
    + if n <= 0 then [] else Copies(CopyIn, n) + [PublishHead]
  }

  /** Run without interruption, the steps of a write accept as many samples as fit: the
      contract of `RingBuffer.Write`. */
  lemma UninterruptedWrite(s: State, data: seq<i16>)
    requires Inv(s) && s.producer.PIdle? && |data| < TWO64
    ensures var n := Min(|data|, s.Capacity() - (|s.accepted| - |s.delivered|));
            && Schedule(s, WholeWrite(s, data))
            && 0 <= n
            && Run(s, WholeWrite(s, data)).accepted == s.accepted + data[..n]
            && Run(s, WholeWrite(s, data)).delivered == s.delivered
            && Run(s, WholeWrite(s, data)).producer == PIdle
            && Run(s, WholeWrite(s, data)).consumer == s.consumer
  {
    hide Inv, Slot, Pow2, ChunkIndex, SampleAt, Schedule, Run;
    var n := Min(|data|, s.Capacity() - (|s.accepted| - |s.delivered|));
    WritePrologue(s, data);
    var prologue := [StartWrite(data), LoadTail(|s.delivered|)];
    if n > 0 {
      WriteEpilogue(Run(s, prologue));
      RunJoins(s, prologue, Copies(CopyIn, n) + [PublishHead]);
    } else {
      assert WholeWrite(s, data) == prologue;
    }
  }

  lemma WritePrologue(s: State, data: seq<i16>)
    requires Inv(s) && s.producer.PIdle? && |data| < TWO64
    ensures var steps := [StartWrite(data), LoadTail(|s.delivered|)];
            var n := Min(|data|, s.Capacity() - (|s.accepted| - |s.delivered|));
            && 0 <= n
            && Schedule(s, steps)
            && var g := Run(s, steps);
               && Inv(g)
               && g.accepted == s.accepted && g.delivered == s.delivered
               && g.producer == (if n == 0 then PIdle else PCopying(data, s.head, n, 0))
               && g.consumer == s.consumer
  {
    hide Slot, Pow2, ChunkIndex, SampleAt, Schedule, Run;
    var s1 := Apply(s, StartWrite(data));
    StartKeeps(s, StartWrite(data));
    FreeIs(s1, |s.delivered|);
    LoadTailKeeps(s1, |s.delivered|);
    TwoSteps(s, StartWrite(data), LoadTail(|s.delivered|));
  }

  lemma WriteEpilogue(s: State)
    requires Inv(s) && s.producer.PCopying? && s.producer.k == 0
    ensures var steps := Copies(CopyIn, s.producer.n) + [PublishHead];
            && Schedule(s, steps)
            && s.producer.n <= |s.producer.data|
            && Run(s, steps).accepted == s.accepted + s.producer.data[..s.producer.n]
            && Run(s, steps).delivered == s.delivered
            && Run(s, steps).producer == PIdle
            && Run(s, steps).consumer == s.consumer
  {
    hide Slot, Pow2, ChunkIndex, SampleAt, Schedule, Run, Copies;
    var copies := Copies(CopyIn, s.producer.n);
    CopyInAll(s);
    var g := Run(s, copies);
    PublishHeadKeeps(g);
    hide Inv;
    OneStep(g, PublishHead);
    RunJoins(s, copies, [PublishHead]);
  }

  lemma {:induction false} CopyOutAll(s: State)
    requires Inv(s) && s.consumer.CCopying?
    ensures Schedule(s, Copies(CopyOut, s.consumer.n - |s.consumer.out|))
    ensures var g := Run(s, Copies(CopyOut, s.consumer.n - |s.consumer.out|));
            && Inv(g)
            && g.consumer.CCopying? && g.consumer.n == s.consumer.n == |g.consumer.out|
            && g == s.(consumer := g.consumer)
    decreases s.consumer.n - |s.consumer.out|
  {
    var n := s.consumer.n - |s.consumer.out|;
    if n > 0 {
      CopyOutKeeps(s);
      var g := Apply(s, CopyOut);
      hide Inv, Slot, Pow2, ChunkIndex, SampleAt;
      CopyOutAll(g);
      assert Copies(CopyOut, n)[1..] == Copies(CopyOut, n - 1);
    }
  }

  /** The steps of one `read`, with the producer's counter read as it is. */
  function WholeRead(s: State, count: nat): seq<Action> {
    var n := Min(count, |s.accepted| - |s.delivered|);
    [StartRead(count), LoadHead(|s.accepted|)]
    + if n <= 0 then [] else Copies(CopyOut, n) + [PublishTail]
  }

  /** Run without interruption, the steps of a read deliver the oldest samples, as many as
      there are up to the count: the contract of `RingBuffer.Read`. */
  lemma UninterruptedRead(s: State, count: nat)
    requires Inv(s) && s.consumer.CIdle? && count < TWO64
    ensures var n := Min(count, |s.accepted| - |s.delivered|);
            && Schedule(s, WholeRead(s, count))
            && 0 <= n
            && Run(s, WholeRead(s, count)).delivered == s.delivered + s.accepted[|s.delivered|..|s.delivered| + n]
            && Run(s, WholeRead(s, count)).accepted == s.accepted
            && Run(s, WholeRead(s, count)).consumer == CIdle
            && Run(s, WholeRead(s, count)).producer == s.producer
  {
    hide Inv, Slot, Pow2, ChunkIndex, SampleAt, Schedule, Run;
    var n := Min(count, |s.accepted| - |s.delivered|);
    ReadPrologue(s, count);
    var prologue := [StartRead(count), LoadHead(|s.accepted|)];
    if n > 0 {
      ReadEpilogue(Run(s, prologue));
      RunJoins(s, prologue, Copies(CopyOut, n) + [PublishTail]);
    } else {
      assert WholeRead(s, count) == prologue;
    }
  }

  lemma TwoSteps(s: State, a: Action, b: Action)
    requires Enabled(s, a) && Enabled(Apply(s, a), b)
    ensures Schedule(s, [a, b]) && Run(s, [a, b]) == Apply(Apply(s, a), b)
  {
    hide Apply, Enabled;
    OneStep(Apply(s, a), b);
    assert [a, b][1..] == [b];
  }

  lemma OneStep(s: State, a: Action)
    requires Enabled(s, a)
    ensures Schedule(s, [a]) && Run(s, [a]) == Apply(s, a)
  {
    hide Apply, Enabled;
    assert [a][1..] == [];
  }

  lemma ReadPrologue(s: State, count: nat)
    requires Inv(s) && s.consumer.CIdle? && count < TWO64
    ensures var t, steps := |s.delivered|, [StartRead(count), LoadHead(|s.accepted|)];
            var n := Min(count, |s.accepted| - t);
            && 0 <= n
            && Schedule(s, steps)
            && var g := Run(s, steps);
               && Inv(g)
               && g.accepted == s.accepted && g.delivered == s.delivered
               && g.consumer == (if n == 0 then CIdle else CCopying(s.tail, n, []))
               && g.producer == s.producer
  {
    hide Slot, Pow2, ChunkIndex, SampleAt, Schedule, Run;
    var s1 := Apply(s, StartRead(count));
    StartKeeps(s, StartRead(count));
    FilledIs(s1, |s.accepted|);
    LoadHeadKeeps(s1, |s.accepted|);
    TwoSteps(s, StartRead(count), LoadHead(|s.accepted|));
  }

  lemma ReadEpilogue(s: State)
    requires Inv(s) && s.consumer.CCopying? && s.consumer.out == []
    ensures var steps, t := Copies(CopyOut, s.consumer.n) + [PublishTail], |s.delivered|;
            && Schedule(s, steps)
            && t + s.consumer.n <= |s.accepted|
            && Run(s, steps).delivered == s.delivered + s.accepted[t..t + s.consumer.n]
            && Run(s, steps).accepted == s.accepted
            && Run(s, steps).consumer == CIdle
            && Run(s, steps).producer == s.producer
  {
    hide Slot, Pow2, ChunkIndex, SampleAt, Schedule, Run, Copies, Inv;
    var copies := Copies(CopyOut, s.consumer.n);
    CopyOutAll(s);
    var g := Run(s, copies);
    CopiedOut(g);
    OneStep(g, PublishTail);
    RunJoins(s, copies, [PublishTail]);
  }

  /** What is copied out is the stretch of accepted samples after those delivered. */
  lemma CopiedOut(s: State)
    requires Inv(s) && s.consumer.CCopying?
    ensures var t := |s.delivered|;
            && t + |s.consumer.out| <= |s.accepted|
            && s.consumer.out == s.accepted[t..t + |s.consumer.out|]
  {
    hide Slot, Pow2, SampleAt;
  }

  // --- Why loads must not go backwards ---------------------------------------------------

  /** Were the producer's load of the tail to go back behind one it made before, the free
      space would underflow exactly when more than a capacity was published since the value
      loaded. */
  lemma FreeUnderflowsIff(s: State, seen: nat)
    requires Inv(s) && s.producer.PLoaded? && seen <= |s.delivered| && |s.accepted| < seen + TWO64
    ensures Free(s, seen) <= s.Capacity() <==> |s.accepted| <= seen + s.Capacity()
    ensures |s.accepted| > seen + s.Capacity() ==> seen < s.seenTail
  {
    CapacityBelow64(s.bits);
    hide Slot, Pow2, BitAnd, SampleAt;
    WrappedDistance(|s.accepted|, seen);
  }

  /** Such a state is reached on a ring of every capacity up to 2^62: filled, emptied and
      filled again, the ring would take a first load made once more for over a capacity of
      free space. */
  lemma BackwardLoadUnderflows(bits: nat) returns (actions: seq<Action>)
    requires bits <= 62
    ensures Schedule(Start(bits), actions)
    ensures var s := Run(Start(bits), actions);
            s.producer.PLoaded? && 0 < s.seenTail && Free(s, 0) > s.Capacity()
  {
    hide Inv, Pow2, Schedule, Run, Free, Slot;
    var full := Full(bits);
    StartHolds(bits);
    var s, write := Start(bits), WholeWrite(Start(bits), full);
    UninterruptedWrite(s, full);
    RunKeeps(s, write);
    var s1 := Run(s, write);
    var read := WholeRead(s1, |full|);
    UninterruptedRead(s1, |full|);
    RunJoins(s, write, read);
    RunKeeps(s1, read);
    var s2 := Run(s1, read);
    var again := WholeWrite(s2, full);
    UninterruptedWrite(s2, full);
    RunJoins(s, write + read, again);
    RunKeeps(s2, again);
    var s3 := Run(s2, again);
    OneStep(s3, StartWrite(full));
    StartKeeps(s3, StartWrite(full));
    actions := write + read + again + [StartWrite(full)];
    RunJoins(s, write + read + again, [StartWrite(full)]);
    FreeUnderflowsIff(Run(s3, [StartWrite(full)]), 0);
  }

  /** As many samples as the ring holds. */
  function Full(bits: nat): (full: seq<i16>)
    requires bits <= 62
    ensures 1 <= |full| == Pow2(bits) && 2 * |full| < TWO64
  {
    FullFits(bits);
    seq(Pow2(bits), _ => 0)
  }

  lemma FullFits(bits: nat)
    requires bits <= 62
    ensures 1 <= Pow2(bits) && 2 * Pow2(bits) < TWO64
  {
    CapacityBelow64(bits + 1);
  }
}
