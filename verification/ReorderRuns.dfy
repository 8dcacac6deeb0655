/** What the reordering receiver guarantees over whole runs. */
module ReorderRuns {
  import opened Words
  import opened Protocol
  import opened Reorder
  import opened ReorderHistory

  const FRESH := Rx(0, EmptyArea(), [])

  // --- Every run from the start ---------------------------------------------------------

  /** Whatever arrives, in whatever order, with whatever decoder and renderer behaviour:
      the byte-numbered receiver shows a history that is safe and settled. */
  lemma {:induction false} WholeRunSafety(arrivals: seq<Arrival>)
    ensures var s, h := Run(FRESH, arrivals), HRun(BEGINNING, arrivals);
            && Shows(s, h, [])
            && Safe(h)
            && Settled(h)
            && |s.out| + |h.skipped| == h.next
    decreases |arrivals|
  {
    assert Shows(FRESH, BEGINNING, []);
    RunShows(FRESH, BEGINNING, arrivals, []);
    if arrivals != [] {
      WholeRunSafety(arrivals[..|arrivals| - 1]);
      StepIsSafe(HRun(BEGINNING, arrivals[..|arrivals| - 1]), arrivals[|arrivals| - 1]);
    }
  }

  /** Later arrivals only add: nothing released is withdrawn or released again, nothing
      skipped comes back, and the first payload taken for a number stays its payload. */
  lemma {:induction false} PastIsFinal(h: History, rest: seq<Arrival>)
    requires Safe(h) && Settled(h)
    ensures var g := HRun(h, rest); Safe(g) && Settled(g) && Extends(h, g)
    decreases |rest|
  {
    if rest != [] {
      var init := rest[..|rest| - 1];
      PastIsFinal(h, init);
      StepIsSafe(HRun(h, init), rest[|rest| - 1]);
      StepSettles(HRun(h, init), rest[|rest| - 1]);
    }
  }

  /** A packet stored anywhere in a run is, ever after, either still waiting ahead of the
      expected number or released once with the payload it was stored with: never
      overwritten, never skipped, never left behind. */
  lemma StoredIsNeverStranded(h: History, n: nat, rest: seq<Arrival>)
    requires Safe(h) && Settled(h) && n in h.store
    ensures var g := HRun(h, rest);
            && n !in g.skipped
            && (n in g.store <==> g.next <= n)
            && (n in g.store ==> g.next < n && g.store[n] == h.store[n])
            && (n < g.next ==> (n, h.store[n]) in g.released)
  {
    PastIsFinal(h, rest);
    var g := HRun(h, rest);
    assert g.accepted[n] == h.store[n];
    if n !in g.store {
      assert (n, g.accepted[n]) in g.released;
    }
  }

  /** A forced skip is final: the packet given up is in no later output, even if it
      arrives right afterwards. */
  lemma SkippedIsGoneForGood(h: History, a: Arrival, rest: seq<Arrival>)
    requires Safe(h) && Settled(h)
    requires 1 <= Offset(h, a.seqNo) < 14 && (Offset(h, a.seqNo) >= 4 || a.low)
    ensures var g := HRun(HStep(h, a), rest);
            && h.next in g.skipped
            && forall r :: r in g.released ==> r.0 != h.next
  {
    AdmitIsSafe(h, a);
    DrainIsSafe(HAdmit(h, a));
    StepSettles(h, a);
    PastIsFinal(HStep(h, a), rest);
  }

  // --- The window, told of the slots themselves -------------------------------------------

  /** Every occupied slot is 1 to 12 places ahead of the expected one. */
  ghost predicate SettledArea(s: Rx) {
    forall i: u8 :: s.area[i].Some? ==> 1 <= Sub8(i, s.expected) <= 12
  }

  /** The history that begins with the receiver in state `s`. */
  ghost function Lift(s: Rx): History {
    History(s.expected,
            map n: nat | s.expected <= n < s.expected + 0x100 && s.area[Wrap8(n)].Some?
              :: s.area[Wrap8(n)].value,
            [], {}, map[])
  }

  lemma LiftSlot(s: Rx, i: u8)
    ensures s.area[i] == SlotOf(Lift(s), i)
  {
    hide Offset;
    NumberInRange(Lift(s), i);
    NumberWraps(Lift(s), i);
  }

  lemma NumberInRange(h: History, seqNo: u8)
    ensures h.next <= Number(h, seqNo) < h.next + 0x100
  {
  }

  lemma DistanceAhead(origin: nat, n: nat)
    requires origin <= n < origin + 0x100
    ensures Sub8(Wrap8(n), Wrap8(origin)) == n - origin
  {
    WrapDifference(n, origin);
  }

  lemma LiftSettled(s: Rx)
    requires SettledArea(s)
    ensures Settled(Lift(s))
  {
    hide Sub8, Wrap8;
    ByteIsWrapped(s.expected);
    forall n | n in Lift(s).store ensures s.expected + 1 <= n <= s.expected + 12 {
      DistanceAhead(s.expected, n);
    }
  }

  lemma LiftShows(s: Rx)
    ensures Shows(s, Lift(s), s.out)
    ensures SettledArea(s) ==> Settled(Lift(s))
  {
    forall i: u8 ensures s.area[i] == SlotOf(Lift(s), i) {
      LiftSlot(s, i);
    }
    if SettledArea(s) {
      LiftSettled(s);
    }
  }

  lemma ShowsSettled(s: Rx, h: History, base: seq<Pcm>)
    requires Shows(s, h, base) && Settled(h)
    ensures SettledArea(s)
  {
    forall i: u8 | s.area[i].Some? ensures 1 <= Sub8(i, s.expected) <= 12 {
      assert Number(h, i) in h.store;
    }
  }

  function SlotsAhead(expected: u8, count: nat): set<u8> {
    if count == 0 then {} else SlotsAhead(expected, count - 1) + {Add8(expected, count)}
  }

  lemma {:induction false} SlotsAheadAre(expected: u8, count: nat)
    requires count < 0x100
    ensures |SlotsAhead(expected, count)| == count
    ensures forall i: u8 :: i in SlotsAhead(expected, count) <==> 1 <= Sub8(i, expected) <= count
  {
    hide Sub8, Add8;
    if count > 0 {
      SlotsAheadAre(expected, count - 1);
      AddThenDistance(expected, count);
      forall i: u8 | Sub8(i, expected) == count ensures i == Add8(expected, count) {
        DistanceThenAdd(i, expected);
      }
    }
  }

  lemma AtMostTwelveStored(s: Rx)
    requires SettledArea(s)
    ensures |Occupied(s.area)| <= 12
  {
    SlotsAheadAre(s.expected, 12);
    SubsetIsSmaller(Occupied(s.area), SlotsAhead(s.expected, 12));
  }

  lemma {:induction false} SubsetIsSmaller<T>(a: set<T>, b: set<T>)
    requires a <= b
    ensures |a| <= |b|
  {
    if a != {} {
      var x :| x in a;
      SubsetIsSmaller(a - {x}, b - {x});
    }
  }

  /** One arrival, in any settled state: the area stays settled and holds at most 12
      packets, at most 13 buffers are released, and the expected number moves by at
      most 14, which is the buffers written plus at most one forced skip. */
  lemma WindowInvariant(s: Rx, a: Arrival)
    requires SettledArea(s)
    ensures var t := Step(s, a);
            && SettledArea(t)
            && |Occupied(t.area)| <= 12
            && s.out <= t.out && |t.out| - |s.out| <= 13
            && Sub8(t.expected, s.expected) <= 14
            && 0 <= Sub8(t.expected, s.expected) - (|t.out| - |s.out|) <= 1
  {
    var h := Lift(s);
    LiftShows(s);
    StepShows(s, h, a, s.out);
    StepSettles(h, a);
    StepAdvance(h, a);
    DistanceAhead(h.next, HStep(h, a).next);
    hide Step, HStep, Offset, Sub8;
    ShowsSettled(Step(s, a), HStep(h, a), s.out);
    AtMostTwelveStored(Step(s, a));
  }

  /** Whether an arrival makes the receiver give up the expected packet: 4 to 13 ahead, or 1
      to 3 ahead of a starving renderer. */
  predicate ForcesSkip(s: Rx, a: Arrival) {
    var d := Sub8(a.seqNo, s.expected);
    1 <= d < 14 && (d >= 4 || a.low)
  }

  /** The exact account of one arrival, decodable or not: the expected number moves past the
      buffers written and the packet given up, if any, and past nothing else. */
  lemma ExactAdvance(s: Rx, a: Arrival)
    requires SettledArea(s)
    ensures var t := Step(s, a);
            && s.out <= t.out
            && Sub8(t.expected, s.expected) == |t.out| - |s.out| + (if ForcesSkip(s, a) then 1 else 0)
  {
    var h := Lift(s);
    LiftShows(s);
    StepShows(s, h, a, s.out);
    StepSettles(h, a);
    StepAdvance(h, a);
    DistanceAhead(h.next, HStep(h, a).next);
    hide Step, HStep, Sub8;
    ByteIsWrapped(s.expected);
  }

  /** An undecodable packet that forces no skip changes nothing, so that a later copy finds
      the receiver as it was. One that does forces nothing else: it is stored nowhere. */
  lemma UndecodableArrival(s: Rx, a: Arrival)
    requires SettledArea(s) && a.pcm.None?
    ensures !ForcesSkip(s, a) ==> Step(s, a) == s
    ensures forall i: u8 :: Step(s, a).area[i].Some? ==> Step(s, a).area[i] == s.area[i]
  {
    WindowIsFourteenWide(s.expected, a.seqNo);
    NothingDue(s);
    if InWindow(s, a) {
      DrainOnlyTakes(Admit(s, a));
    }
  }

  lemma NothingDue(s: Rx)
    requires SettledArea(s)
    ensures s.area[s.expected].None? && Drain(s) == s
  {
    assert Sub8(s.expected, s.expected) == 0;
  }

  lemma {:induction false} DrainOnlyTakes(s: Rx)
    ensures forall i: u8 :: Drain(s).area[i].Some? ==> Drain(s).area[i] == s.area[i]
    decreases Occupied(s.area)
  {
    if s.area[s.expected].Some? {
      ReleaseFrees(s);
      DrainOnlyTakes(ReleaseOne(s));
    }
  }

  /** A failed decode of the expected packet costs nothing: its next copy that does decode is
      the next buffer written. */
  lemma LaterCopyIsPlayed(s: Rx, failed: Arrival, copy: Arrival)
    requires SettledArea(s) && failed.seqNo == copy.seqNo == s.expected
    requires failed.pcm.None? && copy.pcm.Some?
    ensures s.out + [copy.pcm.value] <= Run(s, [failed, copy]).out
  {
    UndecodableArrival(s, failed);
    ExpectedIsWritten(s, copy.pcm.value, copy.low);
    assert Sub8(s.expected, s.expected) == 0;
    assert [failed, copy][..1] == [failed] && [failed][..0] == [];
    hide Step;
    assert Run(s, []) == s;
    assert Run(s, [failed]) == s;
  }

  lemma StepAdvance(h: History, a: Arrival)
    requires Settled(h)
    ensures (HStep(h, a).next - h.next) - (|HStep(h, a).released| - |h.released|)
            == if 1 <= Offset(h, a.seqNo) < 14 && (Offset(h, a.seqNo) >= 4 || a.low) then 1 else 0
    ensures h.released <= HStep(h, a).released
  {
    if Offset(h, a.seqNo) < 14 {
      AdmitKeepsWindow(h, a);
      DrainSettles(HAdmit(h, a), 12);
      DrainAppends(HAdmit(h, a));
    }
  }

  lemma {:induction false} DrainAppends(h: History)
    ensures h.released <= HDrain(h).released && HDrain(h).skipped == h.skipped
    decreases |h.store|
  {
    if h.next in h.store {
      DrainAppends(HRelease(h));
    }
  }

  // --- A burst of lost packets --------------------------------------------------------------

  /** The first `count` payloads of a sender. */
  function Payload(count: nat, payload: int -> Pcm): seq<Pcm> {
    seq(count, i => payload(i))
  }

  /** `count` packets in order, the first numbered `first`. */
  function Stream(first: nat, count: nat, payload: int -> Pcm): seq<Arrival> {
    seq(count, i => Arrival(Wrap8(first + i), Some(payload(i)), false))
  }

  lemma StreamLast(first: nat, count: nat, payload: int -> Pcm)
    requires count > 0
    ensures var st := Stream(first, count, payload);
            && |st| == count
            && st[..count - 1] == Stream(first, count - 1, payload)
            && st[count - 1] == Arrival(Wrap8(first + count - 1), Some(payload(count - 1)), false)
  {
  }

  lemma StreamRun(s: Rx, h: History, first: nat, count: nat, payload: int -> Pcm)
    requires count > 0
    ensures var a := Arrival(Wrap8(first + count - 1), Some(payload(count - 1)), false);
            && Run(s, Stream(first, count, payload)) == Step(Run(s, Stream(first, count - 1, payload)), a)
            && HRun(h, Stream(first, count, payload)) == HStep(HRun(h, Stream(first, count - 1, payload)), a)
  {
    StreamLast(first, count, payload);
    hide Step, HStep, Stream, Wrap8;
  }

  /** A byte names the packet `n` whenever `n` is fewer than 256 ahead. */
  lemma OffsetOf(h: History, n: nat)
    requires h.next <= n < h.next + 0x100
    ensures Offset(h, Wrap8(n)) == n - h.next && Number(h, Wrap8(n)) == n
  {
    WrapDifference(n, h.next);
  }

  /** Arrivals before the release, and forced skips after `j` arrivals, for a burst of `k`. */
  function Delay(k: nat): nat { if k < 4 then 4 else k }
  function Skips(k: nat, j: nat): nat { if k >= 4 then j else if j <= 4 - k then 0 else j - (4 - k) }

  /** The packets numbered `from` to `first + count - 1`, whose payloads are counted from `first`. */
  ghost function NumberedFrom(first: nat, from: nat, count: nat, payload: int -> Pcm): map<nat, Pcm>
    requires first <= from
  {
    map n: nat | from <= n < first + count :: PayloadAt(first, n, payload)
  }

  ghost function Numbered(first: nat, count: nat, payload: int -> Pcm): map<nat, Pcm> {
    NumberedFrom(first, first, count, payload)
  }

  function PayloadAt(first: nat, n: nat, payload: int -> Pcm): Pcm {
    if first <= n then payload(n - first) else []
  }

  ghost function Log(first: nat, count: nat, payload: int -> Pcm): seq<(nat, Pcm)> {
    seq(count, i => (first + i, payload(i)))
  }

  lemma {:induction false} DrainContiguous(h: History, first: nat, count: nat, payload: int -> Pcm)
    requires first <= h.next <= first + count
    requires h.store == NumberedFrom(first, h.next, count, payload)
    ensures HDrain(h).next == first + count && HDrain(h).store == map[]
    ensures HDrain(h).released == h.released + Log(first, count, payload)[h.next - first..]
    decreases first + count - h.next
  {
    var g := HDrain(h);
    if h.next < first + count {
      var r := HRelease(h);
      assert r.store == NumberedFrom(first, r.next, count, payload);
      DrainContiguous(r, first, count, payload);
    } else {
      assert h.store == map[];
      assert Log(first, count, payload)[count..] == [];
    }
  }

  /** The history `h` after `j` packets of the stream that follows a burst of `k`. */
  ghost predicate BurstPhase(h: History, h0: History, k: nat, payload: int -> Pcm, j: nat) {
    var first := h0.next + k;
    if j < Delay(k) then
      && h.next == h0.next + Skips(k, j) < first
      && h.store == Numbered(first, j, payload)
      && h.released == h0.released
    else
      && h.next == first + j
      && h.store == map[]
      && h.released == h0.released + Log(first, j, payload)
  }

  lemma {:induction false} BurstHistory(h0: History, k: nat, payload: int -> Pcm, j: nat)
    requires h0.store == map[] && 1 <= k <= 13
    ensures BurstPhase(HRun(h0, Stream(h0.next + k, j, payload)), h0, k, payload, j)
    decreases j
  {
    hide HRun, HStep, Stream, Wrap8, Offset, BurstPhase;
    if j == 0 {
      BurstBegins(h0, k, payload);
    } else {
      BurstHistory(h0, k, payload, j - 1);
      StreamRun(FRESH, h0, h0.next + k, j, payload);
      BurstStep(HRun(h0, Stream(h0.next + k, j - 1, payload)), h0, k, payload, j);
    }
  }

  lemma BurstBegins(h0: History, k: nat, payload: int -> Pcm)
    requires h0.store == map[] && 1 <= k <= 13
    ensures BurstPhase(HRun(h0, Stream(h0.next + k, 0, payload)), h0, k, payload, 0)
  {
    assert Stream(h0.next + k, 0, payload) == [];
    assert Numbered(h0.next + k, 0, payload) == map[];
  }

  lemma BurstStep(h: History, h0: History, k: nat, payload: int -> Pcm, j: nat)
    requires 1 <= k <= 13 && 1 <= j && BurstPhase(h, h0, k, payload, j - 1)
    ensures BurstPhase(HStep(h, Arrival(Wrap8(h0.next + k + j - 1), Some(payload(j - 1)), false)),
                       h0, k, payload, j)
  {
    if j <= Delay(k) {
      BurstFills(h, h0, k, payload, j);
    } else {
      hide HStep, Wrap8, Offset;
      InOrderStep(h, payload(j - 1));
      assert Log(h0.next + k, j, payload) == Log(h0.next + k, j - 1, payload) + [(h.next, payload(j - 1))];
    }
  }

  lemma BurstFills(h: History, h0: History, k: nat, payload: int -> Pcm, j: nat)
    requires 1 <= k <= 13 && 1 <= j <= Delay(k) && BurstPhase(h, h0, k, payload, j - 1)
    ensures BurstPhase(HStep(h, Arrival(Wrap8(h0.next + k + j - 1), Some(payload(j - 1)), false)),
                       h0, k, payload, j)
  {
    var first := h0.next + k;
    var a := Arrival(Wrap8(first + j - 1), Some(payload(j - 1)), false);
    SkipsPerArrival(k, j);
    OffsetOf(h, first + j - 1);
    BurstAdmits(h, h0, k, payload, j);
    hide Wrap8, Offset, HAdmit, Delay, Skips, Log, Numbered;
    BurstDrains(HAdmit(h, a), h0, k, payload, j);
  }

  lemma BurstDrains(m: History, h0: History, k: nat, payload: int -> Pcm, j: nat)
    requires 1 <= k <= 13 && 1 <= j <= Delay(k)
    requires m.next == h0.next + Skips(k, j) && m.released == h0.released
    requires m.store == Numbered(h0.next + k, j, payload)
    ensures BurstPhase(HDrain(m), h0, k, payload, j)
  {
    SkipsPerArrival(k, j);
    var first := h0.next + k;
    if j == Delay(k) {
      DrainContiguous(m, first, j, payload);
      assert Log(first, j, payload)[0..] == Log(first, j, payload);
    } else {
      assert m.next !in m.store;
    }
  }

  /** How far ahead arrival `j` of the stream is, and whether it gives up a packet. */
  lemma SkipsPerArrival(k: nat, j: nat)
    requires 1 <= k <= 13 && 1 <= j <= Delay(k)
    ensures 1 <= k + j - 1 - Skips(k, j - 1) < 14
    ensures Skips(k, j) == Skips(k, j - 1) + (if k + j - 1 - Skips(k, j - 1) >= 4 then 1 else 0)
    ensures if j < Delay(k) then Skips(k, j) < k else Skips(k, j) == k
  {
  }

  lemma BurstAdmits(h: History, h0: History, k: nat, payload: int -> Pcm, j: nat)
    requires 1 <= k <= 13 && 1 <= j <= Delay(k) && BurstPhase(h, h0, k, payload, j - 1)
    ensures var g := HAdmit(h, Arrival(Wrap8(h0.next + k + j - 1), Some(payload(j - 1)), false));
            && g.next == h0.next + Skips(k, j)
            && g.store == Numbered(h0.next + k, j, payload)
            && g.released == h0.released
  {
    SkipsPerArrival(k, j);
    OffsetOf(h, h0.next + k + j - 1);
    hide Wrap8, Offset, Skips;
    assert Numbered(h0.next + k, j, payload)
           == Numbered(h0.next + k, j - 1, payload)[h0.next + k + j - 1 := payload(j - 1)];
  }

  lemma InOrderStep(h: History, pcm: Pcm)
    requires h.store == map[]
    ensures HStep(h, Arrival(Wrap8(h.next), Some(pcm), false))
            == h.(next := h.next + 1, released := h.released + [(h.next, pcm)],
                  accepted := h.accepted[h.next := pcm])
  {
    OffsetOf(h, h.next);
  }

  lemma EmptyLift(s: Rx)
    requires s.area == EmptyArea()
    ensures Lift(s).store == map[] && SettledArea(s)
  {
    forall n: nat ensures n !in Lift(s).store {
      if s.expected <= n < s.expected + 0x100 {
        assert s.area[Wrap8(n)].None?;
      }
    }
  }

  lemma EmptyShown(s: Rx, h: History, base: seq<Pcm>)
    requires Shows(s, h, base) && h.store == map[]
    ensures s.area == EmptyArea()
  {
    forall i | 0 <= i < 0x100 ensures s.area[i] == EmptyArea()[i] {
      assert SlotOf(h, i) == None;
    }
  }

  /** Losing `k` packets (1 to 13) and then receiving the stream in order: nothing is
      written until arrival number max(4, k), one packet being given up per arrival once
      four are ahead; from that arrival on, exactly `k` packets have been given up, every
      packet that arrived has been written in order, and the area is empty. */
  lemma BurstLossRecovery(s: Rx, k: nat, payload: int -> Pcm, j: nat)
    requires s.area == EmptyArea() && 1 <= k <= 13
    ensures var t := Run(s, Stream(s.expected + k, j, payload));
            if j < Delay(k) then
              && t.out == s.out
              && t.expected == Add8(s.expected, Skips(k, j))
              && |Occupied(t.area)| == j
            else
              && t.out == s.out + Payload(j, payload)
              && t.expected == Add8(s.expected, k + j)
              && t.area == EmptyArea()
  {
    hide Run, HRun, Stream, Wrap8, Offset, BurstPhase;
    var h0 := Lift(s);
    LiftShows(s);
    EmptyLift(s);
    var arrivals := Stream(s.expected + k, j, payload);
    RunShows(s, h0, arrivals, s.out);
    BurstHistory(h0, k, payload, j);
    WrapAdds(s.expected, if j < Delay(k) then Skips(k, j) else k + j);
    BurstShown(s, Run(s, arrivals), h0, HRun(h0, arrivals), k, payload, j);
  }

  lemma WrapAdds(a: u8, n: int)
    ensures Wrap8(a) == a && Add8(a, n) == Wrap8(a + n)
  {
  }

  lemma BurstShown(s: Rx, t: Rx, h0: History, h: History, k: nat, payload: int -> Pcm, j: nat)
    requires 1 <= k <= 13 && h0.next == s.expected && h0.released == []
    requires Shows(t, h, s.out) && BurstPhase(h, h0, k, payload, j)
    ensures if j < Delay(k) then
              && t.out == s.out
              && t.expected == Wrap8(s.expected + Skips(k, j))
              && |Occupied(t.area)| == j
            else
              && t.out == s.out + Payload(j, payload)
              && t.expected == Wrap8(s.expected + k + j)
              && t.area == EmptyArea()
  {
    hide Wrap8, Offset;
    if j < Delay(k) {
      CountNumbered(t, h, s.expected + k, j, payload, s.out);
    } else {
      EmptyShown(t, h, s.out);
      assert Payloads(h.released) == Payload(j, payload);
    }
  }

  lemma CountNumbered(t: Rx, h: History, first: nat, count: nat, payload: int -> Pcm, base: seq<Pcm>)
    requires Shows(t, h, base) && h.next < first && first + count <= h.next + 13
    requires h.store == Numbered(first, count, payload)
    ensures |Occupied(t.area)| == count
  {
    hide Wrap8, Sub8, Offset;
    var before := Wrap8(first - 1);
    SlotsAheadAre(before, count);
    forall i: u8 ensures t.area[i].Some? <==> 1 <= Sub8(i, before) <= count {
      var n := Number(h, i);
      NumberWraps(h, i);
      NumberInRange(h, i);
      WrapPeriod(n);
      DistanceAhead(first - 1, if n < first - 1 then n + 0x100 else if n < first + 0xff then n else n - 0x100);
    }
    assert Occupied(t.area) == SlotsAhead(before, count);
  }

  lemma WrapPeriod(n: int)
    ensures Wrap8(n + 0x100) == Wrap8(n) == Wrap8(n - 0x100)
  {
  }

  /** All three bounds of the window are reached by one run: 12 packets stored, then 13
      buffers written and 14 numbers passed in a single arrival. */
  lemma WindowBoundsAreReached(payload: int -> Pcm)
    ensures var s := Run(FRESH, Stream(13, 12, payload));
            var t := Run(FRESH, Stream(13, 13, payload));
            && t == Step(s, Stream(13, 13, payload)[12])
            && |Occupied(s.area)| == 12
            && |t.out| - |s.out| == 13
            && Sub8(t.expected, s.expected) == 14
  {
    hide Run, HRun, Step, HStep, Stream, Occupied, Payload, Wrap8, Add8, Sub8;
    StreamRun(FRESH, BEGINNING, 13, 13, payload);
    StreamLast(13, 13, payload);
    ThirteenLost(payload, 12);
    ThirteenLost(payload, 13);
    DistanceAhead(12, 26);
    ByteIsWrapped(12);
    ByteIsWrapped(26);
  }

  lemma ThirteenLost(payload: int -> Pcm, j: nat)
    requires j <= 13
    ensures var t := Run(FRESH, Stream(13, j, payload));
            && |t.out| == (if j < 13 then 0 else 13)
            && t.expected == (if j < 13 then j else 26)
            && (j < 13 ==> |Occupied(t.area)| == j)
  {
    hide Run, HRun, Step, HStep, Stream, Occupied, Wrap8, Sub8;
    BurstLossRecovery(FRESH, 13, payload, j);
    WrapAdds(0, if j < 13 then j else 26);
    ByteIsWrapped(if j < 13 then j else 26);
  }

  // --- Perfect reconstruction ---------------------------------------------------------------

  /** Packet `i` of the sender, as it arrives: numbered modulo 256, always with the same
      payload, decodable, and while the renderer is not starving. */
  function Sent(i: nat, payload: int -> Pcm): Arrival {
    Arrival(Wrap8(i), Some(payload(i)), false)
  }

  function Arrivals(idx: seq<nat>, payload: int -> Pcm): seq<Arrival> {
    seq(|idx|, j requires 0 <= j < |idx| => Sent(idx[j], payload))
  }

  /** The smallest index at or above `m` that is not in `arrived`. */
  function FirstMissingFrom(arrived: set<nat>, m: nat): (r: nat)
    ensures r >= m && r !in arrived && forall n :: m <= n < r ==> n in arrived
    decreases |arrived|
  {
    if m in arrived then
      var r := FirstMissingFrom(arrived - {m}, m + 1);
      assert forall n :: m <= n < r ==> n in arrived by {
        forall n | m <= n < r ensures n in arrived {
          assert n == m || n in arrived - {m};
        }
      }
      r
    else m
  }

  function FirstMissing(arrived: set<nat>): nat { FirstMissingFrom(arrived, 0) }

  function IndexSet(idx: seq<nat>): set<nat> { set i | i in idx }

  /** No packet arrives more than 3 ahead of, or more than 242 behind, the first one
      still missing. */
  predicate NearFirstMissing(idx: seq<nat>) {
    forall j :: 0 <= j < |idx| ==>
      var m := FirstMissing(IndexSet(idx[..j])); m - 242 <= idx[j] <= m + 3
  }

  /** Nothing was given up and every packet taken is the sender's packet of its number. */
  ghost predicate Perfect(h: History, payload: int -> Pcm) {
    && Safe(h) && Settled(h)
    && h.skipped == {}
    && (forall n :: n in h.accepted ==> h.accepted[n] == payload(n))
  }

  /** And the packets taken are those that arrived. */
  ghost predicate Faithful(h: History, arrived: set<nat>, payload: int -> Pcm) {
    Perfect(h, payload) && h.accepted.Keys == arrived
  }

  /** With nothing given up, the released packets are 0, 1, 2, ... without a gap. */
  lemma {:induction false} NoSkipsNoGaps(h: History, i: nat)
    requires Safe(h) && h.skipped == {} && i < |h.released|
    ensures h.released[i].0 >= i
    ensures h.released[|h.released| - 1 - i].0 <= h.next - 1 - i
    decreases i
  {
    if i == 0 {
      assert h.released[|h.released| - 1] in h.released;
    } else {
      NoSkipsNoGaps(h, i - 1);
    }
  }

  lemma FaithfulIsExact(h: History, arrived: set<nat>, payload: int -> Pcm)
    requires Faithful(h, arrived, payload)
    ensures h.next == FirstMissing(arrived)
    ensures Payloads(h.released) == Payload(h.next, payload)
    ensures forall n: nat :: n < h.next ==> n in arrived
    ensures forall n :: n in arrived ==> n < h.next || h.next < n <= h.next + 12
  {
    assert |h.released| == h.next;
    PerfectLog(h, payload);
    assert Payloads(h.released) == Payload(h.next, payload);
    forall n: nat | n < h.next ensures n in arrived {
      assert h.released[n] in h.released;
    }
    WaitingIsStored(h, h.next);
    forall n | n in arrived ensures n < h.next || h.next < n <= h.next + 12 {
      if h.next <= n {
        WaitingIsStored(h, n);
      }
    }
  }

  lemma NumbersInOrder(h: History)
    requires Safe(h) && h.skipped == {}
    ensures |h.released| == h.next
    ensures forall i: nat :: i < |h.released| ==> h.released[i].0 == i
  {
    assert |h.skipped| == 0;
    forall i: nat | i < |h.released| ensures h.released[i].0 == i {
      NoSkipsNoGaps(h, i);
      NoSkipsNoGaps(h, |h.released| - 1 - i);
    }
  }

  lemma PerfectLog(h: History, payload: int -> Pcm)
    requires Perfect(h, payload)
    ensures |h.released| == h.next
    ensures forall i: nat :: i < |h.released| ==> h.released[i] == (i, payload(i))
  {
    NumbersInOrder(h);
    forall i: nat | i < |h.released| ensures h.released[i] == (i, payload(i)) {
      assert h.released[i] in h.released;
    }
  }

  /** Perfect is told of the output: the payloads of all numbers passed have been written,
      in order, and those waiting are the sender's. */
  lemma PerfectMeansOutput(h: History, payload: int -> Pcm)
    requires Safe(h) && Settled(h)
    ensures Perfect(h, payload) <==>
              && Payloads(h.released) == Payload(h.next, payload)
              && forall n :: n in h.store ==> h.store[n] == payload(n)
  {
    if Perfect(h, payload) {
      PerfectLog(h, payload);
    }
    if Payloads(h.released) == Payload(h.next, payload) && forall n :: n in h.store ==> h.store[n] == payload(n) {
      assert |Payloads(h.released)| == h.next && |h.skipped| == 0;
      NumbersInOrder(h);
      forall n | n in h.accepted && n !in h.store ensures h.accepted[n] == payload(n) {
        assert (n, h.accepted[n]) in h.released;
        assert Payloads(h.released)[n] == Payload(h.next, payload)[n];
      }
    }
  }

  /** An arrival that is outside the window, or at most 3 ahead and either a copy of a stored
      packet or with the payload of the number it stands for. */
  ghost predicate Harmless(h: History, i: nat, payload: int -> Pcm) {
    var d, n := Offset(h, Wrap8(i)), Number(h, Wrap8(i));
    d >= 14 || (d <= 3 && (n in h.store || payload(i) == payload(n)))
  }

  /** Exactly which arrivals leave the output perfect. */
  lemma PerfectStepIff(h: History, i: nat, payload: int -> Pcm)
    requires Perfect(h, payload)
    ensures Perfect(HStep(h, Sent(i, payload)), payload) <==> Harmless(h, i, payload)
  {
    var a := Sent(i, payload);
    StepIsSafe(h, a);
    StepSettles(h, a);
    StepRecords(h, a);
    WaitingIsStored(h, Number(h, a.seqNo));
    hide HStep, Offset, Number, Wrap8, Safe, Settled;
    PerfectCases(h, HStep(h, a), i, Offset(h, a.seqNo), Number(h, a.seqNo), payload);
  }

  lemma PerfectCases(h: History, g: History, i: nat, d: nat, n: nat, payload: int -> Pcm)
    requires Perfect(h, payload) && Safe(g) && Settled(g)
    requires n in h.store <==> n in h.accepted
    requires d == 0 ==> n !in h.store
    requires g.accepted == if d >= 14 || n in h.store then h.accepted else h.accepted[n := payload(i)]
    requires g.skipped == if 4 <= d < 14 then h.skipped + {h.next} else h.skipped
    ensures Perfect(g, payload) <==> d >= 14 || (d <= 3 && (n in h.store || payload(i) == payload(n)))
  {
    hide Safe, Settled;
    if 4 <= d < 14 {
      assert h.next in g.skipped;
    } else if d < 4 && n !in h.store {
      assert g.accepted[n] == payload(i);
    }
  }

  ghost predicate AllHarmless(idx: seq<nat>, payload: int -> Pcm) {
    forall j :: 0 <= j < |idx| ==>
      Harmless(HRun(BEGINNING, Arrivals(idx[..j], payload)), idx[j], payload)
  }

  /** Over a whole run the output is perfect exactly when every single arrival was harmless
      where it came: nothing later repairs a spoiled output. */
  lemma {:induction false} PerfectRunIff(idx: seq<nat>, payload: int -> Pcm)
    ensures Perfect(HRun(BEGINNING, Arrivals(idx, payload)), payload) <==> AllHarmless(idx, payload)
    decreases |idx|
  {
    hide HStep, Safe, Settled, Harmless, Shows, Perfect, AllHarmless;
    if idx == [] {
      NothingHarmed(payload);
    } else {
      var init, last := idx[..|idx| - 1], idx[|idx| - 1];
      ArrivalsLast(idx, payload);
      PerfectRunIff(init, payload);
      WholeRunSafety(Arrivals(init, payload));
      PerfectNext(HRun(BEGINNING, Arrivals(init, payload)), last, payload);
      HarmlessNext(idx, payload);
    }
  }

  /** And so told of the byte-numbered receiver: the payloads of exactly the numbers passed
      have been written, and those waiting are the sender's, exactly when every arrival was
      harmless. A rejected packet counts as one that did not arrive. */
  lemma PerfectOutputIff(idx: seq<nat>, payload: int -> Pcm)
    ensures var s, h := Run(FRESH, Arrivals(idx, payload)), HRun(BEGINNING, Arrivals(idx, payload));
            && s.expected == Wrap8(h.next)
            && (AllHarmless(idx, payload) <==>
                  && s.out == Payload(h.next, payload)
                  && forall n :: n in h.store ==> h.store[n] == payload(n))
  {
    hide Safe, Settled, Perfect, AllHarmless, Payload, Wrap8, Run, HRun;
    WholeRunSafety(Arrivals(idx, payload));
    PerfectRunIff(idx, payload);
    PerfectMeansOutput(HRun(BEGINNING, Arrivals(idx, payload)), payload);
    assert [] + Payloads(HRun(BEGINNING, Arrivals(idx, payload)).released)
           == Payloads(HRun(BEGINNING, Arrivals(idx, payload)).released);
  }

  lemma NothingHarmed(payload: int -> Pcm)
    ensures Perfect(HRun(BEGINNING, Arrivals([], payload)), payload) && AllHarmless([], payload)
  {
  }

  lemma HarmlessNext(idx: seq<nat>, payload: int -> Pcm)
    requires idx != []
    ensures var init := idx[..|idx| - 1];
            AllHarmless(idx, payload) <==>
              && AllHarmless(init, payload)
              && Harmless(HRun(BEGINNING, Arrivals(init, payload)), idx[|init|], payload)
  {
    hide Harmless, HRun, Arrivals;
    var init := idx[..|idx| - 1];
    assert forall j :: 0 <= j < |init| ==> init[..j] == idx[..j] && init[j] == idx[j];
  }

  lemma PerfectNext(h: History, i: nat, payload: int -> Pcm)
    requires Safe(h) && Settled(h)
    ensures Perfect(HStep(h, Sent(i, payload)), payload) <==> Perfect(h, payload) && Harmless(h, i, payload)
  {
    hide HStep, Harmless;
    StepIsSafe(h, Sent(i, payload));
    if Perfect(h, payload) {
      PerfectStepIff(h, i, payload);
    } else {
      SpoiledStaysSpoiled(h, HStep(h, Sent(i, payload)), payload);
    }
  }

  lemma SpoiledStaysSpoiled(g: History, h: History, payload: int -> Pcm)
    requires Safe(g) && Settled(g) && Extends(g, h) && !Perfect(g, payload)
    ensures !Perfect(h, payload)
  {
    hide Safe, Settled;
    if g.skipped == {} {
      var n :| n in g.accepted && g.accepted[n] != payload(n);
      assert h.accepted[n] == g.accepted[n];
    }
  }

  /** Exactly which arrivals keep the record of accepted packets equal to what arrived:
      those from 242 behind to 3 ahead of the first missing index, and a copy from 253 to
      255 behind whose byte happens to name a packet already stored. */
  lemma FaithfulStep(h: History, arrived: set<nat>, payload: int -> Pcm, i: nat)
    requires Faithful(h, arrived, payload)
    requires h.next - 0x100 <= i < h.next + 0x100
    ensures Faithful(HStep(h, Sent(i, payload)), arrived + {i}, payload)
            <==> (h.next - 242 <= i <= h.next + 3
                  || (h.next - 255 <= i <= h.next - 253 && i + 0x100 in arrived))
  {
    var a := Sent(i, payload);
    FaithfulIsExact(h, arrived, payload);
    StepIsSafe(h, a);
    StepSettles(h, a);
    StepRecords(h, a);
    var n := if i < h.next then i + 0x100 else i;
    WrapPeriod(i);
    OffsetOf(h, n);
    WaitingIsStored(h, n);
    hide HStep, Offset, Wrap8, Safe, Settled, FirstMissing, Payloads, Payload;
    FaithfulCases(h, HStep(h, a), arrived, payload, i, n);
  }

  lemma FaithfulCases(h: History, g: History, arrived: set<nat>, payload: int -> Pcm, i: nat, n: nat)
    requires Faithful(h, arrived, payload) && Safe(g) && Settled(g)
    requires h.next <= n < h.next + 0x100 && n == if i < h.next then i + 0x100 else i
    requires forall m: nat :: m < h.next ==> m in arrived
    requires forall m :: m in arrived ==> m < h.next || h.next < m <= h.next + 12
    requires n in h.store <==> n in h.accepted
    requires g.accepted == if n - h.next >= 14 || n in h.store then h.accepted else h.accepted[n := payload(i)]
    requires g.skipped == if 4 <= n - h.next < 14 then h.skipped + {h.next} else h.skipped
    ensures Faithful(g, arrived + {i}, payload)
            <==> (h.next - 242 <= i <= h.next + 3
                  || (h.next - 255 <= i <= h.next - 253 && i + 0x100 in arrived))
  {
    hide Safe, Settled;
    if 4 <= n - h.next < 14 {
      assert h.next in g.skipped;
    } else if i < h.next {
      assert arrived + {i} == arrived;
    } else if n - h.next < 4 {
      assert g.accepted.Keys == arrived + {n};
    } else {
      assert i !in arrived && i in arrived + {i};
    }
  }

  /** What one arrival adds to the record. */
  lemma StepRecords(h: History, a: Arrival)
    requires Safe(h) && Settled(h)
    ensures var g, n, d := HStep(h, a), Number(h, a.seqNo), Offset(h, a.seqNo);
            && g.accepted == (if d >= 14 || n in h.store || a.pcm.None? then h.accepted else h.accepted[n := a.pcm.value])
            && g.skipped == (if 1 <= d < 14 && (d >= 4 || a.low) then h.skipped + {h.next} else h.skipped)
  {
    hide Offset, Within, HDrain;
    if Offset(h, a.seqNo) < 14 {
      AdmitIsSafe(h, a);
      hide Safe;
      DrainIsSafe(HAdmit(h, a));
      DrainAppends(HAdmit(h, a));
    }
  }

  lemma WaitingIsStored(h: History, n: nat)
    requires Safe(h) && Settled(h) && n >= h.next
    ensures n in h.store <==> n in h.accepted
  {
  }

  /** With every arrival in that reach, duplicates and reordering included, after every
      arrival exactly the sender's payloads 0 .. m-1 have been written, in order and each
      once, where m is the first index still missing, over any number of wraps. */
  lemma {:induction false} PerfectReconstruction(idx: seq<nat>, payload: int -> Pcm)
    requires NearFirstMissing(idx)
    ensures var m := FirstMissing(IndexSet(idx));
            var s := Run(FRESH, Arrivals(idx, payload));
            && s.out == Payload(m, payload)
            && s.expected == Wrap8(m)
            && Faithful(HRun(BEGINNING, Arrivals(idx, payload)), IndexSet(idx), payload)
    decreases |idx|
  {
    var h := HRun(BEGINNING, Arrivals(idx, payload));
    WholeRunSafety(Arrivals(idx, payload));
    if idx != [] {
      var j := |idx| - 1;
      NearPrefix(idx);
      PerfectReconstruction(idx[..j], payload);
      ArrivalsLast(idx, payload);
      var g := HRun(BEGINNING, Arrivals(idx[..j], payload));
      hide HStep, Shows, Safe, Settled;
      FaithfulIsExact(g, IndexSet(idx[..j]), payload);
      FaithfulStep(g, IndexSet(idx[..j]), payload, idx[j]);
    }
    FaithfulIsExact(h, IndexSet(idx), payload);
  }

  lemma NearPrefix(idx: seq<nat>)
    requires NearFirstMissing(idx) && idx != []
    ensures NearFirstMissing(idx[..|idx| - 1])
  {
    var init := idx[..|idx| - 1];
    forall q | 0 <= q < |init|
      ensures var m := FirstMissing(IndexSet(init[..q])); m - 242 <= init[q] <= m + 3
    {
      assert init[..q] == idx[..q];
    }
  }

  lemma ArrivalsLast(idx: seq<nat>, payload: int -> Pcm)
    requires idx != []
    ensures var j, arrivals := |idx| - 1, Arrivals(idx, payload);
            && |arrivals| == j + 1
            && arrivals[..j] == Arrivals(idx[..j], payload)
            && arrivals[j] == Sent(idx[j], payload)
            && IndexSet(idx) == IndexSet(idx[..j]) + {idx[j]}
  {
    assert idx == idx[..|idx| - 1] + [idx[|idx| - 1]];
  }

  // --- A gap wider than the window ------------------------------------------------------------

  /** After a gap of 14 to 255 numbers a consecutive stream is rejected, changing nothing,
      for exactly 256 - k packets (never more than 242); the next one is the expected one
      and is written. */
  lemma {:induction false} LargeGapResync(s: Rx, k: nat, payload: int -> Pcm, j: nat)
    requires 14 <= k <= 255 && j <= 0x100 - k
    ensures j <= 242
    ensures Run(s, Stream(s.expected + k, j, payload)) == s
    ensures j == 0x100 - k ==>
              && Stream(s.expected + k, j + 1, payload)[j].seqNo == s.expected
              && s.out + [payload(j)] <= Run(s, Stream(s.expected + k, j + 1, payload)).out
    decreases j
  {
    hide Run, Stream, Step, Wrap8;
    if j == 0 {
      StreamOfNone(s, s.expected + k, payload);
    } else {
      LargeGapResync(s, k, payload, j - 1);
      StreamRun(s, BEGINNING, s.expected + k, j, payload);
      OutsideIsRejected(s, k + j - 1, payload(j - 1));
    }
    if j == 0x100 - k {
      StreamRun(s, BEGINNING, s.expected + k, j + 1, payload);
      StreamLast(s.expected + k, j + 1, payload);
      WrapPeriod(s.expected);
      WrapAdds(s.expected, 0);
      ExpectedIsWritten(s, payload(j), false);
    }
  }

  lemma StreamOfNone(s: Rx, first: nat, payload: int -> Pcm)
    ensures Run(s, Stream(first, 0, payload)) == s
  {
    assert Stream(first, 0, payload) == [];
  }

  lemma OutsideIsRejected(s: Rx, d: nat, pcm: Pcm)
    requires 14 <= d < 0x100
    ensures Step(s, Arrival(Wrap8(s.expected + d), Some(pcm), false)) == s
  {
    WindowIsFourteenWide(s.expected, Wrap8(s.expected + d));
    AddThenDistance(s.expected, d);
  }

  lemma ExpectedIsWritten(s: Rx, pcm: Pcm, low: bool)
    ensures s.out + [pcm] <= Step(s, Arrival(s.expected, Some(pcm), low)).out
  {
    WindowIsFourteenWide(s.expected, s.expected);
    WrittenOnlyGrows(TakeExpected(s, Arrival(s.expected, Some(pcm), low)));
  }

  lemma {:induction false} WrittenOnlyGrows(s: Rx)
    ensures s.out <= Drain(s).out
    decreases Occupied(s.area)
  {
    if s.area[s.expected].Some? {
      ReleaseFrees(s);
      WrittenOnlyGrows(ReleaseOne(s));
    }
  }
}
