/** The same receiver over unbounded packet numbers, with its whole history: what a byte
    sequence number means, which packets were released, skipped, and first accepted. */
module ReorderHistory {
  import opened Words
  import opened Protocol
  import opened Reorder

  /** `next` is the unwrapped expected number. `accepted` is the first payload taken for
      each number; `skipped` the numbers given up by a forced skip. */
  datatype History = History(next: nat, store: map<nat, Pcm>, released: seq<(nat, Pcm)>,
                             skipped: set<nat>, accepted: map<nat, Pcm>)

  const BEGINNING := History(0, map[], [], {}, map[])

  /** How far ahead of the expected number a sequence byte lies. */
  function Offset(h: History, seqNo: u8): nat { Sub8(seqNo, Wrap8(h.next)) }

  /** The unwrapped number a sequence byte stands for. */
  function Number(h: History, seqNo: u8): nat { h.next + Offset(h, seqNo) }

  ghost function HTake(h: History, a: Arrival): History {
    if a.pcm.Some?
    then h.(next := h.next + 1, released := h.released + [(h.next, a.pcm.value)],
            accepted := h.accepted[h.next := a.pcm.value])
    else h
  }

  ghost function HSkip(h: History, a: Arrival): History {
    if Offset(h, a.seqNo) >= 4 || a.low
    then h.(next := h.next + 1, skipped := h.skipped + {h.next})
    else h
  }

  ghost function HStore(h: History, n: nat, pcm: Option<Pcm>): History {
    if n !in h.store && pcm.Some?
    then h.(store := h.store[n := pcm.value], accepted := h.accepted[n := pcm.value])
    else h
  }

  ghost function HRelease(h: History): History
    requires h.next in h.store
  {
    h.(next := h.next + 1, store := h.store - {h.next},
       released := h.released + [(h.next, h.store[h.next])])
  }

  ghost function HDrain(h: History): History
    decreases |h.store|
  {
    if h.next in h.store then HDrain(HRelease(h)) else h
  }

  ghost function HAdmit(h: History, a: Arrival): History {
    if Offset(h, a.seqNo) == 0 then HTake(h, a)
    else HStore(HSkip(h, a), Number(h, a.seqNo), a.pcm)
  }

  ghost function HStep(h: History, a: Arrival): History {
    if Offset(h, a.seqNo) < 14 then HDrain(HAdmit(h, a)) else h
  }

  ghost function HRun(h: History, arrivals: seq<Arrival>): History {
    if arrivals == [] then h
    else HStep(HRun(h, arrivals[..|arrivals| - 1]), arrivals[|arrivals| - 1])
  }

  // --- The window -----------------------------------------------------------------------

  /** Every stored packet lies `lo` to `hi` numbers ahead of the expected one. */
  ghost predicate Within(h: History, lo: nat, hi: nat) {
    forall n :: n in h.store ==> h.next + lo <= n <= h.next + hi
  }

  /** Between arrivals the stored packets lie 1 to 12 ahead. */
  ghost predicate Settled(h: History) { Within(h, 1, 12) }

  lemma AdmitKeepsWindow(h: History, a: Arrival)
    requires Settled(h) && Offset(h, a.seqNo) < 14
    ensures Within(HAdmit(h, a), 0, 12)
    ensures h.next <= HAdmit(h, a).next <= h.next + 1
  {
  }

  /** The release loop ends after at most 13 turns, with the area settled again. */
  lemma {:induction false} DrainSettles(h: History, room: nat)
    requires Within(h, 0, room) && room <= 12
    ensures Settled(HDrain(h)) && Within(HDrain(h), 1, room)
    ensures h.next <= HDrain(h).next <= h.next + room + 1
    ensures |HDrain(h).released| - |h.released| == HDrain(h).next - h.next
    decreases room
  {
    if h.next in h.store {
      var g := HRelease(h);
      if room == 0 {
        assert g.next !in h.store;
        assert HDrain(g) == g;
      } else {
        assert Within(g, 0, room - 1) by {
          forall n | n in g.store ensures g.next <= n <= g.next + room - 1 {
            assert n in h.store;
          }
        }
        DrainSettles(g, room - 1);
      }
    }
  }

  lemma StepSettles(h: History, a: Arrival)
    requires Settled(h)
    ensures Settled(HStep(h, a))
    ensures h.next <= HStep(h, a).next <= h.next + 14
    ensures |HStep(h, a).released| - |h.released| <= 13
    ensures |HStep(h, a).released| >= |h.released|
  {
    if Offset(h, a.seqNo) < 14 {
      AdmitKeepsWindow(h, a);
      if Offset(h, a.seqNo) == 0 {
        var g := HAdmit(h, a);
        if a.pcm.Some? {
          assert Within(g, 0, 11);
          DrainSettles(g, 11);
        } else {
          DrainSettles(g, 12);
          assert HDrain(g) == g;
        }
      } else {
        DrainSettles(HAdmit(h, a), 12);
      }
    }
  }

  // --- Safety ---------------------------------------------------------------------------

  /** What is true of the history after every arrival, whatever was lost, reordered,
      repeated or undecodable. */
  ghost predicate Safe(h: History) {
    && (forall i, j :: 0 <= i < j < |h.released| ==> h.released[i].0 < h.released[j].0)
    && (forall r :: r in h.released ==> r.0 < h.next && r.0 !in h.skipped)
    && (forall n :: n in h.skipped ==> n < h.next)
    && |h.released| + |h.skipped| == h.next
    && (forall n :: n in h.store ==> n in h.accepted && h.accepted[n] == h.store[n] && h.next <= n)
    && (forall r :: r in h.released ==> r.0 in h.accepted && h.accepted[r.0] == r.1)
    && (forall n :: n in h.accepted ==> n in h.store || (n, h.accepted[n]) in h.released)
  }

  /** What an arrival may do to the past: nothing but append. */
  ghost predicate Extends(g: History, h: History) {
    && g.released <= h.released
    && g.skipped <= h.skipped
    && g.next <= h.next
    && (forall n :: n in g.accepted ==> n in h.accepted && h.accepted[n] == g.accepted[n])
  }

  lemma ReleaseIsSafe(h: History)
    requires Safe(h) && h.next in h.store
    ensures Safe(HRelease(h)) && Extends(h, HRelease(h))
  {
    var g, last := HRelease(h), (h.next, h.store[h.next]);
    assert forall r :: r in g.released <==> r in h.released || r == last;
  }

  lemma {:induction false} DrainIsSafe(h: History)
    requires Safe(h)
    ensures Safe(HDrain(h)) && Extends(h, HDrain(h)) && HDrain(h).accepted == h.accepted
    decreases |h.store|
  {
    if h.next in h.store {
      ReleaseIsSafe(h);
      DrainIsSafe(HRelease(h));
    }
  }

  lemma TakeIsSafe(h: History, a: Arrival)
    requires Safe(h) && h.next !in h.store
    ensures Safe(HTake(h, a)) && Extends(h, HTake(h, a))
  {
    if a.pcm.Some? {
      TakeIsStoreThenRelease(h, a);
      hide Safe, HTake;
      StoreIsSafe(h, h.next, a.pcm);
      ReleaseIsSafe(HStore(h, h.next, a.pcm));
    }
  }

  lemma TakeIsStoreThenRelease(h: History, a: Arrival)
    requires h.next !in h.store && a.pcm.Some?
    ensures HTake(h, a) == HRelease(HStore(h, h.next, a.pcm))
  {
    assert h.store[h.next := a.pcm.value] - {h.next} == h.store;
  }

  lemma SkipIsSafe(h: History, a: Arrival)
    requires Safe(h) && h.next !in h.store
    ensures Safe(HSkip(h, a)) && Extends(h, HSkip(h, a))
  {
  }

  lemma StoreIsSafe(h: History, n: nat, pcm: Option<Pcm>)
    requires Safe(h) && h.next <= n
    ensures Safe(HStore(h, n, pcm)) && Extends(h, HStore(h, n, pcm))
  {
  }

  lemma AdmitIsSafe(h: History, a: Arrival)
    requires Settled(h) && Safe(h) && Offset(h, a.seqNo) < 14
    ensures Safe(HAdmit(h, a)) && Extends(h, HAdmit(h, a))
  {
    if Offset(h, a.seqNo) == 0 {
      TakeIsSafe(h, a);
    } else {
      SkipIsSafe(h, a);
      StoreIsSafe(HSkip(h, a), Number(h, a.seqNo), a.pcm);
    }
  }

  /** One arrival keeps every safety property and never rewrites the past. */
  lemma StepIsSafe(h: History, a: Arrival)
    requires Settled(h) && Safe(h)
    ensures Safe(HStep(h, a)) && Extends(h, HStep(h, a))
  {
    if Offset(h, a.seqNo) < 14 {
      AdmitIsSafe(h, a);
      DrainIsSafe(HAdmit(h, a));
    }
  }

  /** No decodable packet inside the window is lost: it is released or stored at once,
      unless an earlier copy of it already was. */
  lemma NothingInWindowIsDropped(h: History, a: Arrival)
    requires Settled(h) && Safe(h) && Offset(h, a.seqNo) < 14 && a.pcm.Some?
    ensures var n := Number(h, a.seqNo);
            && n in HStep(h, a).accepted
            && HStep(h, a).accepted[n] == if n in h.store then h.store[n] else a.pcm.value
  {
    var n := Number(h, a.seqNo);
    assert n in HAdmit(h, a).accepted
           && HAdmit(h, a).accepted[n] == if n in h.store then h.store[n] else a.pcm.value;
    AdmitIsSafe(h, a);
    DrainIsSafe(HAdmit(h, a));
  }

  // --- The byte-numbered receiver is this machine ---------------------------------------

  function Payloads(released: seq<(nat, Pcm)>): seq<Pcm> {
    seq(|released|, i requires 0 <= i < |released| => released[i].1)
  }

  /** What the slot of a sequence byte holds, told from the unwrapped store. */
  function SlotOf(h: History, seqNo: u8): Option<Pcm> {
    if Number(h, seqNo) in h.store then Some(h.store[Number(h, seqNo)]) else None
  }

  /** The receiver state `s` shows the history `h`, begun when `base` had been written. */
  ghost predicate Shows(s: Rx, h: History, base: seq<Pcm>) {
    && s.expected == Wrap8(h.next)
    && (forall i: u8 :: s.area[i] == SlotOf(h, i))
    && s.out == base + Payloads(h.released)
  }

  lemma NumberWraps(h: History, seqNo: u8)
    ensures Wrap8(Number(h, seqNo)) == seqNo
  {
  }

  /** A byte names the same packet after the expected number moves past another one. */
  lemma NumberAfterMove(h: History, g: History, seqNo: u8)
    requires g.next == h.next + 1
    ensures Wrap8(g.next) == Add8(Wrap8(h.next), 1)
    ensures seqNo != Wrap8(h.next) ==> Number(g, seqNo) == Number(h, seqNo)
    ensures seqNo == Wrap8(h.next) ==> Number(g, seqNo) == h.next + 0x100 && Number(h, seqNo) == h.next
  {
    hide Wrap8, Sub8, Add8;
    WrapNext(h.next);
    DistanceAfterMove(seqNo, Wrap8(h.next));
  }

  lemma ReleaseShows(s: Rx, h: History, base: seq<Pcm>)
    requires Shows(s, h, base) && h.next in h.store && Within(h, 0, 12)
    ensures s.area[s.expected].Some? && Shows(ReleaseOne(s), HRelease(h), base)
  {
    var t, g := ReleaseOne(s), HRelease(h);
    assert Number(h, s.expected) == h.next;
    forall i: u8 ensures t.area[i] == SlotOf(g, i) {
      NumberAfterMove(h, g, i);
    }
    assert Payloads(g.released) == Payloads(h.released) + [h.store[h.next]];
  }

  lemma {:induction false} DrainShows(s: Rx, h: History, base: seq<Pcm>, room: nat)
    requires Shows(s, h, base) && Within(h, 0, room) && room <= 12
    ensures Shows(Drain(s), HDrain(h), base)
    decreases |h.store|
  {
    assert Number(h, s.expected) == h.next;
    if h.next in h.store {
      ReleaseShows(s, h, base);
      ReleaseFrees(s);
      DrainShows(ReleaseOne(s), HRelease(h), base, if room == 0 then 0 else room - 1);
    }
  }

  lemma SkipShows(s: Rx, h: History, a: Arrival, base: seq<Pcm>)
    requires Shows(s, h, base) && Settled(h)
    ensures Shows(ForceSkip(s, a), HSkip(h, a), base)
  {
    var t, g := ForceSkip(s, a), HSkip(h, a);
    hide Sub8, Wrap8, Add8;
    if g.next == h.next + 1 {
      NumberAfterMove(h, g, a.seqNo);
      forall i: u8 ensures t.area[i] == SlotOf(g, i) {
        NumberAfterMove(h, g, i);
      }
    }
  }

  lemma StoreShows(s: Rx, h: History, a: Arrival, base: seq<Pcm>)
    requires Shows(s, h, base)
    ensures Shows(Store(s, a), HStore(h, Number(h, a.seqNo), a.pcm), base)
  {
    var t, g := Store(s, a), HStore(h, Number(h, a.seqNo), a.pcm);
    forall i: u8 ensures t.area[i] == SlotOf(g, i) {
      NumberWraps(h, i);
      NumberWraps(h, a.seqNo);
    }
  }

  lemma TakeShows(s: Rx, h: History, a: Arrival, base: seq<Pcm>)
    requires Shows(s, h, base) && Settled(h) && a.seqNo == s.expected
    ensures Shows(TakeExpected(s, a), HTake(h, a), base)
  {
    if a.pcm.Some? {
      var t, g := TakeExpected(s, a), HTake(h, a);
      forall i: u8 ensures t.area[i] == SlotOf(g, i) {
        NumberAfterMove(h, g, i);
      }
      assert Payloads(g.released) == Payloads(h.released) + [a.pcm.value];
    }
  }

  /** The u8 receiver with its 256 slots simulates the unbounded machine, step by step. */
  lemma StepShows(s: Rx, h: History, a: Arrival, base: seq<Pcm>)
    requires Shows(s, h, base) && Settled(h)
    ensures Shows(Step(s, a), HStep(h, a), base)
  {
    WindowIsFourteenWide(s.expected, a.seqNo);
    if Offset(h, a.seqNo) < 14 {
      AdmitShows(s, h, a, base);
      AdmitKeepsWindow(h, a);
      hide Admit, HAdmit, Wrap8, IsNewer;
      DrainShows(Admit(s, a), HAdmit(h, a), base, 12);
    }
  }

  lemma AdmitShows(s: Rx, h: History, a: Arrival, base: seq<Pcm>)
    requires Shows(s, h, base) && Settled(h)
    ensures Shows(Admit(s, a), HAdmit(h, a), base)
  {
    hide Wrap8, Sub8, Add8;
    NumberWraps(h, a.seqNo);
    if a.seqNo == s.expected {
      NumberAfterMove(h, h.(next := h.next + 1), a.seqNo);
      TakeShows(s, h, a, base);
    } else {
      SkipShows(s, h, a, base);
      NumberAfterMove(h, h.(next := h.next + 1), a.seqNo);
      StoreShows(ForceSkip(s, a), HSkip(h, a), a, base);
    }
  }

  lemma {:induction false} RunShows(s: Rx, h: History, arrivals: seq<Arrival>, base: seq<Pcm>)
    requires Shows(s, h, base) && Settled(h)
    ensures Shows(Run(s, arrivals), HRun(h, arrivals), base) && Settled(HRun(h, arrivals))
    decreases |arrivals|
  {
    if arrivals != [] {
      var init, last := arrivals[..|arrivals| - 1], arrivals[|arrivals| - 1];
      RunShows(s, h, init, base);
      StepShows(Run(s, init), HRun(h, init), last, base);
      StepSettles(HRun(h, init), last);
    }
  }
}
