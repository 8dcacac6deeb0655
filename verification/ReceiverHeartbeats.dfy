/** The heartbeats of a session as the reordering receiver drives them. */
module ReceiverHeartbeats {
  import opened Words
  import opened Reorder
  import opened ReorderHistory
  import opened ReorderRuns
  import opened Heartbeat

  /** One batch of arrivals between each heartbeat and the next. */
  ghost function HistoryAfter(batches: seq<seq<Arrival>>): History {
    if batches == [] then BEGINNING
    else HRun(HistoryAfter(batches[..|batches| - 1]), batches[|batches| - 1])
  }

  ghost function ReceiverAfter(batches: seq<seq<Arrival>>): Reorder.Rx {
    if batches == [] then FRESH
    else Reorder.Run(ReceiverAfter(batches[..|batches| - 1]), batches[|batches| - 1])
  }

  /** The unwrapped expected number at each heartbeat. */
  ghost function EndsOf(batches: seq<seq<Arrival>>): seq<nat> {
    if batches == [] then []
    else EndsOf(batches[..|batches| - 1]) + [HistoryAfter(batches).next]
  }

  /** A release moves a packet from the store past the expected number. */
  lemma {:induction false} DrainTrades(h: History)
    ensures HDrain(h).next + |HDrain(h).store| == h.next + |h.store|
    decreases |h.store|
  {
    if h.next in h.store {
      StoreShrinks(h);
      DrainTrades(HRelease(h));
    }
  }

  lemma StoreShrinks(h: History)
    requires h.next in h.store
    ensures |HRelease(h).store| == |h.store| - 1
  {
    assert HRelease(h).store.Keys == h.store.Keys - {h.next};
  }

  /** An arrival forces at most one skip and stores at most one packet. */
  lemma StepRaisesByTwo(h: History, a: Arrival)
    ensures HStep(h, a).next + |HStep(h, a).store| <= h.next + |h.store| + 2
  {
    if Offset(h, a.seqNo) < 14 {
      hide Offset, HStore, HSkip, HDrain;
      StoreGrows(HSkip(h, a), Number(h, a.seqNo), a.pcm);
      SkipPassesOne(h, a);
      DrainTrades(HAdmit(h, a));
    }
  }

  lemma StoreGrows(h: History, n: nat, pcm: Option<Pcm>)
    ensures HStore(h, n, pcm).next == h.next && |HStore(h, n, pcm).store| <= |h.store| + 1
  {
    if pcm.Some? {
      assert h.store[n := pcm.value].Keys == h.store.Keys + {n};
    }
  }

  lemma SkipPassesOne(h: History, a: Arrival)
    ensures HSkip(h, a).next <= h.next + 1 && HSkip(h, a).store == h.store
  {
  }

  lemma {:induction false} RunRaisesByTwo(h: History, arrivals: seq<Arrival>)
    ensures HRun(h, arrivals).next + |HRun(h, arrivals).store| <= h.next + |h.store| + 2 * |arrivals|
    decreases |arrivals|
  {
    if arrivals != [] {
      var init := arrivals[..|arrivals| - 1];
      RunRaisesByTwo(h, init);
      StepRaisesByTwo(HRun(h, init), arrivals[|arrivals| - 1]);
    }
  }

  function Following(first: nat, count: nat): set<nat> {
    if count == 0 then {} else Following(first, count - 1) + {first + count - 1}
  }

  lemma {:induction false} FollowingAre(first: nat, count: nat)
    ensures |Following(first, count)| == count
    ensures forall n: nat :: n in Following(first, count) <==> first <= n < first + count
  {
    if count > 0 {
      FollowingAre(first, count - 1);
    }
  }

  lemma SettledStoreIsSmall(h: History)
    requires Settled(h)
    ensures |h.store| <= 12
  {
    FollowingAre(h.next + 1, 12);
    SubsetIsSmaller(h.store.Keys, Following(h.next + 1, 12));
  }

  /** Two numbers per arrival, and one for each of the at most 12 packets already waiting. */
  lemma RunAdvance(h: History, arrivals: seq<Arrival>)
    requires Settled(h) && Safe(h)
    ensures Settled(HRun(h, arrivals)) && Safe(HRun(h, arrivals))
    ensures h.next <= HRun(h, arrivals).next <= h.next + 12 + 2 * |arrivals|
  {
    PastIsFinal(h, arrivals);
    RunRaisesByTwo(h, arrivals);
    SettledStoreIsSmall(h);
  }

  lemma {:induction false} EndsArePaced(batches: seq<seq<Arrival>>)
    requires forall i :: 0 <= i < |batches| ==> |batches[i]| <= 121
    ensures |EndsOf(batches)| == |batches| && Paced(EndsOf(batches))
    ensures LastEnd(EndsOf(batches)) == HistoryAfter(batches).next
    ensures Settled(HistoryAfter(batches)) && Safe(HistoryAfter(batches))
    ensures Shows(ReceiverAfter(batches), HistoryAfter(batches), [])
    decreases |batches|
  {
    if batches != [] {
      var init, last := batches[..|batches| - 1], batches[|batches| - 1];
      EndsArePaced(init);
      RunAdvance(HistoryAfter(init), last);
      RunShows(ReceiverAfter(init), HistoryAfter(init), last, []);
      hide HRun, Run, Shows, Within;
      PacedGrows(EndsOf(init), HistoryAfter(batches).next);
    }
  }

  lemma PacedGrows(ends: seq<nat>, next: nat)
    requires Paced(ends) && LastEnd(ends) <= next < LastEnd(ends) + 0x100
    ensures Paced(ends + [next]) && LastEnd(ends + [next]) == next
  {
    var all := ends + [next];
    forall i | 0 <= i < |all| ensures LastEnd(all[..i]) <= all[i] < LastEnd(all[..i]) + 0x100 {
      if i < |ends| {
        assert all[..i] == ends[..i];
      } else {
        assert all[..i] == ends;
      }
    }
  }

  /** With at most 121 arrivals from one heartbeat to the next, whatever they are, the replies
      of a session list every number the receiver passed exactly once, in order. */
  lemma HeartbeatsCoverReceiver(batches: seq<seq<Arrival>>)
    requires forall i :: 0 <= i < |batches| ==> |batches[i]| <= 121
    ensures var h := HistoryAfter(batches);
            && ReceiverAfter(batches).expected == Wrap8(h.next)
            && Reported(EndsOf(batches)) == Counting(0, h.next)
            && h.next == |ReceiverAfter(batches).out| + |h.skipped|
  {
    EndsArePaced(batches);
    RepliesTile(EndsOf(batches));
  }

  // --- One arrival more ---------------------------------------------------------------------

  /** `n` bursts of 13 lost packets, each followed by 13 that arrive. */
  function Bursts(from: nat, n: nat, payload: int -> Pcm): seq<Arrival> {
    if n == 0 then []
    else Bursts(from, n - 1, payload) + Stream(from + 26 * (n - 1) + 13, 13, payload)
  }

  lemma {:induction false} HRunJoins(h: History, first: seq<Arrival>, second: seq<Arrival>)
    ensures HRun(h, first + second) == HRun(HRun(h, first), second)
    decreases |second|
  {
    if second == [] {
      assert first + second == first;
    } else {
      var init := second[..|second| - 1];
      HRunJoins(h, first, init);
      assert (first + second)[..|first + second| - 1] == first + init;
    }
  }

  /** The history after `arrivals` expects `next` and stores nothing. */
  ghost predicate Clears(h: History, arrivals: seq<Arrival>, next: nat) {
    HRun(h, arrivals).store == map[] && HRun(h, arrivals).next == next
  }

  lemma AfterBurst(h: History, k: nat, payload: int -> Pcm, j: nat)
    requires h.store == map[] && 1 <= k <= 13
    ensures var g := HRun(h, Stream(h.next + k, j, payload));
            if j < Delay(k) then g.next == h.next + Skips(k, j) else g.store == map[] && g.next == h.next + k + j
  {
    hide HRun, Stream, Numbered, Log, Delay, Skips;
    BurstHistory(h, k, payload, j);
  }

  /** One burst of `k` more. */
  lemma BurstPasses(h: History, arrivals: seq<Arrival>, next: nat, k: nat, payload: int -> Pcm)
    requires Clears(h, arrivals, next) && 1 <= k <= 13
    ensures Clears(h, arrivals + Stream(next + k, Delay(k), payload), next + k + Delay(k))
    ensures |Stream(next + k, Delay(k), payload)| == Delay(k)
  {
    hide HRun, Stream, BurstPhase;
    var g, burst := HRun(h, arrivals), Stream(next + k, Delay(k), payload);
    StreamLast(next + k, Delay(k), payload);
    AfterBurst(g, k, payload, Delay(k));
    HRunJoins(h, arrivals, burst);
  }

  lemma {:induction false} BurstsPass(h: History, arrivals: seq<Arrival>, next: nat, n: nat, payload: int -> Pcm)
    requires Clears(h, arrivals, next)
    ensures Clears(h, arrivals + Bursts(next, n, payload), next + 26 * n)
    ensures |Bursts(next, n, payload)| == 13 * n
    decreases n
  {
    hide Clears, Stream;
    if n == 0 {
      assert arrivals + Bursts(next, 0, payload) == arrivals;
    } else {
      var init, burst := Bursts(next, n - 1, payload), Stream(next + 26 * (n - 1) + 13, 13, payload);
      BurstsPass(h, arrivals, next, n - 1, payload);
      BurstPasses(h, arrivals + init, next + 26 * (n - 1), 13, payload);
      assert arrivals + (init + burst) == arrivals + init + burst;
    }
  }

  /** The 13th packet after a burst of 13, nine more such bursts, and one of 4. */
  function Flood(payload: int -> Pcm): seq<Arrival> {
    [Stream(13, 13, payload)[12]] + Bursts(26, 9, payload) + Stream(264, 4, payload)
  }

  lemma FloodPasses(payload: int -> Pcm)
    ensures |Stream(13, 12, payload)| == 12 && |Flood(payload)| == 122
    ensures HRun(BEGINNING, Stream(13, 12, payload)).next == 12
    ensures HRun(HRun(BEGINNING, Stream(13, 12, payload)), Flood(payload)).next == 268
  {
    hide HRun, HStep, Stream, Bursts, BurstPhase;
    FirstBurst(payload);
    var most, whole := Stream(13, 12, payload), Stream(13, 13, payload);
    var bursts, four := Bursts(26, 9, payload), Stream(264, 4, payload);
    BurstsPass(BEGINNING, whole, 26, 9, payload);
    BurstPasses(BEGINNING, whole + bursts, 260, 4, payload);
    assert most + Flood(payload) == whole + bursts + four;
    HRunJoins(BEGINNING, most, Flood(payload));
  }

  lemma FirstBurst(payload: int -> Pcm)
    ensures var most, whole := Stream(13, 12, payload), Stream(13, 13, payload);
            && |most| == 12 && |whole| == 13
            && most + [whole[12]] == whole
            && HRun(BEGINNING, most).next == 12
            && Clears(BEGINNING, whole, 26)
  {
    hide HRun, Stream, BurstPhase;
    StreamLast(13, 12, payload);
    StreamLast(13, 13, payload);
    AfterBurst(BEGINNING, 13, payload, 12);
    AfterBurst(BEGINNING, 13, payload, 13);
  }

  /** 121 is the most: with 122 arrivals between two heartbeats the receiver can pass 256
      numbers, and the second reply lists none of them. */
  lemma TooManyArrivals(payload: int -> Pcm)
    ensures var batches := [Stream(13, 12, payload), Flood(payload)];
            && |batches[0]| == 12 && |batches[1]| == 122
            && EndsOf(batches) == [12, 268]
            && Reported(EndsOf(batches)) == Reported([12])
  {
    FloodPasses(payload);
    var first, second := Stream(13, 12, payload), Flood(payload);
    hide HRun, Stream, Flood;
    var batches := [first, second];
    assert batches[..1] == [first] && [first][..0] == [];
    assert EndsOf([]) == [] && HistoryAfter([]) == BEGINNING;
    assert HistoryAfter([first]) == HRun(BEGINNING, first);
    assert EndsOf([first]) == [12];
    assert EndsOf(batches) == [12] + [268];
    assert [12, 268][..1] == [12];
    assert Numbers(Wrap8(12), Wrap8(268)) == [];
  }
}
