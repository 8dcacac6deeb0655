/** What the session statistics guarantee over whole runs. */
module SessionRuns {
  import opened Words
  import opened BigEndian
  import opened SessionStats

  datatype Event = Receive(seqNo: u8, sent: i64, at: i64) | SyncResult(lo: i64, hi: i64) | SendReport

  function Apply(s: Stats, e: Event): Stats {
    match e
    case Receive(seqNo, sent, at) => Accepted(s, seqNo, sent, at).0
    case SyncResult(lo, hi) => Sync(s, lo, hi)
    case SendReport => Report(s)
  }

  function Run(s: Stats, events: seq<Event>): Stats {
    if events == [] then s else Apply(Run(s, events[..|events| - 1]), events[|events| - 1])
  }

  predicate IsAccepted(s: Stats, e: Event) {
    e.Receive? && Accepted(s, e.seqNo, e.sent, e.at).1
  }

  // --- Loss accounting ----------------------------------------------------------------------

  /** How far one step moves the expected number, counted without wrapping: its own byte
      distance, or 1 for the first frame. */
  function StepAdvance(s: Stats, t: Stats): nat {
    if t.expected.None? then 0 else if s.expected.None? then 1 else Sub8(t.expected.value, s.expected.value)
  }

  function TotalAdvance(s: Stats, events: seq<Event>): nat {
    if events == [] then 0
    else
      var before := Run(s, events[..|events| - 1]);
      TotalAdvance(s, events[..|events| - 1]) + StepAdvance(before, Apply(before, events[|events| - 1]))
  }

  function MissingSet(missing: Flags): set<u8> { set i: u8 | missing[i] }

  lemma MarkOne(missing: Flags, i: u8)
    ensures MissingSet(missing[i := true]) == MissingSet(missing) + {i}
    ensures |MissingSet(missing[i := true])| <= |MissingSet(missing)| + 1
  {
    assert MissingSet(missing[i := true]) == MissingSet(missing) + {i};
  }

  lemma ClearOne(missing: Flags, i: u8)
    requires missing[i]
    ensures |MissingSet(missing[i := false])| == |MissingSet(missing)| - 1
  {
    assert MissingSet(missing[i := false]) == MissingSet(missing) - {i};
  }

  lemma {:induction false} MarkAdds(missing: Flags, first: u8, n: nat)
    ensures |MissingSet(MarkMissing(missing, first, n))| <= |MissingSet(missing)| + n
    decreases n
  {
    if n > 0 {
      MarkAdds(missing, first, n - 1);
      MarkOne(MarkMissing(missing, first, n - 1), Add8(first, n - 1));
    }
  }

  /** A frame ahead of the expected one moves it by the gap and one, never by half the ring. */
  lemma NewerAdvance(e: u8, seqNo: u8)
    requires seqNo != e && SequenceIsNewer(Sub8(e, 1), seqNo)
    ensures Sub8(Add8(seqNo, 1), e) == Sub8(seqNo, e) + 1 <= 127
  {
    AheadIsNewer(e, seqNo);
    DistanceThenAdd(seqNo, e);
    WrapPlus(e + Sub8(seqNo, e), 1);
    AddThenDistance(e, Sub8(seqNo, e) + 1);
    hide SequenceIsNewer, Sub8, Wrap8;
  }

  lemma ExpectedAdvance(e: u8)
    ensures Sub8(Add8(e, 1), e) == 1 && Sub8(e, e) == 0
  {
  }

  lemma TrackAccounts(s: Stats, seqNo: u8)
    requires Track(s, seqNo).Some?
    ensures var t := Track(s, seqNo).value;
            && 1 + t.lost - s.lost == StepAdvance(s, t) + t.recovered - s.recovered
            && t.received == s.received
            && |MissingSet(t.missing)| + t.recovered - s.recovered
               <= |MissingSet(s.missing)| + t.lost - s.lost
  {
    if s.expected.Some? {
      var e := s.expected.value;
      ExpectedAdvance(e);
      if seqNo != e && SequenceIsNewer(Sub8(e, 1), seqNo) {
        NewerAdvance(e, seqNo);
        MarkAdds(s.missing, e, Min(Sub8(seqNo, e), 64));
      } else if seqNo != e && s.missing[seqNo] {
        ClearOne(s.missing, seqNo);
      }
    }
  }

  /** Over every run: each number the expected number passed is either received or lost, a
      recovered one counting as both; and no more frames are flagged missing or recovered
      than were ever counted lost. */
  lemma {:induction false} LossAccounting(events: seq<Event>)
    ensures var s := Run(NewStats(), events);
            && s.received + s.lost == TotalAdvance(NewStats(), events) + s.recovered
            && |MissingSet(s.missing)| + s.recovered <= s.lost
    decreases |events|
  {
    if events == [] {
      assert MissingSet(NewStats().missing) == {};
    } else {
      var s, e := Run(NewStats(), events[..|events| - 1]), events[|events| - 1];
      LossAccounting(events[..|events| - 1]);
      StepAccounts(s, e);
    }
  }

  lemma StepAccounts(s: Stats, e: Event)
    ensures var t := Apply(s, e);
            && t.received - s.received + t.lost - s.lost == StepAdvance(s, t) + t.recovered - s.recovered
            && |MissingSet(t.missing)| + t.recovered - s.recovered <= |MissingSet(s.missing)| + t.lost - s.lost
  {
    if s.expected.Some? { ExpectedAdvance(s.expected.value); }
    if e.Receive? && !IsDuplicate(s, e.seqNo, e.at) {
      var seen := s.(lastSeen := s.lastSeen[e.seqNo := e.at]);
      hide Track, MissingSet, Sub8;
      if Track(seen, e.seqNo).Some? {
        TrackAccounts(seen, e.seqNo);
      }
    }
  }

  // --- Which frames are missing ---------------------------------------------------------------

  lemma {:induction false} MarkedExactly(missing: Flags, first: u8, n: nat)
    requires n <= 0x100
    ensures forall i: u8 :: MarkMissing(missing, first, n)[i] <==> missing[i] || Sub8(i, first) < n
    decreases n
  {
    if n > 0 {
      hide Sub8, Add8;
      MarkedExactly(missing, first, n - 1);
      var last := Add8(first, n - 1);
      AddThenDistance(first, n - 1);
      forall i: u8 ensures MarkMissing(missing, first, n)[i] <==> missing[i] || Sub8(i, first) < n {
        DistanceThenAdd(i, first);
      }
    }
  }

  /** A frame whose number was accepted less than 500 ms before is only counted. */
  lemma DuplicateIsCounted(s: Stats, seqNo: u8, sent: i64, at: i64)
    ensures at - s.lastSeen[seqNo] < 500 ==>
              Accepted(s, seqNo, sent, at) == (s.(duplicates := s.duplicates + 1), false)
  {
    SatSubIsExactBelow(at, s.lastSeen[seqNo]);
  }

  /** The first frame that is not a duplicate sets the count going. */
  lemma FirstIsAccepted(s: Stats, seqNo: u8, sent: i64, at: i64)
    requires s.expected.None? && at - s.lastSeen[seqNo] >= 500
    ensures var (t, passed) := Accepted(s, seqNo, sent, at);
            passed && t.expected == Some(Add8(seqNo, 1)) && t.missing == s.missing && t.lost == s.lost
            && t.recovered == s.recovered && t.received == s.received + 1 && t.lastSequence == seqNo
  {
    SatSubIsExactBelow(at, s.lastSeen[seqNo]);
    hide Measure;
    MeasureKeepsCounts(s.(lastSeen := s.lastSeen[seqNo := at], expected := Some(Add8(seqNo, 1)),
                          received := s.received + 1, lastSequence := seqNo), sent, at);
  }

  /** What measuring a frame leaves alone. */
  lemma MeasureKeepsCounts(s: Stats, sent: i64, at: i64)
    ensures var t := Measure(s, sent, at);
            && t.expected == s.expected && t.missing == s.missing && t.lastSeen == s.lastSeen
            && t.lastSequence == s.lastSequence && t.received == s.received && t.lost == s.lost
            && t.recovered == s.recovered && t.duplicates == s.duplicates && t.clockBounds == s.clockBounds
  {
  }

  /** A frame 500 ms or more after the last of its number, `gap` places ahead of the expected
      one. Up to 126 ahead it is passed on, and exactly the first 64 of the numbers it jumps
      over become flagged. Farther ahead, which is behind, it is passed on if and only if its
      own number is flagged, and then exactly that flag is cleared. */
  lemma AcceptedExactly(s: Stats, seqNo: u8, sent: i64, at: i64)
    requires s.expected.Some? && at - s.lastSeen[seqNo] >= 500
    ensures var (t, passed) := Accepted(s, seqNo, sent, at);
            var e, gap := s.expected.value, Sub8(seqNo, s.expected.value);
            && t.lastSeen == s.lastSeen[seqNo := at] && t.duplicates == s.duplicates
            && (passed <==> gap <= 126 || s.missing[seqNo])
            && (passed ==> t.received == s.received + 1 && t.lastSequence == seqNo)
            && (gap <= 126 ==>
                  && t.expected == Some(Add8(seqNo, 1)) && t.lost == s.lost + gap && t.recovered == s.recovered
                  && forall n: u8 :: t.missing[n] <==> s.missing[n] || Sub8(n, e) < Min(gap, 64))
            && (gap > 126 && passed ==>
                  && t.expected == s.expected && t.lost == s.lost && t.recovered == s.recovered + 1
                  && forall n: u8 :: t.missing[n] <==> s.missing[n] && n != seqNo)
            && (!passed ==> t == s.(lastSeen := s.lastSeen[seqNo := at]))
  {
    SatSubIsExactBelow(at, s.lastSeen[seqNo]);
    var seen := s.(lastSeen := s.lastSeen[seqNo := at]);
    TrackExactly(seen, seqNo);
    hide Measure, Track, Sub8;
    if Track(seen, seqNo).Some? {
      var t := Track(seen, seqNo).value;
      MeasureKeepsCounts(t.(received := t.received + 1, lastSequence := seqNo), sent, at);
    }
  }

  lemma TrackExactly(s: Stats, seqNo: u8)
    requires s.expected.Some?
    ensures var e, gap := s.expected.value, Sub8(seqNo, s.expected.value);
            && (Track(s, seqNo).Some? <==> gap <= 126 || s.missing[seqNo])
            && (Track(s, seqNo).Some? ==>
                  var t := Track(s, seqNo).value;
                  && t == s.(expected := t.expected, missing := t.missing, lost := t.lost, recovered := t.recovered)
                  && (gap <= 126 ==>
                        && t.expected == Some(Add8(seqNo, 1)) && t.lost == s.lost + gap && t.recovered == s.recovered
                        && forall n: u8 :: t.missing[n] <==> s.missing[n] || Sub8(n, e) < Min(gap, 64))
                  && (gap > 126 ==>
                        && t.expected == s.expected && t.lost == s.lost && t.recovered == s.recovered + 1
                        && forall n: u8 :: t.missing[n] <==> s.missing[n] && n != seqNo))
  {
    var e, gap := s.expected.value, Sub8(seqNo, s.expected.value);
    AheadIsNewer(e, seqNo);
    MarkedExactly(s.missing, e, Min(gap, 64));
    hide SequenceIsNewer, MarkMissing;
  }

  lemma AheadIsNewer(e: u8, seqNo: u8)
    ensures SequenceIsNewer(Sub8(e, 1), seqNo) <==> Sub8(seqNo, e) <= 126
    ensures seqNo == e <==> Sub8(seqNo, e) == 0
  {
    StepBackAndForth(e);
    DistanceThenAdd(seqNo, e);
    hide Sub8, Add8;
    DistanceAfterMove(seqNo, Sub8(e, 1));
  }

  lemma StepBackAndForth(e: u8)
    ensures Add8(Sub8(e, 1), 1) == e && Add8(e, 0) == e && Sub8(e, e) == 0
  {
    assert Sub8(e, 1) == if e == 0 then 0xff else e - 1;
  }

  /** A number stays flagged over any run in which no frame of it is passed on. */
  lemma {:induction false} FlagStays(s: Stats, events: seq<Event>, n: u8)
    requires s.missing[n]
    requires forall i :: 0 <= i < |events| && IsAccepted(Run(s, events[..i]), events[i]) ==> events[i].seqNo != n
    ensures Run(s, events).missing[n]
    decreases |events|
  {
    if events != [] {
      var init, e := events[..|events| - 1], events[|events| - 1];
      forall i | 0 <= i < |init| && IsAccepted(Run(s, init[..i]), init[i]) ensures init[i].seqNo != n {
        assert init[..i] == events[..i];
      }
      FlagStays(s, init, n);
      assert IsAccepted(Run(s, init), e) ==> e.seqNo != n;
      hide IsAccepted;
      FlagStep(Run(s, init), e, n);
    }
  }

  lemma FlagStep(s: Stats, e: Event, n: u8)
    requires s.missing[n] && (IsAccepted(s, e) ==> e.seqNo != n)
    ensures Apply(s, e).missing[n]
  {
    if e.Receive? && e.at - s.lastSeen[e.seqNo] >= 500 {
      if s.expected.None? {
        FirstIsAccepted(s, e.seqNo, e.sent, e.at);
      } else {
        AcceptedExactly(s, e.seqNo, e.sent, e.at);
      }
      hide Accepted;
    } else if e.Receive? {
      DuplicateIsCounted(s, e.seqNo, e.sent, e.at);
    }
  }

  /** A late frame is recovered once: flagged when its successor jumped over it, it is still
      passed on after any run without it, provided it is behind the expected number and no
      duplicate then; the next copy of it is refused. */
  lemma LateFrameIsRecovered(s: Stats, ahead: Event, events: seq<Event>, late: Event, again: Event)
    requires s.expected.Some? && ahead.Receive? && late.Receive? && again.Receive? && again.seqNo == late.seqNo
    requires ahead.at - s.lastSeen[ahead.seqNo] >= 500
    requires var gap := Sub8(ahead.seqNo, s.expected.value);
             gap <= 126 && Sub8(late.seqNo, s.expected.value) < Min(gap, 64)
    requires forall i :: 0 <= i < |events| && IsAccepted(Run(Apply(s, ahead), events[..i]), events[i]) ==>
               events[i].seqNo != late.seqNo
    ensures var before := Run(Apply(s, ahead), events);
            before.expected.Some? && Sub8(late.seqNo, before.expected.value) > 126
            && late.at - before.lastSeen[late.seqNo] >= 500 ==>
              && IsAccepted(before, late)
              && Apply(before, late).recovered == before.recovered + 1
              && !Apply(before, late).missing[late.seqNo]
              && !IsAccepted(Apply(before, late), again)
  {
    AcceptedExactly(s, ahead.seqNo, ahead.sent, ahead.at);
    FlagStays(Apply(s, ahead), events, late.seqNo);
    var before := Run(Apply(s, ahead), events);
    if before.expected.Some? && Sub8(late.seqNo, before.expected.value) > 126
       && late.at - before.lastSeen[late.seqNo] >= 500 {
      AcceptedExactly(before, late.seqNo, late.sent, late.at);
      var after := Apply(before, late);
      hide Accepted, Run;
      if again.at - after.lastSeen[again.seqNo] >= 500 {
        AcceptedExactly(after, again.seqNo, again.sent, again.at);
      } else {
        DuplicateIsCounted(after, again.seqNo, again.sent, again.at);
      }
    }
  }

  /** A frame passed on is passed on again, when a copy of it comes 500 ms or more later,
      exactly if its number was still flagged from an earlier round of the 256 numbers:
      coming in order does not clear a flag. */
  lemma CopyIsPassedOnIff(s: Stats, first: Event, copy: Event)
    requires s.expected.Some? && first.Receive? && copy.Receive? && copy.seqNo == first.seqNo
    requires first.at - s.lastSeen[first.seqNo] >= 500 && copy.at - first.at >= 500
    requires Sub8(first.seqNo, s.expected.value) <= 126
    ensures IsAccepted(Apply(s, first), copy) <==> s.missing[first.seqNo]
  {
    JustBehind(first.seqNo);
    hide Accepted, Sub8, Add8;
    AcceptedExactly(s, first.seqNo, first.sent, first.at);
    var t := Apply(s, first);
    AcceptedExactly(t, copy.seqNo, copy.sent, copy.at);
  }

  lemma JustBehind(seqNo: u8)
    ensures Sub8(seqNo, Add8(seqNo, 1)) == 0xff
  {
  }

  // --- The duplicate filter -----------------------------------------------------------------

  lemma SatSubIsExactBelow(a: i64, b: i64)
    ensures SatSub(a, b) < 500 <==> a - b < 500
  {
  }

  /** No step lowers a number's last-seen time, whatever the clock does. */
  lemma SeenStep(s: Stats, e: Event, seqNo: u8)
    ensures Apply(s, e).lastSeen[seqNo] >= s.lastSeen[seqNo]
    ensures e.Receive? && !IsDuplicate(s, e.seqNo, e.at) ==> Apply(s, e).lastSeen[e.seqNo] == e.at
  {
  }

  lemma {:induction false} SeenSince(s: Stats, events: seq<Event>, i: nat, j: nat)
    requires i < j <= |events| && IsAccepted(Run(s, events[..i]), events[i])
    ensures Run(s, events[..j]).lastSeen[events[i].seqNo] >= events[i].at
    decreases j
  {
    hide Accepted;
    var before := Run(s, events[..j - 1]);
    assert events[..j][..j - 1] == events[..j - 1];
    assert Run(s, events[..j]) == Apply(before, events[j - 1]);
    SeenStep(before, events[j - 1], events[i].seqNo);
    if i == j - 1 {
      AcceptedIsNew(before, events[i]);
    } else {
      SeenSince(s, events, i, j - 1);
    }
  }

  lemma AcceptedIsNew(s: Stats, e: Event)
    requires IsAccepted(s, e)
    ensures !IsDuplicate(s, e.seqNo, e.at)
  {
  }

  /** Two frames passed on with the same sequence byte are at least 500 ms apart, even if
      the clock is set back in between. */
  lemma SameByteSpacing(s: Stats, events: seq<Event>, i: nat, j: nat)
    requires i < j < |events|
    requires IsAccepted(Run(s, events[..i]), events[i]) && IsAccepted(Run(s, events[..j]), events[j])
    requires events[i].seqNo == events[j].seqNo
    ensures events[j].at - events[i].at >= 500
  {
    SeenSince(s, events, i, j);
    var before := Run(s, events[..j]);
    AcceptedIsNew(before, events[j]);
    SatSubIsExactBelow(events[j].at, before.lastSeen[events[j].seqNo]);
  }

  // --- The latency bracket ------------------------------------------------------------------

  /** A measured frame: its times and the clock bounds in force when it arrived. */
  datatype Measured = Measured(at: i64, sent: i64, lo: i64, hi: i64)

  /** The frames measured since the last report. */
  function MeasuredSince(s: Stats, events: seq<Event>): seq<Measured> {
    if events == [] then []
    else
      var init, e := events[..|events| - 1], events[|events| - 1];
      var before := Run(s, init);
      if e.SendReport? then []
      else if IsAccepted(before, e) && before.clockBounds.Some?
      then MeasuredSince(s, init) + [Measured(e.at, e.sent, before.clockBounds.value.0, before.clockBounds.value.1)]
      else MeasuredSince(s, init)
  }

  function Low(m: Measured): i32 { ClampedDelay(m.at, m.sent, m.hi) }
  function High(m: Measured): i32 { ClampedDelay(m.at, m.sent, m.lo) }

  ghost predicate BoundsOrdered(s: Stats) {
    s.clockBounds.Some? ==> s.clockBounds.value.0 <= s.clockBounds.value.1 <= s.clockBounds.value.0 + 10_000
  }

  /** The bracket is the tightest one around the measured delays: empty without any, and
      otherwise from the least to the greatest of their extremes. */
  ghost predicate Brackets(s: Stats, ms: seq<Measured>) {
    if ms == [] then s.latencyMin == -1 && s.latencyMax == -1
    else
      && 0 <= s.latencyMin <= s.latencyMax <= 60_000
      && (forall i :: 0 <= i < |ms| ==> s.latencyMin <= Low(ms[i]) && High(ms[i]) <= s.latencyMax)
      && (exists i :: 0 <= i < |ms| && Low(ms[i]) == s.latencyMin)
      && (exists i :: 0 <= i < |ms| && High(ms[i]) == s.latencyMax)
  }

  /** A synchronisation result is taken exactly when it is an interval of at most 10 s, and
      changes nothing else. */
  lemma SyncTakenIff(s: Stats, lo: i64, hi: i64)
    ensures Sync(s, lo, hi) == s.(clockBounds := if lo <= hi <= lo + 10_000 then Some((lo, hi)) else s.clockBounds)
  {
  }

  lemma DelayFallsWithOffset(at: i64, sent: i64, lo: i64, hi: i64)
    requires lo <= hi
    ensures 0 <= ClampedDelay(at, sent, hi) <= ClampedDelay(at, sent, lo) <= 60_000
  {
  }

  lemma BracketGrows(s: Stats, ms: seq<Measured>, m: Measured)
    requires Brackets(s, ms) && m.lo <= m.hi && s.clockBounds == Some((m.lo, m.hi))
    ensures Brackets(Measure(s, m.sent, m.at), ms + [m])
  {
    DelayFallsWithOffset(m.at, m.sent, m.lo, m.hi);
    var t, all := Measure(s, m.sent, m.at), ms + [m];
    hide ClampedDelay, Transit, NextJitter;
    assert all[|ms|] == m;
    assert t.latencyMin == (if ms == [] then Low(m) else Min(s.latencyMin, Low(m)));
    assert t.latencyMax == Max(s.latencyMax, High(m));
    if ms != [] {
      var i :| 0 <= i < |ms| && Low(ms[i]) == s.latencyMin;
      var j :| 0 <= j < |ms| && High(ms[j]) == s.latencyMax;
      assert all[i] == ms[i] && all[j] == ms[j];
      assert Low(all[i]) == s.latencyMin && High(all[j]) == s.latencyMax;
      assert Low(all[|ms|]) == Low(m) && High(all[|ms|]) == High(m);
    }
  }

  lemma TrackKeepsLatency(s: Stats, seqNo: u8)
    requires Track(s, seqNo).Some?
    ensures var t := Track(s, seqNo).value;
            t.clockBounds == s.clockBounds && t.latencyMin == s.latencyMin && t.latencyMax == s.latencyMax
  {
  }

  lemma BracketsDependOnLatency(s: Stats, t: Stats, ms: seq<Measured>)
    requires Brackets(s, ms) && t.latencyMin == s.latencyMin && t.latencyMax == s.latencyMax
    ensures Brackets(t, ms)
  {
  }

  lemma StepBrackets(s: Stats, e: Event, ms: seq<Measured>)
    requires BoundsOrdered(s) && Brackets(s, ms)
    ensures BoundsOrdered(Apply(s, e))
    ensures e.SendReport? ==> Brackets(Apply(s, e), [])
    ensures !e.SendReport? && !(IsAccepted(s, e) && s.clockBounds.Some?) ==> Brackets(Apply(s, e), ms)
    ensures IsAccepted(s, e) && s.clockBounds.Some? ==>
              Brackets(Apply(s, e), ms + [Measured(e.at, e.sent, s.clockBounds.value.0, s.clockBounds.value.1)])
  {
    if IsAccepted(s, e) && s.clockBounds.Some? {
      var seen := s.(lastSeen := s.lastSeen[e.seqNo := e.at]);
      var t := Track(seen, e.seqNo).value;
      TrackKeepsLatency(seen, e.seqNo);
      var counted := t.(received := t.received + 1, lastSequence := e.seqNo);
      BracketsDependOnLatency(s, counted, ms);
      hide Track, Brackets, Measure, IsDuplicate;
      BracketGrows(counted, ms,
                   Measured(e.at, e.sent, s.clockBounds.value.0, s.clockBounds.value.1));
    }
  }

  /** Over every run of frames, synchronisations and reports the reported bracket is exactly
      that of the frames measured since the last report. */
  lemma {:induction false} BracketIsExact(events: seq<Event>)
    ensures BoundsOrdered(Run(NewStats(), events))
    ensures Brackets(Run(NewStats(), events), MeasuredSince(NewStats(), events))
    ensures forall i :: 0 <= i < |MeasuredSince(NewStats(), events)| ==>
              var m := MeasuredSince(NewStats(), events)[i]; m.lo <= m.hi <= m.lo + 10_000
    decreases |events|
  {
    if events != [] {
      var init, e := events[..|events| - 1], events[|events| - 1];
      BracketIsExact(init);
      hide Apply, Accepted, Brackets;
      StepBrackets(Run(NewStats(), init), e, MeasuredSince(NewStats(), init));
    }
  }

  /** Saturating at the ends of i64 leaves the clamped delay exact, unless the sum of send time
      and offset falls below the range and the receive time is within a minute of its lower
      end. */
  lemma SaturationIsHarmlessIff(at: i64, sent: i64, offset: i64)
    ensures ClampedDelay(at, sent, offset) == ClampInt(at - sent - offset, 0, 60_000)
            <==> (sent + offset >= MIN64 || at >= MIN64 + 60_000)
  {
  }

  /** Every measured frame arrived at least 500 ms after the epoch: the duplicate filter
      starts from 0 for every number and never goes back. */
  lemma {:induction false} MeasuredAfterEpoch(events: seq<Event>)
    ensures forall n: u8 :: Run(NewStats(), events).lastSeen[n] >= 0
    ensures forall i :: 0 <= i < |MeasuredSince(NewStats(), events)| ==>
              MeasuredSince(NewStats(), events)[i].at >= 500
    decreases |events|
  {
    if events != [] {
      var init, e := events[..|events| - 1], events[|events| - 1];
      var before := Run(NewStats(), init);
      MeasuredAfterEpoch(init);
      forall n: u8 ensures Apply(before, e).lastSeen[n] >= 0 {
        SeenStep(before, e, n);
      }
      if IsAccepted(before, e) {
        AcceptedIsNew(before, e);
        SatSubIsExactBelow(e.at, before.lastSeen[e.seqNo]);
      }
      hide Apply, IsAccepted, IsDuplicate;
    }
  }

  /** The bracket is sound: for any true clock offset within the bounds in force at a frame,
      the frame's exact one-way delay, clamped to a minute, lies in the bracket. */
  lemma LatencyBracketSound(events: seq<Event>, i: nat, offset: i64)
    requires i < |MeasuredSince(NewStats(), events)|
    requires var m := MeasuredSince(NewStats(), events)[i]; m.lo <= offset <= m.hi
    ensures var s, m := Run(NewStats(), events), MeasuredSince(NewStats(), events)[i];
            s.latencyMin <= ClampInt(m.at - m.sent - offset, 0, 60_000) <= s.latencyMax
  {
    BracketIsExact(events);
    MeasuredAfterEpoch(events);
    hide ClampedDelay, Run, MeasuredSince;
    BracketHolds(Run(NewStats(), events), MeasuredSince(NewStats(), events), i, offset);
  }

  lemma BracketHolds(s: Stats, ms: seq<Measured>, i: nat, offset: i64)
    requires Brackets(s, ms) && i < |ms| && ms[i].at >= 500 && ms[i].lo <= offset <= ms[i].hi
    ensures s.latencyMin <= ClampInt(ms[i].at - ms[i].sent - offset, 0, 60_000) <= s.latencyMax
  {
    hide ClampedDelay, ClampInt;
    SaturationIsHarmlessIff(ms[i].at, ms[i].sent, offset);
    DelayFallsWithOffset(ms[i].at, ms[i].sent, ms[i].lo, offset);
    DelayFallsWithOffset(ms[i].at, ms[i].sent, offset, ms[i].hi);
  }

  // --- The jitter estimate ------------------------------------------------------------------

  /** The offset assumed for the transit time lies within the clock bounds exactly when the
      bounds are not both beyond half the range of i64, where their sum saturates. */
  lemma MidpointInBoundsIff(lo: i64, hi: i64)
    requires lo <= hi <= lo + 10_000
    ensures lo <= Half(SatAdd(lo, hi)) <= hi <==> lo < 0x4000_0000_0000_0000 && hi >= -0x4000_0000_0000_0000
  {
  }

  /** Bounds the client can send for which it does not. */
  lemma MidpointOutOfBounds()
    ensures var b := 0x4000_0000_0000_0000; Sync(NewStats(), b, b).clockBounds == Some((b, b)) && Half(SatAdd(b, b)) < b
  {
  }

  /** When nothing saturates, the transit time is the middle of the delays for the two clock
      bounds, to half a millisecond. */
  lemma TransitIsMidway(at: i64, sent: i64, lo: i64, hi: i64)
    requires MIN64 <= lo + hi <= MAX64 && MIN64 <= sent + Half(lo + hi) <= MAX64
    requires MIN64 <= at - (sent + Half(lo + hi)) <= MAX64
    ensures Abs(2 * Transit(at, sent, lo, hi) - ((at - sent - lo) + (at - sent - hi))) <= 1
  {
  }

  /** Between two frames measured under the same clock bounds the transit difference is that
      of receive and send times alone: the assumed offset drops out. */
  lemma OffsetDropsOut(at: i64, sent: i64, at2: i64, sent2: i64, lo: i64, hi: i64)
    requires var m := Half(SatAdd(lo, hi));
             MIN64 <= sent + m <= MAX64 && MIN64 <= sent2 + m <= MAX64
             && MIN64 <= at - (sent + m) <= MAX64 && MIN64 <= at2 - (sent2 + m) <= MAX64
             && MIN64 <= (at2 - sent2) - (at - sent) <= MAX64
    ensures SatSub(Transit(at2, sent2, lo, hi), Transit(at, sent, lo, hi)) == (at2 - sent2) - (at - sent)
  {
  }

  function Power(x: real, n: nat): real { if n == 0 then 1.0 else x * Power(x, n - 1) }

  /** The estimate after `n` transit differences of `delta`. */
  function JitterAfter(jitter: real, delta: i64, n: nat): real
  {
    if n == 0 then jitter else NextJitter(JitterAfter(jitter, delta, n - 1), Some(0), delta)
  }

  /** Under a constant difference the distance of the estimate to it shrinks by one sixteenth
      a frame. */
  lemma {:induction false} JitterConverges(jitter: real, delta: i64, n: nat)
    requires -MAX64 <= delta
    ensures JitterAfter(jitter, delta, n) - Abs(delta) as real == Power(0.9375, n) * (jitter - Abs(delta) as real)
    decreases n
  {
    if n > 0 {
      JitterConverges(jitter, delta, n - 1);
      var d, p := jitter - Abs(delta) as real, Power(0.9375, n - 1);
      assert SatSub(delta, 0) == delta;
      assert JitterAfter(jitter, delta, n) - Abs(delta) as real
             == 0.9375 * (JitterAfter(jitter, delta, n - 1) - Abs(delta) as real);
      assert 0.9375 * (p * d) == (0.9375 * p) * d;
    }
  }

  /** Only a frame that is passed on with clock bounds known moves the estimate, by the
      difference of its transit time to that of the frame measured before. */
  lemma JitterMoves(s: Stats, e: Event)
    ensures var t := Apply(s, e);
            if IsAccepted(s, e) && s.clockBounds.Some? then
              var transit := Transit(e.at, e.sent, s.clockBounds.value.0, s.clockBounds.value.1);
              t.previousTransit == Some(transit) && t.jitter == NextJitter(s.jitter, s.previousTransit, transit)
            else t.previousTransit == s.previousTransit && t.jitter == s.jitter
    ensures s.previousTransit.None? ==> Apply(s, e).jitter == s.jitter
  {
    hide Transit, ClampedDelay, MarkMissing, SequenceIsNewer;
  }

  /** The estimate is never negative and never above a bound on the transit differences. */
  lemma {:induction false} JitterStaysInRange(s: Stats, events: seq<Event>, bound: real)
    requires 0.0 <= s.jitter <= bound
    requires forall i :: 0 <= i < |events| ==> TransitWithin(Run(s, events[..i]), events[i], bound)
    ensures 0.0 <= Run(s, events).jitter <= bound
    decreases |events|
  {
    if events != [] {
      var init, e := events[..|events| - 1], events[|events| - 1];
      forall i | 0 <= i < |init| ensures TransitWithin(Run(s, init[..i]), init[i], bound) {
        assert init[..i] == events[..i];
      }
      JitterStaysInRange(s, init, bound);
      assert TransitWithin(Run(s, init), e, bound);
      JitterApply(Run(s, init), e, bound);
    }
  }

  predicate TransitWithin(s: Stats, e: Event, bound: real) {
    e.Receive? && s.clockBounds.Some? && s.previousTransit.Some? ==>
      var (lo, hi) := s.clockBounds.value;
      Abs(SatSub(Transit(e.at, e.sent, lo, hi), s.previousTransit.value)) as real <= bound
  }

  lemma JitterApply(s: Stats, e: Event, bound: real)
    requires 0.0 <= s.jitter <= bound && TransitWithin(s, e, bound)
    ensures 0.0 <= Apply(s, e).jitter <= bound
  {
    hide Transit, ClampedDelay;
  }

  // --- The report ---------------------------------------------------------------------------

  /** The report is 26 bytes that read back to the counters, capped at 32 bits, the bracket
      and the rounded jitter. */
  lemma ReportReadsBack(s: Stats)
    ensures var d := StatsBytes(s);
            && |d| == 26 && d[0] == CONTROL_STATS && d[1] == s.lastSequence
            && ReadWord(d, 2, 4) == Some(Unsigned32(s.latencyMin)) && Signed32(Unsigned32(s.latencyMin)) == s.latencyMin
            && ReadWord(d, 6, 4) == Some(Unsigned32(s.latencyMax)) && Signed32(Unsigned32(s.latencyMax)) == s.latencyMax
            && ReadWord(d, 10, 4) == Some(Capped(s.received))
            && ReadWord(d, 14, 4) == Some(Capped(s.lost))
            && ReadWord(d, 18, 4) == Some(Capped(s.recovered))
            && ReadWord(d, 22, 4) == Some(JitterMs(s.jitter))
  {
    WordSizes();
    hide ToBytes, ReadWord, JitterMs, Capped;
    var d, head := StatsBytes(s), [CONTROL_STATS, s.lastSequence];
    var a, b := Unsigned32(s.latencyMin), Unsigned32(s.latencyMax);
    var c, l, r, j := Capped(s.received), Capped(s.lost), Capped(s.recovered), JitterMs(s.jitter);
    var ab, bb, cb, lb, rb, jb := ToBytes(a, 4), ToBytes(b, 4), ToBytes(c, 4), ToBytes(l, 4), ToBytes(r, 4), ToBytes(j, 4);
    ReadPushed(head, a, 4, bb + cb + lb + rb + jb);
    assert d == head + ab + (bb + cb + lb + rb + jb);
    ReadPushed(head + ab, b, 4, cb + lb + rb + jb);
    assert d == (head + ab) + bb + (cb + lb + rb + jb);
    ReadPushed(head + ab + bb, c, 4, lb + rb + jb);
    assert d == (head + ab + bb) + cb + (lb + rb + jb);
    ReadPushed(head + ab + bb + cb, l, 4, rb + jb);
    assert d == (head + ab + bb + cb) + lb + (rb + jb);
    ReadPushed(head + ab + bb + cb + lb, r, 4, jb);
    assert d == (head + ab + bb + cb + lb) + rb + jb;
    ReadPushed(head + ab + bb + cb + lb + rb, j, 4, []);
    assert d == (head + ab + bb + cb + lb + rb) + jb + [];
  }
}
