/** The QUIC session's statistics: loss accounting over byte sequence numbers, the duplicate
    filter, the latency bracket in saturating 64-bit arithmetic, and the report. */
module SessionStats {
  import opened Words
  import opened BigEndian
  import opened QuicFrames

  const CONTROL_STATS: u8 := 0x83

  function ClampInt(x: int, lo: int, hi: int): int { if x < lo then lo else if x > hi then hi else x }
  function SatAdd(a: i64, b: i64): i64 { ClampInt(a + b, MIN64, MAX64) }
  function SatSub(a: i64, b: i64): i64 { ClampInt(a - b, MIN64, MAX64) }

  /** i64 division by two, towards zero. */
  function Half(x: i64): i64 { if x >= 0 then x / 2 else -(Abs(x) / 2) }

  /** f64::round, ties away from zero. */
  function Round(x: real): int { if x >= 0.0 then (x + 0.5).Floor else -((0.5 - x).Floor) }

  predicate SequenceIsNewer(last: u8, incoming: u8) {
    incoming != last && Sub8(incoming, last) < 128
  }

  type Flags = f: seq<bool> | |f| == 0x100 witness seq(0x100, _ => false)
  type Times = t: seq<i64> | |t| == 0x100 witness seq(0x100, _ => 0)

  datatype Stats = Stats(
    clockBounds: Option<(i64, i64)>, expected: Option<u8>, missing: Flags, lastSeen: Times, lastSequence: u8,
    received: nat, lost: nat, recovered: nat, duplicates: nat,
    latencyMin: i32, latencyMax: i32, previousTransit: Option<i64>, jitter: real)

  function NewStats(): Stats {
    Stats(None, None, seq(0x100, _ => false), seq(0x100, _ => 0), 0, 0, 0, 0, 0, -1, -1, None, 0.0)
  }

  /** Flags the `n` numbers from `first` on as missing. */
  function MarkMissing(missing: Flags, first: u8, n: nat): Flags {
    if n == 0 then missing else MarkMissing(missing, first, n - 1)[Add8(first, n - 1) := true]
  }

  /** What an arriving number does to the sequence state; None when it is refused. */
  function Track(s: Stats, seqNo: u8): Option<Stats> {
    if s.expected.None? then Some(s.(expected := Some(Add8(seqNo, 1))))
    else
      var e := s.expected.value;
      if seqNo == e then Some(s.(expected := Some(Add8(e, 1))))
      else if SequenceIsNewer(Sub8(e, 1), seqNo) then
        var gap := Sub8(seqNo, e);
        Some(s.(missing := MarkMissing(s.missing, e, Min(gap, 64)), lost := s.lost + gap,
                expected := Some(Add8(seqNo, 1))))
      else if s.missing[seqNo] then
        Some(s.(missing := s.missing[seqNo := false], recovered := s.recovered + 1))
      else None
  }

  /** The delay the code computes for an assumed clock offset, clamped to a minute. */
  function ClampedDelay(at: i64, sent: i64, offset: i64): i32 {
    ClampInt(SatSub(at, SatAdd(sent, offset)), 0, 60_000)
  }

  function Transit(at: i64, sent: i64, lo: i64, hi: i64): i64 {
    SatSub(at, SatAdd(sent, Half(SatAdd(lo, hi))))
  }

  /** One step of the jitter estimator of section 6.4.1 of RFC 3550. */
  function NextJitter(jitter: real, previous: Option<i64>, transit: i64): real {
    if previous.None? then jitter
    else
      var delta := Abs(SatSub(transit, previous.value)) as real;
      jitter + (delta - jitter) / 16.0
  }

  function Measure(s: Stats, sent: i64, at: i64): Stats {
    if s.clockBounds.None? then s
    else
      var (lo, hi) := s.clockBounds.value;
      var minimum, maximum := ClampedDelay(at, sent, hi), ClampedDelay(at, sent, lo);
      var transit := Transit(at, sent, lo, hi);
      s.(latencyMin := if s.latencyMin < 0 then minimum else Min(s.latencyMin, minimum),
         latencyMax := Max(s.latencyMax, maximum),
         jitter := NextJitter(s.jitter, s.previousTransit, transit),
         previousTransit := Some(transit))
  }

  predicate IsDuplicate(s: Stats, seqNo: u8, at: i64) {
    SatSub(at, s.lastSeen[seqNo]) < 500
  }

  /** The outcome of accept: the new statistics and whether the frame is passed on. */
  function Accepted(s: Stats, seqNo: u8, sent: i64, at: i64): (Stats, bool) {
    if IsDuplicate(s, seqNo, at) then (s.(duplicates := s.duplicates + 1), false)
    else
      var seen := s.(lastSeen := s.lastSeen[seqNo := at]);
      var tracked := Track(seen, seqNo);
      if tracked.None? then (seen, false)
      else
        var t := tracked.value;
        (Measure(t.(received := t.received + 1, lastSequence := seqNo), sent, at), true)
  }

  /** A clock synchronisation result is taken only when it is an interval of at most 10 s. */
  function Sync(s: Stats, lo: i64, hi: i64): Stats {
    if lo <= hi && SatSub(hi, lo) <= 10_000 then s.(clockBounds := Some((lo, hi))) else s
  }

  function Report(s: Stats): Stats { s.(latencyMin := -1, latencyMax := -1) }

  /** The jitter field of the report. */
  function JitterMs(jitter: real): (ms: nat)
    ensures ms <= 0x7fff_ffff
    ensures 0.0 <= jitter <= 0x7fff_ffff as real ==> jitter - 0.5 < ms as real <= jitter + 0.5
  {
    ClampInt(Round(jitter), 0, 0x7fff_ffff)
  }

  /** A counter as far as 32 bits go. */
  function Capped(n: nat): (c: u32)
    ensures n <= 0xffff_ffff ==> c == n
    ensures n > 0xffff_ffff ==> c == 0xffff_ffff
  {
    Min(n, 0xffff_ffff)
  }

  function StatsBytes(s: Stats): Bytes {
    PushI32(PushU32(PushU32(PushU32(PushI32(PushI32([CONTROL_STATS, s.lastSequence], s.latencyMin), s.latencyMax),
      Capped(s.received)), Capped(s.lost)), Capped(s.recovered)), JitterMs(s.jitter))
  }

  class SessionStats {
    var clockBounds: Option<(i64, i64)>
    var expected: Option<u8>
    const missing: array<bool>
    const lastSeen: array<i64>
    var lastSequence: u8
    var received: nat
    var lost: nat
    var recovered: nat
    var duplicates: nat
    var latencyMin: i32
    var latencyMax: i32
    var previousTransit: Option<i64>
    var jitter: real

    ghost predicate Valid() { missing.Length == 0x100 && lastSeen.Length == 0x100 }

    ghost function Model(): Stats
      requires Valid()
      reads this, missing, lastSeen
    {
      Stats(clockBounds, expected, missing[..], lastSeen[..], lastSequence, received, lost, recovered, duplicates,
            latencyMin, latencyMax, previousTransit, jitter)
    }

    constructor ()
      ensures Valid() && fresh(missing) && fresh(lastSeen)
      ensures Model() == NewStats()
    {
      clockBounds, expected := None, None;
      missing := new bool[0x100](_ => false);
      lastSeen := new i64[0x100](_ => 0);
      lastSequence := 0;
      received, lost, recovered, duplicates := 0, 0, 0, 0;
      latencyMin, latencyMax := -1, -1;
      previousTransit := None;
      jitter := 0.0;
    }

    method Accept(frame: AudioFrame, receivedAt: i64) returns (passed: bool)
      requires Valid()
      modifies this, missing, lastSeen
      ensures (Model(), passed) == Accepted(old(Model()), frame.sequence, frame.sentAt, receivedAt)
    {
      hide Track, Transit, ClampedDelay, NextJitter, SatSub;
      var index := frame.sequence;
      if SatSub(receivedAt, lastSeen[index]) < 500 {
        duplicates := duplicates + 1;
        return false;
      }
      lastSeen[index] := receivedAt;
      passed := TrackSequence(index);
      if !passed {
        return;
      }
      received := received + 1;
      lastSequence := frame.sequence;
      if clockBounds.Some? {
        var (lo, hi) := clockBounds.value;
        var minimum := ClampedDelay(receivedAt, frame.sentAt, hi);
        var maximum := ClampedDelay(receivedAt, frame.sentAt, lo);
        latencyMin := if latencyMin < 0 then minimum else Min(latencyMin, minimum);
        latencyMax := Max(latencyMax, maximum);
        var transit := Transit(receivedAt, frame.sentAt, lo, hi);
        jitter := NextJitter(jitter, previousTransit, transit);
        previousTransit := Some(transit);
      }
    }

    /** The match on the expected sequence number. */
    method TrackSequence(seqNo: u8) returns (tracked: bool)
      requires Valid()
      modifies this, missing
      ensures tracked <==> Track(old(Model()), seqNo).Some?
      ensures Model() == if tracked then Track(old(Model()), seqNo).value else old(Model())
    {
      if expected.None? {
        expected := Some(Add8(seqNo, 1));
        return true;
      }
      var e := expected.value;
      if seqNo == e {
        expected := Some(Add8(e, 1));
        return true;
      }
      if SequenceIsNewer(Sub8(e, 1), seqNo) {
        var gap := Sub8(seqNo, e);
        ghost var was := missing[..];
        var n := Min(gap, 64);
        var offset := 0;
        while offset < n
          invariant 0 <= offset <= n
          invariant missing[..] == MarkMissing(was, e, offset)
          invariant Model() == old(Model()).(missing := missing[..])
        {
          missing[Add8(e, offset)] := true;
          offset := offset + 1;
        }
        lost := lost + gap;
        expected := Some(Add8(seqNo, 1));
        return true;
      }
      if missing[seqNo] {
        missing[seqNo] := false;
        recovered := recovered + 1;
        return true;
      }
      return false;
    }

    /** A synchronisation result that arrived on the control stream. */
    method SetClockBounds(lo: i64, hi: i64)
      requires Valid()
      modifies this
      ensures Model() == Sync(old(Model()), lo, hi)
    {
      if lo <= hi && SatSub(hi, lo) <= 10_000 {
        clockBounds := Some((lo, hi));
      }
    }

    method StatsPayload() returns (data: Bytes)
      requires Valid()
      modifies this
      ensures data == StatsBytes(old(Model()))
      ensures Model() == Report(old(Model()))
    {
      data := [CONTROL_STATS, lastSequence];
      data := PushI32(data, latencyMin);
      data := PushI32(data, latencyMax);
      data := PushU32(data, Capped(received));
      data := PushU32(data, Capped(lost));
      data := PushU32(data, Capped(recovered));
      data := PushI32(data, JitterMs(jitter));
      latencyMin := -1;
      latencyMax := -1;
    }
  }
}
