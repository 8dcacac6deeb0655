/** The heartbeat replies of main.cpp: arrival times of the sequence numbers passed since the
    last reply, laid out in a fixed buffer behind a length prefix. */
module Heartbeat {
  import opened Words
  import opened Bits
  import opened BigEndian

  type Stamps = t: seq<u64> | |t| == 0x100 witness seq(0x100, _ => 0)

  /** The numbers from `start` up to but not including `end`, walking with wrap-around. */
  function Numbers(start: u8, end: u8): seq<u8> {
    seq<u8>(Sub8(end, start), i => Add8(start, i))
  }

  function EntryBytes(seqNo: u8, stamp: u64): Bytes { [seqNo] + ToBytes(stamp, 8) }

  function Body(numbers: seq<u8>, stamps: Stamps): Bytes {
    if numbers == [] then []
    else Body(numbers[..|numbers| - 1], stamps)
         + EntryBytes(numbers[|numbers| - 1], stamps[numbers[|numbers| - 1]])
  }

  /** A whole reply: total length, entries, server time. */
  function Reply(numbers: seq<u8>, stamps: Stamps, serverTime: u64): Bytes {
    ToBytes(10 + 9 * |numbers|, 2) + Body(numbers, stamps) + ToBytes(serverTime, 8)
  }

  lemma {:induction false} BodyLength(numbers: seq<u8>, stamps: Stamps)
    ensures |Body(numbers, stamps)| == 9 * |numbers|
    decreases |numbers|
  {
    if numbers != [] { BodyLength(numbers[..|numbers| - 1], stamps); }
  }

  /** (uint8_t)(v >> ((k - 1 - i) * 8)) is byte i of the big-endian form. */
  lemma {:induction false} ByteByShift(v: nat, k: nat, i: nat)
    requires i < k
    ensures ToBytes(v, k)[i] == ShiftRight(v, (k - 1 - i) * 8) % 0x100
    decreases k
  {
    if i == k - 1 {
      assert Pow2(0) == 1;
    } else {
      ByteByShift(v / 0x100, k - 1, i);
      ShiftByByte(v, (k - 2 - i) * 8);
    }
  }

  lemma ShiftByByte(v: nat, n: nat)
    ensures ShiftRight(v / 0x100, n) == ShiftRight(v, n + 8)
  {
    PowAdds(8, n);
    assert Pow2(8) == 0x100;
    DivideTwice(v, Pow2(n));
  }

  lemma DivideTwice(v: nat, p: nat)
    requires p >= 1
    ensures (v / 0x100) / p == v / (0x100 * p)
  {
    var w := v / 0x100;
    var q, r := w / p, w % p;
    assert w == q * p + r;
    assert 0x100 * (q * p) == q * (0x100 * p);
    RemainderIs(v, 0x100 * p, q, 0x100 * r + v % 0x100);
  }

  lemma NumbersNext(start: u8, cur: u8, end: u8)
    requires Sub8(cur, start) < Sub8(end, start)
    ensures Numbers(start, Add8(cur, 1)) == Numbers(start, cur) + [cur]
    ensures Sub8(Add8(cur, 1), start) == Sub8(cur, start) + 1
    ensures Sub8(end, Add8(cur, 1)) == Sub8(end, cur) - 1
  {
    hide Wrap8, Sub8;
    var d := Sub8(cur, start);
    DistanceThenAdd(cur, start);
    WrapPlus(start + d, 1);
    AddThenDistance(start, d + 1);
    DistanceAfterMove(end, cur);
  }

  class Reporter {
    const seqTimestamps: array<u64>
    var hbLastEndSeq: u8
    var expectedSeq: u8

    ghost predicate Valid() { seqTimestamps.Length == 0x100 }

    constructor ()
      ensures Valid() && fresh(seqTimestamps)
      ensures hbLastEndSeq == 0 && expectedSeq == 0 && forall i :: 0 <= i < 0x100 ==> seqTimestamps[i] == 0
    {
      seqTimestamps := new u64[0x100](_ => 0);
      hbLastEndSeq, expectedSeq := 0, 0;
    }

    /** After every datagram: the arrival time of its number, and the expected number. */
    method Arrived(seqNo: u8, now: u64, expected: u8)
      requires Valid()
      modifies this`expectedSeq, seqTimestamps
      ensures expectedSeq == expected
      ensures seqTimestamps[..] == old(seqTimestamps[..])[seqNo := Stamp(old(seqTimestamps[seqNo]), now)]
    {
      var prev := seqTimestamps[seqNo];
      if prev == 0 || (now - prev) % TWO64 > 300 {
        seqTimestamps[seqNo] := now;
      }
      expectedSeq := expected;
    }

    /** One heartbeat: the bytes sent. */
    method OnHeartbeat(serverTime: u64) returns (data: Bytes)
      requires Valid()
      modifies this`hbLastEndSeq
      ensures data == Reply(Numbers(old(hbLastEndSeq), expectedSeq), seqTimestamps[..], serverTime)
      ensures hbLastEndSeq == expectedSeq
      ensures |data| <= 2 + 255 * 9 + 8
    {
      hide ToBytes, Numbers, Body, EntryBytes, Sub8, Add8;
      var endSeq, startSeq := expectedSeq, hbLastEndSeq;
      var response := new u8[2 + 256 * 9 + 8](_ => 0);
      ghost var stamps := seqTimestamps[..];
      var offset := 2;
      var cur := startSeq;
      NothingYet(startSeq, endSeq, stamps);
      while cur != endSeq
        invariant Sub8(cur, startSeq) + Sub8(endSeq, cur) == Sub8(endSeq, startSeq)
        invariant offset == 2 + 9 * Sub8(cur, startSeq)
        invariant seqTimestamps[..] == stamps && fresh(response) && response.Length == 2 + 256 * 9 + 8
        invariant response[2..offset] == Body(Numbers(startSeq, cur), stamps)
        decreases Sub8(endSeq, cur)
      {
        DistanceOfOther(endSeq, cur);
        NumbersNext(startSeq, cur, endSeq);
        BodyNext(Numbers(startSeq, cur), cur, stamps);
        PutEntry(response, offset, cur, seqTimestamps[cur]);
        offset := offset + 9;
        cur := Add8(cur, 1);
      }
      AllWalked(startSeq, endSeq);
      data := Finish(response, offset, serverTime);
      hbLastEndSeq := endSeq;
    }

    /** The server's time, the length prefix, and the part of the buffer that is sent. */
    method Finish(response: array<u8>, end: nat, serverTime: u64) returns (data: Bytes)
      requires 2 <= end && end + 8 <= response.Length < 0x1_0000
      modifies response
      ensures data == ToBytes(end + 8, 2) + old(response[2..end]) + ToBytes(serverTime, 8)
    {
      hide ToBytes;
      ghost var body := response[2..end];
      PutWord(response, end, serverTime);
      assert response[2..end] == response[..end][2..] == body;
      var offset := end + 8;
      PrefixBytes(offset);
      response[0] := ShiftRight(offset, 8) % 0x100;
      response[1] := offset % 0x100;
      data := response[..offset];
      assert data == [response[0], response[1]] + response[2..end] + response[end..offset];
    }

    method PutEntry(response: array<u8>, offset: nat, seqNo: u8, stamp: u64)
      requires 2 <= offset && offset + 9 <= response.Length
      modifies response
      ensures response[2..offset + 9] == old(response[2..offset]) + EntryBytes(seqNo, stamp)
    {
      hide ToBytes;
      ghost var before := response[2..offset];
      response[offset] := seqNo;
      PutWord(response, offset + 1, stamp);
      assert response[2..offset + 1] == response[..offset + 1][2..] == before + [seqNo];
      assert response[2..offset + 9] == response[2..offset + 1] + response[offset + 1..offset + 9];
    }

    /** The loop that stores a 64-bit time, most significant byte first. */
    method PutWord(response: array<u8>, offset: nat, v: u64)
      requires offset + 8 <= response.Length
      modifies response
      ensures response[offset..offset + 8] == ToBytes(v, 8)
      ensures response[..offset] == old(response[..offset]) && response[offset + 8..] == old(response[offset + 8..])
    {
      hide ToBytes, ShiftRight;
      var i := 0;
      while i < 8
        invariant 0 <= i <= 8
        invariant response[offset..offset + i] == ToBytes(v, 8)[..i]
        invariant response[..offset] == old(response[..offset]) && response[offset + 8..] == old(response[offset + 8..])
      {
        ByteByShift(v, 8, i);
        response[offset + i] := ShiftRight(v, (7 - i) * 8) % 0x100;
        i := i + 1;
      }
    }
  }

  lemma NothingYet(start: u8, end: u8, stamps: Stamps)
    ensures Sub8(start, start) == 0 && Numbers(start, start) == [] && Body([], stamps) == []
  {
  }

  lemma DistanceOfOther(a: u8, b: u8)
    requires a != b
    ensures Sub8(a, b) >= 1
  {
  }

  lemma AllWalked(start: u8, end: u8)
    ensures |Numbers(start, end)| == Sub8(end, start) <= 255
  {
  }

  lemma BodyNext(numbers: seq<u8>, seqNo: u8, stamps: Stamps)
    ensures Body(numbers + [seqNo], stamps) == Body(numbers, stamps) + EntryBytes(seqNo, stamps[seqNo])
  {
    assert (numbers + [seqNo])[..|numbers|] == numbers;
  }

  lemma PrefixBytes(n: nat)
    requires n < 0x1_0000
    ensures ToBytes(n, 2) == [ShiftRight(n, 8) % 0x100, n % 0x100]
  {
    ByteByShift(n, 2, 0);
    ByteByShift(n, 2, 1);
    assert Pow2(0) == 1;
  }

  // --- Reading a reply back -----------------------------------------------------------------

  /** The entries of a reply body, as a client reads them: number and arrival time. */
  function ReadEntries(body: Bytes): seq<(u8, nat)>
    requires |body| % 9 == 0
  {
    if body == [] then []
    else ReadEntries(body[..|body| - 9]) + [(body[|body| - 9], FromBytes(body[|body| - 8..]))]
  }

  /** The numbers of a reply with their recorded times. */
  function Timed(numbers: seq<u8>, stamps: Stamps): seq<(u8, nat)> {
    seq(|numbers|, i requires 0 <= i < |numbers| => (numbers[i], stamps[numbers[i]]))
  }

  function Decode(data: Bytes): Option<(seq<(u8, nat)>, nat)> {
    if |data| < 10 || FromBytes(data[..2]) != |data| || (|data| - 10) % 9 != 0 then None
    else Some((ReadEntries(data[2..|data| - 8]), FromBytes(data[|data| - 8..])))
  }

  lemma {:induction false} BodyReadsBack(numbers: seq<u8>, stamps: Stamps)
    ensures |Body(numbers, stamps)| == 9 * |numbers|
    ensures ReadEntries(Body(numbers, stamps)) == Timed(numbers, stamps)
    decreases |numbers|
  {
    BodyLength(numbers, stamps);
    if numbers == [] {
      assert Body(numbers, stamps) == [] && Timed(numbers, stamps) == [];
    } else {
      hide Body, FromBytes, ReadEntries, Timed;
      BodyReadsBack(numbers[..|numbers| - 1], stamps);
      BodyLast(numbers, stamps);
      EntriesNext(Body(numbers, stamps));
      TimedNext(numbers, stamps);
    }
  }

  lemma TimedNext(numbers: seq<u8>, stamps: Stamps)
    requires numbers != []
    ensures var last := numbers[|numbers| - 1];
            Timed(numbers, stamps) == Timed(numbers[..|numbers| - 1], stamps) + [(last, stamps[last])]
  {
  }

  lemma EntriesNext(body: Bytes)
    requires body != [] && |body| % 9 == 0
    ensures (|body| - 9) % 9 == 0
    ensures ReadEntries(body)
            == ReadEntries(body[..|body| - 9]) + [(body[|body| - 9], FromBytes(body[|body| - 8..]))]
  {
  }

  lemma BodyLast(numbers: seq<u8>, stamps: Stamps)
    requires numbers != []
    ensures var init, last, body := numbers[..|numbers| - 1], numbers[|numbers| - 1], Body(numbers, stamps);
            && |body| == 9 * |numbers|
            && body[..|body| - 9] == Body(init, stamps)
            && body[|body| - 9] == last
            && FromBytes(body[|body| - 8..]) == stamps[last]
  {
    var init, last, body := numbers[..|numbers| - 1], numbers[|numbers| - 1], Body(numbers, stamps);
    BodyLength(numbers, stamps);
    BodyLength(init, stamps);
    WordSizes();
    FromToBytes(stamps[last], 8);
    hide ToBytes, FromBytes;
    assert body[|body| - 8..] == ToBytes(stamps[last], 8);
  }

  /** A reply of at most 255 entries decodes to exactly the numbers it was made from, their
      recorded times and the server's. */
  lemma ReplyDecodes(start: u8, end: u8, stamps: Stamps, serverTime: u64)
    ensures var numbers := Numbers(start, end);
            Decode(Reply(numbers, stamps, serverTime))
            == Some((Timed(numbers, stamps), serverTime))
  {
    hide FromBytes, Numbers, Body, ReadEntries, Timed, Reply, Sub8;
    var numbers := Numbers(start, end);
    AllWalked(start, end);
    BodyReadsBack(numbers, stamps);
    ReplyParts(numbers, stamps, serverTime);
    assert (10 + 9 * |numbers| - 10) % 9 == 0;
  }

  lemma ReplyParts(numbers: seq<u8>, stamps: Stamps, serverTime: u64)
    requires |numbers| <= 255
    ensures var data := Reply(numbers, stamps, serverTime);
            && |data| == 10 + 9 * |numbers|
            && FromBytes(data[..2]) == |data|
            && data[2..|data| - 8] == Body(numbers, stamps)
            && FromBytes(data[|data| - 8..]) == serverTime
  {
    BodyLength(numbers, stamps);
    WordSizes();
    FromToBytes(10 + 9 * |numbers|, 2);
    FromToBytes(serverTime, 8);
    hide ToBytes, FromBytes, Body;
    var data := Reply(numbers, stamps, serverTime);
    assert data[..2] == ToBytes(10 + 9 * |numbers|, 2);
    assert data[2..|data| - 8] == Body(numbers, stamps);
    assert data[|data| - 8..] == ToBytes(serverTime, 8);
  }

  // --- Tiling -------------------------------------------------------------------------------

  /** The sequence bytes of the packets numbered `from` to `to - 1`. */
  function Counting(from: nat, to: nat): seq<u8>
    requires from <= to
  {
    seq<u8>(to - from, i => Wrap8(from + i))
  }

  /** A reply covers the whole advance of the expected number exactly when that is below 256. */
  lemma ReplyCoversIff(from: nat, to: nat)
    requires from <= to
    ensures Numbers(Wrap8(from), Wrap8(to)) == Counting(from, to) <==> to - from < 0x100
  {
    WrapDifference(to, from);
    if to - from < 0x100 {
      assert Wrap8(to - from) == to - from;
      forall i | 0 <= i < to - from ensures Add8(Wrap8(from), i) == Wrap8(from + i) {
        WrapThenAdd(from, i);
      }
    } else {
      assert |Numbers(Wrap8(from), Wrap8(to))| < 0x100;
    }
  }

  lemma WrapThenAdd(a: int, n: int)
    ensures Add8(Wrap8(a), n) == Wrap8(a + n)
  {
  }

  /** Expected numbers at successive heartbeats, unwrapped, each fewer than 256 on. */
  predicate Paced(ends: seq<nat>) {
    forall i :: 0 <= i < |ends| ==> LastEnd(ends[..i]) <= ends[i] < LastEnd(ends[..i]) + 0x100
  }

  function LastEnd(ends: seq<nat>): nat { if ends == [] then 0 else ends[|ends| - 1] }

  /** All entries reported up to and including the last heartbeat. */
  function Reported(ends: seq<nat>): seq<u8> {
    if ends == [] then []
    else
      var init := ends[..|ends| - 1];
      Reported(init) + Numbers(Wrap8(LastEnd(init)), Wrap8(LastEnd(ends)))
  }

  /** At that pace the replies of a session tile: together they list 0, 1, 2, ... up to the
      last expected number, each number once per wrap, none missed. */
  lemma {:induction false} RepliesTile(ends: seq<nat>)
    requires Paced(ends)
    ensures Reported(ends) == Counting(0, LastEnd(ends))
    decreases |ends|
  {
    if ends != [] {
      var init := ends[..|ends| - 1];
      assert Paced(init) by {
        forall i | 0 <= i < |init| ensures LastEnd(init[..i]) <= init[i] < LastEnd(init[..i]) + 0x100 {
          assert init[..i] == ends[..i];
        }
      }
      RepliesTile(init);
      ReplyCoversIff(LastEnd(init), LastEnd(ends));
      CountingJoins(LastEnd(init), LastEnd(ends));
    }
  }

  lemma CountingJoins(a: nat, b: nat)
    requires a <= b
    ensures Counting(0, a) + Counting(a, b) == Counting(0, b)
  {
    hide Wrap8;
  }

  // --- Arrival times --------------------------------------------------------------------------

  /** The stored arrival time of a number after another arrival of it. */
  function Stamp(prev: u64, now: u64): u64 {
    if prev == 0 || (now - prev) % TWO64 > 300 then now else prev
  }

  function StampAll(prev: u64, times: seq<u64>): u64 {
    if times == [] then prev else Stamp(StampAll(prev, times[..|times| - 1]), times[|times| - 1])
  }

  /** Redundant copies of a packet leave the time of its first copy: from an empty or older
      stamp, any further arrivals within 300 ms of the first keep it. */
  lemma {:induction false} FirstArrivalKept(prev: u64, first: int, times: seq<u64>)
    requires times != [] && times[0] == first > 0 && (prev == 0 || prev < first - 300)
    requires forall i :: 0 <= i < |times| ==> first <= times[i] <= first + 300
    ensures StampAll(prev, times) == first
    decreases |times|
  {
    var init := times[..|times| - 1];
    if |times| > 1 {
      FirstArrivalKept(prev, first, init);
    } else {
      assert StampAll(prev, init) == prev;
    }
  }

  /** A later arrival replaces the stored time exactly when there was none, or more than 300 ms
      have passed, or the clock was set back. */
  lemma StampReplacedIff(prev: u64, now: u64)
    requires prev - now < TWO64 - 300
    ensures Stamp(prev, now) == if prev == 0 || now > prev + 300 || now < prev then now else prev
  {
  }
}
