/** The reordering receive mode of main.cpp: the sequence tracker, the sorting area of
    256 slots, the forced skip and the release loop. */
module Reorder {
  import opened Words
  import opened Protocol

  /** One received packet. `pcm` is what the decoder makes of its payload, if it is asked;
      `low` is what the renderer's buffer-low flag reads when it is consulted. */
  datatype Arrival = Arrival(seqNo: u8, pcm: Option<Pcm>, low: bool)

  type Area = a: seq<Option<Pcm>> | |a| == 0x100 witness EmptyArea()

  function EmptyArea(): seq<Option<Pcm>> { seq(0x100, _ => None) }

  /** The receiver: the expected number, the sorting area and every buffer written so far. */
  datatype Rx = Rx(expected: u8, area: Area, out: seq<Pcm>)

  ghost function Occupied(area: Area): set<u8> {
    set i: u8 | area[i].Some?
  }

  predicate InWindow(s: Rx, a: Arrival) {
    IsNewer(Sub8(s.expected, 1), a.seqNo)
  }

  /** The packet that is expected: written at once if it decodes. */
  function TakeExpected(s: Rx, a: Arrival): Rx {
    if a.pcm.Some? then Rx(Add8(s.expected, 1), s.area, s.out + [a.pcm.value]) else s
  }

  /** Four or more ahead, or a starving renderer: give up on one packet. */
  function ForceSkip(s: Rx, a: Arrival): Rx {
    if Sub8(a.seqNo, s.expected) >= 4 || a.low then s.(expected := Add8(s.expected, 1)) else s
  }

  function Store(s: Rx, a: Arrival): Rx {
    if s.area[a.seqNo].None? && a.pcm.Some? then s.(area := s.area[a.seqNo := a.pcm]) else s
  }

  /** One turn of the release loop. */
  function ReleaseOne(s: Rx): Rx
    requires s.area[s.expected].Some?
  {
    Rx(Add8(s.expected, 1), s.area[s.expected := None], s.out + [s.area[s.expected].value])
  }

  lemma ReleaseFrees(s: Rx)
    requires s.area[s.expected].Some?
    ensures Occupied(ReleaseOne(s).area) == Occupied(s.area) - {s.expected}
    ensures Occupied(ReleaseOne(s).area) < Occupied(s.area)
  {
    assert s.expected in Occupied(s.area) && s.expected !in Occupied(ReleaseOne(s).area);
  }

  ghost function Drain(s: Rx): Rx
    decreases Occupied(s.area)
  {
    if s.area[s.expected].None? then s else ReleaseFrees(s); Drain(ReleaseOne(s))
  }

  ghost function Admit(s: Rx, a: Arrival): Rx {
    if a.seqNo == s.expected then TakeExpected(s, a) else Store(ForceSkip(s, a), a)
  }

  ghost function Step(s: Rx, a: Arrival): Rx {
    if InWindow(s, a) then Drain(Admit(s, a)) else s
  }

  ghost function Run(s: Rx, arrivals: seq<Arrival>): Rx {
    if arrivals == [] then s
    else Step(Run(s, arrivals[..|arrivals| - 1]), arrivals[|arrivals| - 1])
  }

  /** The receive loop's own state. */
  class Receiver {
    var expectedSeq: u8
    var sortingArea: array<Option<Pcm>>
    var written: seq<Pcm>

    ghost predicate Valid()
      reads this
    {
      sortingArea.Length == 0x100
    }

    ghost function Model(): Rx
      requires Valid()
      reads this, sortingArea
    {
      Rx(expectedSeq, sortingArea[..], written)
    }

    constructor ()
      ensures Valid() && fresh(sortingArea)
      ensures Model() == Rx(0, EmptyArea(), [])
    {
      expectedSeq := 0;
      sortingArea := new Option<Pcm>[0x100](_ => None);
      written := [];
    }

    /** One datagram through the loop. `clearsLow` reports the store to the buffer-low flag. */
    method Receive(a: Arrival) returns (clearsLow: bool)
      requires Valid()
      modifies this, sortingArea
      ensures Valid() && sortingArea == old(sortingArea)
      ensures Model() == Step(old(Model()), a)
      ensures clearsLow <==> a.seqNo == old(expectedSeq) && a.pcm.Some?
    {
      clearsLow := false;
      ghost var before := Model();
      WindowIsFourteenWide(expectedSeq, a.seqNo);
      if IsNewer(Sub8(expectedSeq, 1), a.seqNo) {
        if a.seqNo == expectedSeq {
          if a.pcm.Some? {
            written := written + [a.pcm.value];
            clearsLow := true;
            expectedSeq := Add8(expectedSeq, 1);
          }
        } else {
          if Sub8(a.seqNo, expectedSeq) >= 4 || a.low {
            expectedSeq := Add8(expectedSeq, 1);
          }
          if sortingArea[a.seqNo].None? {
            if a.pcm.Some? {
              sortingArea[a.seqNo] := a.pcm;
            }
          }
        }
        assert Model() == Admit(before, a);
        while sortingArea[expectedSeq].Some?
          invariant Valid() && sortingArea == old(sortingArea)
          invariant Drain(Model()) == Drain(Admit(before, a))
          decreases Occupied(Model().area)
        {
          ghost var s := Model();
          ReleaseFrees(s);
          var p := sortingArea[expectedSeq];
          written := written + [p.value];
          sortingArea[expectedSeq] := None;
          expectedSeq := Add8(expectedSeq, 1);
          assert Model() == ReleaseOne(s);
        }
      }
    }
  }
}
