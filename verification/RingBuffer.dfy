/** The ring buffer of ring_buffer.h: a power-of-two array addressed through a mask by two
    64-bit counters that only ever grow and wrap. */
module RingBuffer {
  import opened Words
  import opened Bits

  /** Which slot the sample with running number `x` lives in. */
  function Slot(x: nat, capacity: nat): nat
    requires capacity >= 1
  {
    x % capacity
  }

  lemma SlotBelow(x: nat, capacity: nat)
    requires capacity >= 1
    ensures Slot(x, capacity) < capacity
  {
  }

  /** Fewer than `capacity` consecutive samples never share a slot. */
  lemma SlotsDiffer(a: nat, b: nat, capacity: nat)
    requires capacity >= 1 && a < b < a + capacity
    ensures Slot(a, capacity) != Slot(b, capacity)
  {
    var p, q := a / capacity, b / capacity;
    assert a == p * capacity + a % capacity && b == q * capacity + b % capacity;
    ProductGap(p, q, capacity);
  }

  lemma ProductGap(p: nat, q: nat, c: nat)
    ensures if p < q then p * c + c <= q * c else q * c <= p * c
  {
    var d := q - p;
    assert q * c == p * c + d * c;
    assert d >= 1 ==> d * c >= c;
    assert d <= 0 ==> d * c <= 0;
  }

  /** The first chunk runs to the end of the array, the second starts at its beginning. */
  lemma SlotOfChunk(x: nat, j: nat, capacity: nat)
    requires capacity >= 1 && j < capacity
    ensures Slot(x + j, capacity)
            == if j < capacity - Slot(x, capacity) then Slot(x, capacity) + j
               else j - (capacity - Slot(x, capacity))
  {
    var q, r := x / capacity, x % capacity;
    assert x == q * capacity + r;
    if j < capacity - r {
      RemainderIs(x + j, capacity, q, r + j);
    } else {
      assert (q + 1) * capacity == q * capacity + capacity;
      RemainderIs(x + j, capacity, q + 1, r + j - capacity);
    }
  }

  lemma MultipleKeepsSlot(y: nat, z: nat, capacity: nat)
    requires capacity >= 1
    ensures Slot(y + z * capacity, capacity) == Slot(y, capacity)
  {
    var q := y / capacity;
    assert y == q * capacity + y % capacity;
    assert (q + z) * capacity == q * capacity + z * capacity;
    RemainderIs(y + z * capacity, capacity, q + z, y % capacity);
  }

  /** Wrapping a counter at 2^64 does not move its slot. */
  lemma WrapKeepsSlot(x: nat, bits: nat)
    requires bits <= 64
    ensures Slot(x % TWO64, Pow2(bits)) == Slot(x, Pow2(bits))
  {
    Pow2Of64();
    PowAdds(64 - bits, bits);
    RemainderKeepsSlot(x, TWO64, Pow2(64 - bits), Pow2(bits));
  }

  lemma RemainderKeepsSlot(x: nat, t: nat, m: nat, c: nat)
    requires t >= 1 && c >= 1 && t == m * c
    ensures Slot(x % t, c) == Slot(x, c)
  {
    var q := x / t;
    assert x == q * t + x % t;
    ProductAssociates(q, m, c);
    hide Slot;
    MultipleKeepsSlot(x % t, q * m, c);
  }

  lemma ProductAssociates(a: int, b: int, c: int)
    ensures a * (b * c) == (a * b) * c
  {
  }

  /** The `n` samples numbered from `start` on. */
  function Window(buf: seq<i16>, start: nat, n: nat): (w: seq<i16>)
    requires |buf| >= 1
    ensures |w| == n
  {
    seq(n, i requires 0 <= i < n => buf[Slot(start + i, |buf|)])
  }

  lemma WindowWraps(buf: seq<i16>, start: nat, n: nat, bits: nat)
    requires bits <= 64 && |buf| == Pow2(bits)
    ensures Window(buf, start % TWO64, n) == Window(buf, start, n)
  {
    hide Slot, Pow2;
    forall i | 0 <= i < n
      ensures Window(buf, start % TWO64, n)[i] == Window(buf, start, n)[i]
    {
      WrapKeepsSlot(start % TWO64 + i, bits);
      WrapKeepsSlot(start + i, bits);
      WrapSum(start, i);
    }
  }

  lemma WrapSum(a: nat, i: nat)
    ensures (a % TWO64 + i) % TWO64 == (a + i) % TWO64
  {
  }

  /** What the two copies of a write of `n` samples at running number `start` do. */
  ghost predicate CopiedIn(was: seq<i16>, now: seq<i16>, data: seq<i16>, start: nat, n: nat)
    requires |was| == |now| >= 1 && n <= |data|
  {
    var h := Slot(start, |was|);
    var first := Min(n, |was| - h);
    forall s :: 0 <= s < |was| ==>
      now[s] == if h <= s < h + first then data[s - h] else if s < n - first then data[first + s] else was[s]
  }

  /** They append to the window, whatever wrap the chunks take around the array's end. */
  lemma CopyAppends(was: seq<i16>, now: seq<i16>, data: seq<i16>, tail: nat, used: nat, n: nat)
    requires |was| == |now| >= 1 && n <= |data| && used + n <= |was|
    requires CopiedIn(was, now, data, tail + used, n)
    ensures Window(now, tail, used + n) == Window(was, tail, used) + data[..n]
  {
    forall i | 0 <= i < used + n
      ensures Window(now, tail, used + n)[i] == (Window(was, tail, used) + data[..n])[i]
    {
      if i < used {
        OldSampleKept(was, now, data, tail + used, n, tail + i);
      } else {
        NewSampleThere(was, now, data, tail + used, n, i - used);
      }
    }
  }

  lemma NewSampleThere(was: seq<i16>, now: seq<i16>, data: seq<i16>, start: nat, n: nat, j: nat)
    requires |was| == |now| >= 1 && j < n <= |data| && n <= |was| && CopiedIn(was, now, data, start, n)
    ensures now[Slot(start + j, |was|)] == data[j]
  {
    SlotBelow(start + j, |was|);
    SlotOfChunk(start, j, |was|);
    hide Slot;
  }

  lemma OldSampleKept(was: seq<i16>, now: seq<i16>, data: seq<i16>, start: nat, n: nat, x: nat)
    requires |was| == |now| >= 1 && n <= |data| && CopiedIn(was, now, data, start, n)
    requires x < start && start + n <= x + |was|
    ensures now[Slot(x, |was|)] == was[Slot(x, |was|)]
  {
    var h, s := Slot(start, |was|), Slot(x, |was|);
    var first := Min(n, |was| - h);
    SlotBelow(x, |was|);
    hide Slot;
    if h <= s < h + first {
      SlotOfChunk(start, s - h, |was|);
      SlotsDiffer(x, start + (s - h), |was|);
    } else if s < n - first {
      SlotOfChunk(start, first + s, |was|);
      SlotsDiffer(x, start + first + s, |was|);
    }
  }

  /** The two copies of a read of `n` samples from running number `start`. */
  lemma CopyTakes(buf: seq<i16>, data: seq<i16>, start: nat, n: nat)
    requires |buf| >= 1 && n <= |data| && n <= |buf|
    requires var t := Slot(start, |buf|); var first := Min(n, |buf| - t);
             && t < |buf|
             && (forall i :: 0 <= i < first ==> data[i] == buf[t + i])
             && (forall i :: first <= i < n ==> data[i] == buf[i - first])
    ensures data[..n] == Window(buf, start, n)
  {
    forall i | 0 <= i < n ensures data[i] == buf[Slot(start + i, |buf|)] {
      SlotOfChunk(start, i, |buf|);
    }
  }

  lemma WindowSplits(buf: seq<i16>, start: nat, n: nat, k: nat)
    requires |buf| >= 1 && k <= n
    ensures Window(buf, start, n)[..k] == Window(buf, start, k)
    ensures Window(buf, start, n)[k..] == Window(buf, start + k, n - k)
  {
    hide Slot;
  }

  /** size_t subtraction of the counters. */
  function Distance(head: u64, tail: u64): u64 { (head - tail) % TWO64 }

  /** size_t addition to a counter. */
  function Advance(counter: u64, n: u64): u64 { (counter + n) % TWO64 }

  lemma DistanceGrows(head: u64, tail: u64, n: nat)
    requires Distance(head, tail) + n < TWO64
    ensures Distance(Advance(head, n), tail) == Distance(head, tail) + n
    ensures head == (tail + Distance(head, tail)) % TWO64
  {
  }

  lemma DistanceShrinks(head: u64, tail: u64, n: nat)
    requires n <= Distance(head, tail)
    ensures Distance(head, Advance(tail, n)) == Distance(head, tail) - n
  {
  }

  class RingBuffer {
    const buffer: array<i16>
    const capacity: u64
    const mask: u64
    ghost const bits: nat
    var head: u64
    var tail: u64

    ghost predicate Valid()
      reads this
    {
      && bits <= 63
      && capacity == Pow2(bits)
      && mask == capacity - 1
      && buffer.Length == capacity
      && Distance(head, tail) <= capacity
    }

    /** The samples written and not yet read, oldest first. */
    ghost function Contents(): (s: seq<i16>)
      requires Valid()
      reads this, buffer
      ensures |s| == Distance(head, tail)
    {
      Window(buffer[..], tail, Distance(head, tail))
    }

    constructor (capacitySamples: u64)
      requires capacitySamples <= 0x8000_0000_0000_0000
      ensures Valid() && fresh(buffer) && Contents() == []
      ensures if capacitySamples == 0 then capacity == 1 else IsLeastPowerAbove(capacity, capacitySamples)
    {
      var c := NextPowerOf2(capacitySamples);
      assert exists k: nat :: c == Pow2(k) by {
        if capacitySamples == 0 { assert c == Pow2(0); }
      }
      ghost var k: nat :| c == Pow2(k);
      assert k <= 63 by {
        Pow2Of64();
        if k >= 64 { PowMonotone(64, k); }
      }
      capacity := c;
      mask := c - 1;
      bits := k;
      buffer := new i16[c](_ => 0);
      head := 0;
      tail := 0;
    }

    /** The masked index is the slot of the running number. */
    lemma MaskedIndex(counter: u64, x: nat)
      requires Valid() && counter == x % TWO64
      ensures BitAnd(counter, mask) == Slot(x, capacity)
    {
      MaskIsRemainder(counter, bits);
      WrapKeepsSlot(x, bits);
    }

    /** Called by the producer: takes as many of the first `count` samples as fit. */
    method Write(data: seq<i16>, count: u64) returns (written: u64)
      requires Valid() && count <= |data|
      modifies this`head, buffer
      ensures Valid()
      ensures written == Min(count, capacity - |old(Contents())|)
      ensures Contents() == old(Contents()) + data[..written]
    {
      hide Slot, BitAnd, Distance, Advance, Window, Pow2;
      var available := capacity - Distance(head, tail);
      written := Min(count, available);
      if written == 0 {
        return;
      }
      ghost var used := Distance(head, tail);
      ghost var was := buffer[..];
      DistanceGrows(head, tail, written);
      MaskedIndex(head, tail + used);
      SlotBelow(tail + used, capacity);
      var headIndex := BitAnd(head, mask);
      var firstChunk := Min(written, capacity - headIndex);
      var secondChunk := written - firstChunk;
      forall i | 0 <= i < firstChunk { buffer[headIndex + i] := data[i]; }
      if secondChunk > 0 {
        forall i | 0 <= i < secondChunk { buffer[i] := data[firstChunk + i]; }
      }
      assert CopiedIn(was, buffer[..], data, tail + used, written);
      CopyAppends(was, buffer[..], data, tail, used, written);
      head := Advance(head, written);
    }

    /** Called by the consumer: hands over the oldest samples, at most `count`. */
    method Read(data: array<i16>, count: u64) returns (got: u64)
      requires Valid() && count <= data.Length && data != buffer
      modifies this`tail, data
      ensures Valid()
      ensures got == Min(count, |old(Contents())|)
      ensures data[..got] == old(Contents())[..got]
      ensures data[got..] == old(data[got..])
      ensures Contents() == old(Contents())[got..]
    {
      hide Slot, BitAnd, Distance, Window, Pow2;
      var available := Distance(head, tail);
      got := Min(count, available);
      if got == 0 {
        return;
      }
      MaskedIndex(tail, tail);
      SlotBelow(tail, capacity);
      var tailIndex := BitAnd(tail, mask);
      var firstChunk := Min(got, capacity - tailIndex);
      var secondChunk := got - firstChunk;
      ghost var buf := buffer[..];
      forall i | 0 <= i < firstChunk { data[i] := buffer[tailIndex + i]; }
      if secondChunk > 0 {
        forall i | 0 <= i < secondChunk { data[firstChunk + i] := buffer[i]; }
      }
      assert buffer[..] == buf;
      CopyTakes(buf, data[..], tail, got);
      WindowSplits(buf, tail, available, got);
      WindowWraps(buf, tail + got, available - got, bits);
      DistanceShrinks(head, tail, got);
      tail := Advance(tail, got);
    }

    method AvailableToRead() returns (n: u64)
      requires Valid()
      ensures n == |Contents()|
    {
      n := Distance(head, tail);
    }
  }
}
