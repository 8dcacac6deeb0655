/** Big-endian integers in byte sequences: what `push_*` appends and `read_*` reads. */
module BigEndian {
  import opened Words

  type Bytes = seq<u8>

  function Pow256(k: nat): (p: nat)
    ensures p >= 1
  {
    if k == 0 then 1 else 256 * Pow256(k - 1)
  }

  /** The `k` low bytes of `n`, most significant first. */
  function ToBytes(n: nat, k: nat): (b: Bytes)
    ensures |b| == k
  {
    if k == 0 then [] else ToBytes(n / 256, k - 1) + [n % 256]
  }

  function FromBytes(b: Bytes): nat {
    if b == [] then 0 else 256 * FromBytes(b[..|b| - 1]) + b[|b| - 1]
  }

  lemma LastByte(high: nat, low: u8, k: nat)
    ensures ToBytes(256 * high + low, k + 1) == ToBytes(high, k) + [low]
    ensures Pow256(k + 1) == 256 * Pow256(k)
  {
    assert (256 * high + low) / 256 == high && (256 * high + low) % 256 == low;
  }

  lemma JoinByte(b: Bytes, low: u8)
    ensures FromBytes(b + [low]) == 256 * FromBytes(b) + low
    ensures FromBytes([]) == 0 && Pow256(0) == 1
  {
    assert (b + [low])[..|b|] == b;
  }

  lemma {:induction false} FromToBytes(n: nat, k: nat)
    requires n < Pow256(k)
    ensures FromBytes(ToBytes(n, k)) == n
    decreases k
  {
    hide ToBytes, FromBytes, Pow256;
    var high, low := n / 256, n % 256;
    JoinByte(ToBytes(high, if k == 0 then 0 else k - 1), low);
    if k == 0 {
      assert ToBytes(n, 0) == [];
    } else {
      LastByte(high, low, k - 1);
      FromToBytes(high, k - 1);
    }
  }

  lemma {:induction false} ToFromBytes(b: Bytes)
    ensures FromBytes(b) < Pow256(|b|)
    ensures ToBytes(FromBytes(b), |b|) == b
    decreases |b|
  {
    hide ToBytes, FromBytes, Pow256;
    if b == [] {
      JoinByte([], 0);
    } else {
      var init, low := b[..|b| - 1], b[|b| - 1];
      assert b == init + [low];
      ToFromBytes(init);
      JoinByte(init, low);
      LastByte(FromBytes(init), low, |init|);
    }
  }

  lemma WordSizes()
    ensures Pow256(1) == 0x100 && Pow256(2) == 0x1_0000 && Pow256(4) == 0x1_0000_0000 && Pow256(8) == TWO64
  {
    assert Pow256(4) == 0x1_0000_0000;
    assert Pow256(8) == 256 * (256 * (256 * (256 * Pow256(4))));
  }

  /** Two's complement. */
  function Unsigned64(x: i64): u64 { if x < 0 then x + TWO64 else x }
  function Signed64(n: u64): i64 { if n > MAX64 then n - TWO64 else n }
  function Unsigned32(x: i32): u32 { if x < 0 then x + 0x1_0000_0000 else x }
  function Signed32(n: u32): i32 { if n >= 0x8000_0000 then n - 0x1_0000_0000 else n }

  /** The casts keep the number modulo the word, and undo one another. */
  lemma CastsKeepValue(x: i64, y: i32)
    ensures Unsigned64(x) == x % TWO64 && Signed64(Unsigned64(x)) == x
    ensures Unsigned32(y) == y % 0x1_0000_0000 && Signed32(Unsigned32(y)) == y
  {
  }

  function PushU16(out: Bytes, v: u16): Bytes { out + ToBytes(v, 2) }
  function PushU32(out: Bytes, v: u32): Bytes { out + ToBytes(v, 4) }
  function PushI32(out: Bytes, v: i32): Bytes { out + ToBytes(Unsigned32(v), 4) }
  function PushU64(out: Bytes, v: u64): Bytes { out + ToBytes(v, 8) }
  function PushI64(out: Bytes, v: i64): Bytes { out + ToBytes(Unsigned64(v), 8) }

  /** data.get(offset..offset + k), as an integer; None out of range. */
  function ReadWord(data: Bytes, offset: nat, k: nat): Option<nat> {
    if offset + k <= |data| then Some(FromBytes(data[offset..offset + k])) else None
  }

  /** Reading at the place a word was pushed gives the word back. */
  lemma ReadPushed(before: Bytes, n: nat, k: nat, after: Bytes)
    requires n < Pow256(k)
    ensures ReadWord(before + ToBytes(n, k) + after, |before|, k) == Some(n)
  {
    FromToBytes(n, k);
    var data := before + ToBytes(n, k) + after;
    assert data[|before|..|before| + k] == ToBytes(n, k);
  }

  lemma ReadFits(data: Bytes, offset: nat, k: nat)
    requires offset + k <= |data|
    ensures ReadWord(data, offset, k).Some? && ReadWord(data, offset, k).value < Pow256(k)
    ensures ToBytes(ReadWord(data, offset, k).value, k) == data[offset..offset + k]
  {
    ToFromBytes(data[offset..offset + k]);
  }
}
