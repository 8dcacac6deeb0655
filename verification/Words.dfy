/** Machine words as ranges of the integers, with their wrap-around written out. */
module Words {
  type u8 = x: int | 0 <= x < 0x100
  type u16 = x: int | 0 <= x < 0x1_0000
  type u32 = x: int | 0 <= x < 0x1_0000_0000
  type u64 = x: int | 0 <= x < TWO64
  type i16 = x: int | -0x8000 <= x < 0x8000
  type i32 = x: int | -0x8000_0000 <= x < 0x8000_0000
  type i64 = x: int | MIN64 <= x <= MAX64

  const TWO64 := 0x1_0000_0000_0000_0000
  const MIN64 := -0x8000_0000_0000_0000
  const MAX64 := 0x7fff_ffff_ffff_ffff

  datatype Option<+T> = None | Some(value: T)

  /** One buffer of decoded samples. */
  type Pcm = seq<i16>

  /** uint8_t(n) */
  function Wrap8(n: int): u8 { n % 0x100 }

  /** uint8_t(a - b) */
  function Sub8(a: u8, b: u8): u8 { Wrap8(a - b) }

  /** uint8_t(a + n) */
  function Add8(a: u8, n: int): u8 { Wrap8(a + n) }

  /** Moving the origin forward by one brings every other byte one nearer. */
  lemma DistanceAfterMove(a: u8, origin: u8)
    ensures a != origin ==> Sub8(a, Add8(origin, 1)) == Sub8(a, origin) - 1
    ensures a == origin ==> Sub8(a, Add8(origin, 1)) == 0xff && Sub8(a, origin) == 0
  {
    assert Add8(origin, 1) == if origin == 0xff then 0 else origin + 1;
  }

  lemma WrapWhole(n: int, q: int)
    ensures Wrap8(n + 0x100 * q) == Wrap8(n)
  {
  }

  lemma ByteIsWrapped(a: u8)
    ensures Wrap8(a) == a
  {
  }

  lemma WrapPlus(a: int, n: int)
    ensures Wrap8(Wrap8(a) + n) == Wrap8(a + n)
  {
    WrapWhole(Wrap8(a) + n, a / 0x100);
    assert a == 0x100 * (a / 0x100) + Wrap8(a);
  }

  lemma WrapNext(n: int)
    ensures Wrap8(n + 1) == Add8(Wrap8(n), 1)
  {
    WrapWhole(Wrap8(n) + 1, n / 0x100);
    assert n == 0x100 * (n / 0x100) + Wrap8(n);
  }

  /** Differences may be taken before or after wrapping. */
  lemma WrapDifference(a: int, b: int)
    ensures Sub8(Wrap8(a), Wrap8(b)) == Wrap8(a - b)
  {
    WrapWhole(Wrap8(a) - Wrap8(b), a / 0x100 - b / 0x100);
    assert a == 0x100 * (a / 0x100) + Wrap8(a) && b == 0x100 * (b / 0x100) + Wrap8(b);
  }

  lemma AddThenDistance(origin: u8, n: nat)
    requires n < 0x100
    ensures Sub8(Add8(origin, n), origin) == n
  {
  }

  lemma DistanceThenAdd(a: u8, origin: u8)
    ensures Add8(origin, Sub8(a, origin)) == a
  {
  }

  function Min(a: int, b: int): int { if a < b then a else b }

  function Abs(x: int): nat { if x < 0 then -x else x }

  function Max(a: int, b: int): int { if a < b then b else a }
}
