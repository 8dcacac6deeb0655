/** Bitwise operations of size_t, told on the natural numbers. */
module Bits {
  import opened Words

  function Pow2(k: nat): (p: nat)
    ensures p >= 1
  {
    if k == 0 then 1 else 2 * Pow2(k - 1)
  }

  function BitAnd(a: nat, b: nat): nat {
    if a == 0 || b == 0 then 0 else (a % 2) * (b % 2) + 2 * BitAnd(a / 2, b / 2)
  }

  function BitOr(a: nat, b: nat): nat {
    if a == 0 && b == 0 then 0 else Max(a % 2, b % 2) + 2 * BitOr(a / 2, b / 2)
  }

  /** n >> k */
  function ShiftRight(n: nat, k: nat): nat {
    QuotientNonNegative(n, Pow2(k));
    n / Pow2(k)
  }

  lemma QuotientNonNegative(n: nat, d: nat)
    requires d >= 1
    ensures n / d >= 0
  {
    var q := n / d;
    assert n == q * d + n % d;
    assert q <= -1 ==> q * d <= -1 * d;
  }

  lemma {:induction false} PowAdds(a: nat, b: nat)
    ensures Pow2(a + b) == Pow2(a) * Pow2(b)
    decreases a
  {
    if a > 0 {
      PowAdds(a - 1, b);
      assert Pow2(a + b) == 2 * Pow2(a + b - 1);
    }
  }

  lemma PowMonotone(a: nat, b: nat)
    requires a <= b
    ensures Pow2(a) <= Pow2(b)
    decreases b
  {
    if a < b { PowMonotone(a, b - 1); }
  }

  lemma Pow2Of64()
    ensures Pow2(64) == TWO64
  {
    assert Pow2(4) == 16;
    PowAdds(4, 4);
    PowAdds(8, 8);
    PowAdds(16, 16);
    PowAdds(32, 32);
  }

  /** Masking with 2^k - 1 is the remainder by 2^k. */
  lemma {:induction false} MaskIsRemainder(x: nat, k: nat)
    ensures BitAnd(x, Pow2(k) - 1) == x % Pow2(k)
    decreases k
  {
    if k == 0 || x == 0 {
    } else {
      var m := Pow2(k - 1);
      assert (Pow2(k) - 1) / 2 == m - 1 && (Pow2(k) - 1) % 2 == 1;
      MaskIsRemainder(x / 2, k - 1);
      HalfOfRemainder(x, m);
    }
  }

  lemma HalfOfRemainder(x: nat, m: nat)
    requires m >= 1
    ensures x % (2 * m) == x % 2 + 2 * ((x / 2) % m)
  {
    var q, r := (x / 2) / m, (x / 2) % m;
    assert x == x % 2 + 2 * (q * m + r);
    RemainderIs(x, 2 * m, q, x % 2 + 2 * r);
  }

  lemma RemainderIs(x: nat, m: nat, q: nat, r: nat)
    requires m >= 1 && x == q * m + r && r < m
    ensures x % m == r && x / m == q
  {
    var d := x / m - q;
    assert x == (x / m) * m + x % m;
    assert d * m == r - x % m;
    assert d >= 1 ==> d * m >= m;
    assert d <= -1 ==> d * m + m <= 0;
  }

  // --- Smearing the top bit downwards ---------------------------------------------------

  lemma {:induction false} OrBounds(a: nat, b: nat, k: nat)
    requires a < Pow2(k) && b < Pow2(k)
    ensures a <= BitOr(a, b) && b <= BitOr(a, b) < Pow2(k)
    decreases k
  {
    if k > 0 { OrBounds(a / 2, b / 2, k - 1); }
  }

  /** Bits above the `j` lowest pass unchanged through an OR with a smaller number. */
  lemma {:induction false} OrKeepsHigh(h: nat, r: nat, x: nat, j: nat)
    requires r < Pow2(j) && x < Pow2(j)
    ensures BitOr(h * Pow2(j) + r, x) == h * Pow2(j) + BitOr(r, x)
    decreases j
  {
    if j == 0 {
      assert h * Pow2(0) == h;
      OrZero(h);
    } else {
      var m := Pow2(j - 1);
      assert h * Pow2(j) == 2 * (h * m);
      OrKeepsHigh(h, r / 2, x / 2, j - 1);
      assert (h * Pow2(j) + r) / 2 == h * m + r / 2 && (h * Pow2(j) + r) % 2 == r % 2;
    }
  }

  lemma {:induction false} OrZero(a: nat)
    ensures BitOr(a, 0) == a
    decreases a
  {
    if a > 0 { OrZero(a / 2); }
  }

  /** The top `w` of the `t` bits of `n` are ones. */
  ghost predicate TopOnes(n: nat, t: nat, w: nat) {
    w <= t && Pow2(t) - Pow2(t - w) <= n < Pow2(t)
  }

  /** One step `n |= n >> w` doubles the run of ones at the top. */
  lemma SmearStep(n: nat, t: nat, w: nat)
    requires 1 <= w && TopOnes(n, t, w)
    ensures TopOnes(BitOr(n, ShiftRight(n, w)), t, Min(2 * w, t))
  {
    var j := t - w;
    var s := ShiftRight(n, w);
    PowAdds(w, j);
    var h := Pow2(w) - 1;
    assert h * Pow2(j) == Pow2(t) - Pow2(j);
    var r := n - h * Pow2(j);
    ShiftBounds(n, t, w);
    OrKeepsHigh(h, r, s, j);
    OrBounds(r, s, j);
  }

  lemma ShiftBounds(n: nat, t: nat, w: nat)
    requires 1 <= w && TopOnes(n, t, w)
    ensures ShiftRight(n, w) < Pow2(t - w)
    ensures ShiftRight(n, w) >= Pow2(t - w) - Pow2(t - Min(2 * w, t))
  {
    var j, p, e := t - w, Pow2(w), Pow2(t - Min(2 * w, t));
    PowAdds(w, j);
    assert e * p >= Pow2(j) by {
      if 2 * w <= t {
        PowAdds(w, j - w);
      } else {
        PowMonotone(j, w);
      }
    }
    QuotientBounds(n, p, Pow2(j), e);
  }

  lemma QuotientBounds(n: nat, p: nat, q: nat, e: nat)
    requires p >= 1 && e * p >= q && p * q - q <= n < p * q
    ensures q - e <= n / p < q
  {
    var s := n / p;
    assert s * p <= n < s * p + p;
    assert s >= q ==> s * p >= q * p;
    assert s + 1 <= q - e ==> (s + 1) * p <= (q - e) * p;
    assert (q - e) * p == q * p - e * p;
  }

  /** Every number has a bit length, and its top bit is set. */
  lemma {:induction false} TopBit(n: nat) returns (t: nat)
    ensures TopOnes(n, t, Min(1, t)) && (t == 0 <==> n == 0)
    decreases n
  {
    if n == 0 {
      t := 0;
    } else {
      var u := TopBit(n / 2);
      t := u + 1;
    }
  }

  /** p is the least power of two that is at least n. */
  ghost predicate IsLeastPowerAbove(p: nat, n: nat) {
    && (exists k: nat :: p == Pow2(k))
    && p >= n
    && (forall k: nat :: Pow2(k) >= n ==> p <= Pow2(k))
  }

  lemma LeastPower(n: nat, t: nat)
    requires n >= 1 && Pow2(t) >= n && (t == 0 || Pow2(t - 1) < n)
    ensures IsLeastPowerAbove(Pow2(t), n)
  {
    forall k: nat | Pow2(k) >= n ensures Pow2(t) <= Pow2(k) {
      if k < t { PowMonotone(k, t - 1); } else { PowMonotone(t, k); }
    }
  }

  /** size_t n + 1, which wraps. */
  function Increment(n: u64): u64 { (n + 1) % TWO64 }

  /** The bit-smearing computation of the capacity. It is right exactly up to 2^63; above,
      the final increment wraps to zero. */
  method NextPowerOf2(n: u64) returns (p: u64)
    ensures n == 0 ==> p == 1
    ensures 1 <= n <= 0x8000_0000_0000_0000 ==> IsLeastPowerAbove(p, n)
    ensures n > 0x8000_0000_0000_0000 ==> p == 0
  {
    if n == 0 { return 1; }
    hide Pow2, BitOr, ShiftRight, TopOnes;
    var m: nat := n - 1;
    ghost var t := TopBit(m);
    SmearOn(m, t, 1);
    m := BitOr(m, ShiftRight(m, 1));
    SmearOn(m, t, 2);
    m := BitOr(m, ShiftRight(m, 2));
    SmearOn(m, t, 4);
    m := BitOr(m, ShiftRight(m, 4));
    SmearOn(m, t, 8);
    m := BitOr(m, ShiftRight(m, 8));
    SmearOn(m, t, 16);
    m := BitOr(m, ShiftRight(m, 16));
    SmearOn(m, t, 32);
    m := BitOr(m, ShiftRight(m, 32));
    Smeared(n, m, t);
    p := Increment(m);
  }

  lemma BitLengthBelow64(n: nat, t: nat)
    requires n < TWO64 && TopOnes(n, t, Min(1, t))
    ensures t <= 64
    ensures n >= 0x8000_0000_0000_0000 <==> t == 64
  {
    Pow2Of64();
    assert Pow2(64) == 2 * Pow2(63);
    if t > 64 {
      PowMonotone(64, t - 1);
    } else if t < 64 {
      PowMonotone(t, 63);
    }
  }

  /** One smearing step, whether or not the run already covers every bit. */
  lemma SmearOn(n: nat, t: nat, w: nat)
    requires 1 <= w && TopOnes(n, t, Min(w, t))
    ensures TopOnes(BitOr(n, ShiftRight(n, w)), t, Min(2 * w, t))
  {
    if w <= t {
      SmearStep(n, t, w);
    } else {
      var s := ShiftRight(n, w);
      assert s * Pow2(w) <= n;
      assert s * Pow2(w) >= s;
      OrBounds(n, s, t);
    }
  }

  lemma Smeared(n: u64, m: nat, t: nat)
    requires n >= 1
    requires TopOnes(n - 1, t, Min(1, t)) && TopOnes(m, t, Min(64, t)) && (t == 0 <==> n == 1)
    ensures m < TWO64
    ensures 1 <= n <= 0x8000_0000_0000_0000 ==> IsLeastPowerAbove(Increment(m), n)
    ensures n > 0x8000_0000_0000_0000 ==> Increment(m) == 0
  {
    hide Pow2, TopOnes, IsLeastPowerAbove;
    Pow2Of64();
    BitLengthBelow64(n - 1, t);
    BitLengthIs(n - 1, t);
    AllOnes(m, t);
    if t < 64 {
      Doubles(63);
      PowMonotone(t, 63);
      LeastPower(n, t);
    }
  }

  lemma BitLengthIs(n: nat, t: nat)
    requires TopOnes(n, t, Min(1, t))
    ensures n < Pow2(t) && (t >= 1 ==> Pow2(t - 1) <= n)
  {
    if t >= 1 {
      Doubles(t - 1);
    }
  }

  lemma AllOnes(m: nat, t: nat)
    requires t <= 64 && TopOnes(m, t, Min(64, t))
    ensures m + 1 == Pow2(t)
  {
    assert Pow2(0) == 1;
  }

  lemma Doubles(k: nat)
    ensures Pow2(k + 1) == 2 * Pow2(k)
  {
  }
}
