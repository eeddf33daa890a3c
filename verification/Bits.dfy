/** Bitwise operations on naturals, and the two bit tricks of the hash table: the mask that wraps a
    probe around and the bit smearing that rounds a size up to a power of two. */
module Bits {
  import opened Bytes

  function Pow2(k: nat): (p: nat)
    ensures p >= 1
  {
    if k == 0 then 1 else 2 * Pow2(k - 1)
  }

  function And(x: nat, y: nat): (r: nat) {
    if x == 0 || y == 0 then 0 else x % 2 * (y % 2) + 2 * And(x / 2, y / 2)
  }

  function Or(x: nat, y: nat): (r: nat) {
    if x == 0 then y else if y == 0 then x
    else (if x % 2 == 1 || y % 2 == 1 then 1 else 0) + 2 * Or(x / 2, y / 2)
  }

  function ShiftRight(x: nat, k: nat): (r: nat)
    decreases k
  {
    if k == 0 then x else ShiftRight(x / 2, k - 1)
  }

  // ----- masking -----

  lemma SmallMultiple(m: nat, d: int)
    requires -(m as int) < m * d < m
    ensures d == 0
  {
    assert d >= 1 ==> m * d >= m;
    assert d <= -1 ==> m * d <= -(m as int);
  }

  lemma ModUnique(x: nat, m: nat, q: nat, r: nat)
    requires m >= 1 && x == m * q + r && r < m
    ensures x % m == r
  {
    var d := x / m - q;
    assert m * d == m * (x / m) - m * q;
    SmallMultiple(m, d);
  }

  lemma ModDouble(x: nat, p: nat)
    requires p >= 1
    ensures x % (2 * p) == x % 2 + 2 * (x / 2 % p)
  {
    var q, r := x / 2 / p, x / 2 % p;
    assert x == 2 * p * q + (x % 2 + 2 * r);
    ModUnique(x, 2 * p, q, x % 2 + 2 * r);
  }

  /** `x & (2^k - 1)` is the remainder modulo `2^k`. */
  lemma {:induction false} AndMask(x: nat, k: nat)
    ensures And(x, Pow2(k) - 1) == x % Pow2(k)
  {
    if k > 0 {
      AndMask(x / 2, k - 1);
      MaskDoubles(x, Pow2(k - 1), And(x / 2, Pow2(k - 1) - 1));
    }
  }

  lemma AndOdd(x: nat, p: nat)
    requires p >= 1
    ensures And(x, 2 * p - 1) == x % 2 + 2 * And(x / 2, p - 1)
  {}

  lemma MaskDoubles(x: nat, p: nat, r: nat)
    requires p >= 1 && r == And(x / 2, p - 1) == x / 2 % p
    ensures And(x, 2 * p - 1) == x % (2 * p)
  {
    AndOdd(x, p);
    ModDouble(x, p);
  }

  // ----- smearing -----

  lemma {:induction false} OrShift(x: nat, y: nat, k: nat)
    ensures ShiftRight(Or(x, y), k) == Or(ShiftRight(x, k), ShiftRight(y, k))
    decreases k
  {
    if k > 0 {
      OrShift(x / 2, y / 2, k - 1);
    }
  }

  lemma {:induction false} ShiftShift(x: nat, j: nat, k: nat)
    ensures ShiftRight(ShiftRight(x, j), k) == ShiftRight(x, j + k)
    decreases j
  {
    if j > 0 {
      ShiftShift(x / 2, j - 1, k);
    }
  }

  lemma {:induction false} ShiftOnes(j: nat, k: nat)
    requires k <= j
    ensures ShiftRight(Pow2(j) - 1, k) == Pow2(j - k) - 1
    decreases k
  {
    if k > 0 {
      assert (Pow2(j) - 1) / 2 == Pow2(j - 1) - 1;
      ShiftOnes(j - 1, k - 1);
    }
  }

  /** All-ones in the low `k` bits completes a value whose higher bits are `j` ones. */
  lemma {:induction false} OrFill(a: nat, k: nat, j: nat)
    requires ShiftRight(a, k) == Pow2(j) - 1
    ensures Or(a, Pow2(k) - 1) == Pow2(j + k) - 1
    decreases k
  {
    if k > 0 {
      OrFill(a / 2, k - 1, j);
      assert (Pow2(k) - 1) / 2 == Pow2(k - 1) - 1;
      assert a == 0 ==> Pow2(j) - 1 == 0 by { if a == 0 { ShiftZero(k); } }
      assert Pow2(j + k) == 2 * Pow2(j + (k - 1));
    }
  }

  lemma {:induction false} ShiftZero(k: nat)
    ensures ShiftRight(0, k) == 0
  {
    if k > 0 { ShiftZero(k - 1); }
  }

  function BitLength(v: nat): (n: nat) {
    if v == 0 then 0 else 1 + BitLength(v / 2)
  }

  lemma {:induction false} BitLengthBounds(v: nat)
    ensures v < Pow2(BitLength(v)) <= 2 * v + 1
  {
    if v > 0 {
      BitLengthBounds(v / 2);
      assert Pow2(BitLength(v)) == 2 * Pow2(BitLength(v / 2));
    }
  }

  lemma {:induction false} TopBit(v: nat)
    requires v > 0
    ensures ShiftRight(v, BitLength(v) - 1) == 1
  {
    if v == 1 {
      assert BitLength(1) == 1;
    } else {
      TopBit(v / 2);
      assert BitLength(v) == 1 + BitLength(v / 2);
    }
  }

  lemma {:induction false} BitLengthFits(v: nat, k: nat)
    requires v < Pow2(k)
    ensures BitLength(v) <= k
    decreases k
  {
    if v > 0 { BitLengthFits(v / 2, k - 1); }
  }

  /** The top `j` of `n` bits are ones. */
  predicate TopOnes(v: nat, n: nat, j: nat) {
    j <= n && ShiftRight(v, n - j) == Pow2(j) - 1
  }

  function Min(a: nat, b: nat): (m: nat) {
    if a <= b then a else b
  }

  lemma SmearCore(a: nat, k: nat, s: nat)
    requires k <= s && ShiftRight(a, k) == Pow2(s) - 1
    ensures Or(a, ShiftRight(a, s)) == Pow2(s + k) - 1
  {
    ShiftShift(a, k, s - k);
    ShiftOnes(s, s - k);
    OrFill(a, k, s);
  }

  lemma {:induction false} ShiftSmall(v: nat, n: nat, s: nat)
    requires v < Pow2(n) && n <= s
    ensures ShiftRight(v, s) == 0
    decreases s
  {
    if n > 0 {
      ShiftSmall(v / 2, n - 1, s - 1);
    } else {
      ShiftZero(s);
    }
  }

  lemma ShiftSwap(v: nat, i: nat, s: nat)
    ensures ShiftRight(ShiftRight(v, s), i) == ShiftRight(ShiftRight(v, i), s)
  {
    ShiftShift(v, s, i);
    ShiftShift(v, i, s);
  }

  lemma SmearLong(v: nat, n: nat, s: nat, j: nat)
    requires s <= j <= n && j <= 2 * s && TopOnes(v, n, s)
    ensures TopOnes(Or(v, ShiftRight(v, s)), n, j)
  {
    var i := n - j;
    calc {
      ShiftRight(Or(v, ShiftRight(v, s)), i);
      { OrShift(v, ShiftRight(v, s), i); }
      Or(ShiftRight(v, i), ShiftRight(ShiftRight(v, s), i));
      { ShiftSwap(v, i, s); }
      Or(ShiftRight(v, i), ShiftRight(ShiftRight(v, i), s));
      { ShiftShift(v, i, j - s); SmearCore(ShiftRight(v, i), j - s, s); }
      Pow2(j) - 1;
    }
  }

  /** One step `val |= val >> s` doubles the run of ones at the top. */
  lemma SmearStep(v: nat, n: nat, s: nat)
    requires s >= 1 && TopOnes(v, n, Min(s, n))
    ensures TopOnes(Or(v, ShiftRight(v, s)), n, Min(2 * s, n))
  {
    if s <= n {
      SmearLong(v, n, s, Min(2 * s, n));
    } else {
      assert v == Pow2(n) - 1;
      ShiftSmall(v, n, s);
      assert Or(v, 0) == v;
    }
  }

  method Smear(v: nat, s: nat, ghost n: nat) returns (w: nat)
    requires s >= 1 && TopOnes(v, n, Min(s, n))
    ensures TopOnes(w, n, Min(2 * s, n))
  {
    w := Or(v, ShiftRight(v, s));
    SmearStep(v, n, s);
  }

  ghost predicate IsPowerOf2(x: nat) {
    exists k: nat :: x == Pow2(k)
  }

  lemma Pow2At32()
    ensures Pow2(32) == 0x1_0000_0000
  {
    assert Pow2(8) == 256;
    assert Pow2(16) == 0x1_0000;
    assert Pow2(24) == 0x100_0000;
  }

  lemma {:induction false} Pow2Grows(a: nat, b: nat)
    requires a <= b
    ensures Pow2(a) <= Pow2(b)
  {
    if a < b { Pow2Grows(a, b - 1); }
  }

  lemma BitLength32(v: nat)
    requires 0x8000_0000 <= v < 0x1_0000_0000
    ensures BitLength(v) == 32
  {
    Pow2At32();
    BitLengthFits(v, 32);
    BitLengthBounds(v);
    if BitLength(v) < 32 { Pow2Grows(BitLength(v), 31); }
  }

  lemma TopOnesStart(v: nat)
    ensures TopOnes(v, BitLength(v), Min(1, BitLength(v)))
  {
    if v > 0 { TopBit(v); }
    assert Pow2(1) == 2 * Pow2(0) == 2;
  }

  /** Five steps turn a value of at most 32 bits into all-ones of the same length. */
  method SmearAll(v: nat) returns (w: nat)
    requires BitLength(v) <= 32
    ensures w + 1 == Pow2(BitLength(v))
  {
    ghost var n := BitLength(v);
    TopOnesStart(v);
    w := Smear(v, 1, n);
    w := Smear(w, 2, n);
    w := Smear(w, 4, n);
    w := Smear(w, 8, n);
    w := Smear(w, 16, n);
    assert Min(32, n) == n && TopOnes(w, n, n);
  }

  /** 32-bit rounding. Between 1 and 2^31 it gives the least power of two that is not smaller; outside
      that range the final increment wraps to zero. */
  method RoundUpPower2(value: nat) returns (r: nat)
    requires value <= U32_MAX
    ensures 1 <= value <= 0x8000_0000 ==> IsPowerOf2(r) && value <= r < 2 * value
    ensures value == 0 || value > 0x8000_0000 ==> r == 0
  {
    var v: nat := if value == 0 then U32_MAX else value - 1;
    Pow2At32();
    BitLengthFits(v, 32);
    BitLengthBounds(v);
    var w := SmearAll(v);
    if v >= 0x8000_0000 { BitLength32(v); }
    r := (w + 1) % 0x1_0000_0000;
  }

  lemma {:induction false} AndSelf(x: nat)
    ensures And(x, x) == x
  {
    if x > 0 { AndSelf(x / 2); }
  }

  /** `x & (x - 1)` is zero exactly for powers of two. */
  lemma {:induction false} PowerOf2Test(x: nat)
    requires x > 0
    ensures And(x, x - 1) == 0 <==> IsPowerOf2(x)
  {
    if x == 1 {
      assert x == Pow2(0);
    } else if x % 2 == 1 {
      AndSelf(x / 2);
      assert forall k: nat :: k > 0 ==> Pow2(k) % 2 == 0;
    } else {
      PowerOf2Test(x / 2);
      if IsPowerOf2(x / 2) {
        var k: nat :| x / 2 == Pow2(k);
        assert x == Pow2(k + 1);
      }
      if IsPowerOf2(x) {
        var k: nat :| x == Pow2(k);
        assert x / 2 == Pow2(k - 1);
      }
    }
  }

  lemma SmallPowers()
    ensures Pow2(0) == 1 && Pow2(1) == 2 && Pow2(2) == 4 && Pow2(3) == 8 && Pow2(4) == 16 && Pow2(5) == 32 && Pow2(6) == 64 && Pow2(7) == 128
    ensures Pow2(8) == 256 && Pow2(9) == 512 && Pow2(10) == 1024 && Pow2(11) == 2048 && Pow2(12) == 4096 && Pow2(13) == 8192
    ensures Pow2(14) == 16384 && Pow2(15) == 32768 && Pow2(16) == 65536
  {}

  lemma {:induction false} PowersGrow(j: nat, k: nat)
    requires j <= k
    ensures Pow2(j) <= Pow2(k)
    decreases k
  {
    if j < k { PowersGrow(j, k - 1); }
  }
}
