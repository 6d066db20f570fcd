/** Bitwise operations of unsigned C integers, on natural numbers. */
module Bits {

  const TWO_31: int := 0x8000_0000
  const TWO_32: int := 0x1_0000_0000
  const TWO_64: int := 0x1_0000_0000_0000_0000

  /** Unsigned wrap-around at m. */
  function Wrap(x: int, m: int): (r: int)
    requires m > 0
    ensures 0 <= r < m
    ensures 0 <= x < m ==> r == x
    decreases if x < 0 then m - x else x
  {
    if x < 0 then Wrap(x + m, m) else if x < m then x else Wrap(x - m, m)
  }

  /** The value of a 32-bit expression. */
  function U32(x: int): (r: nat)
    ensures r < TWO_32
    ensures -TWO_32 <= x < 2 * TWO_32 ==> r == if x < 0 then x + TWO_32 else if x < TWO_32 then x else x - TWO_32
  {
    Wrap(x, TWO_32)
  }

  /** The value of a 64-bit expression. */
  function U64(x: int): (r: nat)
    ensures r < TWO_64
    ensures -TWO_64 <= x < 0 ==> r == x + TWO_64
    ensures 0 <= x < TWO_64 ==> r == x
  {
    Wrap(x, TWO_64)
  }

  // ----- positions in a ring -----

  /** The number of entries between tail and head in a ring of the given size. */
  function Used(head: nat, tail: nat, max: nat): nat
    requires head < max && tail < max
  {
    if tail <= head then head - tail else head + max - tail
  }

  /** The i-th position counted from the tail. */
  function At(tail: nat, i: nat, max: nat): (k: nat)
    requires tail < max && i < max
    ensures k < max
  {
    if tail + i < max then tail + i else tail + i - max
  }

  // ----- powers of two and bitwise operations -----

  function Pow2(n: nat): (p: nat)
    ensures p >= 1
  {
    if n == 0 then 1 else 2 * Pow2(n - 1)
  }

  function And(x: nat, y: nat): nat {
    if x == 0 || y == 0 then 0
    else 2 * And(x / 2, y / 2) + (if x % 2 == 1 && y % 2 == 1 then 1 else 0)
  }

  function Or(x: nat, y: nat): nat
    decreases x + y
  {
    if x == 0 && y == 0 then 0
    else 2 * Or(x / 2, y / 2) + (if x % 2 == 1 || y % 2 == 1 then 1 else 0)
  }

  lemma {:induction false} Pow2Add(a: nat, b: nat)
    ensures Pow2(a + b) == Pow2(a) * Pow2(b)
  {
    if a > 0 {
      Pow2Add(a - 1, b);
      assert Pow2(a + b) == 2 * Pow2(a - 1 + b);
      assert Pow2(a) * Pow2(b) == 2 * (Pow2(a - 1) * Pow2(b));
    }
  }

  lemma {:induction false} Pow2Mono(a: nat, b: nat)
    requires a <= b
    ensures Pow2(a) <= Pow2(b)
    ensures a < b ==> 2 * Pow2(a) <= Pow2(b)
    decreases b
  {
    if a < b { Pow2Mono(a, b - 1); }
  }

  lemma {:induction false} Pow2At32()
    ensures Pow2(31) == TWO_31 && Pow2(32) == TWO_32
  {
    assert Pow2(8) == 256;
    Pow2Add(8, 8);
    Pow2Add(16, 16);
  }

  lemma AndOddMask(x: nat, p: nat)
    requires p >= 1
    ensures And(x, 2 * p - 1) == 2 * And(x / 2, p - 1) + x % 2
  {
    assert (2 * p - 1) / 2 == p - 1 && (2 * p - 1) % 2 == 1;
  }

  /** Masking with 2^k - 1 is the remainder. */
  lemma {:induction false} AndMask(x: nat, k: nat)
    ensures And(x, Pow2(k) - 1) == x % Pow2(k)
    decreases k
  {
    if k > 0 {
      AndMask(x / 2, k - 1);
      AndOddMask(x, Pow2(k - 1));
      ModDouble(x, Pow2(k - 1));
    }
  }

  /** The remainder by 2p, one bit at a time. */
  lemma ModDouble(x: nat, p: nat)
    requires p >= 1
    ensures x % (2 * p) == 2 * ((x / 2) % p) + x % 2
    ensures x / (2 * p) == (x / 2) / p
  {
    var q, r := (x / 2) / p, (x / 2) % p;
    assert x / 2 == q * p + r;
    assert x == (2 * p) * q + (2 * r + x % 2);
    DivMod(x, 2 * p, q, 2 * r + x % 2);
  }

  lemma DivMod(x: nat, d: nat, q: nat, r: nat)
    requires d >= 1 && x == d * q + r && r < d
    ensures x / d == q && x % d == r
  {
    var q', r' := x / d, x % d;
    assert x == d * q' + r';
    Gap(d, q, q');
  }

  /** Distinct multiples of d differ by at least d. */
  lemma Gap(d: nat, a: int, b: int)
    ensures a < b ==> d * b >= d * a + d
    ensures b < a ==> d * a >= d * b + d
  {
    if a < b {
      MulSub(d, b, a);
      MulMono(d, 1, b - a);
    } else if b < a {
      MulSub(d, a, b);
      MulMono(d, 1, a - b);
    }
  }

  lemma MulSub(d: int, a: int, b: int)
    ensures d * (a - b) == d * a - d * b
  {}

  lemma MulMono(d: nat, a: int, b: int)
    requires a <= b
    ensures d * a <= d * b
  {
    MulSub(d, b, a);
  }

  lemma {:induction false} OrZero(x: nat)
    ensures Or(x, 0) == x && Or(0, x) == x
  {
    if x > 0 { OrZero(x / 2); }
  }

  /** Setting the next bit of an all-ones number. */
  lemma {:induction false} OrNextBit(k: nat)
    ensures Or(Pow2(k) - 1, Pow2(k)) == Pow2(k + 1) - 1
  {
    if k == 0 {
      assert Or(0, 1) == 1 by { OrZero(1); }
    } else {
      OrNextBit(k - 1);
    }
  }

  function Shr(x: nat, d: nat): nat
    decreases d
  {
    if d == 0 then x else Shr(x / 2, d - 1)
  }

  /** The number of significant bits. */
  function Length(x: nat): nat {
    if x == 0 then 0 else 1 + Length(x / 2)
  }

  ghost predicate IsPow2(x: nat) {
    exists k :: 0 <= k && x == Pow2(k)
  }

  lemma {:induction false} ShrIsDiv(x: nat, d: nat)
    ensures Shr(x, d) == x / Pow2(d)
    decreases d
  {
    if d > 0 {
      ShrIsDiv(x / 2, d - 1);
      ModDouble(x, Pow2(d - 1));
    }
  }

  lemma {:induction false} ShrShr(x: nat, a: nat, b: nat)
    ensures Shr(Shr(x, a), b) == Shr(x, a + b)
    decreases a
  {
    if a > 0 { ShrShr(x / 2, a - 1, b); }
  }

  lemma {:induction false} LengthRange(x: nat)
    requires x > 0
    ensures Length(x) >= 1 && Pow2(Length(x) - 1) <= x < Pow2(Length(x)) && Shr(x, Length(x) - 1) == 1
  {
    if x > 1 { LengthRange(x / 2); }
  }

  lemma {:induction false} ShrSmall(x: nat, d: nat)
    requires x < Pow2(d)
    ensures Shr(x, d) == 0
    decreases d
  {
    if d > 0 { ShrSmall(x / 2, d - 1); }
  }

  lemma {:induction false} ShrOnes(m: nat, d: nat)
    requires d <= m
    ensures Shr(Pow2(m) - 1, d) == Pow2(m - d) - 1
    decreases d
  {
    if d > 0 {
      assert (Pow2(m) - 1) / 2 == Pow2(m - 1) - 1;
      ShrOnes(m - 1, d - 1);
    }
  }

  lemma {:induction false} OrShr(x: nat, y: nat, d: nat)
    ensures Shr(Or(x, y), d) == Or(Shr(x, d), Shr(y, d))
    decreases d
  {
    if d > 0 {
      assert Or(x, y) / 2 == Or(x / 2, y / 2);
      OrShr(x / 2, y / 2, d - 1);
    }
  }

  /** Filling the low e bits below m ones gives m + e ones. */
  lemma {:induction false} OrOnes(a: nat, m: nat, e: nat)
    requires Shr(a, e) == Pow2(m) - 1
    ensures Or(a, Pow2(e) - 1) == Pow2(m + e) - 1
    decreases e
  {
    if e == 0 {
      OrZero(a);
    } else {
      OrOnes(a / 2, m, e - 1);
      assert (Pow2(e) - 1) / 2 == Pow2(e - 1) - 1 && (Pow2(e) - 1) % 2 == 1;
    }
  }

  function Min(a: nat, b: nat): nat {
    if a <= b then a else b
  }

  /** An n-bit number whose top s bits (or all of them) are ones. */
  ghost predicate Filled(x: nat, n: nat, s: nat) {
    x < Pow2(n) && Shr(x, n - Min(s, n)) == Pow2(Min(s, n)) - 1
  }

  lemma SmearSmall(x: nat, n: nat, s: nat)
    requires x < Pow2(n)
    ensures Or(x, Shr(x, s)) < Pow2(n)
  {
    ShrShr(x, s, n);
    Pow2Mono(n, s + n);
    ShrSmall(x, s + n);
    OrSmall(x, Shr(x, s), n);
  }

  /** One `x |= x >> s` doubles the run of ones at the top of an n-bit number. */
  lemma {:induction false} Smear(x: nat, n: nat, s: nat)
    requires Filled(x, n, s) && s >= 1
    ensures Filled(Or(x, Shr(x, s)), n, 2 * s)
  {
    if n <= s {
      Pow2Mono(n, s);
      ShrSmall(x, s);
      OrZero(x);
    } else {
      var m := Min(2 * s, n);
      var e, d := m - s, n - m;
      OrShr(x, Shr(x, s), d);
      ShrShr(x, s, d);
      assert Shr(x, s + d) == Pow2(e) - 1 by {
        ShrShr(x, n - s, s - e);
        ShrOnes(s, s - e);
      }
      ShrShr(x, d, e);
      OrOnes(Shr(x, d), s, e);
      SmearSmall(x, n, s);
    }
  }

  lemma {:induction false} OrSmall(x: nat, y: nat, n: nat)
    requires x < Pow2(n) && Shr(y, n) == 0
    ensures Or(x, y) < Pow2(n)
    decreases n
  {
    if n == 0 {
      OrZero(0);
    } else {
      OrSmall(x / 2, y / 2, n - 1);
    }
  }

  lemma {:induction false} AndSelf(x: nat)
    ensures And(x, x) == x
  {
    if x > 0 { AndSelf(x / 2); }
  }

  /** The test `x & (x - 1)` singles out the powers of two. */
  lemma {:induction false} Pow2Test(x: nat)
    requires x > 0
    ensures And(x, x - 1) == 0 <==> IsPow2(x)
  {
    if x == 1 {
      assert Pow2(0) == 1;
    } else if x % 2 == 1 {
      AndSelf(x / 2);
      forall k | 0 <= k ensures Pow2(k) != x {
        assert k > 0 ==> Pow2(k) % 2 == 0;
      }
    } else {
      Pow2Test(x / 2);
      assert (x - 1) / 2 == x / 2 - 1;
      if k :| 0 <= k && x == Pow2(k) { assert x / 2 == Pow2(k - 1); }
      if k :| 0 <= k && x / 2 == Pow2(k) { assert x == Pow2(k + 1); }
    }
  }

  // ----- single bits -----

  predicate Bit(x: nat, i: nat) {
    Shr(x, i) % 2 == 1
  }

  lemma {:induction false} AndShr(x: nat, y: nat, d: nat)
    ensures Shr(And(x, y), d) == And(Shr(x, d), Shr(y, d))
    decreases d
  {
    if d > 0 {
      assert And(x, y) / 2 == And(x / 2, y / 2);
      AndShr(x / 2, y / 2, d - 1);
    }
  }

  lemma {:induction false} BitAnd(x: nat, y: nat, i: nat)
    ensures Bit(And(x, y), i) <==> Bit(x, i) && Bit(y, i)
  {
    AndShr(x, y, i);
  }

  lemma {:induction false} BitOr(x: nat, y: nat, i: nat)
    ensures Bit(Or(x, y), i) <==> Bit(x, i) || Bit(y, i)
  {
    OrShr(x, y, i);
  }

  lemma {:induction false} BitPow2(j: nat, i: nat)
    ensures Bit(Pow2(j), i) <==> i == j
    decreases i
  {
    if i > 0 {
      if j > 0 {
        BitPow2(j - 1, i - 1);
      } else {
        assert Pow2(0) / 2 == 0;
        ShrZero(i - 1);
      }
    }
  }

  lemma {:induction false} ShrZero(d: nat)
    ensures Shr(0, d) == 0
  {
    if d > 0 { ShrZero(d - 1); }
  }

  /** The bits of the n-bit complement. */
  lemma {:induction false} BitComplement(x: nat, n: nat, i: nat)
    requires x < Pow2(n) && i < n
    ensures Bit(Pow2(n) - 1 - x, i) <==> !Bit(x, i)
    decreases n
  {
    if i > 0 {
      BitComplement(x / 2, n - 1, i - 1);
      assert (Pow2(n) - 1 - x) / 2 == Pow2(n - 1) - 1 - x / 2;
    }
  }

  /** The test `(x & (1 << j)) >> j` reads bit j. */
  lemma {:induction false} BitTest(x: nat, j: nat)
    ensures Shr(And(x, Pow2(j)), j) == 0 <==> !Bit(x, j)
  {
    AndShr(x, Pow2(j), j);
    ShrSelf(j);
    AndOne(Shr(x, j));
  }

  lemma {:induction false} ShrSelf(j: nat)
    ensures Shr(Pow2(j), j) == 1
  {
    if j > 0 { ShrSelf(j - 1); }
  }

  lemma AndOne(a: nat)
    ensures And(a, 1) == a % 2
  {
    assert And(a / 2, 0) == 0;
  }

  lemma {:induction false} AndBound(x: nat, y: nat)
    ensures And(x, y) <= x
  {
    if x > 0 && y > 0 { AndBound(x / 2, y / 2); }
  }
}
