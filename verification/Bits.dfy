/** Results that may be absent. */
module Options {
  datatype Option<+T> = None | Some(value: T)
}

/** Machine words as bounded integers, with C's bit operators defined digit by digit. */
module Bits {

  /** How many 32-bit and 64-bit words there are. */
  const WORDS32: nat := 0x1_0000_0000
  const WORDS64: nat := 0x1_0000_0000_0000_0000

  type byte = x: int | 0 <= x < 256
  type u32 = x: int | 0 <= x < 0x1_0000_0000
  type u64 = x: int | 0 <= x < 0x1_0000_0000_0000_0000

  /** uint32_t arithmetic on an exact result. */
  function Wrap32(x: int): (r: u32)
    ensures 0 <= x < 0x1_0000_0000 ==> r == x
    ensures -0x1_0000_0000 <= x < 0 ==> r == x + 0x1_0000_0000
    ensures 0x1_0000_0000 <= x < 0x2_0000_0000 ==> r == x - 0x1_0000_0000
  {
    x % 0x1_0000_0000
  }

  /** uint64_t arithmetic on an exact result. */
  function Wrap64(x: int): (r: u64)
    ensures 0 <= x < 0x1_0000_0000_0000_0000 ==> r == x
    ensures -0x1_0000_0000_0000_0000 <= x < 0 ==> r == x + 0x1_0000_0000_0000_0000
    ensures 0x1_0000_0000_0000_0000 <= x < 0x2_0000_0000_0000_0000 ==> r == x - 0x1_0000_0000_0000_0000
  {
    x % 0x1_0000_0000_0000_0000
  }

  function Pow2(n: nat): (p: nat)
    ensures p >= 1
  {
    if n == 0 then 1 else 2 * Pow2(n - 1)
  }

  /** The C operator `a & b`. */
  function And(a: nat, b: nat): nat {
    if a == 0 || b == 0 then 0
    else 2 * And(a / 2, b / 2) + (if a % 2 == 1 && b % 2 == 1 then 1 else 0)
  }

  /** The C operator `a | b`. */
  function Or(a: nat, b: nat): nat
    decreases a + b
  {
    if a == 0 && b == 0 then 0
    else 2 * Or(a / 2, b / 2) + (if a % 2 == 1 || b % 2 == 1 then 1 else 0)
  }

  /** The C operator `v >> s`. */
  function Shr(v: nat, s: nat): nat {
    if s == 0 then v else Shr(v / 2, s - 1)
  }

  /** The C operator `v << s`, for shifts that lose no bit. */
  function Shl(v: nat, s: nat): nat {
    v * Pow2(s)
  }

  /** Binary digit `i` of `v`. */
  predicate Bit(v: nat, i: nat) {
    if i == 0 then v % 2 == 1 else Bit(v / 2, i - 1)
  }

  ghost predicate IsPow2(v: nat) {
    exists k: nat :: v == Pow2(k)
  }

  // ---- Powers of two

  lemma {:induction false} Pow2Add(a: nat, b: nat)
    ensures Pow2(a + b) == Pow2(a) * Pow2(b)
  {
    if a > 0 {
      Pow2Add(a - 1, b);
    }
  }

  lemma {:induction false} Pow2Mono(a: nat, b: nat)
    requires a <= b
    ensures Pow2(a) <= Pow2(b)
    decreases b
  {
    if a < b {
      Pow2Mono(a, b - 1);
    }
  }

  lemma Pow2Words()
    ensures Pow2(32) == 0x1_0000_0000 && Pow2(64) == 0x1_0000_0000_0000_0000
  {
    Pow2Square(4, 16);
    Pow2Square(8, 0x100);
    Pow2Square(16, 0x1_0000);
    Pow2Square(32, 0x1_0000_0000);
  }

  lemma Pow2Square(n: nat, p: nat)
    requires Pow2(n) == p
    ensures Pow2(2 * n) == p * p
  {
    Pow2Add(n, n);
  }

  // ---- Bits of a word

  lemma {:induction false} BitOr(a: nat, b: nat, i: nat)
    ensures Bit(Or(a, b), i) == (Bit(a, i) || Bit(b, i))
    decreases i
  {
    assert Or(a, b) / 2 == Or(a / 2, b / 2) && (Or(a, b) % 2 == 1 <==> a % 2 == 1 || b % 2 == 1);
    if i > 0 {
      BitOr(a / 2, b / 2, i - 1);
    }
  }

  lemma {:induction false} BitShr(v: nat, s: nat, i: nat)
    ensures Bit(Shr(v, s), i) == Bit(v, i + s)
    decreases s
  {
    if s > 0 {
      BitShr(v / 2, s - 1, i);
    }
  }

  lemma {:induction false} OrBound(a: nat, b: nat, k: nat)
    requires a < Pow2(k) && b < Pow2(k)
    ensures Or(a, b) < Pow2(k)
    decreases k
  {
    if k > 0 {
      OrBound(a / 2, b / 2, k - 1);
    }
  }

  lemma {:induction false} ShrBound(v: nat, s: nat)
    ensures Shr(v, s) <= v
    decreases s
  {
    if s > 0 {
      ShrBound(v / 2, s - 1);
    }
  }

  lemma {:induction false} ShrIsDiv(v: nat, s: nat)
    ensures Shr(v, s) == v / Pow2(s)
    decreases s
  {
    if s > 0 {
      ShrIsDiv(v / 2, s - 1);
      DivDiv(v, Pow2(s - 1));
    }
  }

  lemma DivDiv(v: nat, m: nat)
    requires m > 0
    ensures v / 2 / m == v / (2 * m)
  {
    var q, r := v / 2 / m, v / 2 % m;
    assert v == 2 * (q * m + r) + v % 2;
    assert v == q * (2 * m) + (2 * r + v % 2);
    DivUnique(v, 2 * m, q, 2 * r + v % 2);
  }

  lemma DivUnique(v: int, d: int, q: int, r: int)
    requires d > 0 && 0 <= r < d && v == q * d + r
    ensures v / d == q && v % d == r
  {
    var q' := v / d;
    var e := q - q';
    assert e * d == q * d - q' * d;
    assert -d < e * d < d;
    SmallMultiple(e, d);
  }

  lemma SmallMultiple(e: int, d: int)
    requires d > 0 && -d < e * d < d
    ensures e == 0
  {
    MulAtLeast(e, d);
    MulAtLeast(-e, d);
  }

  lemma MulAtLeast(e: int, d: int)
    requires d > 0
    ensures e >= 1 ==> e * d >= d
  {
    if e >= 1 {
      assert (e - 1) * d >= 0;
    }
  }

  lemma MulMono(a: int, b: int, c: nat)
    requires a <= b
    ensures a * c <= b * c
  {
    assert (b - a) * c >= 0;
  }

  /** A word whose low `k` bits are all set and which has no others is 2^k - 1. */
  lemma {:induction false} AllOnes(v: nat, k: nat)
    requires v < Pow2(k)
    requires forall i: nat :: i < k ==> Bit(v, i)
    ensures v == Pow2(k) - 1
    decreases k
  {
    if k > 0 {
      assert Bit(v, 0);
      forall i: nat | i < k - 1
        ensures Bit(v / 2, i)
      {
        assert Bit(v, i + 1);
      }
      AllOnes(v / 2, k - 1);
    }
  }

  // ---- Masks

  lemma AndOdd(x: nat, p: nat)
    requires p > 0
    ensures And(x, 2 * p - 1) == 2 * And(x / 2, p - 1) + x % 2
  {
    assert (2 * p - 1) / 2 == p - 1 && (2 * p - 1) % 2 == 1;
    AndStep(x, 2 * p - 1);
  }

  /** The mask keeps the `k` low digits `r`, whatever is above them. */
  lemma {:induction false} LowDigits(x: nat, k: nat, q: nat, r: nat)
    requires x == q * Pow2(k) + r && r < Pow2(k)
    ensures And(x, Pow2(k) - 1) == r
    decreases k
  {
    if k > 0 {
      var p := Pow2(k - 1);
      assert q * Pow2(k) == 2 * (q * p);
      LowDigits(x / 2, k - 1, q, r / 2);
      AndOdd(x, p);
    }
  }

  lemma Division(x: nat, m: nat) returns (q: nat, r: nat)
    requires m > 0
    ensures x == q * m + r && r < m && r == x % m
  {
    q, r := x / m, x % m;
  }

  /** `x & (2^k - 1)` is the remainder of `x` by 2^k. */
  lemma LowMask(x: nat, k: nat)
    ensures And(x, Pow2(k) - 1) == x % Pow2(k)
  {
    var q, r := Division(x, Pow2(k));
    LowDigits(x, k, q, r);
  }

  lemma {:induction false} AndBound(a: nat, b: nat)
    ensures And(a, b) <= a
    decreases a
  {
    if a > 0 && b > 0 {
      AndBound(a / 2, b / 2);
    }
  }

  /** The C operator `~v` on a uint64_t. */
  function Not64(v: u64): u64 {
    0xFFFF_FFFF_FFFF_FFFF - v
  }

  /** Within a `w`-bit word, `x & ~(2^k - 1)` rounds `x` down to a multiple of 2^k. */
  lemma HighMask(x: nat, k: nat, w: nat)
    requires k <= w && x < Pow2(w) && Pow2(k) <= Pow2(w)
    ensures And(x, Pow2(w) - Pow2(k)) == x - x % Pow2(k)
  {
    AndComplement(x, Pow2(k) - 1, w);
    LowMask(x, k);
  }

  lemma {:induction false} AndComplement(x: nat, m: nat, w: nat)
    requires x < Pow2(w) && m < Pow2(w)
    ensures And(x, m) + And(x, Pow2(w) - 1 - m) == x
    decreases w
  {
    if w > 0 {
      var m' := Pow2(w) - 1 - m;
      assert m' / 2 == Pow2(w - 1) - 1 - m / 2 && m' % 2 == 1 - m % 2;
      AndComplement(x / 2, m / 2, w - 1);
      AndStep(x, m);
      AndStep(x, m');
    }
  }

  lemma AndStep(a: nat, b: nat)
    ensures And(a, b) == 2 * And(a / 2, b / 2) + (if a % 2 == 1 && b % 2 == 1 then 1 else 0)
  {
  }

  /** The test `v != 0 && (v & (v - 1)) == 0` holds exactly of the powers of two. */
  lemma {:induction false} PowerOfTwoTest(v: nat)
    requires v != 0
    ensures And(v, v - 1) == 0 <==> IsPow2(v)
  {
    if v == 1 {
      assert v == Pow2(0);
    } else if v % 2 == 0 {
      PowerOfTwoTest(v / 2);
      assert (v - 1) / 2 == v / 2 - 1;
      if IsPow2(v / 2) {
        var k: nat :| v / 2 == Pow2(k);
        assert v == Pow2(k + 1);
      }
      if IsPow2(v) {
        var k: nat :| v == Pow2(k);
        assert k > 0;
        assert v / 2 == Pow2(k - 1);
      }
    } else {
      AndSelf(v / 2);
      assert (v - 1) / 2 == v / 2;
      forall k: nat
        ensures v != Pow2(k)
      {
      }
    }
  }

  lemma {:induction false} AndSelf(v: nat)
    ensures And(v, v) == v
  {
    if v > 0 {
      AndSelf(v / 2);
    }
  }

  /** Words with no bit in common: `|` is addition. */
  lemma {:induction false} OrDisjoint(a: nat, b: nat, k: nat)
    requires b < Pow2(k)
    ensures Or(Shl(a, k), b) == Shl(a, k) + b
    decreases k
  {
    if k == 0 {
      OrZero(a);
    } else {
      assert Shl(a, k) == 2 * Shl(a, k - 1) by {
        assert a * (2 * Pow2(k - 1)) == 2 * (a * Pow2(k - 1));
      }
      OrDisjoint(a, b / 2, k - 1);
    }
  }

  lemma {:induction false} OrZero(a: nat)
    ensures Or(a, 0) == a
  {
    if a > 0 {
      OrZero(a / 2);
    }
  }

  // ---- Counting

  /** How many of the numbers below `n` satisfy `p`. */
  ghost function Count(p: nat -> bool, n: nat): nat {
    if n == 0 then 0 else Count(p, n - 1) + (if p(n - 1) then 1 else 0)
  }

  lemma {:induction false} CountNone(p: nat -> bool, n: nat)
    requires forall x: nat :: x < n ==> !p(x)
    ensures Count(p, n) == 0
  {
    if n > 0 {
      CountNone(p, n - 1);
    }
  }

  lemma {:induction false} CountInterval(p: nat -> bool, n: nat, lo: nat, hi: nat)
    requires lo <= hi <= n
    requires forall x: nat :: x < n ==> (p(x) <==> lo <= x < hi)
    ensures Count(p, n) == hi - lo
    decreases n
  {
    if n > hi {
      CountInterval(p, n - 1, lo, hi);
    } else if hi > lo {
      CountInterval(p, n - 1, lo, hi - 1);
    } else {
      CountNone(p, n);
    }
  }
}
