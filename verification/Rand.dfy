/** Unbiased integers in a range, from a stream of uniform machine words (src/rand.c). */
module Rand {
  import opened Bits
  import opened Options

  // ---- 32 bits: multiply and reject

  function LemireStep(x: u32, width: u32): Option<u32> {
    var m := x * width;
    var low := m % 0x1_0000_0000;
    HighHalf(x, width);
    if low >= width then
      Some(m / 0x1_0000_0000)
    else
      var threshold := Wrap32(0x1_0000_0000 - width) % width;
      if low >= threshold then Some(m / 0x1_0000_0000) else None
  }

  lemma HighHalf(x: u32, width: u32)
    ensures 0 <= x * width / 0x1_0000_0000 < 0x1_0000_0000
  {
    MulMono(x, 0x1_0000_0000 - 1, width);
    QuotientBelow(x * width);
  }

  lemma QuotientBelow(m: nat)
    requires m < 0x1_0000_0000 * 0x1_0000_0000
    ensures m / 0x1_0000_0000 < 0x1_0000_0000
  {
  }

  /** What one word `x` makes `cpr_randr_u32` return, or None to draw another word. */
  function OneDraw32(min: u32, max: u32, x: u32): Option<u32> {
    var width := Wrap32(max - min);
    if width == 0x1_0000_0000 - 1 then
      Some(Wrap32(min + x))
    else
      match LemireStep(x, width + 1)
      case Some(out) => Some(Wrap32(min + out))
      case None => None
  }

  /** `words` is the part of the random source read so far; None means still drawing at its end. */
  method RandrU32(min: u32, max: u32, words: seq<u32>) returns (r: Option<u32>, used: nat)
    ensures used <= |words|
    ensures forall i :: 0 <= i < used - 1 ==> OneDraw32(min, max, words[i]) == None
    ensures r.Some? ==> used > 0 && r == OneDraw32(min, max, words[used - 1])
    ensures r.None? ==> used == |words| && forall i :: 0 <= i < |words| ==> OneDraw32(min, max, words[i]) == None
  {
    var width: u32 := Wrap32(max - min);
    used := 0;
    if width == 0x1_0000_0000 - 1 {
      if words == [] {
        return None, 0;
      }
      return Some(Wrap32(min + words[0])), 1;
    }
    width := width + 1;
    while used < |words|
      invariant used <= |words|
      invariant forall i :: 0 <= i < used ==> OneDraw32(min, max, words[i]) == None
    {
      var out := LemireStep(words[used], width);
      used := used + 1;
      if out.Some? {
        return Some(Wrap32(min + out.value)), used;
      }
    }
    r := None;
  }

  /** A value returned for `min <= max` lies in the range. */
  lemma Draw32InRange(min: u32, max: u32, x: u32)
    requires min <= max && OneDraw32(min, max, x).Some?
    ensures min <= OneDraw32(min, max, x).value <= max
  {
    if max - min < 0x1_0000_0000 - 1 {
      var out := LemireStep(x, max - min + 1).value;
      LemireRange(x, max - min + 1, out);
    }
  }

  /** The rejection threshold is the remainder of 2^32. */
  lemma Threshold(width: u32)
    requires width > 0
    ensures Wrap32(0x1_0000_0000 - width) % width == 0x1_0000_0000 % width
  {
    DivUnique(0x1_0000_0000 - width, width, 0x1_0000_0000 / width - 1, 0x1_0000_0000 % width);
  }

  /** The early accept changes nothing: a word is accepted exactly when its low half
      reaches 2^32 mod width, and then yields the high half. */
  lemma EarlyAcceptAgrees(x: u32, width: u32)
    requires width > 0
    ensures LemireStep(x, width) ==
            if x * width % 0x1_0000_0000 >= 0x1_0000_0000 % width then Some(x * width / 0x1_0000_0000) else None
  {
    Threshold(width);
  }

  lemma LemireRange(x: u32, width: u32, k: u32)
    requires width > 0 && LemireStep(x, width) == Some(k)
    ensures k < width
  {
    assert (0x1_0000_0000 - x) * width > 0;
  }

  lemma CeilDiv(x: nat, b: nat, w: nat)
    requires w > 0
    ensures x * w >= b <==> x >= (b + w - 1) / w
  {
    var c := (b + w - 1) / w;
    assert b + w - 1 == c * w + (b + w - 1) % w;
    if x >= c {
      MulMono(c, x, w);
    } else {
      MulMono(x, c - 1, w);
      assert (c - 1) * w == c * w - w;
    }
  }

  ghost function StepYields(width: u32, k: nat): nat -> bool {
    (x: nat) => x < 0x1_0000_0000 && LemireStep(x, width) == Some(k)
  }

  /** The words that yield `k` start at the least `x` with x * width >= k * 2^32 + 2^32 mod width. */
  ghost function FirstYielding(width: u32, k: nat): nat
    requires k < width
  {
    (k * 0x1_0000_0000 + 0x1_0000_0000 % width + width - 1) / width
  }

  lemma YieldsBetween(x: u32, width: u32, k: nat)
    requires k < width
    ensures LemireStep(x, width) == Some(k) <==>
            k * 0x1_0000_0000 + 0x1_0000_0000 % width <= x * width < (k + 1) * 0x1_0000_0000
  {
    EarlyAcceptAgrees(x, width);
    HighLow(x * width, k, 0x1_0000_0000 % width);
  }

  lemma HighLow(m: nat, k: nat, t: nat)
    requires t < 0x1_0000_0000
    ensures m / 0x1_0000_0000 == k && m % 0x1_0000_0000 >= t <==>
            k * 0x1_0000_0000 + t <= m < (k + 1) * 0x1_0000_0000
  {
  }

  /** The multiples of `w` from `b` to below `b + q * w` are those of the `q` numbers from `c`. */
  lemma MultiplesBetween(x: nat, b: nat, q: nat, w: nat, c: nat)
    requires w > 0 && c == (b + w - 1) / w
    ensures b <= x * w < b + q * w <==> c <= x < c + q
  {
    CeilDiv(x, b, w);
    CeilDiv(x, b + q * w, w);
    assert b + q * w + w - 1 == b + w - 1 + q * w;
    DivShift(b + w - 1, q, w);
  }

  lemma NextStep(k: nat, n: nat, q: nat, w: nat, t: nat)
    requires n == q * w + t
    ensures k * n + t + q * w == (k + 1) * n
  {
  }

  lemma YieldsInterval(x: nat, width: u32, k: nat)
    requires k < width && x <= 0x1_0000_0000
    ensures var lo, q := FirstYielding(width, k), 0x1_0000_0000 / width;
            k * 0x1_0000_0000 + 0x1_0000_0000 % width <= x * width < (k + 1) * 0x1_0000_0000 <==> lo <= x < lo + q
  {
    var q: nat, t: nat := 0x1_0000_0000 / width, 0x1_0000_0000 % width;
    NextStep(k, 0x1_0000_0000, q, width, t);
    MultiplesBetween(x, k * 0x1_0000_0000 + t, q, width, FirstYielding(width, k));
  }

  /** Every result below `width` has the same number of accepted words. */
  lemma LemireUniform(width: u32, k: nat)
    requires k < width
    ensures Count(StepYields(width, k), WORDS32) == 0x1_0000_0000 / width
  {
    var p := StepYields(width, k);
    var lo, q := FirstYielding(width, k), 0x1_0000_0000 / width;
    forall x: nat | x < 0x1_0000_0000
      ensures p(x) <==> lo <= x < lo + q
    {
      YieldsBetween(x, width, k);
      YieldsInterval(x, width, k);
    }
    LastYielding(width, k);
    CountInterval(p, WORDS32, lo, lo + q);
  }

  lemma LastYielding(width: u32, k: nat)
    requires k < width
    ensures FirstYielding(width, k) + 0x1_0000_0000 / width <= 0x1_0000_0000
  {
    var x := 0x1_0000_0000;
    var lo, q := FirstYielding(width, k), x / width;
    YieldsInterval(x, width, k);
    MulMono(k + 1, width, x);
    CeilDiv(x, k * x + x % width, width);
  }

  lemma DivShift(a: nat, q: nat, w: nat)
    requires w > 0
    ensures (a + q * w) / w == a / w + q
  {
    assert a + q * w == (a / w + q) * w + a % w;
    DivUnique(a + q * w, w, a / w + q, a % w);
  }

  ghost function Draw32Yields(min: u32, max: u32, v: u32): nat -> bool {
    (x: nat) => x < 0x1_0000_0000 && OneDraw32(min, max, x) == Some(v)
  }

  lemma DrawIsStep(min: u32, max: u32, v: u32, x: u32)
    requires min <= v <= max && max - min < 0x1_0000_0000 - 1
    ensures OneDraw32(min, max, x) == Some(v) <==> LemireStep(x, max - min + 1) == Some(v - min)
  {
    assert Wrap32(max - min) == max - min;
    var s := LemireStep(x, max - min + 1);
    if s.Some? {
      LemireRange(x, max - min + 1, s.value);
      assert Wrap32(min + s.value) == min + s.value;
    }
  }

  /** `cpr_randr_u32` is exactly uniform on [min, max], a range of `size` values. */
  lemma Randr32Uniform(min: u32, max: u32, v: u32, size: nat)
    requires min <= v <= max && size == max - min + 1
    ensures Count(Draw32Yields(min, max, v), WORDS32) == 0x1_0000_0000 / size
  {
    if size == 0x1_0000_0000 {
      FullRange32(min, max, v);
    } else {
      PartRange32(min, max, v, size);
    }
  }

  lemma FullRange32(min: u32, max: u32, v: u32)
    requires min <= v <= max && max - min == 0x1_0000_0000 - 1
    ensures Count(Draw32Yields(min, max, v), WORDS32) == 1
  {
    CountInterval(Draw32Yields(min, max, v), WORDS32, v, v + 1);
  }

  lemma PartRange32(min: u32, max: u32, v: u32, size: u32)
    requires min <= v <= max && size == max - min + 1
    ensures Count(Draw32Yields(min, max, v), WORDS32) == 0x1_0000_0000 / size
  {
    AllDrawsAreSteps(min, max, v, size);
    SameCount(Draw32Yields(min, max, v), size, v - min);
  }

  lemma SameCount(p: nat -> bool, width: u32, k: nat)
    requires k < width
    requires forall x: nat :: x < 0x1_0000_0000 ==> p(x) == StepYields(width, k)(x)
    ensures Count(p, WORDS32) == 0x1_0000_0000 / width
  {
    CountSame(p, StepYields(width, k), WORDS32);
    LemireUniform(width, k);
  }

  lemma AllDrawsAreSteps(min: u32, max: u32, v: u32, size: u32)
    requires min <= v <= max && size == max - min + 1
    ensures forall x: nat :: x < 0x1_0000_0000 ==> Draw32Yields(min, max, v)(x) == StepYields(size, v - min)(x)
  {
    forall x: nat | x < 0x1_0000_0000
      ensures Draw32Yields(min, max, v)(x) == StepYields(size, v - min)(x)
    {
      DrawIsStep(min, max, v, x);
    }
  }

  lemma {:induction false} CountSame(p: nat -> bool, p': nat -> bool, n: nat)
    requires forall x: nat :: x < n ==> p(x) == p'(x)
    ensures Count(p, n) == Count(p', n)
  {
    if n > 0 {
      CountSame(p, p', n - 1);
    }
  }

  // ---- 64 bits: mask and reject

  function Smear(v: nat, s: nat): nat {
    Or(v, Shr(v, s))
  }

  function Pow2Mask(width: u64): nat {
    var mask := Wrap64(width - 1);
    Smear(Smear(Smear(Smear(Smear(Smear(mask, 1), 2), 4), 8), 16), 32)
  }

  /** Number of binary digits of `n`. */
  ghost function BitLength(n: nat): (k: nat)
    ensures n < Pow2(k)
    ensures n > 0 ==> k > 0 && Pow2(k - 1) <= n && Bit(n, k - 1)
  {
    if n == 0 then 0 else BitLength(n / 2) + 1
  }

  /** `v` has no digit above `k`, and its `s` highest digits below `k` are set. */
  ghost predicate TopOnes(v: nat, k: nat, s: nat) {
    v < Pow2(k) && forall i: nat :: k - s <= i < k ==> Bit(v, i)
  }

  lemma SmearDoubles(v: nat, k: nat, s: nat)
    requires TopOnes(v, k, s)
    ensures TopOnes(Smear(v, s), k, 2 * s)
  {
    ShrBound(v, s);
    OrBound(v, Shr(v, s), k);
    forall i: nat | k - 2 * s <= i < k
      ensures Bit(Smear(v, s), i)
    {
      BitOr(v, Shr(v, s), i);
      BitShr(v, s, i);
      if i < k - s {
        assert Bit(v, i + s);
      }
    }
  }

  lemma BitLengthAtMost(n: nat, k: nat)
    requires n < Pow2(k)
    ensures BitLength(n) <= k
  {
    var b := BitLength(n);
    if n > 0 && b > k {
      Pow2Mono(k, b - 1);
    }
  }

  lemma CascadeFillsAllBits(n: nat, k: nat)
    requires TopOnes(n, k, 1) && k <= 64
    ensures Smear(Smear(Smear(Smear(Smear(Smear(n, 1), 2), 4), 8), 16), 32) == Pow2(k) - 1
  {
    var v1 := Smear(n, 1);
    SmearDoubles(n, k, 1);
    var v2 := Smear(v1, 2);
    SmearDoubles(v1, k, 2);
    var v3 := Smear(v2, 4);
    SmearDoubles(v2, k, 4);
    var v4 := Smear(v3, 8);
    SmearDoubles(v3, k, 8);
    var v5 := Smear(v4, 16);
    SmearDoubles(v4, k, 16);
    SmearDoubles(v5, k, 32);
    AllOnes(Smear(v5, 32), k);
  }

  lemma WordLength(n: u64, w: nat)
    requires w == 64
    ensures BitLength(n) <= w
  {
    Pow2Words();
    BitLengthAtMost(n, w);
  }

  lemma MaskValue(width: u64)
    requires width > 0
    ensures BitLength(width - 1) <= 64
    ensures Pow2Mask(width) == Pow2(BitLength(width - 1)) - 1
  {
    var n, k := width - 1, BitLength(width - 1);
    assert k <= 64 by { WordLength(n, 64); }
    assert Wrap64(n) == n;
    CascadeFillsAllBits(n, k);
  }

  lemma LeastPower(n: nat, j: nat)
    requires n < Pow2(j)
    ensures Pow2(BitLength(n)) <= Pow2(j)
    ensures n < Pow2(BitLength(n)) < 2 * (n + 1)
  {
    BitLengthAtMost(n, j);
    Pow2Mono(BitLength(n), j);
  }

  /** The cascade returns the least 2^k - 1 that is at least width - 1. */
  lemma MaskIsLeast(width: u64, mask: nat)
    requires width > 0 && mask == Pow2Mask(width)
    ensures exists k: nat :: k <= 64 && mask == Pow2(k) - 1
    ensures width - 1 <= mask && mask + 1 < 2 * width
    ensures forall j: nat :: width - 1 <= Pow2(j) - 1 ==> mask <= Pow2(j) - 1
  {
    MaskValue(width);
    LeastPower(width - 1, BitLength(width - 1));
    forall j: nat | width - 1 <= Pow2(j) - 1
      ensures mask <= Pow2(j) - 1
    {
      LeastPower(width - 1, j);
    }
  }

  /** What one word `x` makes `cpr_randr_u64` return, or None to draw another word. */
  function OneDraw64(min: u64, max: u64, x: u64): Option<u64> {
    var width := Wrap64(max - min);
    if width == 0x1_0000_0000_0000_0000 - 1 then
      Some(Wrap64(min + x))
    else
      var m := And(x, Pow2Mask(width + 1));
      if m < width + 1 then Some(Wrap64(min + m)) else None
  }

  method RandrU64(min: u64, max: u64, words: seq<u64>) returns (r: Option<u64>, used: nat)
    ensures used <= |words|
    ensures forall i :: 0 <= i < used - 1 ==> OneDraw64(min, max, words[i]) == None
    ensures r.Some? ==> used > 0 && r == OneDraw64(min, max, words[used - 1])
    ensures r.None? ==> used == |words| && forall i :: 0 <= i < |words| ==> OneDraw64(min, max, words[i]) == None
  {
    var width: u64 := Wrap64(max - min);
    used := 0;
    if width == 0x1_0000_0000_0000_0000 - 1 {
      if words == [] {
        return None, 0;
      }
      return Some(Wrap64(min + words[0])), 1;
    }
    width := width + 1;
    var mask := Pow2Mask(width);
    while used < |words|
      invariant used <= |words|
      invariant forall i :: 0 <= i < used ==> OneDraw64(min, max, words[i]) == None
    {
      var x := And(words[used], mask);
      used := used + 1;
      if x < width {
        return Some(Wrap64(min + x)), used;
      }
    }
    r := None;
  }

  /** A value returned for `min <= max` lies in the range. */
  lemma Draw64InRange(min: u64, max: u64, x: u64)
    requires min <= max && OneDraw64(min, max, x).Some?
    ensures min <= OneDraw64(min, max, x).value <= max
  {
    assert Wrap64(max - min) == max - min;
  }

  ghost function Draw64Yields(min: u64, max: u64, v: u64): nat -> bool {
    (x: nat) => x < 0x1_0000_0000_0000_0000 && OneDraw64(min, max, x) == Some(v)
  }

  /** `y` is the only hit of `p` in the `d` numbers from `n`. */
  lemma {:induction false} CountOne(p: nat -> bool, n: nat, d: nat, y: nat)
    requires forall x: nat :: n <= x < n + d ==> (p(x) <==> x == y)
    ensures Count(p, n + d) == Count(p, n) + (if n <= y < n + d then 1 else 0)
    decreases d
  {
    if d > 0 {
      CountOne(p, n, d - 1, y);
    }
  }

  lemma {:induction false} CountResidue(p: nat -> bool, m: nat, q: nat, v: nat)
    requires v < m
    requires forall x: nat :: x < q * m ==> (p(x) <==> x % m == v)
    ensures Count(p, q * m) == q
    decreases q
  {
    if q > 0 {
      var n := (q - 1) * m;
      assert q * m == n + m;
      CountResidue(p, m, q - 1, v);
      forall x: nat | n <= x < n + m
        ensures p(x) <==> x == n + v
      {
        DivUnique(x, m, q - 1, x - n);
      }
      CountOne(p, n, m, n + v);
    } else {
      assert q * m == 0;
    }
  }

  /** Source words behind each value of a range of `size` values. */
  ghost function WordsPerValue(size: nat): nat
    requires 0 < size <= 0x1_0000_0000_0000_0000
  {
    SizeFits(size);
    Pow2(64 - BitLength(size - 1))
  }

  lemma SizeFits(size: nat)
    requires 0 < size <= 0x1_0000_0000_0000_0000
    ensures BitLength(size - 1) <= 64
    ensures 0x1_0000_0000_0000_0000 == Pow2(64 - BitLength(size - 1)) * Pow2(BitLength(size - 1))
  {
    Pow2Words();
    BitLengthAtMost(size - 1, 64);
    Pow2Add(64 - BitLength(size - 1), BitLength(size - 1));
  }

  lemma ValuesTimesWords(size: nat)
    requires 0 < size <= 0x1_0000_0000_0000_0000
    ensures 2 * (size * WordsPerValue(size)) > 0x1_0000_0000_0000_0000
  {
    var b := BitLength(size - 1);
    SizeFits(size);
    LeastPower(size - 1, b);
    HalfBound(WordsPerValue(size), Pow2(b), size);
  }

  lemma HalfBound(q: nat, m: nat, size: nat)
    requires q > 0 && m < 2 * size
    ensures q * m < 2 * (size * q)
  {
    MulMono(m + 1, 2 * size, q);
  }

  lemma MaskIsMod(x: u64, size: u64, b: nat)
    requires size > 0 && b == BitLength(size - 1)
    ensures And(x, Pow2Mask(size)) == x % Pow2(b)
  {
    MaskValue(size);
    LowMask(x, b);
  }

  lemma DrawOfMasked(min: u64, max: u64, v: u64, x: u64, size: u64)
    requires min <= v <= max && size == max - min + 1
    ensures OneDraw64(min, max, x) == Some(v) <==> And(x, Pow2Mask(size)) == v - min
  {
    assert Wrap64(max - min) == size - 1;
    var m := And(x, Pow2Mask(size));
    assert m < size ==> Wrap64(min + m) == min + m;
  }

  lemma DrawIsMasked(min: u64, max: u64, v: u64, x: u64, size: u64, b: nat)
    requires min <= v <= max && size == max - min + 1 && b == BitLength(size - 1)
    ensures Draw64Yields(min, max, v)(x) <==> x % Pow2(b) == v - min
  {
    MaskIsMod(x, size, b);
    DrawOfMasked(min, max, v, x, size);
  }

  lemma CountMasked(p: nat -> bool, b: nat, k: nat)
    requires b <= 64 && k < Pow2(b)
    requires forall x: nat :: x < 0x1_0000_0000_0000_0000 ==> (p(x) <==> x % Pow2(b) == k)
    ensures Count(p, WORDS64) == Pow2(64 - b)
  {
    Pow2Words();
    Pow2Add(64 - b, b);
    CountResidue(p, Pow2(b), Pow2(64 - b), k);
  }

  /** `cpr_randr_u64` is exactly uniform on [min, max], a range of `size` values. */
  lemma Randr64Uniform(min: u64, max: u64, v: u64, size: nat)
    requires min <= v <= max && size == max - min + 1
    ensures Count(Draw64Yields(min, max, v), WORDS64) == WordsPerValue(size)
  {
    if size == 0x1_0000_0000_0000_0000 {
      FullRange(min, max, v, size);
    } else {
      PartRange(min, max, v, size, BitLength(size - 1));
    }
  }

  lemma PartRange(min: u64, max: u64, v: u64, size: u64, b: nat)
    requires min <= v <= max && size == max - min + 1 && b == BitLength(size - 1)
    ensures Count(Draw64Yields(min, max, v), WORDS64) == WordsPerValue(size)
  {
    WordsAre(size, b);
    AllDrawsMasked(min, max, v, size, b);
    CountMasked(Draw64Yields(min, max, v), b, v - min);
  }

  lemma WordsAre(size: nat, b: nat)
    requires 0 < size <= 0x1_0000_0000_0000_0000 && b == BitLength(size - 1)
    ensures b <= 64 && WordsPerValue(size) == Pow2(64 - b) && size <= Pow2(b)
  {
    SizeFits(size);
  }

  lemma AllDrawsMasked(min: u64, max: u64, v: u64, size: u64, b: nat)
    requires min <= v <= max && size == max - min + 1 && b == BitLength(size - 1)
    ensures forall x: nat :: x < 0x1_0000_0000_0000_0000 ==> (Draw64Yields(min, max, v)(x) <==> x % Pow2(b) == v - min)
  {
    forall x: nat | x < 0x1_0000_0000_0000_0000
      ensures Draw64Yields(min, max, v)(x) <==> x % Pow2(b) == v - min
    {
      DrawIsMasked(min, max, v, x, size, b);
    }
  }

  lemma HalfWords(k: nat, w: nat)
    requires w == 64
    ensures k < w ==> Pow2(k) <= 0x8000_0000_0000_0000
    ensures k > w ==> Pow2(k) >= 0x2_0000_0000_0000_0000
  {
    if k < w {
      Pow2Mono(k, w - 1);
    } else if k > w {
      Pow2Mono(w + 1, k);
    }
    Pow2Words();
  }

  lemma FullLength(n: nat, w: nat)
    requires w == 64 && n == 0xFFFF_FFFF_FFFF_FFFF
    ensures BitLength(n) == w
  {
    WordLength(n, w);
    HalfWords(BitLength(n), w);
  }

  lemma FullRange(min: u64, max: u64, v: u64, size: nat)
    requires min == 0 && size == max + 1 == 0x1_0000_0000_0000_0000
    ensures Count(Draw64Yields(min, max, v), WORDS64) == WordsPerValue(size)
  {
    CountInterval(Draw64Yields(min, max, v), WORDS64, v, v + 1);
    FullLength(max, 64);
  }

  // ---- Which value a word yields

  /** A word yields the high half of its product with the size of the range, counted from `min`, if
      the low half reaches 2^32 mod size; in the full range it yields itself. */
  lemma Draw32Is(min: u32, max: u32, v: u32, x: u32, size: nat)
    requires min <= v <= max && size == max - min + 1
    ensures size < 0x1_0000_0000 ==>
              (OneDraw32(min, max, x) == Some(v) <==>
               x * size / 0x1_0000_0000 == v - min && x * size % 0x1_0000_0000 >= 0x1_0000_0000 % size)
    ensures size == 0x1_0000_0000 ==> (OneDraw32(min, max, x) == Some(v) <==> x == v)
  {
    if size < 0x1_0000_0000 {
      DrawIsStep(min, max, v, x);
      EarlyAcceptAgrees(x, size);
    }
  }

  lemma Doubles(b: nat, k: nat)
    ensures b < k ==> Pow2(k) >= 2 * Pow2(b)
  {
    if b < k {
      Pow2Mono(b, k - 1);
    }
  }

  lemma BitLengthIs(n: nat, k: nat)
    requires n < Pow2(k) < 2 * (n + 1)
    ensures BitLength(n) == k
  {
    BitLengthAtMost(n, k);
    Doubles(BitLength(n), k);
  }

  lemma PartDraw64(min: u64, max: u64, v: u64, x: u64, size: u64, k: nat)
    requires min <= v <= max && size == max - min + 1 && k == BitLength(size - 1)
    ensures OneDraw64(min, max, x) == Some(v) <==> x % Pow2(k) == v - min
  {
    DrawIsMasked(min, max, v, x, size, k);
    assert Draw64Yields(min, max, v)(x) <==> OneDraw64(min, max, x) == Some(v);
  }

  lemma FullDraw64(min: u64, max: u64, v: u64, x: u64, m: nat)
    requires min == 0 && max == 0xFFFF_FFFF_FFFF_FFFF && m == 0x1_0000_0000_0000_0000
    ensures OneDraw64(min, max, x) == Some(v) <==> x % m == v - min
  {
  }

  lemma FullPower(k: nat, w: nat)
    requires w == 64 && 0x1_0000_0000_0000_0000 <= Pow2(k) < 0x2_0000_0000_0000_0000
    ensures Pow2(k) == 0x1_0000_0000_0000_0000
  {
    HalfWords(k, w);
    Pow2Words();
  }

  /** A word yields its remainder by the least power of two that covers the range, counted from `min`. */
  lemma Draw64Is(min: u64, max: u64, v: u64, x: u64, size: nat, k: nat)
    requires min <= v <= max && size == max - min + 1 && size <= Pow2(k) < 2 * size
    ensures OneDraw64(min, max, x) == Some(v) <==> x % Pow2(k) == v - min
  {
    if size < 0x1_0000_0000_0000_0000 {
      BitLengthIs(size - 1, k);
      PartDraw64(min, max, v, x, size, k);
    } else {
      FullPower(k, 64);
      FullDraw64(min, max, v, x, Pow2(k));
    }
  }

  // ---- Accepted words

  ghost function Yields(draw: nat -> Option<nat>, v: nat): nat -> bool {
    (x: nat) => draw(x) == Some(v)
  }

  /** The words that yield one of `k` values from `lo`. */
  ghost function YieldsBelow(draw: nat -> Option<nat>, lo: nat, k: nat): nat -> bool {
    (x: nat) => draw(x).Some? && lo <= draw(x).value < lo + k
  }

  lemma {:induction false} CountEither(p: nat -> bool, p': nat -> bool, both: nat -> bool, n: nat)
    requires forall x: nat :: x < n ==> (both(x) <==> p(x) || p'(x)) && !(p(x) && p'(x))
    ensures Count(both, n) == Count(p, n) + Count(p', n)
  {
    if n > 0 {
      CountEither(p, p', both, n - 1);
    }
  }

  /** If each of `k` values has `q` words, together they have `k * q`. */
  lemma {:induction false} CountValues(draw: nat -> Option<nat>, lo: nat, k: nat, q: nat, n: nat)
    requires forall v :: lo <= v < lo + k ==> Count(Yields(draw, v), n) == q
    ensures Count(YieldsBelow(draw, lo, k), n) == k * q
  {
    if k == 0 {
      CountNone(YieldsBelow(draw, lo, 0), n);
    } else {
      CountValues(draw, lo, k - 1, q, n);
      CountEither(YieldsBelow(draw, lo, k - 1), Yields(draw, lo + k - 1), YieldsBelow(draw, lo, k), n);
      assert k * q == (k - 1) * q + q;
    }
  }

  ghost function Draws32(min: u32, max: u32): nat -> Option<nat> {
    (x: nat) => if x < 0x1_0000_0000 then OneDraw32(min, max, x) else None
  }

  ghost function Draws64(min: u64, max: u64): nat -> Option<nat> {
    (x: nat) => if x < 0x1_0000_0000_0000_0000 then OneDraw64(min, max, x) else None
  }

  ghost function Accepts32(min: u32, max: u32): nat -> bool {
    (x: nat) => x < 0x1_0000_0000 && OneDraw32(min, max, x).Some?
  }

  ghost function Accepts64(min: u64, max: u64): nat -> bool {
    (x: nat) => x < 0x1_0000_0000_0000_0000 && OneDraw64(min, max, x).Some?
  }

  lemma AllAccepted32(min: u32, max: u32, size: nat)
    requires min <= max && size == max - min + 1
    ensures Count(Accepts32(min, max), WORDS32) == Count(YieldsBelow(Draws32(min, max), min, size), WORDS32)
  {
    forall x: nat | x < 0x1_0000_0000
      ensures Accepts32(min, max)(x) == YieldsBelow(Draws32(min, max), min, size)(x)
    {
      if OneDraw32(min, max, x).Some? {
        Draw32InRange(min, max, x);
      }
    }
    CountSame(Accepts32(min, max), YieldsBelow(Draws32(min, max), min, size), WORDS32);
  }

  lemma AllAccepted64(min: u64, max: u64, size: nat)
    requires min <= max && size == max - min + 1
    ensures Count(Accepts64(min, max), WORDS64) == Count(YieldsBelow(Draws64(min, max), min, size), WORDS64)
  {
    forall x: nat | x < 0x1_0000_0000_0000_0000
      ensures Accepts64(min, max)(x) == YieldsBelow(Draws64(min, max), min, size)(x)
    {
      if OneDraw64(min, max, x).Some? {
        Draw64InRange(min, max, x);
      }
    }
    CountSame(Accepts64(min, max), YieldsBelow(Draws64(min, max), min, size), WORDS64);
  }

  lemma HalfOfQuotient(n: nat, size: nat)
    requires 0 < size <= n
    ensures 2 * (size * (n / size)) > n
  {
    MulMono(1, n / size, size);
  }

  lemma SameYields32(min: u32, max: u32, v: nat)
    requires min <= v <= max
    ensures Count(Yields(Draws32(min, max), v), WORDS32) == Count(Draw32Yields(min, max, v), WORDS32)
  {
    CountSame(Yields(Draws32(min, max), v), Draw32Yields(min, max, v), WORDS32);
  }

  lemma SameYields64(min: u64, max: u64, v: nat)
    requires min <= v <= max
    ensures Count(Yields(Draws64(min, max), v), WORDS64) == Count(Draw64Yields(min, max, v), WORDS64)
  {
    CountSame(Yields(Draws64(min, max), v), Draw64Yields(min, max, v), WORDS64);
  }

  lemma AcceptedTimes32(min: u32, max: u32, size: nat, q: nat)
    requires min <= max && size == max - min + 1
    requires forall v: nat :: min <= v <= max ==> Count(Draw32Yields(min, max, v), WORDS32) == q
    ensures Count(Accepts32(min, max), WORDS32) == size * q
  {
    AllAccepted32(min, max, size);
    forall v | min <= v < min + size
      ensures Count(Yields(Draws32(min, max), v), WORDS32) == q
    {
      SameYields32(min, max, v);
    }
    CountValues(Draws32(min, max), min, size, q, WORDS32);
  }

  /** `cpr_randr_u32` accepts floor(2^32 / size) words for each of the `size` values, more than half
      of all words. */
  lemma KeepsMoreThanHalf32(min: u32, max: u32, size: nat, q: nat)
    requires min <= max && size == max - min + 1 && q == 0x1_0000_0000 / size
    ensures Count(Accepts32(min, max), WORDS32) == size * q
    ensures 2 * Count(Accepts32(min, max), WORDS32) > 0x1_0000_0000
  {
    forall v: nat | min <= v <= max
      ensures Count(Draw32Yields(min, max, v), WORDS32) == q
    {
      Randr32Uniform(min, max, v, size);
    }
    AcceptedTimes32(min, max, size, q);
    HalfOfQuotient(0x1_0000_0000, size);
  }

  /** `cpr_randr_u64` accepts a power of two of words for each of the `size` values, more than half of
      all words. */
  lemma KeepsMoreThanHalf(min: u64, max: u64, size: nat)
    requires min <= max && size == max - min + 1
    ensures Count(Accepts64(min, max), WORDS64) == size * WordsPerValue(size)
    ensures 2 * Count(Accepts64(min, max), WORDS64) > 0x1_0000_0000_0000_0000
  {
    AllAccepted64(min, max, size);
    forall v | min <= v < min + size
      ensures Count(Yields(Draws64(min, max), v), WORDS64) == WordsPerValue(size)
    {
      SameYields64(min, max, v);
      Randr64Uniform(min, max, v, size);
    }
    CountValues(Draws64(min, max), min, size, WordsPerValue(size), WORDS64);
    ValuesTimesWords(size);
  }

  // ---- Signed ranges

  type i32 = x: int | -0x8000_0000 <= x < 0x8000_0000
  type i64 = x: int | -0x8000_0000_0000_0000 <= x < 0x8000_0000_0000_0000

  /** The C conversion of a 32-bit word to int32_t. */
  function ToSigned32(u: u32): i32 {
    if u < 0x8000_0000 then u else u - 0x1_0000_0000
  }

  function ToSigned64(u: u64): i64 {
    if u < 0x8000_0000_0000_0000 then u else u - 0x1_0000_0000_0000_0000
  }

  lemma Bias32(v: i32)
    ensures Wrap32(Wrap32(v) - 0x8000_0000) == v + 0x8000_0000
    ensures ToSigned32(Wrap32(v + 0x8000_0000 + 0x8000_0000)) == v
  {
  }

  lemma Bias64(v: i64)
    ensures Wrap64(Wrap64(v) - 0x8000_0000_0000_0000) == v + 0x8000_0000_0000_0000
    ensures ToSigned64(Wrap64(v + 0x8000_0000_0000_0000 + 0x8000_0000_0000_0000)) == v
  {
  }

  /** What one word makes `cpr_randr_i32` return: a draw from the range shifted by 2^31, shifted back. */
  function SignedDraw32(min: i32, max: i32, x: u32): Option<i32> {
    match OneDraw32(min + 0x8000_0000, max + 0x8000_0000, x)
    case Some(u) => Some(ToSigned32(Wrap32(u + 0x8000_0000)))
    case None => None
  }

  function SignedDraw64(min: i64, max: i64, x: u64): Option<i64> {
    match OneDraw64(min + 0x8000_0000_0000_0000, max + 0x8000_0000_0000_0000, x)
    case Some(u) => Some(ToSigned64(Wrap64(u + 0x8000_0000_0000_0000)))
    case None => None
  }

  method RandrI32(min: i32, max: i32, words: seq<u32>) returns (r: Option<i32>, used: nat)
    requires min <= max
    ensures used <= |words|
    ensures forall i :: 0 <= i < used - 1 ==> SignedDraw32(min, max, words[i]) == None
    ensures r.Some? ==> used > 0 && min <= r.value <= max && r == SignedDraw32(min, max, words[used - 1])
    ensures r.None? ==> used == |words| && forall x :: x in words ==> SignedDraw32(min, max, x) == None
  {
    // (uint32_t)INT32_MIN is 0x8000_0000
    Bias32(min);
    Bias32(max);
    var lo: u32, hi: u32 := Wrap32(Wrap32(min) - 0x8000_0000), Wrap32(Wrap32(max) - 0x8000_0000);
    var u;
    u, used := RandrU32(lo, hi, words);
    match u
    case Some(v) =>
      Draw32InRange(lo, hi, words[used - 1]);
      Bias32(v - 0x8000_0000);
      r := Some(ToSigned32(Wrap32(v + 0x8000_0000)));
    case None =>
      r := None;
  }

  method RandrI64(min: i64, max: i64, words: seq<u64>) returns (r: Option<i64>, used: nat)
    requires min <= max
    ensures used <= |words|
    ensures forall i :: 0 <= i < used - 1 ==> SignedDraw64(min, max, words[i]) == None
    ensures r.Some? ==> used > 0 && min <= r.value <= max && r == SignedDraw64(min, max, words[used - 1])
    ensures r.None? ==> used == |words| && forall x :: x in words ==> SignedDraw64(min, max, x) == None
  {
    // (uint64_t)INT64_MIN is 0x8000_0000_0000_0000
    Bias64(min);
    Bias64(max);
    var lo: u64, hi: u64 := Wrap64(Wrap64(min) - 0x8000_0000_0000_0000), Wrap64(Wrap64(max) - 0x8000_0000_0000_0000);
    var u;
    u, used := RandrU64(lo, hi, words);
    match u
    case Some(v) =>
      Draw64InRange(lo, hi, words[used - 1]);
      Bias64(v - 0x8000_0000_0000_0000);
      r := Some(ToSigned64(Wrap64(v + 0x8000_0000_0000_0000)));
    case None =>
      r := None;
  }

  ghost function SignedYields32(min: i32, max: i32, v: i32): nat -> bool {
    (x: nat) => x < 0x1_0000_0000 && SignedDraw32(min, max, x) == Some(v)
  }

  ghost function SignedYields64(min: i64, max: i64, v: i64): nat -> bool {
    (x: nat) => x < 0x1_0000_0000_0000_0000 && SignedDraw64(min, max, x) == Some(v)
  }

  lemma Shifted32(min: i32, max: i32, v: i32, x: u32)
    ensures SignedDraw32(min, max, x) == Some(v)
            <==> OneDraw32(min + 0x8000_0000, max + 0x8000_0000, x) == Some(v + 0x8000_0000)
  {
    var draw := OneDraw32(min + 0x8000_0000, max + 0x8000_0000, x);
    if draw.Some? {
      var u: int := draw.value;
      Bias32(u - 0x8000_0000);
    }
  }

  lemma Shifted64(min: i64, max: i64, v: i64, x: u64)
    ensures SignedDraw64(min, max, x) == Some(v)
            <==> OneDraw64(min + 0x8000_0000_0000_0000, max + 0x8000_0000_0000_0000, x) == Some(v + 0x8000_0000_0000_0000)
  {
    var draw := OneDraw64(min + 0x8000_0000_0000_0000, max + 0x8000_0000_0000_0000, x);
    if draw.Some? {
      var u: int := draw.value;
      Bias64(u - 0x8000_0000_0000_0000);
    }
  }

  /** The signed versions are exactly uniform too. */
  lemma SignedUniform32(min: i32, max: i32, v: i32, size: nat)
    requires min <= v <= max && size == (max as int) - (min as int) + 1
    ensures Count(SignedYields32(min, max, v), WORDS32) == 0x1_0000_0000 / size
  {
    var lo: u32, hi: u32 := min + 0x8000_0000, max + 0x8000_0000;
    forall x: nat | x < 0x1_0000_0000
      ensures SignedYields32(min, max, v)(x) == Draw32Yields(lo, hi, v + 0x8000_0000)(x)
    {
      Shifted32(min, max, v, x);
    }
    CountSame(SignedYields32(min, max, v), Draw32Yields(lo, hi, v + 0x8000_0000), WORDS32);
    Randr32Uniform(lo, hi, v + 0x8000_0000, size);
  }

  lemma SignedUniform64(min: i64, max: i64, v: i64, size: nat)
    requires min <= v <= max && size == (max as int) - (min as int) + 1
    ensures Count(SignedYields64(min, max, v), WORDS64) == WordsPerValue(size)
  {
    var lo: u64, hi: u64 := min + 0x8000_0000_0000_0000, max + 0x8000_0000_0000_0000;
    forall x: nat | x < 0x1_0000_0000_0000_0000
      ensures SignedYields64(min, max, v)(x) == Draw64Yields(lo, hi, v + 0x8000_0000_0000_0000)(x)
    {
      Shifted64(min, max, v, x);
    }
    CountSame(SignedYields64(min, max, v), Draw64Yields(lo, hi, v + 0x8000_0000_0000_0000), WORDS64);
    Randr64Uniform(lo, hi, v + 0x8000_0000_0000_0000, size);
  }
}
