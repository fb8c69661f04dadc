/** Base64 as RFC 4648 defines it (sections 3.2, 4 and 5), on sextets. */
module Base64Spec {
  import opened Bits

  datatype Variant = Std | Url

  type sextet = x: int | 0 <= x < 64

  const PAD: byte := 61 // '='

  /** `cpr__base64_char` for the arguments its table covers. */
  function Char(v: sextet, variant: Variant): byte {
    if v < 26 then 65 + v
    else if v < 52 then 97 + (v - 26)
    else if v < 62 then 48 + (v - 52)
    else if variant.Std? then (if v == 62 then 43 else 47)
    else if v == 62 then 45 else 95
  }

  /** `cpr__base64_charval`: -1 outside the alphabet. */
  function CharVal(c: byte, variant: Variant): (v: int)
    ensures -1 <= v < 64
  {
    if 65 <= c <= 90 then c - 65
    else if 97 <= c <= 122 then c - 97 + 26
    else if 48 <= c <= 57 then c - 48 + 52
    else if variant.Std? then (if c == 43 then 62 else if c == 47 then 63 else -1)
    else if c == 45 then 62 else if c == 95 then 63 else -1
  }

  /** The two alphabet functions are inverse, and the padding character is in neither alphabet. */
  lemma AlphabetInverse(variant: Variant)
    ensures forall v: sextet :: CharVal(Char(v, variant), variant) == v
    ensures forall c: byte :: CharVal(c, variant) >= 0 ==> Char(CharVal(c, variant), variant) == c
    ensures CharVal(PAD, variant) == -1
  {
  }

  const UPPER: string := "ABCDEFGHIJKLMNOPQRSTUVWXYZ"
  const LOWER: string := "abcdefghijklmnopqrstuvwxyz"
  const DIGITS: string := "0123456789"

  /** The alphabets of sections 4 and 5. */
  function Alphabet(variant: Variant): string {
    UPPER + LOWER + DIGITS + if variant.Std? then "+/" else "-_"
  }

  lemma UpperIs(i: nat)
    requires i < 26
    ensures UPPER[i] as int == 65 + i
  {
  }

  lemma LowerIs(i: nat)
    requires i < 26
    ensures LOWER[i] as int == 97 + i
  {
  }

  lemma DigitIs(i: nat)
    requires i < 10
    ensures DIGITS[i] as int == 48 + i
  {
  }

  /** The characters for the values 0 to 63, in order, and the padding character. */
  lemma AlphabetIs(v: sextet, variant: Variant)
    ensures |Alphabet(variant)| == 64 && Char(v, variant) == Alphabet(variant)[v] as int
    ensures PAD == '=' as int
  {
    if v < 26 {
      UpperIs(v);
    } else if v < 52 {
      LowerIs(v - 26);
    } else if v < 62 {
      DigitIs(v - 52);
    }
  }

  // ---- Bytes to sextets and back

  /** The 24 bits of three bytes, regrouped by six. */
  function Sextets(a: byte, b: byte, c: byte): seq<sextet> {
    [a / 4, a % 4 * 16 + b / 16, b % 16 * 4 + c / 64, c % 64]
  }

  function ToSextets(data: seq<byte>): seq<sextet> {
    if |data| == 0 then []
    else if |data| == 1 then Sextets(data[0], 0, 0)[..2]
    else if |data| == 2 then Sextets(data[0], data[1], 0)[..3]
    else Sextets(data[0], data[1], data[2]) + ToSextets(data[3..])
  }

  /** The 24 bits of four sextets, regrouped by eight. */
  function Octets(v0: sextet, v1: sextet, v2: sextet, v3: sextet): seq<byte> {
    [v0 * 4 + v1 / 16, v1 % 16 * 16 + v2 / 4, v2 % 4 * 64 + v3]
  }

  /** Left-over bits of an incomplete last group are dropped; a single left-over sextet holds no byte. */
  function ToOctets(s: seq<sextet>): seq<byte> {
    if |s| < 2 then []
    else if |s| == 2 then Octets(s[0], s[1], 0, 0)[..1]
    else if |s| == 3 then Octets(s[0], s[1], s[2], 0)[..2]
    else Octets(s[0], s[1], s[2], s[3]) + ToOctets(s[4..])
  }

  lemma GroupInverse(a: byte, b: byte, c: byte)
    ensures var s := Sextets(a, b, c); Octets(s[0], s[1], s[2], s[3]) == [a, b, c]
  {
  }

  lemma {:induction false} RegroupingInverse(data: seq<byte>)
    ensures ToOctets(ToSextets(data)) == data
  {
    if |data| >= 3 {
      var s := ToSextets(data);
      assert s[4..] == ToSextets(data[3..]);
      RegroupingInverse(data[3..]);
      GroupInverse(data[0], data[1], data[2]);
      assert data == [data[0], data[1], data[2]] + data[3..];
    } else if |data| == 2 {
      GroupInverse(data[0], data[1], 0);
    } else if |data| == 1 {
      GroupInverse(data[0], 0, 0);
    }
  }

  lemma {:induction false} SextetCount(data: seq<byte>)
    ensures |ToSextets(data)| == |data| / 3 * 4 + (if |data| % 3 == 0 then 0 else |data| % 3 + 1)
  {
    if |data| >= 3 {
      SextetCount(data[3..]);
    }
  }

  lemma {:induction false} OctetCount(s: seq<sextet>)
    ensures |ToOctets(s)| == |s| / 4 * 3 + (if |s| % 4 == 3 then 2 else if |s| % 4 == 2 then 1 else 0)
  {
    if |s| >= 4 {
      OctetCount(s[4..]);
    }
  }

  // ---- Texts

  function Chars(s: seq<sextet>, variant: Variant): (t: seq<byte>)
    ensures |t| == |s|
    ensures forall i :: 0 <= i < |s| ==> t[i] == Char(s[i], variant)
  {
    seq(|s|, i requires 0 <= i < |s| => Char(s[i], variant))
  }

  /** Padding that completes a last group of `n` characters (section 3.2). */
  function Padding(n: nat): seq<byte> {
    if n % 4 == 2 then [PAD, PAD] else if n % 4 == 3 then [PAD] else []
  }

  function Encoded(data: seq<byte>, variant: Variant, pad: bool): seq<byte> {
    var t := Chars(ToSextets(data), variant);
    if pad then t + Padding(|t|) else t
  }

  /** How many padding characters complete the text to a multiple of four. */
  function PadCount(text: seq<byte>): (n: nat)
    ensures n <= 2 && n <= |text|
  {
    if |text| > 0 && |text| % 4 == 0 && text[|text| - 1] == PAD then
      if text[|text| - 2] == PAD then 2 else 1
    else 0
  }

  function Unpadded(text: seq<byte>): seq<byte> {
    text[..|text| - PadCount(text)]
  }

  predicate InAlphabet(t: seq<byte>, variant: Variant) {
    forall i :: 0 <= i < |t| ==> CharVal(t[i], variant) >= 0
  }

  function Values(t: seq<byte>, variant: Variant): (s: seq<sextet>)
    requires InAlphabet(t, variant)
    ensures |s| == |t|
    ensures forall i :: 0 <= i < |t| ==> s[i] == CharVal(t[i], variant)
  {
    seq(|t|, i requires 0 <= i < |t| => CharVal(t[i], variant))
  }

  /** A text with at most two padding characters that complete a multiple of four, the rest in the
      alphabet and not one character past a whole group. */
  predicate WellFormed(text: seq<byte>, variant: Variant) {
    InAlphabet(Unpadded(text), variant) && |Unpadded(text)| % 4 != 1
  }

  function Decoded(text: seq<byte>, variant: Variant): seq<byte>
    requires WellFormed(text, variant)
  {
    ToOctets(Values(Unpadded(text), variant))
  }

  /** Decoding undoes encoding, for both alphabets, padded or not. */
  lemma DecodeUndoesEncode(data: seq<byte>, variant: Variant, pad: bool)
    ensures WellFormed(Encoded(data, variant, pad), variant)
    ensures Decoded(Encoded(data, variant, pad), variant) == data
  {
    var s := ToSextets(data);
    var t, text := Chars(s, variant), Encoded(data, variant, pad);
    SextetCount(data);
    AlphabetInverse(variant);
    NoPadInside(t, variant, pad);
    assert Values(t, variant) == s;
    RegroupingInverse(data);
  }

  lemma NoPadInside(t: seq<byte>, variant: Variant, pad: bool)
    requires InAlphabet(t, variant) && |t| % 4 != 1
    ensures Unpadded(if pad then t + Padding(|t|) else t) == t
  {
    AlphabetInverse(variant);
    var text := if pad then t + Padding(|t|) else t;
    if |t| > 0 {
      assert CharVal(t[|t| - 1], variant) >= 0;
      assert |t| >= 2 && CharVal(t[|t| - 2], variant) >= 0;
    }
    assert PadCount(text) == |text| - |t|;
  }

  /** Left-over bytes are padded with zero bits, and the text with the padding character. */
  lemma EncodesOne(a: byte)
    ensures Encoded([a], Std, true) == [Char(a / 4, Std), Char(a % 4 * 16, Std), PAD, PAD]
  {
    assert ToSextets([a]) == [a / 4, a % 4 * 16];
  }

  lemma EncodesTwo(a: byte, b: byte)
    ensures Encoded([a, b], Std, true) ==
            [Char(a / 4, Std), Char(a % 4 * 16 + b / 16, Std), Char(b % 16 * 4, Std), PAD]
  {
    assert ToSextets([a, b]) == [a / 4, a % 4 * 16 + b / 16, b % 16 * 4];
  }

  lemma EncodesThree(a: byte, b: byte, c: byte)
    ensures Encoded([a, b, c], Std, true) ==
            [Char(a / 4, Std), Char(a % 4 * 16 + b / 16, Std), Char(b % 16 * 4 + c / 64, Std), Char(c % 64, Std)]
  {
    assert [a, b, c][3..] == [];
    assert ToSextets([a, b, c]) == [a / 4, a % 4 * 16 + b / 16, b % 16 * 4 + c / 64, c % 64];
  }

  /** Test vectors of section 10: `f` is "Zg==", `fo` is "Zm8=" and `foo` is "Zm9v". */
  lemma Section10(f: byte, o: byte)
    requires f == 102 && o == 111
    ensures Encoded([f], Std, true) == [90, 103, 61, 61]
    ensures Encoded([f, o], Std, true) == [90, 109, 56, 61]
    ensures Encoded([f, o, o], Std, true) == [90, 109, 57, 118]
  {
    EncodesOne(f);
    EncodesTwo(f, o);
    EncodesThree(f, o, o);
  }

  /** The characters with a value are those of the alphabet. */
  lemma InAlphabetIff(c: byte, variant: Variant)
    ensures CharVal(c, variant) >= 0 <==> c as char in Alphabet(variant)
  {
    var v := CharVal(c, variant);
    if v >= 0 {
      AlphabetIs(v, variant);
      AlphabetInverse(variant);
      assert Alphabet(variant)[v] == c as char;
    }
    if c as char in Alphabet(variant) {
      var k: nat :| k < |Alphabet(variant)| && Alphabet(variant)[k] == c as char;
      assert k < 64 by { AlphabetIs(0, variant); }
      AlphabetIs(k, variant);
      AlphabetInverse(variant);
    }
  }

  /** The last `n` characters, at most two, are `=` and complete the text to a multiple of four; those
      before them are all of the alphabet, and not one past a whole group. */
  ghost predicate SplitsAt(text: seq<byte>, variant: Variant, n: nat) {
    && n <= 2 && n <= |text| && (n > 0 ==> |text| % 4 == 0)
    && (forall i :: |text| - n <= i < |text| ==> text[i] == 61)
    && InAlphabet(text[..|text| - n], variant)
    && (|text| - n) % 4 != 1
  }

  lemma BeforePad(text: seq<byte>, variant: Variant, n: nat)
    requires n < |text| && InAlphabet(text[..|text| - n], variant)
    ensures text[|text| - n - 1] != 61
  {
    var t := text[..|text| - n];
    assert CharVal(t[|t| - 1], variant) >= 0;
    AlphabetInverse(variant);
  }

  lemma SplitIsUnpadded(text: seq<byte>, variant: Variant, n: nat)
    requires SplitsAt(text, variant, n)
    ensures n == PadCount(text)
  {
    if n < |text| {
      BeforePad(text, variant, n);
    }
  }

  /** A text is well formed exactly when it splits that way. */
  lemma WellFormedIff(text: seq<byte>, variant: Variant)
    ensures WellFormed(text, variant) <==> exists n :: SplitsAt(text, variant, n)
  {
    if WellFormed(text, variant) {
      assert SplitsAt(text, variant, PadCount(text));
    }
    forall n: nat | SplitsAt(text, variant, n)
      ensures WellFormed(text, variant)
    {
      SplitIsUnpadded(text, variant, n);
    }
  }

  // ---- Sizes

  /** Length of an encoding and its terminator. */
  function EncodedLen(dataSize: nat, pad: bool): nat {
    var groups, rem := dataSize / 3, dataSize % 3;
    var chars := if pad then (groups + (if rem != 0 then 1 else 0)) * 4
                 else groups * 4 + (if rem != 0 then rem + 1 else 0);
    chars + 1
  }

  /** `cpr_base64e_len`, in size_t arithmetic. */
  function EncodedSize(dataSize: u64, pad: bool): u64 {
    var groups, rem := dataSize / 3, dataSize % 3;
    var chars := if pad then Wrap64((groups + (if rem != 0 then 1 else 0)) * 4)
                 else Wrap64(Wrap64(groups * 4) + (if rem != 0 then rem + 1 else 0));
    Wrap64(chars + 1)
  }

  /** `cpr_base64d_len`, in size_t arithmetic. */
  function DecodedSize(textSize: u64): u64 {
    Wrap64(Wrap64(textSize + 3) / 4 * 4)
  }

  /** The most data for which the sizes do not wrap. */
  function MaxData(pad: bool): nat {
    if pad then 0xBFFF_FFFF_FFFF_FFFD else 0xBFFF_FFFF_FFFF_FFFE
  }

  lemma EncodedLength(data: seq<byte>, variant: Variant, pad: bool)
    ensures |Encoded(data, variant, pad)| + 1 == EncodedLen(|data|, pad)
  {
    SextetCount(data);
  }

  /** While it does not wrap, `cpr_base64d_len` is the least multiple of four that is at least the length. */
  lemma DecodedSizeIs(textSize: u64)
    requires textSize <= 0xFFFF_FFFF_FFFF_FFFC
    ensures textSize <= DecodedSize(textSize) < textSize + 4 && DecodedSize(textSize) % 4 == 0
  {
  }

  lemma EncodedSizeWraps(dataSize: u64, pad: bool)
    ensures EncodedSize(dataSize, pad) == Wrap64(EncodedLen(dataSize, pad))
    ensures EncodedLen(dataSize, pad) < 0x1_0000_0000_0000_0000 <==> dataSize <= MaxData(pad)
    ensures EncodedLen(dataSize, pad) < 0x2_0000_0000_0000_0000
  {
  }

  /** `cpr_base64e_len` is the length of the encoding and its terminator, exactly while that fits in
      a size_t. */
  lemma EncodedLenIsExact(data: seq<byte>, variant: Variant, pad: bool)
    requires |data| < 0x1_0000_0000_0000_0000
    ensures |Encoded(data, variant, pad)| + 1 == EncodedSize(|data|, pad) <==> |data| <= MaxData(pad)
  {
    EncodedLength(data, variant, pad);
    EncodedSizeWraps(|data|, pad);
  }

  /** `cpr_base64d_len` bounds the length of the decoding, except for the three lengths at the top of
      size_t. */
  lemma DecodedLenIsBound(text: seq<byte>, variant: Variant)
    requires WellFormed(text, variant) && |text| < 0x1_0000_0000_0000_0000
    ensures |Decoded(text, variant)| <= DecodedSize(|text|) <==> |text| <= 0xFFFF_FFFF_FFFF_FFFC
  {
    OctetCount(Values(Unpadded(text), variant));
  }
}

/** The encoder and decoder loops (src/base64.c). Three spots of the source defeat the round trip
    that include/copper/base64.h promises; `Revision` selects the source as written or with exactly
    those spots repaired. */
module Base64 {
  import opened Bits
  import opened Options
  import opened Base64Spec

  datatype Revision = AsWritten | Repaired

  /** Undefined: the source would read outside an array. */
  datatype Status = Done | Overflow | Invalid | Undefined

  // ---- Bit fields

  function Field6(n: nat, s: nat): nat {
    And(Shr(n, s), 0x3F)
  }

  lemma ShrBy(n: nat, s: nat, p: nat)
    requires p == Pow2(s)
    ensures Shr(n, s) == n / p
  {
    ShrIsDiv(n, s);
  }

  lemma Field6Is(n: nat, s: nat, p: nat)
    requires p == Pow2(s)
    ensures Field6(n, s) == n / p % 64
  {
    assert Pow2(6) == 64;
    ShrBy(n, s, p);
    LowMask(Shr(n, s), 6);
  }

  lemma Packs(a: nat, b: nat, s: nat, p: nat)
    requires p == Pow2(s) && b < p
    ensures Or(Shl(a, s), b) == a * p + b
  {
    OrDisjoint(a, b, s);
  }

  /** `a << 16 | b << 8 | c` */
  function Pack3(a: byte, b: byte, c: byte): nat {
    Or(Or(Shl(a, 16), Shl(b, 8)), c)
  }

  lemma Pack3Is(a: byte, b: byte, c: byte)
    ensures Pack3(a, b, c) == a * 0x1_0000 + b * 0x100 + c
  {
    assert Pow2(8) == 0x100 && Pow2(16) == 0x1_0000;
    Packs(a, Shl(b, 8), 16, 0x1_0000);
    assert Or(Shl(a, 16), Shl(b, 8)) == Shl(a * 0x100 + b, 8);
    Packs(a * 0x100 + b, c, 8, 0x100);
  }

  lemma GroupFields(a: byte, b: byte, c: byte)
    ensures var n := Pack3(a, b, c);
            Sextets(a, b, c) == [Field6(n, 18), Field6(n, 12), Field6(n, 6), And(n, 0x3F)]
  {
    Pack3Is(a, b, c);
    FieldsOf(Pack3(a, b, c), a, b, c);
  }

  function FromDigits64(s0: nat, s1: nat, s2: nat, s3: nat): nat {
    s0 * 262144 + s1 * 4096 + s2 * 64 + s3
  }

  function FromDigits256(b0: nat, b1: nat, b2: nat): nat {
    b0 * 0x1_0000 + b1 * 0x100 + b2
  }

  /** The four base-64 digits of `n`. */
  lemma FieldsOf(n: nat, a: byte, b: byte, c: byte)
    requires n == a * 0x1_0000 + b * 0x100 + c
    ensures Sextets(a, b, c) == [Field6(n, 18), Field6(n, 12), Field6(n, 6), And(n, 0x3F)]
  {
    var s := Sextets(a, b, c);
    SextetSum(a, b, c);
    DigitsOf(n, s[0], s[1], s[2], s[3]);
  }

  lemma SextetSum(a: byte, b: byte, c: byte)
    ensures var s := Sextets(a, b, c);
            FromDigits64(s[0], s[1], s[2], s[3]) == FromDigits256(a, b, c)
  {
  }

  lemma DigitsOf(n: nat, s0: sextet, s1: sextet, s2: sextet, s3: sextet)
    requires n == FromDigits64(s0, s1, s2, s3)
    ensures Field6(n, 18) == s0 && Field6(n, 12) == s1 && Field6(n, 6) == s2 && And(n, 0x3F) == s3
  {
    assert Pow2(6) == 64 && Pow2(12) == 4096 && Pow2(18) == 262144;
    Field6Is(n, 18, 262144);
    Digit(n, 262144, s0, s1 * 4096 + s2 * 64 + s3, 0, s0);
    Field6Is(n, 12, 4096);
    Digit(n, 4096, s0 * 64 + s1, s2 * 64 + s3, s0, s1);
    Field6Is(n, 6, 64);
    Digit(n, 64, s0 * 4096 + s1 * 64 + s2, s3, s0 * 64 + s1, s2);
    LowMask(n, 6);
    DivUnique(n, 64, s0 * 4096 + s1 * 64 + s2, s3);
  }

  /** Digit `d` of `n` in base 64, given the quotient and remainder at its place. */
  lemma Digit(n: nat, p: nat, q: nat, r: nat, hi: nat, d: nat)
    requires p > 0 && n == q * p + r && r < p
    requires q == hi * 64 + d && d < 64
    ensures n / p % 64 == d
  {
    DivUnique(n, p, q, r);
    DivUnique(q, 64, hi, d);
  }

  /** `v0 << 18 | v1 << 12 | v2 << 6 | v3` */
  function Pack4(v0: sextet, v1: sextet, v2: sextet, v3: sextet): nat {
    Or(Or(Or(Shl(v0, 18), Shl(v1, 12)), Shl(v2, 6)), v3)
  }

  lemma Pack4Is(v0: sextet, v1: sextet, v2: sextet, v3: sextet)
    ensures Pack4(v0, v1, v2, v3) == v0 * 262144 + v1 * 4096 + v2 * 64 + v3
  {
    assert Pow2(6) == 64 && Pow2(12) == 4096 && Pow2(18) == 262144;
    Packs(v0, Shl(v1, 12), 18, 262144);
    assert Or(Shl(v0, 18), Shl(v1, 12)) == Shl(v0 * 64 + v1, 12);
    Packs(v0 * 64 + v1, Shl(v2, 6), 12, 4096);
    assert Or(Shl(v0 * 64 + v1, 12), Shl(v2, 6)) == Shl(v0 * 4096 + v1 * 64 + v2, 6);
    Packs(v0 * 4096 + v1 * 64 + v2, v3, 6, 64);
  }

  /** The three bytes `(uint8_t)(n >> 16)`, `(uint8_t)(n >> 8)` and `(uint8_t)n`. */
  function Bytes3(n: nat): seq<byte> {
    [Shr(n, 16) % 256, Shr(n, 8) % 256, n % 256]
  }

  lemma GroupBytes(v0: sextet, v1: sextet, v2: sextet, v3: sextet)
    ensures Bytes3(Pack4(v0, v1, v2, v3)) == Octets(v0, v1, v2, v3)
  {
    Pack4Is(v0, v1, v2, v3);
    BytesOf(Pack4(v0, v1, v2, v3), v0, v1, v2, v3);
  }

  lemma BytesOf(n: nat, v0: sextet, v1: sextet, v2: sextet, v3: sextet)
    requires n == v0 * 262144 + v1 * 4096 + v2 * 64 + v3
    ensures Bytes3(n) == Octets(v0, v1, v2, v3)
  {
    var b := Octets(v0, v1, v2, v3);
    OctetSum(v0, v1, v2, v3);
    BytesAre(n, b[0], b[1], b[2]);
  }

  lemma OctetSum(v0: sextet, v1: sextet, v2: sextet, v3: sextet)
    ensures var b := Octets(v0, v1, v2, v3);
            FromDigits256(b[0], b[1], b[2]) == FromDigits64(v0, v1, v2, v3)
  {
  }

  lemma BytesAre(n: nat, b0: byte, b1: byte, b2: byte)
    requires n == FromDigits256(b0, b1, b2)
    ensures Bytes3(n) == [b0, b1, b2]
  {
    assert Pow2(8) == 0x100 && Pow2(16) == 0x1_0000;
    ShrBy(n, 16, 0x1_0000);
    ByteDigit(n, 0x1_0000, b0, b1 * 0x100 + b2, 0, b0);
    ShrBy(n, 8, 0x100);
    ByteDigit(n, 0x100, b0 * 0x100 + b1, b2, b0, b1);
    DivUnique(n, 0x100, b0 * 0x100 + b1, b2);
  }

  lemma ByteDigit(n: nat, p: nat, q: nat, r: nat, hi: nat, d: nat)
    requires p > 0 && n == q * p + r && r < p
    requires q == hi * 256 + d && d < 256
    ensures n / p % 256 == d
  {
    DivUnique(n, p, q, r);
    DivUnique(q, 256, hi, d);
  }

  // ---- Encoding

  /** The number of left-over bytes the branches after the loop test for. As written it is
      `data_size - 1`, in size_t arithmetic. */
  function Remainder(rev: Revision, size: nat): nat {
    if rev.Repaired? then size % 3 else Wrap64(size - 1)
  }

  /** How many bytes of input the loop and those branches read. */
  function Covered(rev: Revision, size: nat): nat {
    var rem := Remainder(rev, size);
    size / 3 * 3 + (if rem == 1 || rem == 2 then rem else 0)
  }

  /** The text `cpr_base64_encode` leaves in a large enough buffer, or None if it reads past its input. */
  function EncodeText(rev: Revision, data: seq<byte>, variant: Variant, pad: bool): Option<seq<byte>> {
    var m := Covered(rev, |data|);
    if m > |data| then None else Some(Encoded(data[..m], variant, pad))
  }

  lemma {:induction false} SextetsSplit(data: seq<byte>, i: nat)
    requires i % 3 == 0 && i <= |data|
    ensures ToSextets(data) == ToSextets(data[..i]) + ToSextets(data[i..])
    decreases i
  {
    if i > 0 {
      var a, b := data[..i], data[3..];
      SextetsSplit(b, i - 3);
      assert b[..i - 3] == a[3..] && b[i - 3..] == data[i..];
      var g := Sextets(data[0], data[1], data[2]);
      assert ToSextets(data) == g + ToSextets(b);
      assert ToSextets(a) == g + ToSextets(a[3..]);
    } else {
      assert data[0..] == data && data[..0] == [];
    }
  }

  lemma CharsConcat(s: seq<sextet>, s': seq<sextet>, variant: Variant)
    ensures Chars(s + s', variant) == Chars(s, variant) + Chars(s', variant)
  {
  }

  lemma EncodeMore(data: seq<byte>, i: nat, j: nat, variant: Variant)
    requires i % 3 == 0 && i <= j <= |data|
    ensures Chars(ToSextets(data[..j]), variant) == Chars(ToSextets(data[..i]), variant) + Chars(ToSextets(data[i..j]), variant)
  {
    SextetsSplit(data[..j], i);
    assert data[..j][..i] == data[..i] && data[..j][i..] == data[i..j];
    CharsConcat(ToSextets(data[..i]), ToSextets(data[i..j]), variant);
  }

  lemma FieldsOfPack(a: byte, b: byte, n: nat)
    requires n == Pack3(a, b, 0)
    ensures Sextets(a, b, 0) == [Field6(n, 18), Field6(n, 12), Field6(n, 6), And(n, 0x3F)]
  {
    GroupFields(a, b, 0);
  }

  lemma Leftover1(a: byte)
    ensures var n := Shl(a, 16); ToSextets([a]) == [Field6(n, 18), Field6(n, 12)]
  {
    var n := Shl(a, 16);
    assert Pack3(a, 0, 0) == n by { OrZero(n); }
    FieldsOfPack(a, 0, n);
  }

  lemma Leftover2(a: byte, b: byte)
    ensures var n := Or(Shl(a, 16), Shl(b, 8)); ToSextets([a, b]) == [Field6(n, 18), Field6(n, 12), Field6(n, 6)]
  {
    var n := Or(Shl(a, 16), Shl(b, 8));
    assert Pack3(a, b, 0) == n by { OrZero(n); }
    FieldsOfPack(a, b, n);
  }

  /** `*out++ = cpr__base64_char(v, variant)` for each `v` of `s`. */
  method PutChars(buf: array<byte>, out: nat, s: seq<sextet>, variant: Variant)
    requires out + |s| <= buf.Length
    modifies buf
    ensures buf[..out + |s|] == old(buf[..out]) + Chars(s, variant)
    ensures forall k :: out + |s| <= k < buf.Length ==> buf[k] == old(buf[k])
  {
    for j := 0 to |s|
      invariant buf[..out + j] == old(buf[..out]) + Chars(s, variant)[..j]
      invariant forall k :: out + j <= k < buf.Length ==> buf[k] == old(buf[k])
    {
      buf[out + j] := Char(s[j], variant);
    }
  }

  /** The shifts and masks of each branch, for the `k` bytes at `i`. */
  method SplitGroup(data: seq<byte>, i: nat, k: nat) returns (s: seq<sextet>)
    requires 1 <= k <= 3 && i + k <= |data|
    ensures s == ToSextets(data[i..i + k]) && |s| == k + 1
  {
    if k == 3 {
      var n := Pack3(data[i], data[i + 1], data[i + 2]);
      GroupFields(data[i], data[i + 1], data[i + 2]);
      return [Field6(n, 18), Field6(n, 12), Field6(n, 6), And(n, 0x3F)];
    } else if k == 2 {
      var n := Or(Shl(data[i], 16), Shl(data[i + 1], 8));
      Leftover2(data[i], data[i + 1]);
      assert data[i..i + 2] == [data[i], data[i + 1]];
      return [Field6(n, 18), Field6(n, 12), Field6(n, 6)];
    } else {
      var n := Shl(data[i], 16);
      Leftover1(data[i]);
      assert data[i..i + 1] == [data[i]];
      return [Field6(n, 18), Field6(n, 12)];
    }
  }

  /** The first `out` bytes of the buffer are the text of the first `i` bytes. */
  ghost predicate TextDone(data: seq<byte>, i: nat, buf: array<byte>, out: nat, variant: Variant)
    reads buf
  {
    i % 3 == 0 && i <= |data| && out <= buf.Length && buf[..out] == Chars(ToSextets(data[..i]), variant)
  }

  method PutGroup(data: seq<byte>, i: nat, k: nat, buf: array<byte>, out: nat, variant: Variant)
    requires 1 <= k <= 3 && i + k <= |data| && out + k + 1 <= buf.Length
    modifies buf
    ensures buf[..out + k + 1] == old(buf[..out]) + Chars(ToSextets(data[i..i + k]), variant)
    ensures forall x :: out + k + 1 <= x < buf.Length ==> buf[x] == old(buf[x])
  {
    var s := SplitGroup(data, i, k);
    PutChars(buf, out, s, variant);
  }

  /** One turn of the loop over whole groups. */
  method PutWhole(data: seq<byte>, i: nat, buf: array<byte>, out: nat, variant: Variant)
    requires i + 3 <= |data| && out + 4 <= buf.Length && TextDone(data, i, buf, out, variant)
    modifies buf
    ensures TextDone(data, i + 3, buf, out + 4, variant)
    ensures forall x :: out + 4 <= x < buf.Length ==> buf[x] == old(buf[x])
  {
    PutGroup(data, i, 3, buf, out, variant);
    EncodeMore(data, i, i + 3, variant);
  }

  /** The loop over whole groups. */
  method EncodeGroups(data: seq<byte>, buf: array<byte>, variant: Variant) returns (i: nat, out: nat)
    requires |data| / 3 * 4 < buf.Length
    modifies buf
    ensures i == |data| / 3 * 3 && out == |data| / 3 * 4
    ensures TextDone(data, i, buf, out, variant)
    ensures forall k :: out <= k < buf.Length ==> buf[k] == old(buf[k])
  {
    i, out := 0, 0;
    ghost var g := 0;
    while i + 3 <= |data|
      invariant i == 3 * g <= |data| && out == 4 * g <= |data| / 3 * 4
      invariant TextDone(data, i, buf, out, variant)
      invariant forall k :: out <= k < buf.Length ==> buf[k] == old(buf[k])
    {
      PutWhole(data, i, buf, out, variant);
      i, out, g := i + 3, out + 4, g + 1;
    }
  }

  /** The one or two bytes after the last whole group, and their padding. */
  method EncodeRest(data: seq<byte>, i: nat, rem: nat, buf: array<byte>, out: nat, variant: Variant, pad: bool)
    returns (end: nat)
    requires i + rem <= |data| && 1 <= rem <= 2
    requires EncodedLen(i + rem, pad) <= buf.Length && out == i / 3 * 4
    requires TextDone(data, i, buf, out, variant)
    modifies buf
    ensures out <= end < buf.Length
    ensures buf[..end] == Encoded(data[..i + rem], variant, pad)
    ensures forall k :: end <= k < buf.Length ==> buf[k] == old(buf[k])
  {
    RestFits(data, i, rem, variant, pad);
    PutGroup(data, i, rem, buf, out, variant);
    end := out + rem + 1;
    ghost var t := Chars(ToSextets(data[..i + rem]), variant);
    assert buf[..end] == t;
    if pad {
      end := PutPad(buf, end);
      if rem == 1 {
        end := PutPad(buf, end);
        assert buf[..end] == t + [PAD, PAD];
      }
    }
  }

  lemma RestFits(data: seq<byte>, i: nat, rem: nat, variant: Variant, pad: bool)
    requires i % 3 == 0 && i + rem <= |data| && 1 <= rem <= 2
    ensures var t := Chars(ToSextets(data[..i + rem]), variant);
            && t == Chars(ToSextets(data[..i]), variant) + Chars(ToSextets(data[i..i + rem]), variant)
            && |t| == i / 3 * 4 + rem + 1
            && Padding(|t|) == (if rem == 1 then [PAD, PAD] else [PAD])
            && |t| + (if pad then 3 - rem else 0) < EncodedLen(i + rem, pad)
  {
    EncodeMore(data, i, i + rem, variant);
    SextetCountAt(data[..i + rem], i / 3, rem);
    RestLength(i / 3, rem, i + rem, pad);
  }

  lemma SextetCountAt(d: seq<byte>, g: nat, rem: nat)
    requires |d| == 3 * g + rem && rem < 3
    ensures |ToSextets(d)| == 4 * g + (if rem == 0 then 0 else rem + 1)
  {
    SextetCount(d);
  }

  lemma RestLength(g: nat, rem: nat, size: nat, pad: bool)
    requires 1 <= rem <= 2 && 3 * g + rem == size
    ensures (if rem == 1 then [PAD, PAD] else [PAD]) == Padding(g * 4 + rem + 1)
    ensures g * 4 + rem + 1 + (if pad then 3 - rem else 0) < EncodedLen(size, pad)
  {
  }

  /** `*out++ = '='` */
  method PutPad(buf: array<byte>, out: nat) returns (end: nat)
    requires out < buf.Length
    modifies buf
    ensures end == out + 1 && buf[..end] == old(buf[..out]) + [PAD] && (forall k :: end <= k < buf.Length ==> buf[k] == old(buf[k]))
  {
    buf[out] := PAD;
    return out + 1;
  }

  lemma WholeText(data: seq<byte>, i: nat, variant: Variant, pad: bool)
    requires i % 3 == 0 && i <= |data|
    ensures Encoded(data[..i], variant, pad) == Chars(ToSextets(data[..i]), variant)
  {
    SextetCount(data[..i]);
  }

  /** The size test uses `cpr_base64e_len`, so when that wraps a buffer too small for the text passes it. */
  method Encode(rev: Revision, data: seq<byte>, buf: array<byte>, variant: Variant, pad: bool) returns (status: Status)
    requires |data| < 0x1_0000_0000_0000_0000
    modifies buf
    ensures status == Overflow <==> buf.Length < EncodedSize(|data|, pad)
    ensures status == Undefined <==>
              && status != Overflow
              && var t := EncodeText(rev, data, variant, pad); t == None || buf.Length <= |t.value|
    ensures status != Invalid
    ensures status == Done ==>
              var t := EncodeText(rev, data, variant, pad).value;
              && |t| < buf.Length && buf[..|t|] == t && buf[|t|] == 0
              && (forall k :: |t| + 1 <= k < buf.Length ==> buf[k] == old(buf[k]))
    ensures status == Overflow ==> buf[..] == old(buf[..])
  {
    if buf.Length < EncodedSize(|data|, pad) {
      return Overflow;
    }
    var m := Covered(rev, |data|);
    TextRoom(rev, data, m, variant, pad);
    if m > |data| || buf.Length < EncodedLen(m, pad) {
      return Undefined; // reads past the input or writes past the buffer
    }
    var out := EncodeCovered(rev, data, m, buf, variant, pad);
    buf[out] := 0;
    return Done;
  }

  lemma TextRoom(rev: Revision, data: seq<byte>, m: nat, variant: Variant, pad: bool)
    requires m == Covered(rev, |data|)
    ensures m > |data| ==> EncodeText(rev, data, variant, pad) == None
    ensures m <= |data| ==>
              var t := EncodeText(rev, data, variant, pad);
              t == Some(Encoded(data[..m], variant, pad)) && |t.value| + 1 == EncodedLen(m, pad)
  {
    if m <= |data| {
      EncodedLength(data[..m], variant, pad);
    }
  }

  /** The loop and the branch after it, for the `m` bytes they read. */
  method EncodeCovered(rev: Revision, data: seq<byte>, m: nat, buf: array<byte>, variant: Variant, pad: bool) returns (out: nat)
    requires |data| < 0x1_0000_0000_0000_0000 && m == Covered(rev, |data|) <= |data|
    requires EncodedLen(m, pad) <= buf.Length
    modifies buf
    ensures out < buf.Length && buf[..out] == Encoded(data[..m], variant, pad)
    ensures forall k :: out <= k < buf.Length ==> buf[k] == old(buf[k])
  {
    GroupsFit(|data| / 3, |data|, m, pad);
    var i;
    i, out := EncodeGroups(data, buf, variant);
    var rem := if rev.Repaired? then |data| - i else Wrap64(|data| - 1);
    CoveredIs(rev, |data|, i, rem);
    if rem == 1 || rem == 2 {
      out := EncodeRest(data, i, rem, buf, out, variant, pad);
    } else {
      WholeText(data, i, variant, pad);
    }
  }

  lemma CoveredIs(rev: Revision, size: nat, i: nat, rem: nat)
    requires size < 0x1_0000_0000_0000_0000 && i == size / 3 * 3
    requires rem == if rev.Repaired? then size - i else Wrap64(size - 1)
    ensures i % 3 == 0 && i / 3 == size / 3 && i <= size
    ensures Covered(rev, size) == i + (if rem == 1 || rem == 2 then rem else 0)
  {
  }

  lemma GroupsFit(groups: nat, size: nat, m: nat, pad: bool)
    requires groups == size / 3 && groups * 3 <= m
    ensures groups * 4 < EncodedLen(m, pad)
  {
  }

  /** As written, the encoder is right exactly on inputs of a multiple of three bytes other than three. */
  lemma EncodeAsWrittenIff(data: seq<byte>, variant: Variant, pad: bool)
    requires |data| < 0x1_0000_0000_0000_0000
    ensures EncodeText(AsWritten, data, variant, pad) == Some(Encoded(data, variant, pad))
            <==> |data| % 3 == 0 && |data| != 3
  {
    CoveredAsWritten(|data|);
    if |data| % 3 == 0 {
      assert data[..|data|] == data;
    } else if |data| == 2 {
      TwoBytesDiffer(data, variant, pad);
    } else {
      LeftoversLost(data, |data| / 3 * 3, variant, pad);
    }
  }

  lemma LeftoversLost(data: seq<byte>, m: nat, variant: Variant, pad: bool)
    requires m < |data| && m % 3 == 0
    ensures Encoded(data[..m], variant, pad) != Encoded(data, variant, pad)
  {
    SextetCount(data);
    SextetCount(data[..m]);
  }

  lemma TwoBytesDiffer(data: seq<byte>, variant: Variant, pad: bool)
    requires |data| == 2
    ensures Encoded(data[..1], variant, pad) != Encoded(data, variant, pad)
  {
    AlphabetInverse(variant);
    var t, t' := Encoded(data[..1], variant, pad), Encoded(data, variant, pad);
    assert CharVal(t'[2], variant) >= 0;
    assert pad ==> t[2] == PAD;
  }

  // ---- Decoding

  /** The bytes of one whole group. As written, the third and fourth sextets are dropped. */
  function GroupOctets(rev: Revision, v0: sextet, v1: sextet, v2: sextet, v3: sextet): seq<byte> {
    if rev.Repaired? then Octets(v0, v1, v2, v3) else Octets(v0, v1, 0, 0)
  }

  function WholeGroups(rev: Revision, s: seq<sextet>): seq<byte>
    requires |s| % 4 == 0
  {
    if s == [] then [] else GroupOctets(rev, s[0], s[1], s[2], s[3]) + WholeGroups(rev, s[4..])
  }

  datatype Result = Bytes(bytes: seq<byte>) | Malformed | Unknown

  /** The byte the last two characters give as written, where their alphabet codes are taken for values. */
  function TailAsWritten(c0: byte, c1: byte, variant: Variant): byte
    requires c0 < 64 && c1 < 64
  {
    Shr(Or(Shl(Char(c0, variant), 18), Shl(Char(c1, variant), 12)), 16) % 256
  }

  lemma {:induction false} ShrOr(n: nat, m: nat, s: nat)
    ensures Shr(Or(n, m), s) == Or(Shr(n, s), Shr(m, s))
    decreases s
  {
    if s > 0 {
      ShrOr(n / 2, m / 2, s - 1);
      assert Or(n, m) / 2 == Or(n / 2, m / 2);
    }
  }

  lemma ShiftedBack(x: nat, up: nat, down: nat, p: nat, q: nat)
    requires p == Pow2(up) && q == Pow2(down)
    ensures Shr(Shl(x, up), down) == x * p / q
  {
    ShrBy(Shl(x, up), down, q);
  }

  /** That byte: the code of the first character shifted by two, or-ed with the upper half of the second. */
  lemma TailAsWrittenIs(c0: byte, c1: byte, variant: Variant)
    requires c0 < 64 && c1 < 64
    ensures TailAsWritten(c0, c1, variant) == Or(Char(c0, variant) * 4, Char(c1, variant) / 16) % 256
  {
    JoinedCodes(Char(c0, variant), Char(c1, variant));
  }

  lemma JoinedCodes(a: byte, b: byte)
    ensures Shr(Or(Shl(a, 18), Shl(b, 12)), 16) == Or(a * 4, b / 16)
  {
    var x, y := Shl(a, 18), Shl(b, 12);
    assert Shr(x, 16) == a * 4 by {
      assert Pow2(16) == 0x1_0000 && Pow2(18) == 262144;
      ShiftedBack(a, 18, 16, 262144, 0x1_0000);
    }
    assert Shr(y, 16) == b / 16 by {
      assert Pow2(12) == 4096 && Pow2(16) == 0x1_0000;
      ShiftedBack(b, 12, 16, 4096, 0x1_0000);
    }
    ShrOr(x, y, 16);
  }

  /** What the last two or three characters give. */
  function TailBytes(rev: Revision, tail: seq<byte>, variant: Variant): (r: Result)
    requires |tail| == 2 || |tail| == 3
    ensures r.Bytes? ==> |r.bytes| == |tail| - 1
  {
    if |tail| == 2 && rev.AsWritten? then
      // as written, the encoder's table is indexed by the character itself
      if tail[0] < 64 && tail[1] < 64 then Bytes([TailAsWritten(tail[0], tail[1], variant)]) else Unknown
    else if !InAlphabet(tail, variant) then Malformed
    else Bytes(ToOctets(Values(tail, variant)))
  }

  function DecodeParts(rev: Revision, whole: seq<byte>, tail: seq<byte>, variant: Variant): Result
    requires |whole| % 4 == 0 && |tail| < 4
  {
    if |tail| == 1 || !InAlphabet(whole, variant) then Malformed
    else
      var bytes := WholeGroups(rev, Values(whole, variant));
      if tail == [] then Bytes(bytes)
      else match TailBytes(rev, tail, variant)
           case Bytes(last) => Bytes(bytes + last)
           case r => r
  }

  /** The result of `cpr_base64_decode` when the buffer is large enough. */
  function DecodeText(rev: Revision, text: seq<byte>, variant: Variant): Result {
    var u := Unpadded(text);
    DecodeParts(rev, u[..|u| / 4 * 4], u[|u| / 4 * 4..], variant)
  }

  lemma {:induction false} GroupsSplit(rev: Revision, s: seq<sextet>, i: nat)
    requires |s| % 4 == 0 && i % 4 == 0 && i <= |s|
    ensures WholeGroups(rev, s) == WholeGroups(rev, s[..i]) + WholeGroups(rev, s[i..])
    decreases i
  {
    if i > 0 {
      GroupsSplit(rev, s[4..], i - 4);
      assert s[4..][..i - 4] == s[..i][4..] && s[4..][i - 4..] == s[i..];
    } else {
      assert s[0..] == s;
    }
  }

  lemma {:induction false} OctetsOfGroups(whole: seq<sextet>, tail: seq<sextet>)
    requires |whole| % 4 == 0 && |tail| < 4
    ensures ToOctets(whole + tail) == WholeGroups(Repaired, whole) + ToOctets(tail)
  {
    if whole != [] {
      assert (whole + tail)[4..] == whole[4..] + tail;
      OctetsOfGroups(whole[4..], tail);
    } else {
      assert whole + tail == tail;
    }
  }

  /** Repaired, the decoder accepts exactly the well-formed texts, and yields what they encode. */
  lemma RepairedDecodes(text: seq<byte>, variant: Variant)
    ensures DecodeText(Repaired, text, variant) ==
            if WellFormed(text, variant) then Bytes(Decoded(text, variant)) else Malformed
  {
    var u := Unpadded(text);
    var whole, tail := u[..|u| / 4 * 4], u[|u| / 4 * 4..];
    assert u == whole + tail;
    AlphabetSplit(whole, tail, variant);
    if WellFormed(text, variant) {
      RepairedYields(whole, tail, variant);
    }
  }

  lemma RepairedYields(whole: seq<byte>, tail: seq<byte>, variant: Variant)
    requires |whole| % 4 == 0 && |tail| < 4
    requires InAlphabet(whole, variant) && InAlphabet(tail, variant) && InAlphabet(whole + tail, variant)
    ensures ToOctets(Values(whole + tail, variant))
            == WholeGroups(Repaired, Values(whole, variant)) + ToOctets(Values(tail, variant))
  {
    assert Values(whole + tail, variant) == Values(whole, variant) + Values(tail, variant);
    OctetsOfGroups(Values(whole, variant), Values(tail, variant));
  }

  lemma AlphabetSplit(a: seq<byte>, b: seq<byte>, variant: Variant)
    ensures InAlphabet(a + b, variant) <==> InAlphabet(a, variant) && InAlphabet(b, variant)
  {
    if InAlphabet(a + b, variant) {
      forall i | 0 <= i < |a|
        ensures CharVal(a[i], variant) >= 0
      {
        assert (a + b)[i] == a[i];
      }
      forall i | 0 <= i < |b|
        ensures CharVal(b[i], variant) >= 0
      {
        assert (a + b)[|a| + i] == b[i];
      }
    }
  }

  /** Repaired, decoding what encoding produced gives back the data: for every input, both
      alphabets, padded or not. */
  lemma RepairedRoundTrip(data: seq<byte>, variant: Variant, pad: bool)
    ensures EncodeText(Repaired, data, variant, pad) == Some(Encoded(data, variant, pad))
    ensures DecodeText(Repaired, EncodeText(Repaired, data, variant, pad).value, variant) == Bytes(data)
  {
    CoversAll(data, variant, pad);
    RepairedDecodes(Encoded(data, variant, pad), variant);
    DecodeUndoesEncode(data, variant, pad);
  }

  lemma CoversAll(data: seq<byte>, variant: Variant, pad: bool)
    ensures EncodeText(Repaired, data, variant, pad) == Some(Encoded(data, variant, pad))
  {
    assert data[..|data|] == data;
  }

  /** The second byte of each group of three has no low bits and the third is zero. */
  predicate SurvivesAsWritten(data: seq<byte>) {
    forall g :: 0 <= g < |data| / 3 ==> data[3 * g + 1] % 16 == 0 && data[3 * g + 2] == 0
  }

  lemma {:induction false} LossyIff(data: seq<byte>)
    requires |data| % 3 == 0
    ensures |ToSextets(data)| % 4 == 0
    ensures |WholeGroups(AsWritten, ToSextets(data))| == |data|
    ensures WholeGroups(AsWritten, ToSextets(data)) == data <==> SurvivesAsWritten(data)
  {
    WholeSextets(data);
    if |data| >= 3 {
      LossyIff(data[3..]);
      LossyGroup(data);
      SurvivesStep(data);
      var rest, out := data[3..], WholeGroups(AsWritten, ToSextets(data));
      assert data == data[..3] + rest;
      assert out[..3] == [data[0], data[1] / 16 * 16, 0] && out[3..] == WholeGroups(AsWritten, ToSextets(rest));
      assert out == out[..3] + out[3..];
    }
  }

  lemma LossyGroup(data: seq<byte>)
    requires |data| >= 3 && |data| % 3 == 0
    ensures |ToSextets(data)| % 4 == 0 && |ToSextets(data[3..])| % 4 == 0
    ensures WholeGroups(AsWritten, ToSextets(data))
            == [data[0], data[1] / 16 * 16, 0] + WholeGroups(AsWritten, ToSextets(data[3..]))
  {
    WholeSextets(data);
    WholeSextets(data[3..]);
    LossyBytes(data[0], data[1], data[2]);
    WholeGroupsCons(AsWritten, Sextets(data[0], data[1], data[2]), ToSextets(data[3..]));
  }

  lemma {:induction false} WholeSextets(d: seq<byte>)
    requires |d| % 3 == 0
    ensures |ToSextets(d)| % 4 == 0
  {
    if d != [] {
      WholeSextets(d[3..]);
    }
  }

  lemma WholeGroupsCons(rev: Revision, g: seq<sextet>, s: seq<sextet>)
    requires |g| == 4 && |s| % 4 == 0
    ensures WholeGroups(rev, g + s) == GroupOctets(rev, g[0], g[1], g[2], g[3]) + WholeGroups(rev, s)
  {
    assert (g + s)[4..] == s;
  }

  lemma LossyBytes(a: byte, b: byte, c: byte)
    ensures var s := Sextets(a, b, c); GroupOctets(AsWritten, s[0], s[1], s[2], s[3]) == [a, b / 16 * 16, 0]
  {
    DivUnique(a % 4 * 16 + b / 16, 16, a % 4, b / 16);
  }

  lemma SurvivesStep(data: seq<byte>)
    requires |data| >= 3
    ensures SurvivesAsWritten(data) <==> data[1] % 16 == 0 && data[2] == 0 && SurvivesAsWritten(data[3..])
  {
    var rest := data[3..];
    if SurvivesAsWritten(data) {
      assert data[3 * 0 + 1] % 16 == 0;
      forall g | 0 <= g < |rest| / 3
        ensures rest[3 * g + 1] % 16 == 0 && rest[3 * g + 2] == 0
      {
        assert data[3 * (g + 1) + 1] % 16 == 0 && data[3 * (g + 1) + 2] == 0;
      }
    }
    if data[1] % 16 == 0 && data[2] == 0 && SurvivesAsWritten(rest) {
      forall g | 0 <= g < |data| / 3
        ensures data[3 * g + 1] % 16 == 0 && data[3 * g + 2] == 0
      {
        if g > 0 {
          assert rest[3 * (g - 1) + 1] % 16 == 0 && rest[3 * (g - 1) + 2] == 0;
        }
      }
    }
  }

  /** As written, the round trip the header promises holds exactly for inputs of a multiple of three
      bytes, other than three, whose groups survive the dropped sextets. */
  lemma RoundTripAsWrittenIff(data: seq<byte>, variant: Variant, pad: bool)
    requires |data| < 0x1_0000_0000_0000_0000
    ensures ReturnsAsWritten(EncodeText(AsWritten, data, variant, pad), data, variant)
            <==> |data| % 3 == 0 && |data| != 3 && SurvivesAsWritten(data)
  {
    var m := Covered(AsWritten, |data|);
    CoveredAsWritten(|data|);
    if |data| == 2 {
      ShortTail(data[..1], variant, pad);
    } else if |data| != 3 {
      DecodedGroups(data[..m], variant, pad);
      if m == |data| {
        assert data[..m] == data;
        LossyIff(data);
      }
    }
  }

  /** Decoding the text, if there is one, gives `data`. */
  predicate ReturnsAsWritten(t: Option<seq<byte>>, data: seq<byte>, variant: Variant) {
    t.Some? && DecodeText(AsWritten, t.value, variant) == Bytes(data)
  }

  lemma CoveredAsWritten(size: nat)
    requires size < 0x1_0000_0000_0000_0000
    ensures Covered(AsWritten, size) == if size == 3 then 5 else if size == 2 then 1 else size / 3 * 3
  {
  }

  /** Decoding, as written, the encoding of whole groups. */
  lemma DecodedGroups(d: seq<byte>, variant: Variant, pad: bool)
    requires |d| % 3 == 0
    ensures |ToSextets(d)| % 4 == 0
    ensures DecodeText(AsWritten, Encoded(d, variant, pad), variant) == Bytes(WholeGroups(AsWritten, ToSextets(d)))
    ensures |WholeGroups(AsWritten, ToSextets(d))| == |d|
  {
    LossyIff(d);
    var s := ToSextets(d);
    var t := Chars(s, variant);
    AlphabetInverse(variant);
    NoPadInside(t, variant, pad);
    assert Encoded(d, variant, pad) == t && Unpadded(t) == t;
    assert t[..|t| / 4 * 4] == t && t[|t| / 4 * 4..] == [];
    assert Values(t, variant) == s;
  }

  lemma ShortTail(d: seq<byte>, variant: Variant, pad: bool)
    requires |d| == 1
    ensures var r := DecodeText(AsWritten, Encoded(d, variant, pad), variant); r.Bytes? ==> |r.bytes| == 1
  {
    var t, text := Chars(ToSextets(d), variant), Encoded(d, variant, pad);
    assert |t| == 2 by { SextetCount(d); }
    assert Unpadded(text) == t by { AlphabetInverse(variant); NoPadInside(t, variant, pad); }
    TwoCharsGiveOne(t, variant);
    assert t[..0] == [] && t[0..] == t;
  }

  lemma TwoCharsGiveOne(t: seq<byte>, variant: Variant)
    requires |t| == 2
    ensures var r := DecodeParts(AsWritten, [], t, variant); r.Bytes? ==> |r.bytes| == 1
  {
    assert Values([], variant) == [];
  }

  /** `full_groups * 3` plus the bytes of the last, incomplete group. */
  function Needed(dataLen: nat): nat {
    dataLen / 4 * 3 + (if dataLen % 4 == 3 then 2 else if dataLen % 4 == 2 then 1 else 0)
  }

  /** `*out++ = b` for each `b` of `bytes`. */
  method PutBytes(buf: array<byte>, out: nat, bytes: seq<byte>)
    requires out + |bytes| <= buf.Length
    modifies buf
    ensures buf[..out + |bytes|] == old(buf[..out]) + bytes
    ensures forall k :: out + |bytes| <= k < buf.Length ==> buf[k] == old(buf[k])
  {
    for j := 0 to |bytes|
      invariant buf[..out + j] == old(buf[..out]) + bytes[..j]
      invariant forall k :: out + j <= k < buf.Length ==> buf[k] == old(buf[k])
    {
      buf[out + j] := bytes[j];
    }
  }

  /** The shifts of the decoder. */
  method JoinGroup(v0: sextet, v1: sextet, v2: sextet, v3: sextet) returns (b: seq<byte>)
    ensures b == Octets(v0, v1, v2, v3)
  {
    GroupBytes(v0, v1, v2, v3);
    return Bytes3(Pack4(v0, v1, v2, v3));
  }

  /** One group of four characters; None on a character outside the alphabet. */
  method DecodeGroup(rev: Revision, c: seq<byte>, variant: Variant) returns (r: Option<seq<byte>>)
    requires |c| == 4
    ensures r.Some? <==> InAlphabet(c, variant)
    ensures r.Some? ==> |r.value| == 3 && r.value == WholeGroups(rev, Values(c, variant))
  {
    var v0, v1 := CharVal(c[0], variant), CharVal(c[1], variant);
    var v2, v3 := CharVal(c[2], variant), CharVal(c[3], variant);
    if v0 < 0 || v1 < 0 || v2 < 0 || v3 < 0 {
      return None;
    }
    ghost var s := Values(c, variant);
    assert s == [v0, v1, v2, v3] && s[4..] == [];
    if rev.AsWritten? {
      v2, v3 := 0, 0; // as written, `n` holds only the first two sextets
    }
    var b := JoinGroup(v0, v1, v2, v3);
    return Some(b);
  }

  /** The first `i` characters are decoded into the first `out` bytes. */
  ghost predicate GroupsDone(rev: Revision, u: seq<byte>, i: nat, buf: array<byte>, out: nat, variant: Variant)
    reads buf
  {
    && i % 4 == 0 && i <= |u| && out <= buf.Length && InAlphabet(u[..i], variant)
    && buf[..out] == WholeGroups(rev, Values(u[..i], variant))
  }

  /** One turn of the loop over whole groups, for the characters at `i`. */
  method PutDecoded(rev: Revision, u: seq<byte>, i: nat, buf: array<byte>, out: nat, variant: Variant) returns (ok: bool)
    requires i + 4 <= |u| && out + 3 <= buf.Length && GroupsDone(rev, u, i, buf, out, variant)
    modifies buf
    ensures !ok ==> !InAlphabet(u, variant)
    ensures ok ==> GroupsDone(rev, u, i + 4, buf, out + 3, variant)
    ensures ok ==> (forall k :: out + 3 <= k < buf.Length ==> buf[k] == old(buf[k]))
  {
    var r := DecodeGroup(rev, u[i..i + 4], variant);
    MoreGroups(rev, u, i, variant);
    if r == None {
      return false;
    }
    PutBytes(buf, out, r.value);
    return true;
  }

  /** The loop over whole groups; false on a character outside the alphabet. */
  method DecodeGroups(rev: Revision, u: seq<byte>, n: nat, buf: array<byte>, variant: Variant) returns (ok: bool)
    requires |u| == 4 * n && 3 * n <= buf.Length
    modifies buf
    ensures ok <==> InAlphabet(u, variant)
    ensures ok ==> buf[..3 * n] == WholeGroups(rev, Values(u, variant))
    ensures ok ==> (forall k :: 3 * n <= k < buf.Length ==> buf[k] == old(buf[k]))
  {
    var i: nat, out: nat := 0, 0;
    for g := 0 to n
      invariant i == 4 * g && out == 3 * g
      invariant GroupsDone(rev, u, i, buf, out, variant)
      invariant forall k :: out <= k < buf.Length ==> buf[k] == old(buf[k])
    {
      ok := PutDecoded(rev, u, i, buf, out, variant);
      if !ok {
        return;
      }
      i, out := i + 4, out + 3;
    }
    assert u[..i] == u;
    return true;
  }

  lemma MoreGroups(rev: Revision, u: seq<byte>, i: nat, variant: Variant)
    requires i % 4 == 0 && i + 4 <= |u| && InAlphabet(u[..i], variant)
    ensures !InAlphabet(u[i..i + 4], variant) ==> !InAlphabet(u, variant)
    ensures InAlphabet(u[i..i + 4], variant) ==>
              && InAlphabet(u[..i + 4], variant)
              && WholeGroups(rev, Values(u[..i + 4], variant))
                 == WholeGroups(rev, Values(u[..i], variant)) + WholeGroups(rev, Values(u[i..i + 4], variant))
  {
    var a, b := u[..i], u[i..i + 4];
    assert u[..i + 4] == a + b && u == a + b + u[i + 4..];
    AlphabetSplit(a, b, variant);
    AlphabetSplit(a + b, u[i + 4..], variant);
    if InAlphabet(b, variant) {
      var s := Values(u[..i + 4], variant);
      assert s[..i] == Values(a, variant) && s[i..] == Values(b, variant);
      GroupsSplit(rev, s, i);
    }
  }

  /** The last two or three characters. */
  method DecodeTail(rev: Revision, tail: seq<byte>, variant: Variant) returns (r: Result)
    requires |tail| == 2 || |tail| == 3
    ensures r == TailBytes(rev, tail, variant)
  {
    if |tail| == 2 && rev.AsWritten? {
      // as written, `cpr__base64_char` is called here; its table covers arguments below 64
      if tail[0] >= 64 || tail[1] >= 64 {
        return Unknown;
      }
      return Bytes([TailAsWritten(tail[0], tail[1], variant)]);
    }
    var v0, v1 := CharVal(tail[0], variant), CharVal(tail[1], variant);
    var v2 := if |tail| == 3 then CharVal(tail[2], variant) else 0;
    if v0 < 0 || v1 < 0 || v2 < 0 {
      return Malformed;
    }
    assert Values(tail, variant) == if |tail| == 3 then [v0, v1, v2] else [v0, v1];
    var b := JoinGroup(v0, v1, v2, 0);
    return Bytes(b[..|tail| - 1]);
  }

  /** The padding test of the decoder. */
  method PadChars(text: seq<byte>) returns (pad: nat)
    requires |text| > 0 && |text| % 4 != 1
    ensures pad == PadCount(text) && (|text| - pad) % 4 != 1
  {
    pad := 0;
    if |text| % 4 == 0 && text[|text| - 1] == PAD {
      pad := 1;
      if text[|text| - 2] == PAD {
        pad := 2;
      }
    }
  }

  method Decode(rev: Revision, text: seq<byte>, buf: array<byte>, variant: Variant) returns (status: Status, outSize: nat)
    modifies buf
    ensures outSize <= buf.Length
    ensures status == Overflow <==> |text| % 4 != 1 && buf.Length < Needed(|Unpadded(text)|)
    ensures status == Done <==> status != Overflow && DecodeText(rev, text, variant).Bytes?
    ensures status == Undefined <==> status != Overflow && DecodeText(rev, text, variant).Unknown?
    ensures status == Done ==> buf[..outSize] == DecodeText(rev, text, variant).bytes
    ensures status == Done ==> (forall k :: outSize <= k < buf.Length ==> buf[k] == old(buf[k]))
  {
    EdgeTexts(rev, text, variant);
    if |text| == 0 {
      return Done, 0;
    }
    if |text| % 4 == 1 {
      return Invalid, 0;
    }
    var pad := PadChars(text);
    status, outSize := DecodeSized(rev, text, |text| - pad, buf, variant);
  }

  /** The part of the decoder behind the padding test. */
  method DecodeSized(rev: Revision, text: seq<byte>, dataLen: nat, buf: array<byte>, variant: Variant)
    returns (status: Status, outSize: nat)
    requires dataLen == |Unpadded(text)| && dataLen % 4 != 1
    modifies buf
    ensures outSize <= buf.Length
    ensures status == Overflow <==> buf.Length < Needed(dataLen)
    ensures status == Done <==> status != Overflow && DecodeText(rev, text, variant).Bytes?
    ensures status == Undefined <==> status != Overflow && DecodeText(rev, text, variant).Unknown?
    ensures status == Done ==> buf[..outSize] == DecodeText(rev, text, variant).bytes
    ensures status == Done ==> (forall k :: outSize <= k < buf.Length ==> buf[k] == old(buf[k]))
  {
    var fullGroups, finalChars := dataLen / 4, dataLen % 4;
    var needed := fullGroups * 3 + (if finalChars == 3 then 2 else if finalChars == 2 then 1 else 0);
    if buf.Length < needed {
      return Overflow, 0;
    }
    var whole, tail := text[..fullGroups * 4], text[fullGroups * 4..dataLen];
    PartsOf(rev, text, dataLen, variant);
    status := DecodeInto(rev, whole, fullGroups, tail, buf, needed, variant);
    outSize := if status == Done then needed else 0;
  }

  /** The empty text, and lengths no text has. */
  lemma EdgeTexts(rev: Revision, text: seq<byte>, variant: Variant)
    ensures text == [] ==> Unpadded(text) == [] && DecodeText(rev, text, variant) == Bytes([])
    ensures |text| % 4 == 1 ==> DecodeText(rev, text, variant) == Malformed
  {
  }

  method DecodeInto(rev: Revision, whole: seq<byte>, groups: nat, tail: seq<byte>, buf: array<byte>, needed: nat, variant: Variant)
    returns (status: Status)
    requires |whole| == 4 * groups && |tail| < 4 && |tail| != 1
    requires needed == 3 * groups + (if tail == [] then 0 else |tail| - 1) <= buf.Length
    modifies buf
    ensures status == match DecodeParts(rev, whole, tail, variant)
                      case Bytes(_) => Done
                      case Malformed => Invalid
                      case Unknown => Undefined
    ensures status == Done ==> buf[..needed] == DecodeParts(rev, whole, tail, variant).bytes
    ensures status == Done ==> (forall k :: needed <= k < buf.Length ==> buf[k] == old(buf[k]))
  {
    var ok := DecodeGroups(rev, whole, groups, buf, variant);
    if !ok {
      return Invalid;
    }
    if tail == [] {
      return Done;
    }
    var r := DecodeTail(rev, tail, variant);
    match r
    case Malformed => return Invalid;
    case Unknown => return Undefined;
    case Bytes(last) =>
      PutBytes(buf, 3 * groups, last);
      return Done;
  }

  lemma PartsOf(rev: Revision, text: seq<byte>, n: nat, variant: Variant)
    requires n == |Unpadded(text)|
    ensures DecodeText(rev, text, variant) == DecodeParts(rev, text[..n / 4 * 4], text[n / 4 * 4..n], variant)
  {
    var u := Unpadded(text);
    assert u == text[..n];
    assert u[..n / 4 * 4] == text[..n / 4 * 4] && u[n / 4 * 4..] == text[n / 4 * 4..n];
  }
}
