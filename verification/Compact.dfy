/**
 Targets in the compact format: `arith_uint256::SetCompact` and `GetCompact` (src/arith_uint256.cpp).
 */
module Compact {
  import opened NatMath
  import opened Limbs
  import opened Arith256

  /** A 32-bit number: an exponent byte, a sign bit and 23 bits of mantissa. */
  type Word = x: nat | x < 0x1_0000_0000

  function Size(c: Word): nat { c / 0x100_0000 }
  function Mantissa(c: Word): nat { c % 0x80_0000 }
  predicate Sign(c: Word) { c / 0x80_0000 % 2 == 1 }

  /** The number that the format stands for, without any limit on its size. */
  function Decoded(c: Word): nat {
    if Size(c) <= 3 then Mantissa(c) / Pow(256, 3 - Size(c)) else Mantissa(c) * Pow(256, Size(c) - 3)
  }

  /** The three fields make up the word: they are its highest byte, the bit below that and the rest. */
  lemma Fields(c: Word)
    ensures c == Size(c) * 0x100_0000 + (if Sign(c) then 0x80_0000 else 0) + Mantissa(c)
    ensures Size(c) < 0x100 && Mantissa(c) < 0x80_0000
  {
  }

  lemma TwoTo8(n: nat)
    ensures Pow(2, 8 * n) == Pow(256, n)
    decreases n
  {
    if n > 0 {
      TwoTo8(n - 1);
      assert Pow(2, 8) == 256;
      PowAdd(2, 8, 8 * (n - 1));
    }
  }

  lemma ModulusIs()
    ensures MODULUS == Pow(256, 32)
  {
    Pow2Limbs(WIDTH);
    TwoTo8(32);
  }

  /** The test for overflow in `SetCompact`. */
  predicate Overflows(size: nat, word: nat) {
    word != 0 && (size > 34 || (word > 0xff && size > 33) || (word > 0xffff && size > 32))
  }

  /** The flag is set exactly when the number does not fit in 256 bits. */
  lemma OverflowExact(c: Word)
    ensures Overflows(Size(c), if Size(c) <= 3 then Decoded(c) else Mantissa(c)) <==> Decoded(c) >= MODULUS
  {
    hide Pow;
    var size, m := Size(c), Mantissa(c);
    ModulusIs();
    SmallPowers();
    if size <= 3 {
      DivShrinks(m, Pow(256, 3 - size));
      PowMono(256, 3, 32);
    } else if size <= 35 {
      AgainstLimit(m, size);
    } else {
      PowMono(256, 32, size - 3);
      if m > 0 { MulMono(1, m, Pow(256, size - 3)); }
    }
  }

  /** m * 256^(size - 3) against 256^(35 - size) * 256^(size - 3). */
  lemma AgainstLimit(m: nat, size: nat)
    requires 3 < size <= 35 && m < 0x80_0000
    ensures m * Pow(256, size - 3) >= Pow(256, 32) <==> m >= Pow(256, 35 - size)
    ensures size <= 32 ==> m < Pow(256, 35 - size)
  {
    hide Pow;
    PowAdd(256, 35 - size, size - 3);
    var p, lim := Pow(256, size - 3), Pow(256, 35 - size);
    if m >= lim { MulMono(lim, m, p); } else { MulStrict(m, lim, p); }
    SmallPowers();
    if size <= 32 { PowMono(256, 3, 35 - size); }
  }

  lemma SmallPowers()
    ensures Pow(256, 0) == 1 && Pow(256, 1) == 0x100 && Pow(256, 2) == 0x1_0000 && Pow(256, 3) == 0x100_0000
  {
  }

  /** `SetCompact`: exact unless the overflow flag is set, and then only the top is lost. */
  method SetCompact(c: Word) returns (r: Uint, negative: bool, overflow: bool)
    ensures r.Valid() && fresh(r) && fresh(r.pn) && r.V() == Decoded(c) % MODULUS
    ensures overflow <==> Decoded(c) >= MODULUS
    ensures negative <==> Decoded(c) != 0 && Sign(c)
  {
    hide Pow, Value;
    var size, word := Size(c), Mantissa(c);
    SmallPowers();
    OverflowExact(c);
    if size <= 3 {
      TwoTo8(3 - size);
      DivShrinks(word, Pow(256, 3 - size));
      word := word / Pow(2, 8 * (3 - size));
      r := new Uint.From(word);
      r.Bounded();
      ModSmall(word, MODULUS);
    } else {
      TwoTo8(size - 3);
      r := new Uint.From(word);
      r.ShiftLeft(8 * (size - 3));
      if word > 0 { MulMono(1, word, Pow(256, size - 3)); }
    }
    negative := word != 0 && Sign(c);
    overflow := Overflows(size, word);
  }

  // ----- encoding

  /** How many bytes a number has. */
  function Bytes(v: nat): nat {
    if v == 0 then 0 else 1 + Bytes(v / 256)
  }

  lemma {:induction false} BytesExact(v: nat, n: nat)
    ensures Bytes(v) == n <==> v < Pow(256, n) && (n > 0 ==> v >= Pow(256, n - 1))
    decreases v
  {
    if v == 0 {
      if n > 0 { PowMono(256, 0, n - 1); }
    } else if n > 0 {
      BytesExact(v / 256, n - 1);
      ByteStep(v, Pow(256, n - 1));
      if n > 1 { ByteStep(v, Pow(256, n - 2)); }
    }
  }

  lemma ByteStep(v: nat, p: nat)
    ensures v / 256 < p <==> v < 256 * p
  {
  }

  /** The three leading bytes of a number of `n` bytes. */
  function Leading(v: nat, n: nat): nat {
    if n <= 3 then v * Pow(256, 3 - n) else v / Pow(256, n - 3)
  }

  /** The exponent: one more if the leading bit would be taken for a sign. */
  function CompactSize(v: nat): nat {
    if Leading(v, Bytes(v)) >= 0x80_0000 then Bytes(v) + 1 else Bytes(v)
  }

  function CompactMantissa(v: nat): nat {
    if Leading(v, Bytes(v)) >= 0x80_0000 then Leading(v, Bytes(v)) / 256 else Leading(v, Bytes(v))
  }

  function CompactOf(v: nat): nat {
    CompactMantissa(v) + CompactSize(v) * 0x100_0000
  }

  lemma LeadingBounds(v: nat, n: nat)
    requires Bytes(v) == n
    ensures Leading(v, n) < 0x100_0000 && (n > 0 ==> Leading(v, n) >= 0x1_0000)
  {
    hide Pow, Bytes;
    BytesExact(v, n);
    SmallPowers();
    if n > 3 {
      QuotientBounds(v, Pow(256, n - 3), 0x100_0000);
      PowAdd(256, 3, n - 3);
      PowAdd(256, 2, n - 3);
      QuotientBounds(v, Pow(256, n - 3), 0x1_0000);
    } else if n == 0 {
      PowOne(256);
    }
  }

  lemma QuotientBounds(v: nat, p: nat, k: nat)
    requires p > 0
    ensures v < k * p <==> v / p < k
  {
    var q := v / p;
    assert v == q * p + v % p;
    if q < k { MulMono(q + 1, k, p); MulDistrib(q, 1, p); } else { MulMono(k, q, p); }
  }

  /** The mantissa is the leading part at the chosen exponent. */
  lemma MantissaIsLeading(v: nat)
    ensures CompactMantissa(v) == Leading(v, CompactSize(v)) && CompactMantissa(v) < 0x80_0000
    ensures v > 0 ==> CompactMantissa(v) >= 0x8000
  {
    hide Pow, Bytes;
    var n := Bytes(v);
    LeadingBounds(v, n);
    SmallPowers();
    BytesPositive(v);
    if Leading(v, n) >= 0x80_0000 {
      if n > 3 {
        DivDiv(v, Pow(256, n - 3), 256);
        PowNext(256, n - 3);
      } else if n < 3 {
        PowNext(256, 2 - n);
        Cancel256(v, Pow(256, 2 - n));
      }
    }
  }

  lemma BytesPositive(v: nat)
    ensures v > 0 <==> Bytes(v) > 0
  {
  }

  lemma Cancel256(v: nat, p: nat)
    ensures v * (256 * p) / 256 == v * p
  {
    MulAssoc(v, p, 256);
    DivUnique(v * (256 * p), 256, v * p, 0);
  }

  /** What is left of a number in the compact format: the low-order bytes are cleared. */
  function Truncated(v: nat): nat {
    if CompactSize(v) <= 3 then v else v - v % Pow(256, CompactSize(v) - 3)
  }

  lemma SizeBound(v: nat)
    requires v < MODULUS
    ensures CompactSize(v) <= 33
  {
    hide Pow, Bytes;
    ModulusIs();
    var n := Bytes(v);
    BytesExact(v, n);
    if n > 32 { PowMono(256, 32, n - 1); }
  }

  /** Decoding what was encoded only clears low-order bytes. */
  lemma DecodeInvertsEncode(v: nat)
    requires v < MODULUS
    ensures CompactOf(v) < 0x1_0000_0000
    ensures Size(CompactOf(v)) == CompactSize(v) && Mantissa(CompactOf(v)) == CompactMantissa(v) && !Sign(CompactOf(v))
    ensures Decoded(CompactOf(v)) == Truncated(v) <= v
  {
    hide Pow, Bytes, Leading, CompactSize, CompactMantissa;
    SizeBound(v);
    MantissaIsLeading(v);
    Unpack(CompactMantissa(v), CompactSize(v));
    DecodedLeading(v, CompactSize(v));
  }

  /** A number below 2^23 is encoded exactly, and any other one with a relative error below 2^-15. */
  lemma EncodePrecision(v: nat)
    requires v < MODULUS
    ensures CompactOf(v) < 0x1_0000_0000
    ensures var d := Decoded(CompactOf(v)); d <= v && (v - d) * 0x8000 <= d && (v < 0x80_0000 ==> d == v)
  {
    hide Decoded, CompactOf, Leading, CompactMantissa, CompactSize, Pow;
    DecodeInvertsEncode(v);
    var size, m := CompactSize(v), CompactMantissa(v);
    MantissaIsLeading(v);
    DecodedLeading(v, size);
    DecodedIs(CompactOf(v));
    if size > 3 && v > 0 {
      var p := Pow(256, size - 3);
      MulMono(0x8000, m, p);
      SizeOfSmall(v);
    }
  }

  lemma DecodedIs(c: Word)
    ensures Decoded(c) == if Size(c) <= 3 then Mantissa(c) / Pow(256, 3 - Size(c)) else Mantissa(c) * Pow(256, Size(c) - 3)
  {
  }

  lemma SizeOfSmall(v: nat)
    ensures v < 0x80_0000 ==> CompactSize(v) <= 3
  {
    SmallPowers();
    hide Pow;
    if v < 0x80_0000 && CompactSize(v) > 3 {
      BytesExact(v, Bytes(v));
      if Bytes(v) > 3 { PowMono(256, 3, Bytes(v) - 1); }
    }
  }

  lemma Unpack(m: nat, size: nat)
    requires m < 0x80_0000 && size < 256
    ensures var c := m + size * 0x100_0000; c < 0x1_0000_0000 && Size(c) == size && Mantissa(c) == m && !Sign(c)
  {
    var c := m + size * 0x100_0000;
    DivUnique(c, 0x100_0000, size, m);
    DivUnique(c, 0x80_0000, 2 * size, m);
  }

  lemma DecodedLeading(v: nat, size: nat)
    ensures size <= 3 ==> Leading(v, size) / Pow(256, 3 - size) == v
    ensures size > 3 ==> Leading(v, size) * Pow(256, size - 3) == v - v % Pow(256, size - 3) <= v
  {
    if size <= 3 {
      DivUnique(v * Pow(256, 3 - size), Pow(256, 3 - size), v, 0);
    }
  }

  /** Encoding again gives the same. */
  lemma EncodeIdempotent(v: nat)
    requires v < MODULUS
    ensures CompactOf(Truncated(v)) == CompactOf(v)
  {
    if CompactSize(v) > 3 {
      hide Pow, Bytes;
      TruncatedLeading(v);
      MantissaIsLeading(v);
      assert 256 * CompactMantissa(v) / 256 == CompactMantissa(v);
      BytesPositive(v);
    }
  }

  /** Clearing the low-order bytes changes neither the length nor the leading part. */
  lemma TruncatedLeading(v: nat)
    requires CompactSize(v) > 3
    ensures var n, m, d := Bytes(v), CompactMantissa(v), Truncated(v);
            Bytes(d) == n && Leading(d, n) == if CompactSize(v) == n then m else 256 * m
  {
    hide Pow, Bytes, Leading, CompactMantissa;
    var n, size, m, d := Bytes(v), CompactSize(v), CompactMantissa(v), Truncated(v);
    MantissaIsLeading(v);
    DecodedLeading(v, size);
    BytesExact(v, n);
    BytesPositive(v);
    LeadingBounds(v, n);
    assert d == m * Pow(256, size - 3);
    if size == n { LeadsAtOwnSize(m, n); } else { LeadsAtNextSize(m, n); }
    BytesExact(d, n);
  }

  lemma LeadsAtOwnSize(m: nat, n: nat)
    requires n > 3 && m >= 0x1_0000
    ensures m * Pow(256, n - 3) >= Pow(256, n - 1) && Leading(m * Pow(256, n - 3), n) == m
  {
    hide Pow;
    SmallPowers();
    PowAdd(256, 2, n - 3);
    MulMono(0x1_0000, m, Pow(256, n - 3));
    DivUnique(m * Pow(256, n - 3), Pow(256, n - 3), m, 0);
  }

  lemma LeadsAtNextSize(m: nat, n: nat)
    requires n >= 3 && m >= 0x100
    ensures m * Pow(256, n - 2) >= Pow(256, n - 1) && Leading(m * Pow(256, n - 2), n) == 256 * m
  {
    hide Pow;
    SmallPowers();
    PowNext(256, n - 2);
    MulMono(0x100, m, Pow(256, n - 2));
    PowNext(256, n - 3);
    Shifted256(m, Pow(256, n - 3));
  }

  lemma Shifted256(m: nat, p: nat)
    requires p > 0
    ensures m * (256 * p) / p == m * 256
  {
    MulAssoc(m, 256, p);
    DivUnique(m * (256 * p), p, m * 256, 0);
  }

  /** `GetCompact`, including its two assertions. */
  method GetCompact(u: Uint, negative: bool) returns (c: Word)
    requires u.Valid()
    ensures c == CompactOf(u.V()) + if negative && CompactMantissa(u.V()) != 0 then 0x80_0000 else 0
  {
    hide Pow, Value, Bytes;
    var bits := u.Bits();
    var size := (bits + 7) / 8;
    ghost var v := u.V();
    u.Bounded();
    BytesFromBits(v, bits);
    LeadingBounds(v, size);
    SmallPowers();
    var word;
    if size <= 3 {
      var low := u.Low64();
      SmallIsLow(v, size);
      TwoTo8(3 - size);
      word := low * Pow(2, 8 * (3 - size));
    } else {
      var bn := new Uint.Copy(u);
      TwoTo8(size - 3);
      bn.ShiftRight(8 * (size - 3));
      word := bn.Low64();
      ModSmall(Leading(v, size), BASE * BASE);
    }
    SignBitTest(v);
    hide CompactSize, CompactMantissa, Leading;
    // The 0x00800000 bit denotes the sign: if it is set, divide the mantissa by 256.
    if word / 0x80_0000 % 2 == 1 {
      word := word / 256;
      size := size + 1;
    }
    MantissaIsLeading(v);
    SizeBound(v);
    assert word < 0x80_0000 && size < 256;
    word := word + size * 0x100_0000;
    Unpack(CompactMantissa(v), CompactSize(v));
    c := word + if negative && Mantissa(word) != 0 then 0x80_0000 else 0;
  }

  lemma SignBitTest(v: nat)
    ensures var n := Bytes(v); var w := Leading(v, n); var signed := w / 0x80_0000 % 2 == 1;
            CompactSize(v) == (if signed then n + 1 else n) && CompactMantissa(v) == (if signed then w / 256 else w)
  {
    hide Bytes, Leading;
    LeadingBounds(v, Bytes(v));
  }

  lemma BytesFromBits(v: nat, bits: nat)
    requires v < Pow(2, bits) && (bits > 0 ==> v >= Pow(2, bits - 1)) && (bits == 0 <==> v == 0)
    ensures Bytes(v) == (bits + 7) / 8
  {
    hide Pow, Bytes;
    var n := (bits + 7) / 8;
    TwoTo8(n);
    PowMono(2, bits, 8 * n);
    if n > 0 {
      TwoTo8(n - 1);
      PowMono(2, 8 * (n - 1), bits - 1);
    }
    BytesExact(v, n);
  }

  lemma SmallIsLow(v: nat, n: nat)
    requires Bytes(v) == n <= 3
    ensures v % (BASE * BASE) == v
  {
    BytesExact(v, n);
    SmallPowers();
    PowMono(256, n, 3);
    ModSmall(v, BASE * BASE);
  }
}
