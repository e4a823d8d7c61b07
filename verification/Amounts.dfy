/**
 Compressed amounts: `CTxOutCompressor::CompressAmount` and `DecompressAmount` (src/compressor.cpp).
 */
module Amounts {
  import opened NatMath

  const COIN: nat := 100000000
  const MAX_MONEY: nat := 21000000 * COIN
  const TWO64: nat := 0x1_0000_0000_0000_0000

  /** The code of `m` tens of power `e`. */
  function Packed(m: nat, e: nat): nat
    requires m > 0 && e <= 9 && (e < 9 ==> m % 10 != 0)
  {
    if e < 9 then 1 + (m / 10 * 9 + m % 10 - 1) * 10 + e else 1 + (m - 1) * 10 + 9
  }

  /** What is left of an amount when at most `9 - e` more zeros are taken off its end. */
  function Strip(n: nat, e: nat): (r: (nat, nat))
    requires n > 0 && e <= 9
    ensures r.0 > 0 && e <= r.1 <= 9 && (r.1 < 9 ==> r.0 % 10 != 0)
    decreases n
  {
    if n % 10 == 0 && e < 9 then Strip(n / 10, e + 1) else (n, e)
  }

  function Compressed(n: nat): nat {
    if n == 0 then 0 else Packed(Strip(n, 0).0, Strip(n, 0).1)
  }

  function Unpacked(x: nat): (r: (nat, nat))
    requires x > 0
    ensures r.0 > 0 && r.1 <= 9 && (r.1 < 9 ==> r.0 % 10 != 0)
  {
    var e, y := (x - 1) % 10, (x - 1) / 10;
    if e < 9 then (y / 9 * 10 + y % 9 + 1, e) else (y + 1, e)
  }

  function Decompressed(x: nat): nat {
    if x == 0 then 0 else Unpacked(x).0 * Pow(10, Unpacked(x).1)
  }

  lemma UnpackInverts(m: nat, e: nat)
    requires m > 0 && e <= 9 && (e < 9 ==> m % 10 != 0)
    ensures Packed(m, e) > 0 && Unpacked(Packed(m, e)) == (m, e)
  {
    if e < 9 {
      var q, d := m / 10, m % 10;
      var y := q * 9 + (d - 1);
      DivUnique(y * 10 + e, 10, y, e);
      DivUnique(y, 9, q, d - 1);
    }
  }

  lemma PackInverts(x: nat)
    requires x > 0
    ensures Packed(Unpacked(x).0, Unpacked(x).1) == x
  {
    var e, y := (x - 1) % 10, (x - 1) / 10;
    assert x == 1 + y * 10 + e;
    var q, d := y / 9, y % 9;
    assert y == q * 9 + d;
    var u := Unpacked(x);
    assert u == if e < 9 then (q * 10 + d + 1, e) else (y + 1, e);
    hide Unpacked;
    DivUnique(q * 10 + d + 1, 10, q, d + 1);
  }

  lemma {:induction false} StripBack(n: nat, e: nat)
    requires n > 0 && e <= 9
    ensures Strip(n, e).0 * Pow(10, Strip(n, e).1) == n * Pow(10, e)
    decreases n
  {
    if n % 10 == 0 && e < 9 {
      StripBack(n / 10, e + 1);
      assert Pow(10, e + 1) == 10 * Pow(10, e);
      MulAssoc(n / 10, 10, Pow(10, e));
    }
  }

  lemma {:induction false} StripScaled(m: nat, k: nat, e: nat)
    requires m > 0 && k + e <= 9 && (k + e < 9 ==> m % 10 != 0)
    ensures m * Pow(10, k) > 0 && Strip(m * Pow(10, k), e) == (m, k + e)
    decreases k
  {
    if k > 0 {
      StripScaled(m, k - 1, e + 1);
      assert Pow(10, k) == 10 * Pow(10, k - 1);
      MulAssoc(m, Pow(10, k - 1), 10);
      assert m * Pow(10, k) / 10 == m * Pow(10, k - 1) && m * Pow(10, k) % 10 == 0;
    } else {
      assert Pow(10, 0) == 1;
    }
  }

  /** The two directions are inverse to each other on all natural numbers. */
  lemma Bijection(n: nat)
    ensures Decompressed(Compressed(n)) == n && Compressed(Decompressed(n)) == n
  {
    hide Pow, Strip, Packed, Unpacked;
    if n > 0 {
      var s, u := Strip(n, 0), Unpacked(n);
      StripBack(n, 0);
      PowOne(10);
      UnpackInverts(s.0, s.1);
      StripScaled(u.0, u.1, 0);
      PackInverts(n);
    }
  }

  // ----- in 64 bits

  /** What a 64-bit word keeps of a number. */
  function Word(x: nat): nat {
    x % TWO64
  }

  lemma WordSum(x: nat, y: nat)
    ensures Word(Word(x) + y) == Word(x + y)
  {
    ModAdd(x, y, TWO64);
  }

  lemma WordProduct(x: nat, k: nat)
    ensures Word(Word(x) * k) == Word(x * k)
  {
    var q := x / TWO64;
    MulDistrib(q * TWO64, x % TWO64, k);
    MulAssoc(q, TWO64, k);
    MulAssoc(q, k, TWO64);
    ModDrop(x % TWO64 * k, q * k, TWO64);
  }

  lemma WordFits(x: nat)
    ensures x < TWO64 ==> Word(x) == x
  {
  }

  /** The code computed in words. */
  lemma PackedInWords(m: nat, e: nat)
    requires m > 0 && e <= 9 && (e < 9 ==> m % 10 != 0)
    ensures Word(Packed(m, e)) == if e < 9 then Word(Word(Word(Word(m / 10 * 9) + m % 10 - 1) * 10) + 1 + e)
                                  else Word(Word((m - 1) * 10) + 1 + 9)
  {
    hide Word;
    if e < 9 {
      var n, d := m / 10, m % 10;
      WordSum(n * 9, d - 1);
      WordProduct(n * 9 + d - 1, 10);
      WordSum((n * 9 + d - 1) * 10, 1 + e);
    } else {
      WordSum((m - 1) * 10, 1 + 9);
    }
  }

  /** A code is at most ten times the amount. */
  lemma {:induction false} CodeBound(n: nat, e: nat)
    requires n > 0 && e <= 9
    ensures Packed(Strip(n, e).0, Strip(n, e).1) <= 10 * n + 10
    decreases n
  {
    if n % 10 == 0 && e < 9 { CodeBound(n / 10, e + 1); }
  }

  /** `CompressAmount` on 64-bit words: the code, exactly if it fits, as it does for every valid amount. */
  method CompressAmount(amount: nat) returns (x: nat)
    requires amount < TWO64
    ensures x == Word(Compressed(amount)) && (Compressed(amount) < TWO64 ==> x == Compressed(amount))
    ensures amount <= MAX_MONEY ==> Compressed(amount) < TWO64
  {
    hide Word, Packed;
    WordFits(Compressed(amount));
    WordFits(0);
    if amount == 0 {
      return 0;
    }
    CodeBound(amount, 0);
    var n, e := amount, 0;
    while n % 10 == 0 && e < 9
      invariant 0 < n <= amount && e <= 9 && Strip(n, e) == Strip(amount, 0)
    {
      n := n / 10;
      e := e + 1;
    }
    PackedInWords(n, e);
    if e < 9 {
      var d := n % 10;
      assert 1 <= d <= 9;
      n := n / 10;
      x := Word(Word(Word(Word(n * 9) + d - 1) * 10) + 1 + e);
    } else {
      x := Word(Word((n - 1) * 10) + 1 + 9);
    }
  }

  /** `DecompressAmount` on 64-bit words: the amount, exactly if it fits. */
  method DecompressAmount(code: nat) returns (n: nat)
    requires code < TWO64
    ensures n == Word(Decompressed(code)) && (Decompressed(code) < TWO64 ==> n == Decompressed(code))
  {
    hide Pow, Word;
    WordFits(Decompressed(code));
    WordFits(0);
    if code == 0 {
      return 0;
    }
    var x := code - 1;
    var e := x % 10;
    x := x / 10;
    n := 0;
    if e < 9 {
      var d := x % 9 + 1;
      x := x / 9;
      n := x * 10 + d;
    } else {
      n := x + 1;
    }
    WordFits(n);
    PowOne(10);
    ghost var whole := n;
    while e > 0
      invariant 0 <= e && whole * Pow(10, e) == Decompressed(code) && n == Word(whole)
    {
      Tenfold(whole, e);
      WordProduct(whole, 10);
      n := Word(n * 10);
      whole := whole * 10;
      e := e - 1;
    }
  }

  /** Every valid amount survives compression and decompression in 64 bits. */
  method CompressAndDecompress(amount: nat) returns (n: nat)
    requires amount <= MAX_MONEY
    ensures n == amount
  {
    var x := CompressAmount(amount);
    n := DecompressAmount(x);
    Bijection(amount);
  }

  lemma Tenfold(n: nat, e: nat)
    requires e > 0
    ensures (n * 10) * Pow(10, e - 1) == n * Pow(10, e)
  {
    MulAssoc(n, 10, Pow(10, e - 1));
  }

  /** The codes of nothing, of the smallest amount, a cent, a coin, fifty coins and all coins: round amounts have small codes. */
  lemma KnownCodes()
    ensures Compressed(0) == 0 && Compressed(1) == 0x1 && Compressed(1000000) == 0x7 && Compressed(100000000) == 0x9
    ensures Compressed(5000000000) == 0x32 && Compressed(2100000000000000) == 0x1406f40
  {
    StripScaled(1, 6, 0);
    StripScaled(1, 8, 0);
    StripScaled(5, 9, 0);
    StripScaled(2100000, 9, 0);
    TenTo();
  }

  lemma TenTo()
    ensures Pow(10, 6) == 1000000 && Pow(10, 8) == 100000000 && Pow(10, 9) == 1000000000
  {
    assert Pow(10, 3) == 1000;
    PowAdd(10, 3, 3);
    PowAdd(10, 6, 3);
    PowNext(10, 7);
    PowNext(10, 6);
  }
}
