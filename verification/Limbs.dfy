/**
 Numbers as sequences of 32-bit limbs, least significant first, and what the elementary steps on limbs
 do to the number (src/arith_uint256.h, src/arith_uint256.cpp).  Arith256 holds the object.
 */
module Limbs {
  import opened NatMath

  const BASE: nat := 0x1_0000_0000
  const WIDTH: nat := 8
  type Limb = x: nat | x < 0x1_0000_0000

  function Value(s: seq<Limb>): nat {
    if s == [] then 0 else Value(s[..|s| - 1]) + s[|s| - 1] * Pow(BASE, |s| - 1)
  }

  /** 2^256. */
  const MODULUS: nat := Pow(BASE, WIDTH)

  lemma ValueStep(s: seq<Limb>, i: nat)
    requires i < |s|
    ensures Value(s[..i + 1]) == Value(s[..i]) + s[i] * Pow(BASE, i)
  {
    assert s[..i + 1][..i] == s[..i];
  }

  lemma {:induction false} ValueBound(s: seq<Limb>)
    ensures Value(s) < Pow(BASE, |s|)
    decreases |s|
  {
    if s != [] {
      var n := |s| - 1;
      ValueBound(s[..n]);
      MulMono(s[n], BASE - 1, Pow(BASE, n));
      MulDistrib(BASE, -1, Pow(BASE, n));
    }
  }

  /** Replacing one limb. */
  lemma {:induction false} ValueUpdate(s: seq<Limb>, i: nat, x: Limb)
    requires i < |s|
    ensures Value(s[i := x]) == Value(s) + (x - s[i]) * Pow(BASE, i)
    decreases |s|
  {
    var n := |s| - 1;
    if i < n {
      ValueUpdate(s[..n], i, x);
      assert s[i := x][..n] == s[..n][i := x];
    } else {
      assert s[i := x][..n] == s[..n];
      MulDistrib(x - s[i], s[i], Pow(BASE, i));
    }
  }

  lemma {:induction false} ValueZero(s: seq<Limb>)
    ensures Value(s) == 0 <==> forall i :: 0 <= i < |s| ==> s[i] == 0
    decreases |s|
  {
    if s != [] {
      var n := |s| - 1;
      ValueZero(s[..n]);
      assert forall i :: 0 <= i < n ==> s[..n][i] == s[i];
      if s[n] > 0 {
        MulMono(1, s[n], Pow(BASE, n));
      }
    }
  }

  /** Only the lower limbs of a number that fills no others. */
  lemma {:induction false} ValueTop(s: seq<Limb>, n: nat)
    requires n <= |s| && forall i :: n <= i < |s| ==> s[i] == 0
    ensures Value(s) == Value(s[..n])
    decreases |s|
  {
    if n < |s| {
      ValueTop(s[..|s| - 1], n);
      assert s[..|s| - 1][..n] == s[..n];
    } else {
      assert s[..n] == s;
    }
  }

  /** The first different limb from the top decides. */
  lemma {:induction false} ValueLess(a: seq<Limb>, b: seq<Limb>, i: nat)
    requires |a| == |b| && i < |a| && a[i] < b[i] && forall j :: i < j < |a| ==> a[j] == b[j]
    ensures Value(a) < Value(b)
    decreases |a|
  {
    var n := |a| - 1;
    if i == n {
      ValueBound(a[..n]);
      MulMono(a[n] + 1, b[n], Pow(BASE, n));
      MulDistrib(a[n], 1, Pow(BASE, n));
    } else {
      ValueLess(a[..n], b[..n], i);
    }
  }

  // ----- powers of two

  lemma TwoTo32()
    ensures Pow(2, 32) == BASE
  {
    assert Pow(2, 8) == 256;
    PowAdd(2, 8, 8);
    PowAdd(2, 16, 16);
  }

  lemma {:induction false} Pow2Limbs(k: nat)
    ensures Pow(2, 32 * k) == Pow(BASE, k)
    decreases k
  {
    if k > 0 {
      Pow2Limbs(k - 1);
      TwoTo32();
      PowAdd(2, 32, 32 * (k - 1));
    }
  }

  /** A shift by whole limbs and some bits. */
  lemma Pow2Shift(k: nat, s: nat)
    ensures Pow(2, 32 * k + s) == Pow(BASE, k) * Pow(2, s)
  {
    PowAdd(2, 32 * k, s);
    Pow2Limbs(k);
  }

  /** The two parts of a limb. */
  lemma SplitBase(s: nat)
    requires s <= 32
    ensures Pow(2, s) * Pow(2, 32 - s) == BASE
  {
    TwoTo32();
    PowAdd(2, s, 32 - s);
  }

  // ----- bits within a limb

  function BitOr(x: nat, y: nat): nat {
    if x == 0 then y else if y == 0 then x
    else (if x % 2 == 1 || y % 2 == 1 then 1 else 0) + 2 * BitOr(x / 2, y / 2)
  }

  /** Joining parts that do not overlap adds them. */
  lemma {:induction false} OrDisjoint(x: nat, y: nat, s: nat)
    requires x < Pow(2, s) && y % Pow(2, s) == 0
    ensures BitOr(x, y) == BitOr(y, x) == x + y
    decreases s
  {
    if x > 0 && y > 0 {
      var p := Pow(2, s - 1);
      assert Pow(2, s) == 2 * p;
      EvenPart(y, p);
      OrDisjoint(x / 2, y / 2, s - 1);
    }
  }

  lemma EvenPart(y: nat, p: nat)
    requires p > 0 && y % (2 * p) == 0
    ensures y % 2 == 0 && (y / 2) % p == 0
  {
    var q := y / (2 * p);
    assert y == q * (2 * p);
    MulAssoc(q, p, 2);
    DivUnique(y, 2, q * p, 0);
    DivUnique(q * p, p, q, 0);
  }

  /** Shifting a limb to the left: what stays and what goes over. */
  function Low(x: nat, s: nat): Limb {
    (x * Pow(2, s)) % BASE
  }

  function High(x: nat, s: nat): nat
    requires s <= 32
  {
    x / Pow(2, 32 - s)
  }

  lemma HighLow(x: Limb, s: nat)
    requires s <= 32
    ensures x * Pow(2, s) == High(x, s) * BASE + Low(x, s)
    ensures High(x, s) < Pow(2, s) && Low(x, s) % Pow(2, s) == 0
    ensures High(x, s) < BASE
  {
    hide Pow;
    SplitBase(s);
    SplitProduct(x, Pow(2, s), Pow(2, 32 - s), BASE);
    PowMono(2, s, 32);
    TwoTo32();
  }

  lemma SplitProduct(x: nat, p: nat, q: nat, base: nat)
    requires p > 0 && q > 0 && p * q == base && x < base
    ensures x * p == (x / q) * base + (x * p) % base
    ensures x / q < p && (x * p) % base % p == 0
  {
    var h, l := x / q, x % q;
    assert x == h * q + l;
    Regroup(h, q, l, p);
    MulStrict(l, q, p);
    MulMono(0, l, p);
    DivUnique(x * p, base, h, l * p);
    DivUnique(l * p, p, l, 0);
    if h >= p {
      MulMono(p, h, q);
    }
  }
}
