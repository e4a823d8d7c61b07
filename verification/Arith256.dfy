/**
 `base_uint<256>` (src/arith_uint256.h, src/arith_uint256.cpp): eight limbs updated in place.  Every
 operation is shown to be the operation on integers modulo 2^256.
 */
module Arith256 {
  import opened NatMath
  import opened Limbs

  lemma ValueAppend(s: seq<Limb>, x: Limb)
    ensures Value(s + [x]) == Value(s) + x * Pow(BASE, |s|)
  {
    assert (s + [x])[..|s|] == s;
  }

  /** A value that differs from a number by a multiple of 2^256 is that number modulo 2^256. */
  lemma Wraps(v: nat, carry: int, n: int)
    requires v + carry * MODULUS == n && v < MODULUS
    ensures v == n % MODULUS
  {
    DivUnique(n, MODULUS, carry, v);
  }

  /** One limb of a sum with carry, seen from the whole. */
  lemma CarryStep(before: int, after: int, carry: int, n: int, x: int, carry': int, p: int, p': int)
    requires n == x + carry' * BASE && p' == BASE * p
    requires after == before + x * p
    ensures after + carry' * p' == before + carry * p + (n - carry) * p
  {
    MulAssoc(carry', BASE, p);
    MulDistrib(x, carry' * BASE, p);
    MulDistrib(carry, n - carry, p);
  }

  class Uint {
    const pn: array<Limb>

    ghost predicate Valid() {
      pn.Length == WIDTH
    }

    /** The number these limbs stand for. */
    ghost function V(): (v: nat)
      reads pn
    {
      Value(pn[..])
    }

    lemma Bounded()
      requires Valid()
      ensures V() < MODULUS
    {
      ValueBound(pn[..]);
    }

    constructor ()
      ensures Valid() && fresh(pn) && V() == 0
    {
      pn := new Limb[WIDTH](_ => 0);
      new;
      ValueZero(pn[..]);
    }

    constructor Copy(b: Uint)
      requires b.Valid()
      ensures Valid() && fresh(pn) && pn[..] == b.pn[..] && V() == b.V()
    {
      pn := new Limb[WIDTH](i requires 0 <= i < WIDTH && b.Valid() reads b, b.pn => b.pn[i]);
    }

    /** From a 64-bit number. */
    constructor From(b: nat)
      requires b < BASE * BASE
      ensures Valid() && fresh(pn) && V() == b
    {
      pn := new Limb[WIDTH](_ => 0);
      new;
      pn[0] := b % BASE;
      DivUnique(b, BASE, b / BASE, b % BASE);
      pn[1] := b / BASE;
      TwoLimbs(pn[..], b % BASE, b / BASE);
    }

    /** `operator+=`; adding a number to itself is allowed. */
    method Add(b: Uint)
      requires Valid() && b.Valid()
      modifies pn
      ensures V() == (old(V()) + old(b.V())) % MODULUS
    {
      hide Value, Pow;
      ghost var a0, b0 := pn[..], b.pn[..];
      ValueNone();
      var carry := 0;
      for i := 0 to WIDTH
        invariant 0 <= carry <= 1
        invariant Value(pn[..i]) + carry * Pow(BASE, i) == Value(a0[..i]) + Value(b0[..i])
        invariant forall j :: i <= j < WIDTH ==> pn[j] == a0[j] && b.pn[j] == b0[j]
      {
        var n := carry + pn[i] + b.pn[i];
        ghost var low := pn[..i];
        pn[i] := n % BASE;
        assert pn[..i + 1] == low + [pn[i]];
        AddStep(low, a0, b0, i, carry, n);
        carry := n / BASE;
      }
      assert pn[..WIDTH] == pn[..] && a0[..WIDTH] == a0 && b0[..WIDTH] == b0;
      Bounded();
      Wraps(V(), carry, Value(a0) + Value(b0));
    }

    /** `operator~`. */
    method Not() returns (r: Uint)
      requires Valid()
      ensures r.Valid() && fresh(r) && fresh(r.pn) && r.V() == MODULUS - 1 - V()
    {
      hide Value, Pow;
      r := new Uint();
      ValueNone();
      for i := 0 to WIDTH
        invariant Value(r.pn[..i]) == Pow(BASE, i) - 1 - Value(pn[..i])
      {
        ghost var low := r.pn[..i];
        r.pn[i] := BASE - 1 - pn[i];
        assert r.pn[..i + 1] == low + [r.pn[i]];
        NotStep(low, pn[..], i);
      }
      assert pn[..WIDTH] == pn[..] && r.pn[..WIDTH] == r.pn[..];
    }

    /** `operator++`: carries run on only through full limbs. */
    method Increment()
      requires Valid()
      modifies pn
      ensures V() == (old(V()) + 1) % MODULUS
    {
      hide Value, Pow;
      ghost var a0 := pn[..];
      var i := 0;
      PowOne(BASE);
      // ++pn[i] == 0
      while pn[i] == BASE - 1 && i < WIDTH - 1
        invariant 0 <= i < WIDTH && Value(pn[..]) + Pow(BASE, i) == Value(a0) + 1
        decreases WIDTH - i
      {
        ValueUpdate(pn[..], i, 0);
        ghost var s := pn[..];
        pn[i] := 0;
        assert pn[..] == s[i := 0];
        CarryOver(Pow(BASE, i));
        PowNext(BASE, i);
        i := i + 1;
      }
      ghost var s := pn[..];
      ValueUpdate(s, i, (pn[i] + 1) % BASE);
      Bounded();
      ghost var wrap := pn[i] == BASE - 1;
      pn[i] := (pn[i] + 1) % BASE;
      assert pn[..] == s[i := pn[i]];
      Bounded();
      if wrap {
        CarryOver(Pow(BASE, i));
        PowNext(BASE, i);
        Wraps(V(), 1, Value(a0) + 1);
      } else {
        ModSmall(s[i] + 1, BASE);
        Wraps(V(), 0, Value(a0) + 1);
      }
    }

    /** `operator--`. */
    method Decrement()
      requires Valid()
      modifies pn
      ensures V() == (old(V()) - 1) % MODULUS
    {
      hide Value, Pow;
      ghost var a0 := pn[..];
      var i := 0;
      PowOne(BASE);
      while pn[i] == 0 && i < WIDTH - 1
        invariant 0 <= i < WIDTH && Value(pn[..]) - Pow(BASE, i) == Value(a0) - 1
        decreases WIDTH - i
      {
        ghost var s := pn[..];
        ValueUpdate(s, i, BASE - 1);
        pn[i] := BASE - 1;
        assert pn[..] == s[i := pn[i]];
        CarryOver(Pow(BASE, i));
        PowNext(BASE, i);
        i := i + 1;
      }
      ghost var s := pn[..];
      ghost var wrap := pn[i] == 0;
      pn[i] := if pn[i] == 0 then BASE - 1 else pn[i] - 1;
      assert pn[..] == s[i := pn[i]];
      ValueUpdate(s, i, pn[i]);
      Bounded();
      if wrap {
        CarryOver(Pow(BASE, i));
        PowNext(BASE, i);
        Wraps(V(), -1, Value(a0) - 1);
      } else {
        Wraps(V(), 0, Value(a0) - 1);
      }
    }

    /** Unary `operator-`. */
    method Negated() returns (r: Uint)
      requires Valid()
      ensures r.Valid() && fresh(r) && fresh(r.pn) && r.V() == (0 - V()) % MODULUS
    {
      r := Not();
      r.Increment();
      Bounded();
      ModDrop(0 - V(), 1, MODULUS);
    }

    /** `operator-=`. */
    method Sub(b: Uint)
      requires Valid() && b.Valid()
      modifies pn
      ensures V() == (old(V()) - old(b.V())) % MODULUS
    {
      var neg := b.Negated();
      ModAdd(0 - b.V(), V(), MODULUS);
      Add(neg);
    }

    /** `operator*=` with a 32-bit factor.  The sum never exceeds 64 bits. */
    method Mul32(b32: Limb)
      requires Valid()
      modifies pn
      ensures V() == old(V()) * b32 % MODULUS
    {
      hide Value, Pow;
      ghost var a0 := pn[..];
      ValueNone();
      var carry: Limb := 0;
      for i := 0 to WIDTH
        invariant Value(pn[..i]) + carry * Pow(BASE, i) == Value(a0[..i]) * b32
        invariant forall j :: i <= j < WIDTH ==> pn[j] == a0[j]
      {
        ProductFits(carry, 0, b32, pn[i]);
        var n := carry + b32 * pn[i];
        assert n < BASE * BASE;
        ghost var low := pn[..i];
        pn[i] := n % BASE;
        assert pn[..i + 1] == low + [pn[i]];
        MulStep(low, a0, i, carry, b32, n);
        carry := n / BASE;
      }
      assert pn[..WIDTH] == pn[..] && a0[..WIDTH] == a0;
      Bounded();
      Wraps(V(), carry, Value(a0) * b32);
    }

    /** One turn of the outer loop of `operator*=`: add the product with limb `j` of the other factor. */
    method AddProduct(x: Limb, b: Uint, j: nat)
      requires Valid() && b.Valid() && j < WIDTH
      requires b.pn == pn ==> forall k :: 0 <= k < WIDTH ==> pn[k] == 0
      modifies pn
      ensures b.pn[..] == old(b.pn[..]) && V() == (old(V()) + x * b.V() * Pow(BASE, j)) % MODULUS
    {
      hide Value, Pow;
      ghost var a0, b0 := pn[..], b.pn[..];
      ValueNone();
      ghost var none := x * Value(b0[..0]) * Pow(BASE, j);
      assert b0[..0] == [];
      var carry: Limb := 0;
      for i := 0 to WIDTH - j
        invariant Value(pn[..i + j]) + carry * Pow(BASE, i + j) == Value(a0[..i + j]) + x * Value(b0[..i]) * Pow(BASE, j)
        invariant forall k :: i + j <= k < WIDTH ==> pn[k] == a0[k]
        invariant b.pn[..] == b0 && (b.pn == pn ==> carry == 0)
      {
        assert b.pn[i] == b0[i] && (b.pn == pn ==> pn[i + j] == b0[i + j]);
        ProductFits(carry, pn[i + j], x, b.pn[i]);
        var n := carry + pn[i + j] + x * b.pn[i];
        assert n < BASE * BASE;
        ghost var low := pn[..i + j];
        pn[i + j] := n % BASE;
        assert pn[..i + j + 1] == low + [pn[i + j]];
        ProductStep(low, a0, b0, i, j, carry, x, n);
        carry := n / BASE;
      }
      assert pn[..WIDTH] == pn[..] && a0[..WIDTH] == a0 && b0[..WIDTH] == b0;
      Bounded();
      TopDropped(b0, WIDTH - j, x, j);
      ProductWraps(V(), carry, Value(a0), x, Value(b0[..WIDTH - j]), Value(b0), j);
    }

    /** `operator*=`.  This number is cleared before the other factor is read, so a number times itself gives zero. */
    method Mul(b: Uint)
      requires Valid() && b.Valid()
      modifies pn
      ensures V() == if b.pn == pn then 0 else old(V()) * old(b.V()) % MODULUS
    {
      hide Value, Pow;
      ghost var a0, b0 := pn[..], if b.pn == pn then 0 else b.V();
      var a := Clear();
      ValueZero(pn[..]);
      ValueNone();
      assert a0[..0] == [];
      ModSmall(0, MODULUS);
      for j := 0 to WIDTH
        invariant V() == Value(a0[..j]) * b.V() % MODULUS && a.pn[..] == a0 && b.V() == b0
        invariant b.pn == pn ==> forall k :: 0 <= k < WIDTH ==> pn[k] == 0
      {
        ghost var y, c0 := Value(a0[..j]) * b.V(), b.pn[..];
        AddProduct(a.pn[j], b, j);
        assert b.pn == pn ==> forall k :: 0 <= k < WIDTH ==> pn[k] == c0[k];
        ModAdd(y, a0[j] * b.V() * Pow(BASE, j), MODULUS);
        ValueStep(a0, j);
        LimbTimes(Value(a0[..j]), a0[j], Pow(BASE, j), b.V());
      }
      assert a0[..WIDTH] == a0;
    }

    /** `operator*`, which multiplies a copy: right for every two numbers, a number and itself included. */
    method Times(b: Uint) returns (r: Uint)
      requires Valid() && b.Valid()
      ensures r.Valid() && fresh(r) && fresh(r.pn) && r.V() == V() * b.V() % MODULUS
    {
      r := new Uint.Copy(this);
      r.Mul(b);
    }

    /** `a *= a`: right exactly for the multiples of 2^128. */
    method SquareInPlace()
      requires Valid()
      modifies pn
      ensures V() == 0
      ensures V() == old(V()) * old(V()) % MODULUS <==> old(V()) % Pow(2, 128) == 0
    {
      ModulusIsSquare();
      hide Value, Pow;
      SquareVanishes(V(), 128);
      Mul(this);
    }

    /** `CompareTo` is exact. */
    method CompareTo(b: Uint) returns (c: int)
      requires Valid() && b.Valid()
      ensures c == if V() < b.V() then -1 else if V() > b.V() then 1 else 0
    {
      var i := WIDTH;
      while i > 0
        invariant 0 <= i <= WIDTH && forall j :: i <= j < WIDTH ==> pn[j] == b.pn[j]
      {
        i := i - 1;
        if pn[i] < b.pn[i] {
          ValueLess(pn[..], b.pn[..], i);
          return -1;
        }
        if pn[i] > b.pn[i] {
          ValueLess(b.pn[..], pn[..], i);
          return 1;
        }
      }
      assert pn[..] == b.pn[..];
      return 0;
    }

    /** `bits`: the position of the highest bit set plus one. */
    method Bits() returns (n: nat)
      requires Valid()
      ensures n <= 32 * WIDTH && V() < Pow(2, n) && (n > 0 ==> V() >= Pow(2, n - 1)) && (n == 0 <==> V() == 0)
    {
      hide Value, Pow;
      var pos := WIDTH;
      while pos > 0
        invariant 0 <= pos <= WIDTH && forall j :: pos <= j < WIDTH ==> pn[j] == 0
      {
        pos := pos - 1;
        if pn[pos] != 0 {
          var bits := 31;
          LimbBits(pn[pos]);
          while bits > 0
            invariant 0 <= bits <= 31 && pn[pos] < Pow(2, bits + 1)
          {
            if HasBit(pn[pos], bits) {
              HighestBit(pn[..], pos, bits);
              return 32 * pos + bits + 1;
            }
            NoHighBit(pn[pos], bits);
            bits := bits - 1;
          }
          HighestBit(pn[..], pos, 0);
          return 32 * pos + 1;
        }
      }
      ValueZero(pn[..]);
      PowOne(2);
      return 0;
    }

    /** `GetLow64`. */
    method Low64() returns (low: nat)
      requires Valid()
      ensures low == V() % (BASE * BASE)
    {
      low := pn[0] + pn[1] * BASE;
      LowTwo(pn[..]);
    }

    /** `operator<<=`. */
    method ShiftLeft(shift: nat)
      requires Valid()
      modifies pn
      ensures V() == old(V()) * Pow(2, shift) % MODULUS
    {
      hide Value, Pow, BitOr, High, Low;
      ghost var a0 := pn[..];
      var a := Clear();
      var k, s := shift / 32, shift % 32;
      ghost var f := Pow(2, shift);
      ShiftStarts(pn[..], a0, k, s);
      for i := 0 to WIDTH
        invariant a.pn[..] == a0 && Shifted(pn[..], a0, i, k, s)
      {
        ghost var p0 := pn[..];
        ShlParts(p0, a0, i, k, s);
        if i + k + 1 < WIDTH && s != 0 {
          pn[i + k + 1] := BitOr(pn[i + k + 1], High(a.pn[i], s));
        }
        if i + k < WIDTH {
          pn[i + k] := BitOr(pn[i + k], Low(a.pn[i], s));
        }
        assert pn[..] == ShlLimb(p0, a0[i], i, k, s);
        ShiftLimb(p0, a0, i, k, s);
      }
      assert a0[..WIDTH] == a0 && shift == 32 * k + s;
    }

    /** A copy of the limbs, and zero in their place. */
    method Clear() returns (a: Uint)
      requires Valid()
      modifies pn
      ensures a.Valid() && fresh(a) && fresh(a.pn) && a.pn[..] == old(pn[..]) && forall j :: 0 <= j < WIDTH ==> pn[j] == 0
    {
      a := new Uint.Copy(this);
      for i := 0 to WIDTH
        invariant (forall j :: 0 <= j < i ==> pn[j] == 0) && a.pn[..] == old(pn[..])
      {
        pn[i] := 0;
      }
    }

    /** `operator>>=`. */
    method ShiftRight(shift: nat)
      requires Valid()
      modifies pn
      ensures V() == old(V()) / Pow(2, shift)
    {
      hide Value, Pow, BitOr, High, Low;
      ghost var a0 := pn[..];
      var a := Clear();
      var k, s := shift / 32, shift % 32;
      ShiftRightStarts(pn[..], a0, k, s);
      for i := 0 to WIDTH
        invariant a.pn[..] == a0 && ShiftedRight(pn[..], a0, i, k, s)
      {
        ghost var p0 := pn[..];
        ShrParts(p0, a0, i, k, s);
        if i - k - 1 >= 0 && s != 0 {
          pn[i - k - 1] := BitOr(pn[i - k - 1], Low(a.pn[i], 32 - s));
        }
        if i - k >= 0 {
          pn[i - k] := BitOr(pn[i - k], High(a.pn[i], 32 - s));
        }
        assert pn[..] == ShrLimb(p0, a0[i], i, k, s);
        ShiftRightLimb(p0, a0, i, k, s);
      }
      assert a0[..WIDTH] == a0 && shift == 32 * k + s;
    }

    /** One turn of the loop of `operator/=`: one bit of the quotient. */
    method DivStep(num: Uint, div: Uint, shift: nat, ghost b: nat)
      requires Valid() && num.Valid() && div.Valid() && pn != num.pn && pn != div.pn && num.pn != div.pn
      requires num.V() < b * Pow(2, shift + 1) && div.V() == b * Pow(2, shift) && LowClear(pn[..], shift)
      modifies pn, num.pn, div.pn
      ensures V() * b + num.V() == old(V()) * b + old(num.V()) && num.V() < b * Pow(2, shift)
      ensures shift > 0 ==> div.V() == b * Pow(2, shift - 1) && LowClear(pn[..], shift - 1)
    {
      hide Value, Pow, BitOr, LowClear;
      var c := num.CompareTo(div);
      HalfDivisor(b, shift);
      ghost var p0, v0 := pn[..], V();
      if c >= 0 {
        num.Bounded();
        ModSmall(num.V() - div.V(), MODULUS);
        num.Sub(div);
        // set a bit of the result.
        SetBit(p0, shift);
        pn[shift / 32] := BitOr(pn[shift / 32], Pow(2, shift % 32));
        assert pn[..] == p0[shift / 32 := pn[shift / 32]];
        MulDistrib(v0, Pow(2, shift), b);
      } else {
        ClearBit(p0, shift);
      }
      // shift back.
      div.ShiftRight(1);
    }

    /** `operator/=`, bit by bit; dividing by zero fails and leaves zero. */
    method Div(b: Uint) returns (ok: bool)
      requires Valid() && b.Valid()
      modifies pn
      ensures ok <==> old(b.V()) != 0
      ensures if ok then V() == old(V()) / old(b.V()) else V() == 0
    {
      hide Value, Pow, BitOr, LowClear;
      ghost var a0, b0 := V(), b.V();
      var div := new Uint.Copy(b);
      var num := Clear();
      ValueZero(pn[..]);
      var numBits := num.Bits();
      var divBits := div.Bits();
      if divBits == 0 {
        return false;
      }
      if divBits > numBits {
        // the result is certainly 0.
        PowMono(2, numBits, divBits - 1);
        ModSmall(a0, b0);
        return true;
      }
      var shift: int := numBits - divBits;
      Aligned(a0, b0, numBits, divBits);
      // shift so that div and num align.
      div.ShiftLeft(shift);
      LowClearZero(pn[..], shift);
      while shift >= 0
        invariant -1 <= shift < 32 * WIDTH && div.Valid() && num.Valid() && fresh(div.pn) && fresh(num.pn) && div.pn != num.pn
        invariant a0 == V() * b0 + num.V() && num.V() < b0 * Pow(2, shift + 1)
        invariant shift >= 0 ==> div.V() == b0 * Pow(2, shift) && LowClear(pn[..], shift)
        decreases shift
      {
        DivStep(num, div, shift, b0);
        shift := shift - 1;
      }
      PowOne(2);
      // num now contains the remainder of the division.
      DivUnique(a0, b0, V(), num.V());
      return true;
    }
  }

  // ----- shifting to the right

  ghost function ShrLimb(pn: seq<Limb>, x: Limb, i: nat, k: nat, s: nat): seq<Limb>
    requires |pn| == WIDTH && i < WIDTH && s < 32 && High(x, 32 - s) < BASE
    requires i > k ==> pn[i - k - 1] + Low(x, 32 - s) < BASE
  {
    if i > k then pn[i - k - 1 := pn[i - k - 1] + Low(x, 32 - s)][i - k := High(x, 32 - s)]
    else if i == k then pn[0 := High(x, 32 - s)]
    else pn
  }

  ghost predicate ShiftedRight(pn: seq<Limb>, a: seq<Limb>, i: nat, k: nat, s: nat)
    requires i <= |a| && s < 32
  {
    && |pn| == WIDTH && Value(pn) == Value(a[..i]) / Pow(2, 32 * k + s)
    && (forall j :: 0 <= j < WIDTH && j + k >= i ==> pn[j] == 0)
    && (k < i <= WIDTH ==> pn[i - k - 1] < Pow(2, 32 - s))
  }

  lemma ShiftRightStarts(pn: seq<Limb>, a: seq<Limb>, k: nat, s: nat)
    requires |pn| == WIDTH && s < 32 && forall j :: 0 <= j < WIDTH ==> pn[j] == 0
    ensures ShiftedRight(pn, a, 0, k, s)
  {
    ValueZero(pn);
    assert a[..0] == [];
    ModSmall(0, Pow(2, 32 * k + s));
  }

  lemma ShrParts(pn: seq<Limb>, a: seq<Limb>, i: nat, k: nat, s: nat)
    requires i < |a| == WIDTH && s < 32 && ShiftedRight(pn, a, i, k, s)
    ensures High(a[i], 32 - s) < BASE && (s == 0 ==> Low(a[i], 32 - s) == 0)
    ensures i > k ==> BitOr(pn[i - k - 1], Low(a[i], 32 - s)) == pn[i - k - 1] + Low(a[i], 32 - s) < BASE
    ensures i >= k ==> pn[i - k] == 0 && BitOr(pn[i - k], High(a[i], 32 - s)) == High(a[i], 32 - s)
  {
    hide Value, Pow, BitOr, High, Low;
    var x := a[i];
    HighLow(x, 32 - s);
    LowNone(x);
    OrZero(High(x, 32 - s));
    if i > k {
      OrDisjoint(pn[i - k - 1], Low(x, 32 - s), 32 - s);
      LowPlus(pn[i - k - 1], Low(x, 32 - s), 32 - s);
    }
  }

  lemma LowNone(x: Limb)
    ensures Low(x, 32) == 0
  {
    TwoTo32();
    DivUnique(x * BASE, BASE, x, 0);
  }

  lemma ShiftRightLimb(pn: seq<Limb>, a: seq<Limb>, i: nat, k: nat, s: nat)
    requires i < |a| == WIDTH && s < 32 && ShiftedRight(pn, a, i, k, s) && High(a[i], 32 - s) < BASE
    requires i > k ==> pn[i - k - 1] + Low(a[i], 32 - s) < BASE
    ensures ShiftedRight(ShrLimb(pn, a[i], i, k, s), a, i + 1, k, s)
  {
    hide Value, Pow, BitOr, High, Low;
    var x, v := a[i], Value(a[..i]);
    HighLow(x, 32 - s);
    ValueStep(a, i);
    ValueBound(a[..i]);
    ValueBound(a[..i + 1]);
    if i > k {
      TwoUpdates(pn, i - k - 1, Low(x, 32 - s), High(x, 32 - s));
      QuotientGrows(v, x, i, k, s);
    } else if i == k {
      UpdateAdd(pn, 0, High(x, 32 - s));
      PowOne(BASE);
      QuotientStarts(v, x, k, s);
    } else {
      QuotientNone(v, i, k, s);
      QuotientNone(Value(a[..i + 1]), i + 1, k, s);
    }
  }

  lemma QuotientNone(v: nat, i: nat, k: nat, s: nat)
    requires v < Pow(BASE, i) && i <= k
    ensures v / Pow(2, 32 * k + s) == 0
  {
    Pow2Shift(k, s);
    PowMono(BASE, i, k);
    MulMono(1, Pow(2, s), Pow(BASE, k));
    ModSmall(v, Pow(2, 32 * k + s));
  }

  lemma QuotientStarts(v: nat, x: Limb, k: nat, s: nat)
    requires v < Pow(BASE, k) && s < 32
    ensures (v + x * Pow(BASE, k)) / Pow(2, 32 * k + s) == High(x, 32 - s)
    ensures v / Pow(2, 32 * k + s) == 0
  {
    QuotientNone(v, k, k, s);
    Pow2Shift(k, s);
    DivDiv(v + x * Pow(BASE, k), Pow(BASE, k), Pow(2, s));
    DivUnique(v + x * Pow(BASE, k), Pow(BASE, k), x, v);
  }

  lemma QuotientGrows(v: nat, x: Limb, i: nat, k: nat, s: nat)
    requires i > k && s < 32
    ensures var n := i - k - 1;
            (v + x * Pow(BASE, i)) / Pow(2, 32 * k + s) ==
            v / Pow(2, 32 * k + s) + Low(x, 32 - s) * Pow(BASE, n) + High(x, 32 - s) * Pow(BASE, n + 1)
  {
    hide Pow, High, Low;
    var n, t, f := i - k - 1, Pow(2, 32 - s), Pow(2, s);
    var p := Pow(BASE, n);
    HighLow(x, 32 - s);
    SplitBase(s);
    Pow2Shift(k, s);
    PowAdd(BASE, n, k + 1);
    PowNext(BASE, k);
    PowNext(BASE, n);
    MulDistrib(High(x, 32 - s) * BASE, Low(x, 32 - s), p);
    MulAssoc(High(x, 32 - s), BASE, p);
    ExactPart(x, p, f, t, Pow(BASE, k));
    DivAddMultiple(v, x * t * p, Pow(2, 32 * k + s));
  }

  lemma ExactPart(x: int, p: int, f: int, t: int, q: int)
    requires f * t == BASE
    ensures x * (p * (BASE * q)) == (x * t * p) * (q * f)
  {
    MulAssoc(f, t, q);
    assert (x * t * p) * (q * f) == x * (p * ((f * t) * q)) by {
      MulAssoc(x * t * p, q, f);
      Regroup4(x, t, p, q);
      MulAssoc(x, t, p);
      MulAssoc(x, t * p, q);
      MulAssoc(x, t * p * q, f);
      assert t * p * q * f == p * ((f * t) * q);
    }
  }

  // ----- long division

  /** The bits below and at `shift` are not set yet. */
  ghost predicate LowClear(pn: seq<Limb>, shift: nat)
    ensures LowClear(pn, shift) ==> |pn| == WIDTH && shift < 32 * WIDTH
  {
    && |pn| == WIDTH && shift < 32 * WIDTH
    && (forall j :: 0 <= j < shift / 32 ==> pn[j] == 0)
    && pn[shift / 32] % Pow(2, shift % 32 + 1) == 0
  }

  lemma LowClearZero(pn: seq<Limb>, shift: nat)
    requires |pn| == WIDTH && shift < 32 * WIDTH && forall j :: 0 <= j < WIDTH ==> pn[j] == 0
    ensures LowClear(pn, shift)
  {
    ModSmall(0, Pow(2, shift % 32 + 1));
  }

  lemma SetBit(pn: seq<Limb>, shift: nat)
    requires LowClear(pn, shift)
    ensures var x := BitOr(pn[shift / 32], Pow(2, shift % 32));
            && x < BASE && Value(pn[shift / 32 := x]) == Value(pn) + Pow(2, shift)
            && (shift > 0 ==> LowClear(pn[shift / 32 := x], shift - 1))
  {
    hide Value, Pow, BitOr;
    var q, e := shift / 32, shift % 32;
    var y, p := pn[q], Pow(2, e);
    PowNext(2, e);
    EvenPart(y, p);
    DoubleMultiple(y, p);
    MulMono(1, 2, p);
    OrDisjoint(p, y, e + 1);
    LowPlus(p, y, e + 1);
    UpdateAdd(pn, q, p);
    Pow2Shift(q, e);
    if shift > 0 {
      PreviousBit(pn[q := y + p], shift);
    }
  }

  lemma DoubleMultiple(y: nat, p: nat)
    requires p > 0 && y % (2 * p) == 0
    ensures y % p == 0 && (y + p) % p == 0
  {
    var q := y / (2 * p);
    assert y == q * (2 * p);
    MulAssoc(q, 2, p);
    DivUnique(y, p, q * 2, 0);
    ModDrop(y, 1, p);
  }

  lemma ClearBit(pn: seq<Limb>, shift: nat)
    requires LowClear(pn, shift)
    ensures shift > 0 ==> LowClear(pn, shift - 1)
  {
    hide Value, Pow;
    PowNext(2, shift % 32);
    DoubleMultiple(pn[shift / 32], Pow(2, shift % 32));
    if shift > 0 {
      PreviousBit(pn, shift);
    }
  }

  lemma PreviousBit(pn: seq<Limb>, shift: nat)
    requires |pn| == WIDTH && 0 < shift < 32 * WIDTH
    requires (forall j :: 0 <= j < shift / 32 ==> pn[j] == 0) && pn[shift / 32] % Pow(2, shift % 32) == 0
    ensures LowClear(pn, shift - 1)
  {
    hide Pow;
    if shift % 32 == 0 {
      assert (shift - 1) / 32 == shift / 32 - 1;
      ModSmall(0, Pow(2, (shift - 1) % 32 + 1));
    } else {
      assert (shift - 1) / 32 == shift / 32 && (shift - 1) % 32 + 1 == shift % 32;
    }
  }

  lemma Aligned(a: nat, b: nat, n: nat, d: nat)
    requires 0 < d <= n <= 32 * WIDTH && a < Pow(2, n) && Pow(2, d - 1) <= b < Pow(2, d)
    ensures a < b * Pow(2, n - d + 1)
    ensures b * Pow(2, n - d) % MODULUS == b * Pow(2, n - d)
  {
    hide Pow;
    PowAdd(2, d - 1, n - d + 1);
    MulMono(Pow(2, d - 1), b, Pow(2, n - d + 1));
    PowAdd(2, d, n - d);
    MulStrict(b, Pow(2, d), Pow(2, n - d));
    PowMono(2, n, 32 * WIDTH);
    Pow2Limbs(WIDTH);
    ModSmall(b * Pow(2, n - d), MODULUS);
  }

  lemma HalfDivisor(b: nat, shift: nat)
    ensures shift > 0 ==> b * Pow(2, shift) / Pow(2, 1) == b * Pow(2, shift - 1)
    ensures b * Pow(2, shift + 1) == b * Pow(2, shift) + b * Pow(2, shift)
  {
    PowOne(2);
    PowNext(2, 0);
    PowNext(2, shift);
    if shift > 0 {
      PowNext(2, shift - 1);
      var p := b * Pow(2, shift - 1);
      hide Pow;
      MulAssoc(b, 2, Pow(2, shift - 1));
      MulAssoc(2, b, Pow(2, shift - 1));
      DivUnique(b * Pow(2, shift), 2, p, 0);
    }
    hide Pow;
    MulAssoc(b, 2, Pow(2, shift));
    MulAssoc(2, b, Pow(2, shift));
  }

  lemma LowTwo(s: seq<Limb>)
    requires |s| == WIDTH
    ensures s[0] + s[1] * BASE == Value(s) % (BASE * BASE)
  {
    var k := TopPart(s, 2);
    ValueStep(s, 0);
    ValueStep(s, 1);
    assert s[..0] == [] && Pow(BASE, 0) == 1 && Pow(BASE, 1) == BASE && Pow(BASE, 2) == BASE * BASE;
    DivUnique(Value(s), BASE * BASE, k, s[0] + s[1] * BASE);
  }

  /** What one turn of the loop of `operator<<=` does to the limbs. */
  ghost function ShlLimb(pn: seq<Limb>, x: Limb, i: nat, k: nat, s: nat): seq<Limb>
    requires |pn| == WIDTH && s < 32 && High(x, s) < BASE && (i + k < WIDTH ==> pn[i + k] + Low(x, s) < BASE)
  {
    if i + k + 1 < WIDTH then pn[i + k := pn[i + k] + Low(x, s)][i + k + 1 := High(x, s)]
    else if i + k < WIDTH then pn[i + k := pn[i + k] + Low(x, s)]
    else pn
  }

  /** After `i` limbs: the product so far, with room for the next one. */
  ghost predicate Shifted(pn: seq<Limb>, a: seq<Limb>, i: nat, k: nat, s: nat)
    requires i <= |a|
  {
    && |pn| == WIDTH && Value(pn) == Value(a[..i]) * Pow(2, 32 * k + s) % MODULUS
    && (forall j :: 0 <= j < WIDTH && j > i + k ==> pn[j] == 0)
    && (i + k < WIDTH ==> pn[i + k] < Pow(2, s))
  }

  lemma ShiftStarts(pn: seq<Limb>, a: seq<Limb>, k: nat, s: nat)
    requires |pn| == WIDTH && forall j :: 0 <= j < WIDTH ==> pn[j] == 0
    ensures Shifted(pn, a, 0, k, s)
  {
    ValueZero(pn);
    assert a[..0] == [];
    ModSmall(0, MODULUS);
  }

  /** What is joined does not overlap. */
  lemma ShlParts(pn: seq<Limb>, a: seq<Limb>, i: nat, k: nat, s: nat)
    requires i < |a| && s < 32 && Shifted(pn, a, i, k, s)
    ensures High(a[i], s) < BASE && (s == 0 ==> High(a[i], s) == 0)
    ensures i + k < WIDTH ==> BitOr(pn[i + k], Low(a[i], s)) == pn[i + k] + Low(a[i], s) < BASE
    ensures i + k + 1 < WIDTH ==> pn[i + k + 1] == 0 && BitOr(pn[i + k + 1], High(a[i], s)) == High(a[i], s)
  {
    hide Value, Pow, BitOr, High, Low;
    var x := a[i];
    HighLow(x, s);
    HighNone(x);
    OrZero(High(x, s));
    if i + k < WIDTH {
      OrDisjoint(pn[i + k], Low(x, s), s);
      LowPlus(pn[i + k], Low(x, s), s);
    }
  }

  lemma ShiftLimb(pn: seq<Limb>, a: seq<Limb>, i: nat, k: nat, s: nat)
    requires i < |a| && s < 32 && Shifted(pn, a, i, k, s) && High(a[i], s) < BASE
    requires i + k < WIDTH ==> pn[i + k] + Low(a[i], s) < BASE
    ensures Shifted(ShlLimb(pn, a[i], i, k, s), a, i + 1, k, s)
  {
    hide Value, Pow, BitOr, High, Low;
    HighLow(a[i], s);
    ValueStep(a, i);
    ShiftedProduct(Value(a[..i]), a[i], i, k, s);
    ShiftValue(pn, a[i], Value(a[..i]) * Pow(2, 32 * k + s), i + k, s);
  }

  /** The number after one turn, at place `n`. */
  lemma ShiftValue(pn: seq<Limb>, x: Limb, y: nat, n: nat, s: nat)
    requires |pn| == WIDTH && s < 32 && Value(pn) == y % MODULUS && High(x, s) < BASE
    requires (n < WIDTH ==> pn[n] + Low(x, s) < BASE) && (n + 1 < WIDTH ==> pn[n + 1] == 0)
    ensures Value(ShlLimb(pn, x, n, 0, s)) == (y + Low(x, s) * Pow(BASE, n) + High(x, s) * Pow(BASE, n + 1)) % MODULUS
  {
    hide Value, Pow, BitOr, High, Low;
    var lo, hi := Low(x, s), High(x, s);
    var r := ShlLimb(pn, x, n, 0, s);
    ValueBound(r);
    if n + 1 < WIDTH {
      TwoUpdates(pn, n, lo, hi);
      BothStay(Value(pn), y, lo * Pow(BASE, n), hi * Pow(BASE, n + 1), Value(r));
    } else if n < WIDTH {
      UpdateAdd(pn, n, lo);
      assert n + 1 == WIDTH;
      ModStep(Value(pn), y, lo * Pow(BASE, n), hi, Value(r));
    } else {
      NothingStays(Value(pn), y, lo, hi, n);
    }
  }

  lemma BothStay(v: nat, y: nat, d: nat, e: nat, v': nat)
    requires v == y % MODULUS && v' == v + d + e < MODULUS
    ensures v' == (y + d + e) % MODULUS
  {
    hide Pow;
    ModStep(v, y, d + e, 0, v');
  }

  lemma UpdateAdd(pn: seq<Limb>, n: nat, d: nat)
    requires n < |pn| && pn[n] + d < BASE
    ensures Value(pn[n := pn[n] + d]) == Value(pn) + d * Pow(BASE, n)
  {
    ValueUpdate(pn, n, pn[n] + d);
    assert pn[n] + d - pn[n] == d;
  }

  lemma NothingStays(v: nat, y: nat, lo: nat, hi: nat, n: nat)
    requires v == y % MODULUS < MODULUS && n >= WIDTH
    ensures v == (y + lo * Pow(BASE, n) + hi * Pow(BASE, n + 1)) % MODULUS
  {
    hide Pow;
    var c := BeyondTop(lo, n);
    var c' := BeyondTop(hi, n + 1);
    MulDistrib(c, c', MODULUS);
    ModStep(v, y, 0, c + c', v);
  }

  lemma CarryOver(p: int)
    ensures (BASE - 1 - 0) * p == BASE * p - p && (0 - (BASE - 1)) * p == p - BASE * p
  {
  }

  lemma ValueNone()
    ensures Value([]) == 0 && Pow(BASE, 0) == 1
  {
  }

  lemma TwoLimbs(s: seq<Limb>, x: Limb, y: Limb)
    requires |s| == WIDTH && s[0] == x && s[1] == y && forall i :: 2 <= i < WIDTH ==> s[i] == 0
    ensures Value(s) == x + y * BASE
  {
    ValueTop(s, 2);
    ValueStep(s, 0);
    ValueStep(s, 1);
    assert Pow(BASE, 0) == 1 && Pow(BASE, 1) == BASE;
    assert s[..0] == [];
  }

  lemma AddStep(low: seq<Limb>, a: seq<Limb>, b: seq<Limb>, i: nat, carry: nat, n: nat)
    requires |low| == i < |a| && |b| == |a| && n == carry + a[i] + b[i] && carry <= 1
    requires Value(low) + carry * Pow(BASE, i) == Value(a[..i]) + Value(b[..i])
    ensures 0 <= n / BASE <= 1
    ensures Value(low + [n % BASE]) + n / BASE * Pow(BASE, i + 1) == Value(a[..i + 1]) + Value(b[..i + 1])
  {
    hide Value, Pow;
    ValueAppend(low, n % BASE);
    ValueStep(a, i);
    ValueStep(b, i);
    PowNext(BASE, i);
    CarryStep(Value(low), Value(low + [n % BASE]), carry, n, n % BASE, n / BASE, Pow(BASE, i), Pow(BASE, i + 1));
    MulDistrib(a[i], b[i], Pow(BASE, i));
  }

  lemma NotStep(low: seq<Limb>, a: seq<Limb>, i: nat)
    requires |low| == i < |a| && Value(low) == Pow(BASE, i) - 1 - Value(a[..i])
    ensures Value(low + [BASE - 1 - a[i]]) == Pow(BASE, i + 1) - 1 - Value(a[..i + 1])
  {
    hide Value, Pow;
    ValueAppend(low, BASE - 1 - a[i]);
    ValueStep(a, i);
    PowNext(BASE, i);
    MulDistrib(BASE - 1 - a[i], a[i], Pow(BASE, i));
    CarryOver(Pow(BASE, i));
  }

  /** Two carries and a product of limbs fit in 64 bits. */
  lemma ProductFits(c: Limb, d: Limb, x: Limb, y: Limb)
    ensures 0 <= c + d + x * y < BASE * BASE
  {
    MulMono(x, BASE - 1, y);
    MulMono(y, BASE - 1, BASE - 1);
    MulMono(0, x, y);
  }

  lemma MulStep(low: seq<Limb>, a: seq<Limb>, i: nat, carry: nat, b: nat, n: nat)
    requires |low| == i < |a| && n == carry + b * a[i] && Value(low) + carry * Pow(BASE, i) == Value(a[..i]) * b
    ensures Value(low + [n % BASE]) + n / BASE * Pow(BASE, i + 1) == Value(a[..i + 1]) * b
  {
    hide Value, Pow;
    ValueAppend(low, n % BASE);
    ValueStep(a, i);
    PowNext(BASE, i);
    CarryStep(Value(low), Value(low + [n % BASE]), carry, n, n % BASE, n / BASE, Pow(BASE, i), Pow(BASE, i + 1));
    MulDistrib(Value(a[..i]), a[i] * Pow(BASE, i), b);
    Swap3(b, a[i], Pow(BASE, i));
  }

  lemma Swap3(a: int, b: int, c: int)
    ensures (a * b) * c == (b * c) * a == a * (b * c)
  {
  }

  lemma ProductStep(low: seq<Limb>, a: seq<Limb>, b: seq<Limb>, i: nat, j: nat, carry: nat, x: nat, n: nat)
    requires |low| == i + j < |a| && i < |b| && n == carry + a[i + j] + x * b[i]
    requires Value(low) + carry * Pow(BASE, i + j) == Value(a[..i + j]) + x * Value(b[..i]) * Pow(BASE, j)
    ensures Value(low + [n % BASE]) + n / BASE * Pow(BASE, i + j + 1) == Value(a[..i + j + 1]) + x * Value(b[..i + 1]) * Pow(BASE, j)
  {
    hide Value, Pow;
    var p := Pow(BASE, i + j);
    ValueAppend(low, n % BASE);
    ValueStep(a, i + j);
    ValueStep(b, i);
    PowNext(BASE, i + j);
    CarryStep(Value(low), Value(low + [n % BASE]), carry, n, n % BASE, n / BASE, p, Pow(BASE, i + j + 1));
    MulDistrib(a[i + j], x * b[i], p);
    PowAdd(BASE, i, j);
    MulDistrib(Value(b[..i]), b[i] * Pow(BASE, i), x);
    MulDistrib(x * Value(b[..i]), x * (b[i] * Pow(BASE, i)), Pow(BASE, j));
    Regroup4(x, b[i], Pow(BASE, i), Pow(BASE, j));
  }

  lemma Regroup4(x: int, y: int, p: int, q: int)
    ensures (x * (y * p)) * q == (x * y) * (p * q)
  {
    MulAssoc(x, y, p);
    MulAssoc(x * y, p, q);
  }

  /** The limbs that would fall off the end only contribute multiples of 2^256. */
  lemma {:induction false} TopDropped(b: seq<Limb>, n: nat, x: nat, j: nat)
    requires n + j == WIDTH && n <= |b|
    ensures exists k: nat :: Value(b) * Pow(BASE, j) == Value(b[..n]) * Pow(BASE, j) + k * MODULUS
  {
    var k := TopPart(b, n);
    PowAdd(BASE, n, j);
    MulDistrib(Value(b[..n]), k * Pow(BASE, n), Pow(BASE, j));
    MulAssoc(k, Pow(BASE, n), Pow(BASE, j));
  }

  lemma {:induction false} TopPart(b: seq<Limb>, n: nat) returns (k: nat)
    requires n <= |b|
    ensures Value(b) == Value(b[..n]) + k * Pow(BASE, n)
    decreases |b|
  {
    if n == |b| {
      k := 0;
      assert b[..n] == b;
    } else {
      var m := |b| - 1;
      k := TopPart(b[..m], n);
      assert b[..m][..n] == b[..n];
      PowAdd(BASE, m - n, n);
      MulAssoc(b[m], Pow(BASE, m - n), Pow(BASE, n));
      MulDistrib(k, b[m] * Pow(BASE, m - n), Pow(BASE, n));
      k := k + b[m] * Pow(BASE, m - n);
    }
  }

  lemma ProductWraps(v: nat, carry: nat, a: nat, x: nat, part: nat, whole: nat, j: nat)
    requires v + carry * MODULUS == a + x * part * Pow(BASE, j) && v < MODULUS
    requires exists k: nat :: whole * Pow(BASE, j) == part * Pow(BASE, j) + k * MODULUS
    ensures v == (a + x * whole * Pow(BASE, j)) % MODULUS
  {
    hide Pow;
    var k: nat :| whole * Pow(BASE, j) == part * Pow(BASE, j) + k * MODULUS;
    var p := Pow(BASE, j);
    MulAssoc(x, whole, p);
    MulAssoc(x, part, p);
    MulDistrib(part * p, k * MODULUS, x);
    MulAssoc(x, k, MODULUS);
    MulDistrib(carry, x * k, MODULUS);
    Wraps(v, carry + x * k, a + x * whole * p);
  }

  lemma LimbTimes(a: int, x: int, p: int, b: int)
    ensures a * b + x * b * p == (a + x * p) * b
  {
    MulDistrib(a, x * p, b);
    Swap3(x, b, p);
    MulAssoc(x, p, b);
  }

  // ----- the highest bit

  /** x & (1 << k) is not zero. */
  predicate HasBit(x: nat, k: nat) {
    x / Pow(2, k) % 2 == 1
  }

  lemma LimbBits(x: Limb)
    ensures x < Pow(2, 32)
  {
    TwoTo32();
  }

  lemma NoHighBit(x: nat, k: nat)
    requires x < Pow(2, k + 1) && !HasBit(x, k)
    ensures x < Pow(2, k)
  {
    var p := Pow(2, k);
    assert x == x / p * p + x % p;
    if x >= p {
      DivUnique(x, p, 1, x - p);
    }
  }

  lemma HighestBit(s: seq<Limb>, pos: nat, k: nat)
    requires |s| == WIDTH && pos < WIDTH && k < 32 && forall j :: pos < j < WIDTH ==> s[j] == 0
    requires s[pos] < Pow(2, k + 1) && s[pos] > 0 && (k > 0 ==> HasBit(s[pos], k))
    ensures Pow(2, 32 * pos + k) <= Value(s) < Pow(2, 32 * pos + k + 1)
    ensures Value(s) != 0
  {
    ValueTop(s, pos + 1);
    ValueStep(s, pos);
    ValueBound(s[..pos]);
    var x, p := s[pos], Pow(BASE, pos);
    if k > 0 && x < Pow(2, k) { ModSmall(x, Pow(2, k)); }
    Pow2Shift(pos, k);
    Pow2Shift(pos, k + 1);
    hide Value, Pow, HasBit;
    assert k == 0 ==> Pow(2, k) == 1 by { PowOne(2); }
    MulMono(Pow(2, k), x, p);
    MulMono(x + 1, Pow(2, k + 1), p);
    MulDistrib(x, 1, p);
  }

  // ----- shifting to the left

  lemma HighNone(x: Limb)
    ensures High(x, 0) == 0
  {
    TwoTo32();
    ModSmall(x, BASE);
  }

  lemma OrZero(x: nat)
    ensures BitOr(0, x) == x
  {
  }

  /** Bits below `s` and bits from `s` on make a limb. */
  lemma LowPlus(x: nat, y: Limb, s: nat)
    requires s <= 32 && x < Pow(2, s) && y % Pow(2, s) == 0
    ensures x + y < BASE
  {
    hide Pow;
    SplitBase(s);
    MultipleBelow(y, Pow(2, s), Pow(2, 32 - s));
  }

  lemma MultipleBelow(y: nat, p: nat, q: nat)
    requires p > 0 && y < p * q && y % p == 0
    ensures y + p <= p * q
  {
    var d := y / p;
    assert y == d * p;
    if d >= q {
      MulMono(q, d, p);
    }
    MulMono(d + 1, q, p);
    MulDistrib(d, 1, p);
  }

  /** The product grows by the two parts of the next limb, each in its place. */
  lemma ShiftedProduct(v: nat, x: Limb, i: nat, k: nat, s: nat)
    requires s <= 32
    ensures (v + x * Pow(BASE, i)) * Pow(2, 32 * k + s) ==
            v * Pow(2, 32 * k + s) + Low(x, s) * Pow(BASE, i + k) + High(x, s) * Pow(BASE, i + k + 1)
    ensures Low(x, s) * Pow(BASE, i + k) + High(x, s) * Pow(BASE, i + k + 1) == x * Pow(2, s) * Pow(BASE, i + k)
  {
    hide Pow, High, Low;
    HighLow(x, s);
    Pow2Shift(k, s);
    PowAdd(BASE, i, k);
    PowNext(BASE, i + k);
    var f, p, q := Pow(2, s), Pow(BASE, i), Pow(BASE, k);
    MulDistrib(v, x * p, q * f);
    Regroup5(x, p, q, f);
    MulDistrib(High(x, s) * BASE, Low(x, s), p * q);
    MulAssoc(High(x, s), BASE, p * q);
  }

  lemma Regroup5(x: int, p: int, q: int, f: int)
    ensures (x * p) * (q * f) == (x * f) * (p * q)
  {
    Regroup4(x, f, p, q);
    MulAssoc(x * p, q, f);
    MulAssoc(x * p, f, q);
    MulAssoc(x, p, f);
    assert p * f == f * p;
  }

  lemma TwoUpdates(pn: seq<Limb>, n: nat, lo: Limb, hi: Limb)
    requires |pn| == WIDTH && n + 1 < WIDTH && pn[n] + lo < BASE && pn[n + 1] == 0
    ensures Value(pn[n := pn[n] + lo][n + 1 := hi]) == Value(pn) + lo * Pow(BASE, n) + hi * Pow(BASE, n + 1) < MODULUS
  {
    hide Value, Pow;
    UpdateAdd(pn, n, lo);
    UpdateAdd(pn[n := pn[n] + lo], n + 1, hi);
    ValueBound(pn[n := pn[n] + lo][n + 1 := hi]);
  }

  /** Adding to a residue without passing the modulus, and multiples of it. */
  lemma ModStep(v: nat, y: nat, d: nat, c: nat, v': nat)
    requires v == y % MODULUS && v' == v + d < MODULUS
    ensures v' == (y + d + c * MODULUS) % MODULUS
  {
    hide Pow;
    ModDrop(y + d, c, MODULUS);
    ModAdd(y, d, MODULUS);
    ModSmall(v', MODULUS);
  }

  lemma BeyondTop(x: nat, n: nat) returns (c: nat)
    requires n >= WIDTH
    ensures x * Pow(BASE, n) == c * MODULUS
  {
    PowAdd(BASE, n - WIDTH, WIDTH);
    hide Pow;
    MulAssoc(x, Pow(BASE, n - WIDTH), MODULUS);
    c := x * Pow(BASE, n - WIDTH);
  }

  // ----- squares

  lemma ModulusIsSquare()
    ensures MODULUS == Pow(4, 128)
  {
    assert BASE == Pow(4, 16) by {
      assert Pow(4, 8) == 65536;
      PowAdd(4, 8, 8);
    }
    PowMul(4, 16, 8);
  }

  /** A square is a multiple of 4^k exactly when its root is one of 2^k. */
  lemma {:induction false} SquareVanishes(v: nat, k: nat)
    ensures v * v % Pow(4, k) == 0 <==> v % Pow(2, k) == 0
    decreases k
  {
    if k > 0 {
      var w, a, b := v / 2, Pow(4, k - 1), Pow(2, k - 1);
      assert Pow(4, k) == 4 * a && Pow(2, k) == 2 * b;
      SquareVanishes(w, k - 1);
      hide Pow;
      if v == 2 * w {
        EvenSquare(w, a, b);
      } else {
        OddSquare(w, a, b);
      }
    } else {
      PowOne(2);
      PowOne(4);
    }
  }

  lemma EvenSquare(w: nat, a: nat, b: nat)
    requires a > 0 && b > 0
    ensures 2 * w * (2 * w) % (4 * a) == 0 <==> w * w % a == 0
    ensures 2 * w % (2 * b) == 0 <==> w % b == 0
  {
    MulAssoc(2 * w, 2, w);
    MulAssoc(4, w, w);
    MultipleTimes(w * w, a, 4);
    MultipleTimes(w, b, 2);
  }

  lemma OddSquare(w: nat, a: nat, b: nat)
    requires a > 0 && b > 0
    ensures (2 * w + 1) * (2 * w + 1) % (4 * a) != 0 && (2 * w + 1) % (2 * b) != 0
  {
    MulDistrib(2 * w, 1, 2 * w + 1);
    MulAssoc(2, w, 2 * w + 1);
    OddLeaves(w * (2 * w + 1) + w, 2 * a);
    OddLeaves(w, b);
  }

  lemma OddLeaves(x: nat, m: nat)
    requires m > 0
    ensures (2 * x + 1) % (2 * m) != 0
  {
    var q, r := x / m, x % m;
    MulAssoc(2, m, q);
    DivUnique(2 * x + 1, 2 * m, q, 2 * r + 1);
  }

  lemma MultipleTimes(x: nat, m: nat, c: nat)
    requires m > 0 && c > 0
    ensures (c * x) % (c * m) == 0 <==> x % m == 0
  {
    var q, r := x / m, x % m;
    MulAssoc(c, m, q);
    MulDistrib(m * q, r, c);
    MulMono(r + 1, m, c);
    DivUnique(c * x, c * m, q, c * r);
  }

  /** In place, one times one is zero. */
  method SquareOfOneIsLost() returns (x: Uint)
    ensures x.Valid() && x.V() == 0 != 1 * 1 % MODULUS
  {
    x := new Uint.From(1);
    x.SquareInPlace();
    ModSmall(1, MODULUS);
  }
}
