/**
 Facts about multiplication, division and powers that the verifier does not find by itself.
 */
module NatMath {
  lemma MulMono(a: int, b: int, c: int)
    requires a <= b && c >= 0
    ensures a * c <= b * c && c * a <= c * b
  {
    assert (b - a) * c >= 0;
  }

  lemma MulStrict(a: int, b: int, c: int)
    requires a < b && c > 0
    ensures a * c < b * c && c * a < c * b
  {
    assert (b - a) * c > 0;
  }

  lemma MulAssoc(a: int, b: int, c: int)
    ensures a * (b * c) == (a * b) * c
  {
  }

  /** Quotient and remainder are determined by their defining equation. */
  lemma DivUnique(a: int, d: int, q: int, r: int)
    requires d > 0 && a == q * d + r && 0 <= r < d
    ensures a / d == q && a % d == r
  {
    var q', r' := a / d, a % d;
    assert a == q' * d + r';
    if q' < q {
      MulMono(q' + 1, q, d);
    } else if q' > q {
      MulMono(q + 1, q', d);
    }
  }

  lemma DivShrinks(a: nat, d: nat)
    requires d >= 1
    ensures 0 <= a / d <= a
  {
    assert a == a / d * d + a % d;
    if a / d < 0 { MulMono(a / d, -1, d); }
    if a / d >= 0 { MulMono(1, d, a / d); }
  }

  function Pow(b: nat, e: nat): (r: nat)
    ensures b >= 1 ==> r >= 1
  {
    if e == 0 then 1 else b * Pow(b, e - 1)
  }

  lemma PowOne(b: nat)
    ensures Pow(b, 0) == 1
  {
  }

  lemma PowNext(b: nat, e: nat)
    ensures Pow(b, e + 1) == b * Pow(b, e)
  {
  }

  function Pow2(e: nat): (r: nat)
    ensures r >= 1
  {
    Pow(2, e)
  }

  lemma {:induction false} PowAdd(b: nat, m: nat, n: nat)
    ensures Pow(b, m + n) == Pow(b, m) * Pow(b, n)
    decreases m
  {
    if m > 0 {
      PowAdd(b, m - 1, n);
      assert b * (Pow(b, m - 1) * Pow(b, n)) == (b * Pow(b, m - 1)) * Pow(b, n);
    }
  }

  lemma {:induction false} PowMono(b: nat, m: nat, n: nat)
    requires b >= 1 && m <= n
    ensures Pow(b, m) <= Pow(b, n)
    decreases n
  {
    if m < n {
      PowMono(b, m, n - 1);
      MulMono(1, b, Pow(b, n - 1));
    }
  }

  /** Multiples of the modulus do not matter. */
  lemma ModDrop(a: int, k: int, m: int)
    requires m > 0
    ensures (a + k * m) % m == a % m
  {
    DivUnique(a + k * m, m, a / m + k, a % m);
  }

  lemma ModSmall(a: int, m: int)
    requires 0 <= a < m
    ensures a % m == a && a / m == 0
  {
    DivUnique(a, m, 0, a);
  }

  /** Adding to a residue. */
  lemma ModAdd(a: int, b: int, m: int)
    requires m > 0
    ensures (a % m + b) % m == (a + b) % m
  {
    ModDrop(a % m + b, a / m, m);
    assert a == a / m * m + a % m;
  }

  lemma MulDistrib(a: int, b: int, c: int)
    ensures (a + b) * c == a * c + b * c && c * (a + b) == c * a + c * b
  {
  }

  lemma Regroup(q: int, c: int, r: int, b: int)
    ensures (q * c + r) * b == q * (b * c) + r * b
  {
    MulDistrib(q * c, r, b);
    MulAssoc(q, c, b);
  }

  /** Dividing in two steps. */
  lemma DivDiv(a: nat, b: nat, c: nat)
    requires b > 0 && c > 0
    ensures b * c > 0 && a / (b * c) == a / b / c
  {
    MulStrict(0, b, c);
    var q, r := a / b, a % b;
    var q', r' := q / c, q % c;
    assert a == q * b + r && q == q' * c + r';
    Regroup(q', c, r', b);
    MulMono(r', c - 1, b);
    MulMono(0, r', b);
    MulDistrib(c, -1, b);
    DivUnique(a, b * c, q', r' * b + r);
  }

  /** A multiple of the divisor passes through. */
  lemma DivAddMultiple(a: int, k: int, m: int)
    requires m > 0
    ensures (a + k * m) / m == a / m + k
  {
    DivUnique(a + k * m, m, a / m + k, a % m);
  }

  lemma {:induction false} PowMul(b: nat, m: nat, n: nat)
    ensures m * n >= 0 && Pow(b, m * n) == Pow(Pow(b, m), n)
    decreases n
  {
    if n > 0 {
      PowMul(b, m, n - 1);
      MulDistrib(n - 1, 1, m);
      PowAdd(b, m, m * (n - 1));
    }
  }

  lemma {:induction false} PowBaseMono(a: nat, b: nat, e: nat)
    requires a <= b
    ensures Pow(a, e) <= Pow(b, e)
    decreases e
  {
    if e > 0 {
      PowBaseMono(a, b, e - 1);
      MulMono(a, b, Pow(a, e - 1));
      MulMono(Pow(a, e - 1), Pow(b, e - 1), b);
    }
  }

  /** Roots are monotone. */
  lemma {:induction false} PowBaseStrict(a: nat, b: nat, e: nat)
    requires a < b && e >= 1
    ensures Pow(a, e) < Pow(b, e)
    decreases e
  {
    if e > 1 {
      PowBaseStrict(a, b, e - 1);
      MulMono(a, b, Pow(a, e - 1));
      MulStrict(Pow(a, e - 1), Pow(b, e - 1), b);
    }
  }

  /** The sum of a list. */
  function Sum(s: seq<nat>): nat {
    if s == [] then 0 else Sum(s[..|s| - 1]) + s[|s| - 1]
  }

  lemma {:induction false} SumFirst(x: nat, s: seq<nat>)
    ensures Sum([x] + s) == x + Sum(s)
    decreases |s|
  {
    var all := [x] + s;
    if s == [] {
      assert all[..0] == [];
    } else {
      SumFirst(x, s[..|s| - 1]);
      assert all[..|s|] == [x] + s[..|s| - 1];
    }
  }
}
