/**
 How long the walk of `CBlockIndex::GetAncestor` (src/chain.cpp) can get: of the order of the square of the number of
 bits of the height it starts from, whatever the target.
 */
module SkipSteps {
  import opened NatMath
  import opened SkipList

  // ----- the lowest one

  function Low(m: nat): nat
    requires m > 0
  {
    if m % 2 == 1 then 0 else 1 + Low(m / 2)
  }

  function Inv(m: nat): nat { InvertLowestOne(m) }

  lemma InvZero()
    ensures Inv(0) == 0
  {
  }

  /** Clearing the lowest one leaves a multiple of twice its value. */
  lemma {:induction false} InvClears(m: nat) returns (c: nat)
    requires m > 0
    ensures m == (2 * c + 1) * Pow2(Low(m)) && Inv(m) == 2 * c * Pow2(Low(m)) == m - Pow2(Low(m))
    decreases m
  {
    var n := m / 2;
    InvertLowestOneClearsLowest(n);
    if m % 2 == 1 {
      c := n;
      assert m == 2 * n + 1 && Pow2(0) == 1;
    } else {
      assert m == 2 * n;
      c := InvClears(n);
      assert Pow2(Low(m)) == 2 * Pow2(Low(n));
      var p := Pow2(Low(n));
      Twice(2 * c + 1, p);
      Twice(2 * c, p);
    }
  }

  lemma Twice(a: nat, p: nat)
    ensures 2 * (a * p) == a * (2 * p)
  {
  }

  /** A positive multiple of 2^k has no one below bit k. */
  lemma {:induction false} LowOfMultiple(c: nat, k: nat)
    requires c > 0
    ensures c * Pow2(k) > 0 && Low(c * Pow2(k)) >= k
    decreases k
  {
    MulMono(1, c, Pow2(k));
    if k > 0 {
      LowOfMultiple(c, k - 1);
      Twice(c, Pow2(k - 1));
      assert c * Pow2(k) == 2 * (c * Pow2(k - 1));
    }
  }

  lemma InvRaises(m: nat)
    requires m > 0
    ensures Inv(m) < m && (Inv(m) > 0 ==> Low(Inv(m)) > Low(m))
  {
    hide Low, Inv, Pow2;
    var c := InvClears(m);
    if Inv(m) > 0 {
      Pow2Next(Low(m));
      Twice(c, Pow2(Low(m)));
      MulAssoc(2, c, Pow2(Low(m)));
      assert c * Pow2(Low(m) + 1) == Inv(m);
      PositiveFactor(2 * c, Pow2(Low(m)));
      LowOfMultiple(c, Low(m) + 1);
    }
  }

  lemma PositiveFactor(a: nat, p: nat)
    requires a * p > 0
    ensures a > 0
  {
  }

  lemma Pow2Next(k: nat)
    ensures Pow2(k + 1) == 2 * Pow2(k)
  {
  }

  /** `b` is a multiple of 2^j. */
  ghost predicate Aligned(b: nat, j: nat) {
    exists c: nat :: b == c * Pow2(j)
  }

  /** Between `b` and the next multiple of 2^j, ones are below bit j, and clearing one does not go below `b`. */
  lemma Between(b: nat, j: nat, m: nat)
    requires Aligned(b, j) && b < m < b + Pow2(j)
    ensures Low(m) < j && Inv(m) >= b
  {
    var c: nat :| b == c * Pow2(j);
    hide Low, Inv, Pow2, Aligned;
    var k := Low(m);
    var d := InvClears(m);
    if k >= j {
      var q := Pow2Splits(j, k);
      TooHigh(c, 2 * d + 1, q, Pow2(j), m);
      assert false;
    } else {
      var q := Pow2Splits(k, j);
      NotBelow(c, d, q, Pow2(k), m);
    }
  }

  lemma TooHigh(c: nat, e: nat, q: nat, p: nat, m: nat)
    requires m == e * (q * p) && c * p < m
    ensures c * p + p <= m
  {
    MulAssoc(e, q, p);
    NextMultiple(c, e * q, p);
  }

  lemma NotBelow(c: nat, d: nat, q: nat, p: nat, m: nat)
    requires m == (2 * d + 1) * p && c * (q * p) < m
    ensures c * (q * p) <= 2 * d * p
  {
    MulAssoc(c, q, p);
    NextMultiple(c * q, 2 * d + 1, p);
    MulDistrib(2 * d, 1, p);
  }

  lemma {:induction false} Pow2Splits(k: nat, j: nat) returns (q: nat)
    requires k <= j
    ensures Pow2(j) == q * Pow2(k) && q >= 1
    decreases j
  {
    if k == j {
      q := 1;
    } else {
      q := Pow2Splits(k, j - 1);
      q := 2 * q;
      MulAssoc(2, q / 2, Pow2(k));
    }
  }

  /** No multiple lies strictly between two neighbouring ones. */
  lemma NextMultiple(c: nat, d: nat, p: nat)
    requires c * p < d * p
    ensures c * p + p <= d * p
  {
    if d <= c { MulMono(d, c, p); } else { MulMono(c + 1, d, p); MulDistrib(c, 1, p); }
  }

  // ----- jumps in terms of half the height

  lemma EvenSkip(m: nat)
    requires m > 0
    ensures SkipHeight(2 * m) == 2 * Inv(m)
  {
    InvertLowestOneClearsLowest(m);
  }

  lemma OddSkip(m: nat)
    requires m > 0
    ensures SkipHeight(2 * m + 1) == 2 * Inv(Inv(m)) + 1
  {
    InvertLowestOneClearsLowest(m);
    InvertLowestOneClearsLowest(Inv(m));
  }

  /** From an odd height the walk jumps whenever that does not overshoot. */
  lemma FromOdd(x: nat, t: nat)
    requires x > 0 && t < 2 * x + 1
    ensures StepTo(2 * x + 1, t) == if 2 * Inv(Inv(x)) + 1 >= t then 2 * Inv(Inv(x)) + 1 else 2 * x
  {
    OddSkip(x);
    EvenSkip(x);
    InvZero();
    if Inv(x) > 0 { InvRaises(Inv(x)); }
  }

  /** From an even one too, unless the height before has a jump that is better and does not overshoot. */
  lemma FromEven(m: nat, t: nat)
    requires m > 1 && t < 2 * m
    ensures var s, sp := 2 * Inv(m), 2 * Inv(Inv(m - 1)) + 1;
            StepTo(2 * m, t) == if s == t || (s > t && !(sp < s - 2 && sp >= t)) then s else 2 * (m - 1) + 1
  {
    EvenSkip(m);
    OddSkip(m - 1);
  }

  /** Two numbers down: what clearing two ones of the number before comes to. */
  lemma BeforeJumps(m: nat)
    requires m > 1
    ensures var sp, s := Inv(Inv(m - 1)), Inv(m);
            sp <= Inv(s) || sp >= s
  {
    hide Inv;
    var n, k := m / 2, m / 4;
    if m == 2 * n + 1 {
      BeforeOdd(n);
      BeforeUnit(n);
    } else if m == 4 * k + 2 {
      BeforeTwo(k);
    } else {
      assert m == 4 * k;
      BeforeFour(k);
    }
  }

  lemma BeforeOdd(n: nat)
    ensures Inv(Inv(2 * n)) <= Inv(Inv(2 * n + 1))
  {
    InvertLowestOneClearsLowest(n);
    hide InvertLowestOne;
    var r := Inv(2 * n);
    InvNoLarger(r);
  }

  lemma BeforeUnit(n: nat)
    ensures Inv(2 * n + 1) == 2 * n
  {
    InvertLowestOneClearsLowest(n);
  }

  lemma InvNoLarger(m: nat)
    ensures Inv(m) <= m
  {
  }

  lemma BeforeTwo(k: nat)
    ensures Inv(Inv(4 * k + 1)) == Inv(Inv(4 * k + 2))
  {
    InvertLowestOneClearsLowest(2 * k);
    InvertLowestOneClearsLowest(2 * k + 1);
    InvertLowestOneClearsLowest(k);
  }

  lemma BeforeFour(k: nat)
    requires k > 0
    ensures Inv(Inv(4 * k - 1)) == 4 * k - 4 >= Inv(4 * k)
  {
    var l := k - 1;
    InvertLowestOneClearsLowest(2 * l + 1);
    InvertLowestOneClearsLowest(l);
    InvertLowestOneClearsLowest(2 * k);
    InvertLowestOneClearsLowest(k);
    hide InvertLowestOne;
    assert 4 * k - 1 == 2 * (2 * l + 1) + 1;
    assert Inv(4 * k) == 2 * Inv(2 * k) == 4 * Inv(k);
    InvRaises(k);
  }

  // ----- the bound

  lemma StepsUnfold(w: nat, t: nat)
    requires t < w
    ensures Steps(w, t) == 1 + Steps(StepTo(w, t), t)
  {
  }

  lemma StepsDone(w: nat)
    ensures Steps(w, w) == 0
  {
  }

  /**
   From an odd height, with a target above twice a multiple of 2^j, less than 2^j below: jumps clear two ones at a time
   until they would overshoot, and then at most three more steps lead to the same situation with a smaller j.
   */
  lemma {:induction false} OddBound(x: nat, t: nat, b: nat, j: nat)
    requires Aligned(b, j) && b < x < b + Pow2(j) && 2 * b < t <= 2 * x + 1
    ensures Low(x) < j && 4 * Steps(2 * x + 1, t) <= 11 * j + j * j - 2 * Low(x)
    decreases x, 2
  {
    hide Low, Inv, Pow2, Steps, StepTo, Aligned;
    Between(b, j, x);
    StepsDone(t);
    if t < 2 * x + 1 {
      StepsUnfold(2 * x + 1, t);
      FromOdd(x, t);
      var y := Inv(Inv(x));
      TwoCleared(x);
      if 2 * y + 1 >= t {
        if y == b {
          assert 2 * y + 1 == t;
        } else {
          OddBound(y, t, b, j);
        }
      } else if t < 2 * x {
        EvenAfterOdd(x, t, b, j);
      }
      Bounds(j, Low(x));
    }
  }

  lemma TwoCleared(x: nat)
    requires x > 0
    ensures Inv(Inv(x)) < x && (Inv(Inv(x)) > 0 ==> Low(Inv(Inv(x))) >= Low(x) + 2)
  {
    hide Low, Inv;
    InvRaises(x);
    InvZeroHidden();
    if Inv(x) > 0 { InvRaises(Inv(x)); }
  }

  lemma InvZeroHidden()
    ensures Inv(0) == 0
  {
  }

  lemma Bounds(j: nat, l: nat)
    requires l < j
    ensures 11 * j + j * j - 2 * l >= 12
  {
    MulMono(1, j, j);
  }

  /** Just after an odd height from which the jump would have overshot. */
  lemma EvenAfterOdd(m: nat, t: nat, b: nat, j: nat)
    requires Aligned(b, j) && b < m < b + Pow2(j) && 2 * b < t < 2 * m && 2 * Inv(Inv(m)) + 1 < t
    ensures 4 * Steps(2 * m, t) <= 8 + 11 * (j - 1) + (j - 1) * (j - 1)
    decreases m, 1
  {
    hide Low, Inv, Pow2, Steps, StepTo, Aligned;
    Between(b, j, m);
    StepsUnfold(2 * m, t);
    FromEven(m, t);
    BeforeJumps(m);
    StepsDone(t);
    MulMono(0, j - 1, j - 1);
    var s := Inv(m);
    if 2 * s < t {
      Round(m, t, j);
    } else if 2 * s > t {
      Between(b, j, s);
      StepsUnfold(2 * s, t);
      InvRaises(m);
      FromEven(s, t);
      Round(s, t, j);
    }
  }

  /** Before the number `m`, all of whose ones but the lowest are out of reach. */
  lemma Round(m: nat, t: nat, j: nat)
    requires m > 1 && Low(m) < j && 2 * Inv(m) < t < 2 * m
    ensures 4 * Steps(2 * (m - 1) + 1, t) <= 11 * (j - 1) + (j - 1) * (j - 1)
    decreases m, 0
  {
    hide Low, Inv, Pow2, Steps, StepTo;
    var c := InvClears(m);
    var k, b := Low(m), Inv(m);
    Pow2Positive(k);
    assert b == (2 * c) * Pow2(k);
    StepsDone(t);
    MulMono(0, j - 1, j - 1);
    if b < m - 1 {
      OddBound(m - 1, t, b, k);
      MulMono(k, j - 1, k);
      MulMono(k, j - 1, j - 1);
    }
  }

  lemma Pow2Positive(k: nat)
    ensures Pow2(k) >= 1
  {
  }

  /** All the way down to the root nothing overshoots. */
  lemma {:induction false} OddToRoot(x: nat, j: nat)
    requires x < Pow2(j)
    ensures 4 * Steps(2 * x + 1, 0) <= if x > 0 then 2 * j + 6 - 2 * Low(x) else 4
    decreases x
  {
    hide Low, Inv, Pow2, Steps, StepTo;
    StepsUnfold(2 * x + 1, 0);
    if x == 0 {
      FromOne();
    } else {
      FromOdd(x, 0);
      TwoCleared(x);
      NoneBelow(j);
      Between(0, j, x);
      OddToRoot(Inv(Inv(x)), j);
    }
  }

  lemma FromOne()
    ensures StepTo(1, 0) == 0 && Steps(0, 0) == 0
  {
  }

  lemma NoneBelow(j: nat)
    ensures Aligned(0, j)
  {
    assert 0 == 0 * Pow2(j);
  }

  /** From any odd height. */
  lemma FromAnyOdd(x: nat, t: nat, j: nat)
    requires x < Pow2(j) && t <= 2 * x + 1
    ensures 4 * Steps(2 * x + 1, t) <= 11 * j + j * j + 4
  {
    hide Low, Inv, Pow2, Steps, StepTo;
    NoneBelow(j);
    MulMono(0, j, j);
    StepsDone(t);
    if t == 0 {
      OddToRoot(x, j);
    } else if x > 0 {
      OddBound(x, t, 0, j);
    }
  }

  /** From an even height jumps clear one one at a time, until the walk gets to an odd height or ends. */
  lemma {:induction false} FromAnyEven(m: nat, t: nat, j: nat)
    requires 0 < m < Pow2(j) && t <= 2 * m
    ensures Low(m) < j && 4 * Steps(2 * m, t) <= 11 * j + j * j + 8 + 4 * (j - Low(m))
    decreases m
  {
    hide Low, Inv, Pow2, Steps, StepTo;
    NoneBelow(j);
    MulMono(0, j, j);
    Between(0, j, m);
    StepsDone(t);
    if t < 2 * m {
      StepsUnfold(2 * m, t);
      EvenStep(m, t);
      var next := StepTo(2 * m, t);
      if next == 2 * (m - 1) + 1 {
        FromAnyOdd(m - 1, t, j);
      } else {
        InvRaises(m);
        if Inv(m) > 0 { FromAnyEven(Inv(m), t, j); }
      }
    }
  }

  lemma EvenStep(m: nat, t: nat)
    requires m > 0 && t < 2 * m
    ensures StepTo(2 * m, t) == 2 * (m - 1) + 1 || (StepTo(2 * m, t) == 2 * Inv(m) && 2 * Inv(m) >= t)
  {
    EvenSkip(m);
  }

  /** From every height below 2^(j + 1) to every target the walk takes at most (j^2 + 15 j + 8) / 4 steps. */
  lemma WalkBound(w: nat, t: nat, j: nat)
    requires t <= w < 2 * Pow2(j)
    ensures 4 * Steps(w, t) <= j * j + 15 * j + 8
  {
    hide Low, Inv, Pow2, Steps, StepTo;
    MulMono(0, j, j);
    StepsDone(t);
    var m := w / 2;
    if w == 2 * m + 1 {
      FromAnyOdd(m, t, j);
    } else if m > 0 {
      FromAnyEven(m, t, j);
    }
  }
}
