/**
 The reward of a block: `GetBlockSubsidy` (src/main.cpp), with the parameters of src/chainparams.cpp.
 */
module Subsidy {
  import opened NatMath
  import opened Amounts

  /** 12.5 coins. */
  const FULL: nat := 1250000000

  datatype Params = Params(slowStart: nat, halving: nat) {
    /** `SubsidySlowStartShift`. */
    function Shift(): nat { slowStart / 2 }

    /** The ramp ends before the first halving. */
    ghost predicate Ok() {
      halving > Shift()
    }

    /** The ramp, if there is one, divides the reward evenly. */
    ghost predicate Even() {
      slowStart > 0 ==> slowStart % 2 == 0 && FULL % slowStart == 0
    }
  }

  const MAIN: Params := Params(20000, 840000)
  const REGTEST: Params := Params(0, 150)

  datatype Outcome = Paid(subsidy: nat) | AssertionFailed

  /** What `GetBlockSubsidy` asserts after the ramp. */
  predicate Pays(p: Params, height: nat) {
    height >= p.slowStart ==> height > p.Shift()
  }

  function Subsidy(p: Params, height: nat): nat
    requires p.halving > 0 && Pays(p, height)
  {
    if height < p.slowStart / 2 then FULL / p.slowStart * height
    else if height < p.slowStart then FULL / p.slowStart * (height + 1)
    else
      DivShrinks(height - p.Shift(), p.halving);
      var halvings := (height - p.Shift()) / p.halving;
      if halvings >= 64 then 0 else Reward(halvings)
  }

  /** The assertion fails at exactly one height, and only without a ramp. */
  lemma PaysUnless(p: Params, height: nat)
    ensures Pays(p, height) <==> p.slowStart != 0 || height != 0
  {
  }

  /** The reward after so many halvings. */
  function Reward(q: nat): nat {
    DivShrinks(FULL, Pow(2, q));
    FULL / Pow(2, q)
  }

  /** All rewards of blocks below a height. */
  function Issued(p: Params, height: nat): nat
    requires p.halving > 0
  {
    if height == 0 then 0
    else Issued(p, height - 1) + if Pays(p, height - 1) then Subsidy(p, height - 1) else 0
  }

  // ----- the ramp

  /** 0 + 1 + ... skipping the middle. */
  function Steps(p: Params, height: nat): nat {
    if height == 0 then 0
    else Steps(p, height - 1) + if height - 1 < p.Shift() then height - 1 else height
  }

  lemma {:induction false} StepsSum(p: Params, height: nat)
    requires height <= p.slowStart
    ensures 2 * Steps(p, height) == if height <= p.Shift() then height * (height - 1) else height * (height + 1) - 2 * p.Shift()
    decreases height
  {
    if height > 0 {
      StepsSum(p, height - 1);
      SquareStep(height);
    }
  }

  lemma SquareStep(h: int)
    ensures (h - 1) * (h - 2) + 2 * (h - 1) == h * (h - 1)
    ensures (h - 1) * h + 2 * h == h * (h + 1)
  {
  }

  lemma {:induction false} RampIsSteps(p: Params, height: nat)
    requires p.halving > 0 && 0 < p.slowStart && height <= p.slowStart
    ensures Issued(p, height) == FULL / p.slowStart * Steps(p, height)
    decreases height
  {
    if height > 0 {
      RampIsSteps(p, height - 1);
      MulDistrib(Steps(p, height - 1), if height - 1 < p.Shift() then height - 1 else height, FULL / p.slowStart);
    }
  }

  /**
   The ramp pays in total at most what as many full rewards would as are left after the shift, and exactly
   that when it divides the reward evenly.
   */
  lemma RampTotal(p: Params)
    requires p.halving > 0
    ensures Issued(p, p.slowStart) <= (p.slowStart - p.Shift()) * FULL
    ensures p.Even() ==> Issued(p, p.slowStart) == (p.slowStart - p.Shift()) * FULL
  {
    hide Steps, Issued;
    var n, half := p.slowStart, p.Shift();
    if n == 0 {
      IssuedNone(p);
    } else {
      RampIsSteps(p, n);
      StepsSum(p, n);
      RampArithmetic(n, half, FULL / n, Steps(p, n));
    }
  }

  lemma IssuedNone(p: Params)
    requires p.halving > 0
    ensures Issued(p, 0) == 0
  {
  }

  lemma RampArithmetic(n: nat, half: nat, unit: nat, steps: nat)
    requires n > 0 && half == n / 2 && 2 * steps == n * (n + 1) - 2 * half && unit * n <= FULL
    ensures unit * steps <= (n - half) * FULL
    ensures n == 2 * half && unit * n == FULL ==> unit * steps == (n - half) * FULL
  {
    MulDistrib(n, 1, n);
    var rest := n - half;
    assert 2 * steps == n * n + n - 2 * half;
    if n == 2 * half {
      MulAssoc(n, 2, half);
      assert n * n == 2 * (n * half);
      assert steps == n * half;
    } else {
      assert n + 1 == 2 * rest;
      MulAssoc(n, 2, rest);
      assert 2 * (n * rest) == n * n + n;
    }
    assert steps <= n * rest;
    MulMono(steps, n * rest, unit);
    MulAssoc(unit, n, rest);
    MulMono(unit * n, FULL, rest);
  }

  // ----- the halvings

  lemma RewardHalves(q: nat)
    ensures 2 * Reward(q + 1) <= Reward(q) && Reward(0) == FULL
    ensures q >= 64 ==> Reward(q) == 0
  {
    assert Pow(2, q + 1) == Pow(2, q) * 2 && Pow(2, 0) == 1;
    hide Pow;
    DivDiv(FULL, Pow(2, q), 2);
    if q >= 64 {
      FullFits();
      PowMono(2, 32, q);
      ModSmall(FULL, Pow(2, q));
    }
  }

  lemma FullFits()
    ensures Pow(2, 32) > Pow(2, 31) > FULL >= Pow(2, 30)
  {
    Pow2To15();
    hide Pow;
    PowAdd(2, 15, 15);
    PowNext(2, 30);
    PowNext(2, 31);
  }

  lemma Pow2To15()
    ensures Pow(2, 15) == 32768
  {
    assert Pow(2, 5) == 32;
    PowAdd(2, 5, 5);
    PowAdd(2, 10, 5);
  }

  /** `r` is the full reward shifted right by `k` places: the largest number that many times as large fits into it. */
  predicate Halved(r: nat, k: nat) {
    r * Pow(2, k) <= FULL < (r + 1) * Pow(2, k)
  }

  lemma RewardIsHalved(q: nat)
    ensures Halved(Reward(q), q)
  {
    hide Pow;
    QuotientIs(FULL, Pow(2, q));
  }

  lemma QuotientIs(a: nat, d: nat)
    requires d > 0
    ensures 0 <= a / d && a / d * d <= a < (a / d + 1) * d
  {
    DivShrinks(a, d);
    MulDistrib(a / d, 1, d);
  }

  /** The rewards of one block out of each of the first `q` periods. */
  function Rewards(q: nat): nat {
    if q == 0 then 0 else Rewards(q - 1) + Reward(q - 1)
  }

  lemma {:induction false} RewardsBound(q: nat)
    ensures Rewards(q) + 2 * Reward(q) <= 2 * FULL
    decreases q
  {
    hide Reward;
    if q == 0 {
      RewardHalves(0);
    } else {
      RewardsBound(q - 1);
      RewardHalves(q - 1);
    }
  }

  /** The rewards of `h` blocks without a ramp: whole periods of `n` blocks, and part of one. */
  function WithoutRamp(n: nat, h: nat): nat
    requires n > 0
  {
    DivShrinks(h, n);
    n * Rewards(h / n) + h % n * Reward(h / n)
  }

  lemma WithoutRampStep(n: nat, h: nat)
    requires n > 0
    ensures h / n >= 0 && WithoutRamp(n, h + 1) == WithoutRamp(n, h) + Reward(h / n)
  {
    hide Reward;
    DivShrinks(h, n);
    var q, r := h / n, h % n;
    MulDistrib(r, 1, Reward(q));
    if r + 1 < n {
      DivUnique(h + 1, n, q, r + 1);
    } else {
      MulDistrib(q, 1, n);
      DivUnique(h + 1, n, q + 1, 0);
      NextPeriod(q);
      hide Rewards;
      MulDistrib(Rewards(q), Reward(q), n);
    }
  }

  lemma NextPeriod(q: nat)
    ensures Rewards(q + 1) == Rewards(q) + Reward(q)
  {
  }

  /** What the failing assertion takes from the total: the reward of height 0 when there is no ramp. */
  function Withheld(p: Params, height: nat): nat {
    if p.slowStart == 0 && height > 0 then FULL else 0
  }

  /**
   After the ramp the total is at most what it would be without one, `Shift()` blocks earlier, and exactly
   that, up to what is withheld, when the ramp divides the reward evenly.
   */
  lemma {:induction false} IssuedExactly(p: Params, height: nat)
    requires p.Ok() && height >= p.slowStart
    ensures Issued(p, height) + Withheld(p, height) <= WithoutRamp(p.halving, height - p.Shift())
    ensures p.Even() ==> Issued(p, height) + Withheld(p, height) == WithoutRamp(p.halving, height - p.Shift())
    decreases height
  {
    hide Reward, Subsidy;
    if height == p.slowStart {
      RampTotal(p);
      FirstPeriod(p.halving, height - p.Shift());
    } else {
      hide WithoutRamp;
      IssuedExactly(p, height - 1);
      SubsidyIsReward(p, height - 1);
      WithoutRampStep(p.halving, height - 1 - p.Shift());
    }
  }

  /** Every block of the first period brings the full reward. */
  lemma FirstPeriod(n: nat, h: nat)
    requires n > 0 && h <= n
    ensures WithoutRamp(n, h) == h * FULL
  {
    RewardHalves(0);
    assert Rewards(0) == 0 && Rewards(1) == Reward(0);
    hide Reward, Rewards;
    if h < n { ModSmall(h, n); } else { DivUnique(h, n, 1, 0); }
  }

  lemma SubsidyIsReward(p: Params, height: nat)
    requires p.Ok() && height >= p.slowStart
    ensures height >= p.Shift() && (height - p.Shift()) / p.halving >= 0
    ensures Pays(p, height) ==> Subsidy(p, height) == Reward((height - p.Shift()) / p.halving)
    ensures !Pays(p, height) ==> p.slowStart == 0 == height && Reward((height - p.Shift()) / p.halving) == FULL
  {
    hide Pow;
    DivShrinks(height - p.Shift(), p.halving);
    RewardHalves((height - p.Shift()) / p.halving);
  }

  lemma {:induction false} IssuedGrows(p: Params, a: nat, b: nat)
    requires p.Ok() && a <= b
    ensures Issued(p, a) <= Issued(p, b)
    decreases b
  {
    if a < b { IssuedGrows(p, a, b - 1); }
  }

  lemma WithoutRampBound(n: nat, h: nat)
    requires n > 0
    ensures WithoutRamp(n, h) <= 2 * n * FULL
  {
    hide Reward, Rewards;
    DivShrinks(h, n);
    var q, r := h / n, h % n;
    RewardsBound(q);
    MulMono(r, n, Reward(q));
    MulMono(Rewards(q) + 2 * Reward(q), 2 * FULL, n);
    MulDistrib(Rewards(q), 2 * Reward(q), n);
    MulMono(0, Reward(q), n);
  }

  /** Never more than two full rewards for every block of a period, with or without a ramp. */
  lemma IssuanceBound(p: Params, height: nat)
    requires p.Ok()
    ensures Issued(p, height) <= 2 * p.halving * FULL
  {
    hide WithoutRamp, Issued;
    var top := if height < p.slowStart then p.slowStart else height;
    IssuedGrows(p, height, top);
    IssuedExactly(p, top);
    WithoutRampBound(p.halving, top - p.Shift());
  }

  /** On the main network the supply never exceeds the largest valid amount. */
  lemma SupplyLimit(height: nat)
    ensures MAIN.Ok() && Issued(MAIN, height) <= MAX_MONEY
    ensures Issued(MAIN, 20000) == 10000 * FULL
  {
    assert FULL % 20000 == 0;
    IssuanceBound(MAIN, height);
    RampTotal(MAIN);
  }

  // ----- what a block pays

  /** How many steps up the ramp a block is; the middle one is skipped. */
  function StepsUp(p: Params, height: nat): nat {
    if height < p.Shift() then height else height + 1
  }

  /** What a block at this height is paid: on the ramp its share of the full reward, as nearly as whole steps allow, and
      after it the full reward halved once for every period. */
  ghost predicate IsReward(p: Params, height: nat, r: nat)
    requires p.halving > 0
  {
    if height < p.slowStart then
      var steps := StepsUp(p, height);
      && steps * FULL - steps * p.slowStart <= r * p.slowStart <= steps * FULL
      && (FULL % p.slowStart == 0 ==> r * p.slowStart == steps * FULL)
    else
      DivShrinks(height - p.Shift(), p.halving);
      var k := (height - p.Shift()) / p.halving;
      if k < 64 then Halved(r, k) else r == 0
  }

  lemma SubsidyIs(p: Params, height: nat)
    requires p.halving > 0 && Pays(p, height)
    ensures IsReward(p, height, Subsidy(p, height))
  {
    hide Pow, Halved;
    if height < p.slowStart {
      RampShare(FULL / p.slowStart, p.slowStart, StepsUp(p, height));
    } else {
      DivShrinks(height - p.Shift(), p.halving);
      RewardIsHalved((height - p.Shift()) / p.halving);
    }
  }

  lemma RampShare(unit: nat, n: nat, steps: nat)
    requires n > 0 && unit == FULL / n
    ensures steps * FULL - steps * n <= unit * steps * n <= steps * FULL
    ensures FULL % n == 0 ==> unit * steps * n == steps * FULL
  {
    QuotientIs(FULL, n);
    MulAssoc(steps, unit, n);
    MulMono(unit * n, FULL, steps);
    MulMono(FULL, unit * n + n, steps);
    MulDistrib(unit * n, n, steps);
  }

  // ----- the last reward

  /** A number and all that is left of it by halving. */
  function Halves(n: nat): nat {
    if n == 0 then 0 else n + Halves(n / 2)
  }

  lemma HalvesStep(n: nat)
    ensures Halves(n) == n + Halves(n / 2)
  {
  }

  lemma HalvesOfFull()
    ensures Halves(1250000000) == 2499999989 && Halves(0) == 0
  {
    HalvesOfRest();
    hide Halves;
    HalvesStep(1250000000); HalvesStep(625000000); HalvesStep(312500000); HalvesStep(156250000);
    HalvesStep(78125000); HalvesStep(39062500); HalvesStep(19531250); HalvesStep(9765625);
    HalvesStep(4882812); HalvesStep(2441406); HalvesStep(1220703); HalvesStep(610351);
    HalvesStep(305175); HalvesStep(152587); HalvesStep(76293);
  }

  lemma HalvesOfRest()
    ensures Halves(38146) == 76287 && Halves(0) == 0
  {
    assert Halves(0) == 0;
    hide Halves;
    HalvesStep(38146); HalvesStep(19073); HalvesStep(9536); HalvesStep(4768);
    HalvesStep(2384); HalvesStep(1192); HalvesStep(596); HalvesStep(298);
    HalvesStep(149); HalvesStep(74); HalvesStep(37); HalvesStep(18);
    HalvesStep(9); HalvesStep(4); HalvesStep(2); HalvesStep(1);
  }

  lemma {:induction false} RewardsAreHalves(q: nat)
    ensures Rewards(q) + Halves(Reward(q)) == Halves(FULL)
    decreases q
  {
    hide Reward, Halves;
    if q == 0 {
      RewardHalves(0);
    } else {
      RewardsAreHalves(q - 1);
      RewardIsHalf(q - 1);
      HalvesStep(Reward(q - 1));
    }
  }

  lemma RewardIsHalf(q: nat)
    ensures Reward(q + 1) == Reward(q) / 2
  {
    assert Pow(2, q + 1) == Pow(2, q) * 2;
    hide Pow;
    DivDiv(FULL, Pow(2, q), 2);
  }

  lemma RewardEnds(q: nat)
    ensures Reward(q) == 0 <==> q >= 31
  {
    hide Reward, Pow;
    FullFits();
    RewardIsHalved(q);
    if q >= 31 {
      PowMono(2, 31, q);
      if Reward(q) >= 1 { MulMono(1, Reward(q), Pow(2, q)); }
    } else {
      PowMono(2, q, 30);
    }
  }

  /** The last block of the main network that is paid, and what all of them are paid together. */
  lemma TotalSupply(height: nat)
    ensures height >= 26_050_000 ==> Issued(MAIN, height) == 20_999_999_90760000
    ensures height < 26_050_000 ==> Issued(MAIN, height) < 20_999_999_90760000
  {
    hide Issued, Reward, Rewards, Halves, WithoutRamp;
    if height >= 26_050_000 {
      AllIssued(height);
    } else {
      var last := 26_049_999;
      IssuedGrows(MAIN, height, last);
      AllIssued(last + 1);
      LastPaid();
    }
  }

  lemma AllIssued(height: nat)
    requires height >= 26_050_000
    ensures Issued(MAIN, height) == 20_999_999_90760000
  {
    hide Issued, Reward, Rewards;
    assert FULL % 20000 == 0;
    IssuedExactly(MAIN, height);
    var h := height - 10000;
    var q := h / 840000;
    assert q >= 31;
    RewardEnds(q);
    RewardsAreHalves(q);
    HalvesOfFull();
    hide Halves;
  }

  lemma LastPaid()
    ensures Issued(MAIN, 26_050_000) > Issued(MAIN, 26_049_999)
  {
    hide Issued, Reward;
    SubsidyIsReward(MAIN, 26_049_999);
    RewardEnds((26_049_999 - 10000) / 840000);
    IssuedNext(MAIN, 26_049_999);
  }

  lemma IssuedNext(p: Params, height: nat)
    requires p.halving > 0 && Pays(p, height)
    ensures Issued(p, height + 1) == Issued(p, height) + Subsidy(p, height)
  {
  }

  /**
   `GetBlockSubsidy`.  Its assertion fails exactly at height 0 without a ramp, as on the regression test
   network.
   */
  method GetBlockSubsidy(p: Params, height: nat) returns (r: Outcome)
    requires p.halving > 0
    ensures r.AssertionFailed? <==> p.slowStart == 0 && height == 0
    ensures r.Paid? ==> r.subsidy == Subsidy(p, height) <= FULL && IsReward(p, height, r.subsidy)
  {
    hide Pow, IsReward;
    PaysUnless(p, height);
    if Pays(p, height) { SubsidyIs(p, height); }
    var subsidy := FULL;
    if height < p.slowStart / 2 {
      subsidy := subsidy / p.slowStart;
      MulMono(height, p.slowStart, subsidy);
      subsidy := subsidy * height;
      return Paid(subsidy);
    } else if height < p.slowStart {
      subsidy := subsidy / p.slowStart;
      MulMono(height + 1, p.slowStart, subsidy);
      subsidy := subsidy * (height + 1);
      return Paid(subsidy);
    }
    if !(height > p.Shift()) {
      return AssertionFailed;
    }
    DivShrinks(height - p.Shift(), p.halving);
    var halvings := (height - p.Shift()) / p.halving;
    // Force block reward to zero when right shift is undefined.
    if halvings >= 64 {
      return Paid(0);
    }
    DivShrinks(FULL, Pow(2, halvings));
    subsidy := subsidy / Pow(2, halvings);
    return Paid(subsidy);
  }

  /** Asking the regression test network for the reward of its first block. */
  method RegtestGenesis() returns (r: Outcome)
    ensures r == AssertionFailed
  {
    r := GetBlockSubsidy(REGTEST, 0);
  }
}
