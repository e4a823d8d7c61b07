/**
 The work of a block and the retargeting rule (src/pow.cpp), median time past (src/chain.h) and the rule
 that ties headers to both (ContextualCheckBlockHeader, src/main.cpp).  A block index entry stands for the
 headers from the genesis block up to it, so following pprev drops the last of them.
 */
module ProofOfWork {
  import opened NatMath
  import opened Limbs
  import opened Arith256
  import opened Compact

  /** The part of Consensus::Params that retargeting uses. */
  datatype Params = Params(powLimit: nat, window: nat, adjustDown: nat, adjustUp: nat, spacing: nat) {
    function Timespan(): nat { window * spacing }
    function MinTimespan(): int { Timespan() * (100 - adjustUp) / 100 }
    function MaxTimespan(): nat { Timespan() * (100 + adjustDown) / 100 }

    /** What the networks' parameters satisfy; chainparams.cpp asserts the first of it. */
    ghost predicate Ok() {
      && window >= 1 && spacing >= 1 && adjustUp <= 100
      && window * powLimit < MODULUS && MaxTimespan() <= window * Timespan()
      && MaxTimespan() < BASE && Timespan() < BASE && window < BASE
    }
  }

  // ----- the work of a block

  /** The bits of a header denote a positive target that fits. */
  ghost predicate ValidBits(c: Word) {
    0 < Decoded(c) < MODULUS && !Sign(c)
  }

  /** `GetBlockProof`: exactly the quotient that does not fit into 256 bits before dividing, and so at
      least one. */
  method GetBlockProof(nBits: Word) returns (work: Uint)
    ensures work.Valid() && fresh(work) && work.V() == if ValidBits(nBits) then MODULUS / (Decoded(nBits) + 1) else 0
    ensures ValidBits(nBits) ==> work.V() >= 1
  {
    hide Pow, Value, Decoded;
    var target, negative, overflow := SetCompact(nBits);
    var zero := new Uint();
    var c := target.CompareTo(zero);
    if !overflow { ModSmall(Decoded(nBits), MODULUS); }
    if negative || overflow || c == 0 {
      return zero;
    }
    ghost var t := target.V();
    TargetBelowTop(nBits);
    work := target.Not();
    var one := new Uint.From(1);
    target.Add(one);
    ModSmall(t + 1, MODULUS);
    var ok := work.Div(target);
    ProofQuotient(t);
    work.Add(one);
  }

  /** A target in the compact format is never the largest 256-bit number. */
  lemma TargetBelowTop(c: Word)
    requires Decoded(c) < MODULUS
    ensures Decoded(c) + 1 < MODULUS
  {
    hide Pow;
    ModulusIs();
    PowNext(256, 31);
    if Size(c) <= 3 {
      DivShrinks(Mantissa(c), Pow(256, 3 - Size(c)));
      PowMono(256, 3, 31);
      SmallPowers();
    } else {
      PowNext(256, Size(c) - 4);
      MultipleOf256(Mantissa(c), Pow(256, Size(c) - 4), Pow(256, 31));
    }
  }

  lemma MultipleOf256(m: nat, p: nat, q: nat)
    requires m * (256 * p) < 256 * q
    ensures m * (256 * p) + 1 < 256 * q
  {
    MulAssoc(m, 256, p);
    MulAssoc(256, m, p);
  }

  /** (2^256 - 1 - t) / (t + 1) + 1 is 2^256 / (t + 1). */
  lemma ProofQuotient(t: nat)
    requires 0 < t && t + 1 < MODULUS
    ensures var q := (MODULUS - 1 - t) / (t + 1);
            q + 1 == MODULUS / (t + 1) && (q + 1) % MODULUS == q + 1 && q >= 0
  {
    hide Pow;
    var q := (MODULUS - 1 - t) / (t + 1);
    DivAddMultiple(MODULUS - 1 - t, 1, t + 1);
    DivShrinks(MODULUS - 1 - t, t + 1);
    ModSmall(q + 1, MODULUS);
  }

  // ----- median time past

  ghost predicate Ascending(s: seq<int>) {
    forall i, j :: 0 <= i <= j < |s| ==> s[i] <= s[j]
  }

  /** Sorting, as by std::sort. */
  function Sorted(s: seq<int>): (r: seq<int>)
    ensures |r| == |s| && Ascending(r)
  {
    if s == [] then [] else Inserted(Sorted(s[..|s| - 1]), s[|s| - 1])
  }

  function Inserted(s: seq<int>, x: int): (r: seq<int>)
    requires Ascending(s)
    ensures |r| == |s| + 1 && Ascending(r)
    ensures r[|s|] == if s == [] || s[|s| - 1] <= x then x else s[|s| - 1]
  {
    if s == [] || s[|s| - 1] <= x then s + [x] else Inserted(s[..|s| - 1], x) + [s[|s| - 1]]
  }

  lemma {:induction false} InsertedAdds(s: seq<int>, x: int)
    requires Ascending(s)
    ensures multiset(Inserted(s, x)) == multiset(s) + multiset{x}
    decreases |s|
  {
    if s != [] && s[|s| - 1] > x {
      var last := |s| - 1;
      InsertedAdds(s[..last], x);
      assert s == s[..last] + [s[last]];
    }
  }

  lemma {:induction false} SortedPermutes(s: seq<int>)
    ensures multiset(Sorted(s)) == multiset(s)
    decreases |s|
  {
    if s != [] {
      var last := |s| - 1;
      SortedPermutes(s[..last]);
      InsertedAdds(Sorted(s[..last]), s[last]);
      assert s == s[..last] + [s[last]];
    }
  }

  /** The middle of a list, as `pbegin[(pend - pbegin) / 2]` after sorting. */
  function Median(s: seq<int>): int
    requires s != []
  {
    Sorted(s)[|s| / 2]
  }

  function CountBelow(s: seq<int>, m: int): nat {
    if s == [] then 0 else CountBelow(s[..|s| - 1], m) + if s[|s| - 1] < m then 1 else 0
  }

  lemma {:induction false} CountBelowTakeAway(s: seq<int>, i: nat, m: int)
    requires i < |s|
    ensures CountBelow(s, m) == CountBelow(s[..i] + s[i + 1..], m) + if s[i] < m then 1 else 0
    decreases |s|
  {
    var n := |s| - 1;
    if i == n {
      assert s[..i] + s[i + 1..] == s[..n];
    } else {
      CountBelowTakeAway(s[..n], i, m);
      TakeAwayInit(s, i);
    }
  }

  lemma TakeAwayInit(s: seq<int>, i: nat)
    requires i < |s| - 1
    ensures var n, t := |s| - 1, s[..i] + s[i + 1..];
            t[n - 1] == s[n] && t[..n - 1] == s[..n][..i] + s[..n][i + 1..]
  {
    var n, t := |s| - 1, s[..i] + s[i + 1..];
    var u := s[..n][..i] + s[..n][i + 1..];
    assert forall k :: 0 <= k < n - 1 ==> t[k] == u[k];
    assert t[..n - 1] == u;
  }

  lemma WithoutOne(s: seq<int>, i: nat)
    requires i < |s|
    ensures multiset(s[..i] + s[i + 1..]) == multiset(s) - multiset{s[i]}
  {
    assert s == s[..i] + [s[i]] + s[i + 1..];
  }

  /** Counting does not depend on the order. */
  lemma {:induction false} CountBelowOrder(s: seq<int>, t: seq<int>, m: int)
    requires multiset(s) == multiset(t)
    ensures CountBelow(s, m) == CountBelow(t, m)
    decreases |s|
  {
    if s == [] {
      assert |t| == |multiset(t)| == 0;
    } else {
      var n := |s| - 1;
      assert s[n] in multiset(s);
      var i :| 0 <= i < |t| && t[i] == s[n];
      CountBelowTakeAway(t, i, m);
      WithoutOne(s, n);
      WithoutOne(t, i);
      assert s[..n] + s[n + 1..] == s[..n];
      CountBelowOrder(s[..n], t[..i] + t[i + 1..], m);
    }
  }

  lemma {:induction false} CountBelowAscending(s: seq<int>, m: int, k: nat)
    requires Ascending(s) && k < |s|
    ensures s[k] >= m <==> CountBelow(s, m) <= k
    decreases |s|
  {
    var n := |s| - 1;
    if k < n {
      CountBelowAscending(s[..n], m, k);
    } else {
      CountBelowBound(s[..n], m);
      if s[n] < m && n > 0 { CountBelowAscending(s[..n], m, n - 1); }
    }
  }

  lemma {:induction false} CountBelowBound(s: seq<int>, m: int)
    ensures CountBelow(s, m) <= |s|
    decreases |s|
  {
    if s != [] {
      CountBelowBound(s[..|s| - 1], m);
    }
  }

  /** The median is at least `m` exactly when at most half of the list is below `m`. */
  lemma MedianAtLeast(s: seq<int>, m: int)
    requires s != []
    ensures Median(s) >= m <==> CountBelow(s, m) <= |s| / 2
  {
    CountBelowAscending(Sorted(s), m, |s| / 2);
    SortedPermutes(s);
    CountBelowOrder(s, Sorted(s), m);
  }

  datatype Header = Header(time: nat, bits: Word)

  const MEDIAN_TIME_SPAN: nat := 11

  function Recent(c: seq<Header>): seq<Header> {
    if |c| <= MEDIAN_TIME_SPAN then c else c[|c| - MEDIAN_TIME_SPAN..]
  }

  function Times(c: seq<Header>): (r: seq<int>)
    ensures |r| == |c| && forall i :: 0 <= i < |c| ==> r[i] == c[i].time
  {
    seq(|c|, i requires 0 <= i < |c| => c[i].time)
  }

  function MedianTimePast(c: seq<Header>): int
    requires c != []
  {
    Median(Times(Recent(c)))
  }

  /** The first of the headers whose times count. */
  function WindowStart(c: seq<Header>): nat {
    if |c| <= 11 then 0 else |c| - 11
  }

  /** At most half of the last eleven headers are earlier than `m`, and more than half are not later. */
  ghost predicate IsMiddle(c: seq<Header>, m: int) {
    var lo := WindowStart(c);
    |set i | lo <= i < |c| && c[i].time < m| <= (|c| - lo) / 2 < |set i | lo <= i < |c| && c[i].time <= m|
  }

  ghost function Earlier(c: seq<Header>, lo: nat, hi: nat, m: int): set<int>
    requires lo <= hi <= |c|
  {
    set i | lo <= i < hi && c[i].time < m
  }

  lemma EarlierStep(c: seq<Header>, lo: nat, hi: nat, m: int)
    requires lo < hi <= |c|
    ensures |Earlier(c, lo, hi, m)| == |Earlier(c, lo, hi - 1, m)| + if c[hi - 1].time < m then 1 else 0
  {
    var before, now := Earlier(c, lo, hi - 1, m), Earlier(c, lo, hi, m);
    if c[hi - 1].time < m {
      SameMembers(now, before + {hi - 1});
    } else {
      SameMembers(now, before);
    }
  }

  lemma SameMembers(a: set<int>, b: set<int>)
    requires forall i :: i in a <==> i in b
    ensures a == b
  {
    assert forall i | i in a :: i in b;
    assert forall i | i in b :: i in a;
  }

  lemma {:induction false} CountWindow(c: seq<Header>, lo: nat, hi: nat, m: int)
    requires lo <= hi <= |c|
    ensures CountBelow(Times(c[lo..hi]), m) == |Earlier(c, lo, hi, m)|
    decreases hi
  {
    hide Earlier;
    if lo < hi {
      CountWindow(c, lo, hi - 1, m);
      EarlierStep(c, lo, hi, m);
      WindowStep(c, lo, hi);
    } else {
      NoneEarlier(c, lo, m);
    }
  }

  lemma WindowStep(c: seq<Header>, lo: nat, hi: nat)
    requires lo < hi <= |c|
    ensures var w := Times(c[lo..hi]); w != [] && w[..|w| - 1] == Times(c[lo..hi - 1]) && w[|w| - 1] == c[hi - 1].time
  {
    var w := Times(c[lo..hi]);
    assert w[..|w| - 1] == Times(c[lo..hi - 1]);
  }

  lemma NoneEarlier(c: seq<Header>, lo: nat, m: int)
    requires lo <= |c|
    ensures Earlier(c, lo, lo, m) == {}
  {
    SameMembers(Earlier(c, lo, lo, m), {});
  }

  /** The median time past is the middle of the last eleven times. */
  lemma MedianIsMiddle(c: seq<Header>)
    requires c != []
    ensures IsMiddle(c, MedianTimePast(c))
  {
    hide Median, CountBelow;
    var m, lo := MedianTimePast(c), WindowStart(c);
    assert Recent(c) == c[lo..|c|];
    MedianAtLeast(Times(Recent(c)), m);
    MedianAtLeast(Times(Recent(c)), m + 1);
    CountWindow(c, lo, |c|, m);
    CountWindow(c, lo, |c|, m + 1);
    SameMembers(Earlier(c, lo, |c|, m), set i | lo <= i < |c| && c[i].time < m);
    SameMembers(Earlier(c, lo, |c|, m + 1), set i | lo <= i < |c| && c[i].time <= m);
  }

  /** `GetMedianTimePast`. */
  method GetMedianTimePast(c: seq<Header>) returns (median: int)
    requires c != []
    ensures median == MedianTimePast(c) && IsMiddle(c, median)
  {
    MedianIsMiddle(c);
    hide IsMiddle;
    var times: seq<int> := [];
    var walk := |c|;
    var i := 0;
    while i < MEDIAN_TIME_SPAN && walk > 0
      invariant 0 <= walk == |c| - i && i <= MEDIAN_TIME_SPAN && times == Times(c[walk..])
    {
      walk := walk - 1;
      times := [c[walk].time] + times;
      i := i + 1;
    }
    assert c[walk..] == Recent(c);
    times := Sorted(times);
    median := times[|times| / 2];
  }

  /** A header later than the median of those before it does not make the median earlier. */
  lemma MedianNeverDecreases(c: seq<Header>, h: Header)
    requires c != [] && h.time > MedianTimePast(c)
    ensures MedianTimePast(c + [h]) >= MedianTimePast(c)
  {
    hide Median;
    var m, w, w' := MedianTimePast(c), Times(Recent(c)), Times(Recent(c + [h]));
    MedianAtLeast(w, m);
    MedianAtLeast(w', m);
    var kept := w'[..|w'| - 1];
    if |c| < MEDIAN_TIME_SPAN {
      assert kept == w;
    } else {
      CountBelowTakeAway(w, 0, m);
      assert kept == w[..0] + w[1..];
    }
  }

  // ----- retargeting

  /** Division that rounds toward zero. */
  function TruncDiv(x: int, d: nat): int
    requires d > 0
  {
    if x >= 0 then x / d else -((-x) / d)
  }

  /** The time span after damping and limiting. */
  function Damped(p: Params, actual: int): int {
    var span := p.Timespan() + TruncDiv(actual - p.Timespan(), 4);
    var atLeast := if span < p.MinTimespan() then p.MinTimespan() else span;
    if atLeast > p.MaxTimespan() then p.MaxTimespan() else atLeast
  }

  lemma DampedBounds(p: Params, actual: int)
    requires p.Ok()
    ensures 0 <= p.MinTimespan() <= Damped(p, actual) <= p.MaxTimespan() < BASE && p.Timespan() >= 1
  {
    MulMono(1, p.window, p.spacing);
    MulMono(100 - p.adjustUp, 100 + p.adjustDown, p.Timespan());
    MulMono(0, 100 - p.adjustUp, p.Timespan());
  }

  /** `q` is a quarter of `d`, rounded toward zero. */
  predicate Quarter(d: int, q: int) {
    if d >= 0 then 0 <= 4 * q <= d < 4 * q + 4 else 4 * q - 4 < d <= 4 * q <= 0
  }

  /** `s` is the value of `x` that lies between the limits and is nearest to it. */
  predicate Nearest(lo: int, hi: int, x: int, s: int) {
    lo <= s <= hi && (lo <= x <= hi ==> s == x) && (x < lo ==> s == lo) && (x > hi ==> s == hi)
  }

  /** The time span `s` that is used deviates from the intended one by a quarter of what the measured one does, between
      the limits. */
  predicate DampedTo(p: Params, actual: int, q: int, s: int) {
    Quarter(actual - p.Timespan(), q) && Nearest(p.MinTimespan(), p.MaxTimespan(), p.Timespan() + q, s)
  }

  lemma DampedIs(p: Params, actual: int) returns (q: int)
    requires p.Ok()
    ensures DampedTo(p, actual, q, Damped(p, actual))
  {
    DampedBounds(p, actual);
    hide Params.Ok, Params.MinTimespan, Params.MaxTimespan, Params.Timespan;
    q := TruncDiv(actual - p.Timespan(), 4);
  }

  /** `bits` is the compact form of the average target times a time span `s` over the intended one, or of the limit. */
  ghost predicate Retargets(p: Params, avg: nat, s: int, bits: nat)
    requires p.Timespan() > 0
  {
    var new' := avg / p.Timespan() * s % MODULUS;
    bits == CompactOf(if new' > p.powLimit then p.powLimit else new')
  }

  ghost predicate RetargetsTo(p: Params, avg: nat, actual: int, bits: nat)
    requires p.Timespan() > 0
  {
    exists q, s :: DampedTo(p, actual, q, s) && Retargets(p, avg, s, bits)
  }

  lemma CalcNextIs(p: Params, avg: nat, actual: int)
    requires p.Ok()
    ensures p.Timespan() > 0 && RetargetsTo(p, avg, actual, CalcNext(p, avg, actual))
  {
    DampedBounds(p, actual);
    var q := DampedIs(p, actual);
    hide Params.Ok, Params.MinTimespan, Params.MaxTimespan, Params.Timespan, CompactOf, Damped, DampedTo, Pow;
    ModSmall(Damped(p, actual), BASE);
    assert Retargets(p, avg, Damped(p, actual), CalcNext(p, avg, actual));
  }

  /** The new target before the limit, in 256-bit arithmetic. */
  function NewTarget(p: Params, avg: nat, actual: int): nat
    requires p.Timespan() > 0
  {
    avg / p.Timespan() * (Damped(p, actual) % BASE) % MODULUS
  }

  function CalcNext(p: Params, avg: nat, actual: int): nat
    requires p.Timespan() > 0
  {
    var new' := NewTarget(p, avg, actual);
    CompactOf(if new' > p.powLimit then p.powLimit else new')
  }

  lemma LimitFits(p: Params)
    requires p.Ok()
    ensures p.powLimit < MODULUS
  {
    MulMono(1, p.window, p.powLimit);
  }

  /** `CalculateNextWorkRequired`. */
  method CalculateNextWorkRequired(p: Params, avg: Uint, last: int, first: int) returns (bits: Word)
    requires p.Ok() && avg.Valid()
    ensures p.Timespan() > 0 && bits == CalcNext(p, avg.V(), last - first)
    ensures RetargetsTo(p, avg.V(), last - first, bits)
  {
    hide Pow, Value, CompactOf, RetargetsTo;
    CalcNextIs(p, avg.V(), last - first);
    DampedBounds(p, last - first);
    LimitFits(p);
    // Limit adjustment step
    var actual := last - first;
    actual := p.Timespan() + TruncDiv(actual - p.Timespan(), 4);
    if actual < p.MinTimespan() {
      actual := p.MinTimespan();
    }
    if actual > p.MaxTimespan() {
      actual := p.MaxTimespan();
    }
    // Retarget
    var new' := new Uint.Copy(avg);
    var timespan := new Uint.From(p.Timespan());
    var ok := new'.Div(timespan);
    ModSmall(actual, BASE);
    new'.Mul32(actual);
    bits := Limited(p, new');
  }

  /** The target, or the limit if that is less. */
  method Limited(p: Params, u: Uint) returns (bits: Word)
    requires u.Valid() && p.powLimit < MODULUS
    ensures bits == CompactOf(if u.V() > p.powLimit then p.powLimit else u.V())
  {
    hide Pow, Value, CompactOf;
    var limit := FromNumber(p.powLimit);
    var c := u.CompareTo(limit);
    if c > 0 {
      bits := GetCompact(limit, false);
    } else {
      bits := GetCompact(u, false);
    }
  }

  /** The limbs of a parameter. */
  method FromNumber(n: nat) returns (u: Uint)
    requires n < MODULUS
    ensures u.Valid() && fresh(u) && fresh(u.pn) && u.V() == n
  {
    hide Value, Pow;
    u := new Uint();
    var rest: nat := n;
    ValueNone();
    for i := 0 to WIDTH
      invariant n == Value(u.pn[..i]) + rest * Pow(BASE, i) && rest < Pow(BASE, WIDTH - i)
    {
      ghost var low := u.pn[..i];
      u.pn[i] := rest % BASE;
      assert u.pn[..i + 1] == low + [u.pn[i]];
      ValueAppend(low, u.pn[i]);
      PowNext(BASE, i);
      PowNext(BASE, WIDTH - i - 1);
      Regroup(rest / BASE, BASE, rest % BASE, Pow(BASE, i));
      QuotientBounds(rest, BASE, Pow(BASE, WIDTH - i - 1));
      rest := rest / BASE;
    }
    PowOne(BASE);
    assert u.pn[..WIDTH] == u.pn[..];
  }

  function Target(bits: Word): nat {
    Decoded(bits) % MODULUS
  }

  /** The targets of the last `k` headers together. */
  function TargetSum(c: seq<Header>, k: nat): nat
    requires k <= |c|
  {
    if k == 0 then 0 else TargetSum(c, k - 1) + Target(c[|c| - k].bits)
  }

  /** What the next header after `c` must have in its bits. */
  function NextWork(p: Params, c: seq<Header>): nat
    requires p.window > 0 && p.Timespan() > 0
  {
    if |c| <= p.window then CompactOf(p.powLimit)
    else CalcNext(p, WindowAverage(p, c), MeasuredSpan(p, c))
  }

  /** The average over the window in 256-bit arithmetic. */
  function WindowAverage(p: Params, c: seq<Header>): nat
    requires 0 < p.window < |c|
  {
    TargetSum(c, p.window) % MODULUS / p.window
  }

  /** The time the averaging window took, from median to median. */
  function MeasuredSpan(p: Params, c: seq<Header>): int
    requires 0 < p.window < |c|
  {
    MedianTimePast(c) - MedianTimePast(c[..|c| - p.window])
  }

  /** `GetNextWorkRequired`. */
  method GetNextWorkRequired(p: Params, c: seq<Header>) returns (bits: Word)
    requires p.Ok()
    ensures p.Timespan() > 0 && bits == NextWork(p, c)
  {
    hide Pow, Value, CompactOf, Decoded, MedianTimePast, CalcNext;
    DampedBounds(p, 0);
    LimitFits(p);
    var limit := FromNumber(p.powLimit);
    var nProofOfWorkLimit := GetCompact(limit, false);
    // Genesis block
    if c == [] {
      return nProofOfWorkLimit;
    }
    // Find the first block in the averaging interval
    var first := |c|;
    var total := new Uint();
    var i := 0;
    ModSmall(0, MODULUS);
    while first > 0 && i < p.window
      invariant 0 <= i <= p.window && first == |c| - i >= 0 && total.Valid() && fresh(total.pn)
      invariant total.V() == TargetSum(c, i) % MODULUS
    {
      var target, negative, overflow := SetCompact(c[first - 1].bits);
      ModAdd(TargetSum(c, i), target.V(), MODULUS);
      total.Add(target);
      first := first - 1;
      i := i + 1;
    }
    // Check we have enough blocks
    if first == 0 {
      return nProofOfWorkLimit;
    }
    var window := new Uint.From(p.window);
    var ok := total.Div(window);
    var lastTime := GetMedianTimePast(c);
    var firstTime := GetMedianTimePast(c[..first]);
    bits := CalculateNextWorkRequired(p, total, lastTime, firstTime);
  }

  /** A chain of headers each of which passed the checks on its bits and its time. */
  ghost predicate Accepted(p: Params, c: seq<Header>)
    requires p.Ok()
  {
    DampedBounds(p, 0);
    && c != [] && Decoded(c[0].bits) <= p.powLimit
    && forall i :: 0 < i < |c| ==> FollowsRules(p, c[..i], c[i])
  }

  ghost predicate FollowsRules(p: Params, c: seq<Header>, h: Header)
    requires p.Ok()
  {
    DampedBounds(p, 0);
    c != [] && h.bits == NextWork(p, c) && h.time > MedianTimePast(c)
  }

  /** The target never exceeds the limit, whatever comes out of the calculation. */
  lemma NextWithinLimit(p: Params, c: seq<Header>)
    requires p.Ok() && p.Timespan() > 0
    ensures NextWork(p, c) < 0x1_0000_0000 && Decoded(NextWork(p, c)) <= p.powLimit
  {
    assert p.window > 0;
    hide CompactOf, Decoded, CalcNext, MeasuredSpan, TargetSum, WindowAverage, Pow, Params.Ok, Params.Timespan;
    if |c| > p.window {
      CalcWithinLimit(p, WindowAverage(p, c), MeasuredSpan(p, c));
    } else {
      LimitFits(p);
      DecodeInvertsEncode(p.powLimit);
    }
  }

  lemma CalcWithinLimit(p: Params, avg: nat, actual: int)
    requires p.Ok() && p.Timespan() > 0
    ensures CalcNext(p, avg, actual) < 0x1_0000_0000 && Decoded(CalcNext(p, avg, actual)) <= p.powLimit
  {
    hide CompactOf, Decoded, NewTarget, Pow;
    LimitFits(p);
    var t := NewTarget(p, avg, actual);
    DecodeInvertsEncode(if t > p.powLimit then p.powLimit else t);
  }

  lemma EveryTargetWithinLimit(p: Params, c: seq<Header>, i: nat)
    requires p.Ok() && Accepted(p, c) && i < |c|
    ensures Decoded(c[i].bits) <= p.powLimit < MODULUS && Target(c[i].bits) == Decoded(c[i].bits)
  {
    hide NextWork, Decoded, Pow;
    LimitFits(p);
    DampedBounds(p, 0);
    if i > 0 {
      assert FollowsRules(p, c[..i], c[i]);
      NextWithinLimit(p, c[..i]);
    }
    ModSmall(Decoded(c[i].bits), MODULUS);
  }

  lemma {:induction false} SumWithinLimit(p: Params, c: seq<Header>, k: nat)
    requires p.Ok() && Accepted(p, c) && k <= |c|
    ensures TargetSum(c, k) <= k * p.powLimit
    decreases k
  {
    hide Target, Accepted;
    if k > 0 {
      SumWithinLimit(p, c, k - 1);
      EveryTargetWithinLimit(p, c, |c| - k);
      MulDistrib(k - 1, 1, p.powLimit);
    }
  }

  lemma {:induction false} MediansGrow(p: Params, c: seq<Header>, i: nat, j: nat)
    requires p.Ok() && Accepted(p, c) && 0 < i <= j <= |c|
    ensures MedianTimePast(c[..i]) <= MedianTimePast(c[..j])
    decreases j
  {
    hide MedianTimePast, NextWork;
    if i < j {
      MediansGrow(p, c, i, j - 1);
      assert FollowsRules(p, c[..j - 1], c[j - 1]);
      MedianNeverDecreases(c[..j - 1], c[j - 1]);
      assert c[..j - 1] + [c[j - 1]] == c[..j];
    }
  }

  /** The product with the time span fits, and lies between the two multiples of the average. */
  lemma ProductFitsLimit(p: Params, avg: nat, actual: int)
    requires p.Ok() && avg <= p.powLimit
    ensures p.Timespan() > 0
    ensures var unit := avg / p.Timespan();
            && unit * Damped(p, actual) < MODULUS && NewTarget(p, avg, actual) == unit * Damped(p, actual)
            && unit * p.MinTimespan() <= NewTarget(p, avg, actual) <= unit * p.MaxTimespan()
  {
    DampedBounds(p, actual);
    assert p.MaxTimespan() <= p.window * p.Timespan() && p.window * p.powLimit < MODULUS;
    hide Pow, Damped, Params.Ok, Params.MinTimespan, Params.MaxTimespan, Params.Timespan;
    var t, span := p.Timespan(), Damped(p, actual);
    DivShrinks(avg, t);
    var unit := avg / t;
    ModSmall(span, BASE);
    Between(unit, p.MinTimespan(), span, p.MaxTimespan(), p.window * t);
    UnitBound(avg, t, p.window);
    MulMono(avg, p.powLimit, p.window);
    ModSmall(unit * span, MODULUS);
  }

  lemma Between(u: nat, a: int, b: int, c: int, d: int)
    requires 0 <= a <= b <= c <= d
    ensures 0 <= u * a <= u * b <= u * c <= u * d
  {
    MulMono(0, a, u);
    MulMono(a, b, u);
    MulMono(b, c, u);
    MulMono(c, d, u);
  }

  lemma UnitBound(avg: nat, t: nat, w: nat)
    requires t > 0
    ensures avg / t * (w * t) <= w * avg
  {
    var u := avg / t;
    assert u * t <= avg;
    MulAssoc(u, w, t);
    MulAssoc(w, u, t);
    MulMono(u * t, avg, w);
  }

  /** The targets of the last `k` headers, oldest first. */
  function Targets(c: seq<Header>, k: nat): (r: seq<nat>)
    requires k <= |c|
    ensures |r| == k && forall i :: 0 <= i < k ==> r[i] == Decoded(c[|c| - k + i].bits)
  {
    if k == 0 then [] else [Decoded(c[|c| - k].bits)] + Targets(c, k - 1)
  }

  lemma {:induction false} TargetSumIs(p: Params, c: seq<Header>, k: nat)
    requires p.Ok() && Accepted(p, c) && k <= |c|
    ensures TargetSum(c, k) == Sum(Targets(c, k))
    decreases k
  {
    hide Params.Ok, Accepted, Target, Decoded;
    if k > 0 {
      TargetSumIs(p, c, k - 1);
      EveryTargetWithinLimit(p, c, |c| - k);
      SumFirst(Decoded(c[|c| - k].bits), Targets(c, k - 1));
      assert Targets(c, k) == [Decoded(c[|c| - k].bits)] + Targets(c, k - 1);
    }
  }

  /**
   Everything is exact: `avg` is the average of the targets in the window, whose sum does not wrap; the measured time
   span, from one middle of eleven times to another, is not negative; the span `s` deviates from the intended one by the
   quarter `q` of its deviation, between the limits; and the product `new'` with it does not wrap.
   */
  ghost predicate Exact(p: Params, c: seq<Header>, avg: nat, last: int, first: int, q: int, s: int, new': nat)
    requires p.Ok() && |c| > p.window
  {
    DampedBounds(p, 0);
    && Sum(Targets(c, p.window)) < MODULUS && avg == Sum(Targets(c, p.window)) / p.window && avg <= p.powLimit
    && IsMiddle(c, last) && IsMiddle(c[..|c| - p.window], first) && first <= last
    && DampedTo(p, last - first, q, s)
    && new' == avg / p.Timespan() * s && new' < MODULUS
  }

  /** Along every accepted chain the next bits are those of the exact new target, or of the limit. */
  lemma RetargetingIsExact(p: Params, c: seq<Header>) returns (avg: nat, last: int, first: int, q: int, s: int, new': nat)
    requires p.Ok() && Accepted(p, c) && |c| > p.window
    ensures Exact(p, c, avg, last, first, q, s, new') && p.Timespan() > 0
    ensures NextWork(p, c) == CompactOf(if new' > p.powLimit then p.powLimit else new')
  {
    hide Pow, CompactOf, NewTarget, Damped, Accepted, MedianTimePast, TargetSum, DampedTo, IsMiddle, Targets;
    DampedBounds(p, 0);
    avg := AverageWithinLimit(p, c);
    last, first := MedianTimePast(c), MedianTimePast(c[..|c| - p.window]);
    MedianIsMiddle(c);
    MedianIsMiddle(c[..|c| - p.window]);
    SpanNotNegative(p, c);
    q := DampedIs(p, last - first);
    s := Damped(p, last - first);
    ProductFitsLimit(p, avg, last - first);
    new' := NewTarget(p, avg, last - first);
    ModSmall(TargetSum(c, p.window), MODULUS);
  }

  lemma AverageWithinLimit(p: Params, c: seq<Header>) returns (avg: nat)
    requires p.Ok() && Accepted(p, c) && |c| > p.window
    ensures TargetSum(c, p.window) == Sum(Targets(c, p.window)) < MODULUS
    ensures avg == TargetSum(c, p.window) / p.window && avg <= p.powLimit
  {
    hide Pow, Accepted, TargetSum, Targets;
    TargetSumIs(p, c, p.window);
    SumWithinLimit(p, c, p.window);
    var sum := TargetSum(c, p.window);
    QuotientBounds(sum, p.window, p.powLimit + 1);
    MulDistrib(p.powLimit, 1, p.window);
    DivShrinks(sum, p.window);
    avg := sum / p.window;
  }

  lemma SpanNotNegative(p: Params, c: seq<Header>)
    requires p.Ok() && Accepted(p, c) && |c| > p.window
    ensures MeasuredSpan(p, c) >= 0
  {
    hide Accepted, MedianTimePast;
    MediansGrow(p, c, |c| - p.window, |c|);
    assert c[..|c|] == c;
  }

  /** The parameters of the main network. */
  const MAIN: Params := Params(0x0007_ffff_ffff_ffff_ffff_ffff_ffff_ffff_ffff_ffff_ffff_ffff_ffff_ffff_ffff_ffff, 17, 32, 16, 150)

  lemma MainParamsOk()
    ensures MAIN.Ok() && MAIN.Timespan() == 2550 && MAIN.MinTimespan() == 2142 && MAIN.MaxTimespan() == 3366
  {
    assert Pow(BASE, 2) == 0x1_0000_0000_0000_0000;
    PowAdd(BASE, 2, 2);
    PowAdd(BASE, 4, 4);
    assert MODULUS == 0x1_0000_0000_0000_0000_0000_0000_0000_0000_0000_0000_0000_0000_0000_0000_0000_0000;
  }
}
