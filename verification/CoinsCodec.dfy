/**
 How unspent outputs are stored: `CCoins::Serialize`, `Unserialize` and `CalcMaskSize` (src/coins.h,
 src/coins.cpp).  The encoding of a single output is an arbitrary sound codec.
 */
module CoinsCodec {
  import opened NatMath
  import opened Limbs
  import opened Arith256
  import opened VarInt
  import opened Coins

  datatype Got = Got(out: TxOut, to: nat) | Failed

  /** The codec of an output that is not spent, and which outputs it can carry. */
  datatype OutCodec = OutCodec(fits: TxOut -> bool, write: TxOut -> seq<Byte>, read: (seq<Byte>, nat) -> Got) {
    ghost predicate Sound() {
      && (forall bytes: seq<Byte>, at: nat, o: TxOut {:trigger StandsAt(bytes, at, write(o))} ::
            fits(o) && StandsAt(bytes, at, write(o)) ==> read(bytes, at) == Got(o, at + |write(o)|))
      && (forall bytes: seq<Byte>, at: nat {:trigger read(bytes, at)} :: at <= |bytes| && read(bytes, at).Got? ==> at <= read(bytes, at).to <= |bytes|)
    }
  }

  /** The codec can carry every output that is not spent. */
  ghost predicate Carries(codec: OutCodec, vout: seq<TxOut>) {
    forall i :: 0 <= i < |vout| && !vout[i].IsNull() ==> codec.fits(vout[i])
  }

  // ----- the mask

  predicate Avail(vout: seq<TxOut>, i: nat) {
    i < |vout| && !vout[i].IsNull()
  }

  /** The lowest `k` bits of mask byte `b`: one for each output from the third on. */
  function MaskBits(vout: seq<TxOut>, b: nat, k: nat): nat {
    if k == 0 then 0
    else MaskBits(vout, b, k - 1) + if Avail(vout, 2 + b * 8 + (k - 1)) then Pow(2, k - 1) else 0
  }

  lemma {:induction false} MaskBound(vout: seq<TxOut>, b: nat, k: nat)
    ensures MaskBits(vout, b, k) < Pow(2, k)
    decreases k
  {
    if k > 0 { MaskBound(vout, b, k - 1); }
  }

  lemma {:induction false} MaskBit(vout: seq<TxOut>, b: nat, k: nat, p: nat)
    requires p < k
    ensures HasBit(MaskBits(vout, b, k), p) <==> Avail(vout, 2 + b * 8 + p)
    decreases k
  {
    hide HasBit, Pow, Avail;
    MaskBound(vout, b, k - 1);
    var low := MaskBits(vout, b, k - 1);
    if p == k - 1 {
      TopBit(low, k - 1);
    } else {
      MaskBit(vout, b, k - 1, p);
      LowerBit(low, k - 1, p);
    }
  }

  lemma TopBit(x: nat, k: nat)
    requires x < Pow(2, k)
    ensures !HasBit(x, k) && HasBit(x + Pow(2, k), k)
  {
    ModSmall(x, Pow(2, k));
    DivUnique(x + Pow(2, k), Pow(2, k), 1, x);
  }

  lemma LowerBit(x: nat, k: nat, p: nat)
    requires p < k
    ensures HasBit(x + Pow(2, k), p) <==> HasBit(x, p)
  {
    hide Pow;
    PowAdd(2, k - p, p);
    PowNext(2, k - p - 1);
    DivAddMultiple(x, Pow(2, k - p), Pow(2, p));
    SameParity(x / Pow(2, p), Pow(2, k - p - 1));
  }

  lemma SameParity(q: int, m: int)
    ensures (q + 2 * m) % 2 == q % 2
  {
  }

  /** Some output of this byte is available, and so the byte is not zero. */
  predicate Used(vout: seq<TxOut>, b: nat) {
    exists n :: 2 + b * 8 <= n < 10 + b * 8 && Avail(vout, n)
  }

  lemma {:induction false} UsedByte(vout: seq<TxOut>, b: nat, k: nat)
    ensures MaskBits(vout, b, k) != 0 <==> exists n :: 2 + b * 8 <= n < 2 + b * 8 + k && Avail(vout, n)
    decreases k
  {
    hide Avail, Pow;
    if k > 0 {
      UsedByte(vout, b, k - 1);
      var n := 2 + b * 8 + (k - 1);
      PowOne(2);
      if Avail(vout, n) { PowMono(2, 0, k - 1); }
    }
  }

  /** `CalcMaskSize` over the first `n` bytes. */
  function MaskSize(vout: seq<TxOut>, n: nat): (r: nat)
    ensures r <= n && (r > 0 ==> Used(vout, r - 1)) && (forall b :: r <= b < n ==> !Used(vout, b))
  {
    if n == 0 then 0 else if Used(vout, n - 1) then n else MaskSize(vout, n - 1)
  }

  function UsedCount(vout: seq<TxOut>, n: nat): nat {
    if n == 0 then 0 else UsedCount(vout, n - 1) + if Used(vout, n - 1) then 1 else 0
  }

  /** How many bytes it takes to mask all outputs. */
  function AllBytes(vout: seq<TxOut>): nat {
    if |vout| <= 2 then 0 else (|vout| - 2 + 7) / 8
  }

  method CalcMaskSize(vout: seq<TxOut>) returns (nBytes: nat, nNonzeroBytes: nat)
    ensures nBytes == MaskSize(vout, AllBytes(vout)) && nNonzeroBytes == UsedCount(vout, AllBytes(vout))
  {
    nBytes, nNonzeroBytes := 0, 0;
    var b := 0;
    while 2 + b * 8 < |vout|
      invariant 0 <= b <= AllBytes(vout)
      invariant nBytes == MaskSize(vout, b) && nNonzeroBytes == UsedCount(vout, b)
      decreases |vout| - b
    {
      var fZero := true;
      var i := 0;
      while i < 8 && 2 + b * 8 + i < |vout|
        invariant 0 <= i <= 8 && (fZero <==> forall n :: 2 + b * 8 <= n < 2 + b * 8 + i ==> !Avail(vout, n))
      {
        var n := 2 + b * 8 + i;
        assert Avail(vout, n) <==> !vout[n].IsNull();
        if !vout[n].IsNull() {
          fZero := false;
        }
        i := i + 1;
      }
      assert fZero <==> !Used(vout, b);
      if !fZero {
        nBytes := b + 1;
        nNonzeroBytes := nNonzeroBytes + 1;
      }
      b := b + 1;
    }
  }

  lemma {:induction false} UsedCountGrows(vout: seq<TxOut>, m: nat, n: nat)
    requires m <= n
    ensures UsedCount(vout, m) <= UsedCount(vout, n)
    ensures m < MaskSize(vout, n) ==> UsedCount(vout, m) < UsedCount(vout, n)
    ensures m >= MaskSize(vout, n) ==> UsedCount(vout, m) == UsedCount(vout, n)
    decreases n
  {
    if m < n { UsedCountGrows(vout, m, n - 1); }
  }

  // ----- the stored form

  function Header(c: CCoins): nat
    requires Storable(c)
  {
    StorableHasCode(c);
    8 * (UsedCount(c.vout, AllBytes(c.vout)) - (if Avail(c.vout, 0) || Avail(c.vout, 1) then 0 else 1)) +
    (if c.coinBase then 1 else 0) + (if Avail(c.vout, 0) then 2 else 0) + (if Avail(c.vout, 1) then 4 else 0)
  }

  /** What can be stored: something is unspent, nothing hangs over at the end, spent outputs are null, and
      version and height are not negative. */
  ghost predicate StorableFully(c: CCoins) {
    Storable(c) && c.IsTrimmed() && c.NullsCanonical()
  }

  predicate Storable(c: CCoins) {
    !c.IsPruned() && c.version >= 0
  }

  /** The assertion in `Serialize`. */
  lemma StorableHasCode(c: CCoins)
    requires Storable(c)
    ensures Avail(c.vout, 0) || Avail(c.vout, 1) || UsedCount(c.vout, AllBytes(c.vout)) > 0
  {
    var i :| 0 <= i < |c.vout| && !c.vout[i].IsNull();
    assert Avail(c.vout, i);
    if i >= 2 {
      var b := (i - 2) / 8;
      assert 2 + b * 8 <= i < 10 + b * 8;
      assert Used(c.vout, b) && b < AllBytes(c.vout);
      UsedCountGrows(c.vout, b, b + 1);
      UsedCountGrows(c.vout, b + 1, AllBytes(c.vout));
    }
  }

  function MaskBytes(vout: seq<TxOut>, n: nat): (r: seq<Byte>)
    ensures |r| == n
  {
    if n == 0 then [] else ByteFits(vout, n - 1); MaskBytes(vout, n - 1) + [MaskBits(vout, n - 1, 8)]
  }

  lemma ByteFits(vout: seq<TxOut>, b: nat)
    ensures MaskBits(vout, b, 8) < 256
  {
    MaskBound(vout, b, 8);
    assert Pow(2, 8) == 256;
  }

  function Outs(codec: OutCodec, vout: seq<TxOut>, n: nat): seq<Byte>
    requires n <= |vout|
  {
    if n == 0 then []
    else Outs(codec, vout, n - 1) + if vout[n - 1].IsNull() then [] else codec.write(vout[n - 1])
  }

  function Stored(codec: OutCodec, c: CCoins): seq<Byte>
    requires Storable(c)
  {
    Written(c.version) + (Written(Header(c)) + (MaskBytes(c.vout, MaskSize(c.vout, AllBytes(c.vout))) +
    (Outs(codec, c.vout, |c.vout|) + Written(c.height))))
  }

  /** `Serialize`. */
  method Serialize(codec: OutCodec, c: CCoins) returns (s: seq<Byte>)
    requires Storable(c)
    ensures s == Stored(codec, c)
  {
    hide Written, MaskBits, Pow, Used, MaskSize, UsedCount;
    var nMaskSize, nMaskCode := CalcMaskSize(c.vout);
    var fFirst := |c.vout| > 0 && !c.vout[0].IsNull();
    var fSecond := |c.vout| > 1 && !c.vout[1].IsNull();
    StorableHasCode(c);
    assert fFirst || fSecond || nMaskCode > 0;
    var nCode := 8 * (nMaskCode - (if fFirst || fSecond then 0 else 1)) + (if c.coinBase then 1 else 0) +
                 (if fFirst then 2 else 0) + (if fSecond then 4 else 0);
    var version := WriteVarInt(c.version);
    var code := WriteVarInt(nCode);
    // spentness bitmask
    var mask: seq<Byte> := [];
    for b := 0 to nMaskSize
      invariant mask == MaskBytes(c.vout, b)
    {
      var chAvail := WriteMaskByte(c.vout, b);
      mask := mask + [chAvail];
    }
    // txouts themself
    var outs: seq<Byte> := [];
    for i := 0 to |c.vout|
      invariant outs == Outs(codec, c.vout, i)
    {
      if !c.vout[i].IsNull() {
        outs := outs + codec.write(c.vout[i]);
      }
    }
    var height := WriteVarInt(c.height);
    s := version + (code + (mask + (outs + height)));
  }

  method WriteMaskByte(vout: seq<TxOut>, b: nat) returns (chAvail: Byte)
    ensures chAvail == MaskBits(vout, b, 8)
  {
    hide Pow;
    var x := 0;
    var i := 0;
    while i < 8 && 2 + b * 8 + i < |vout|
      invariant 0 <= i <= 8 && x == MaskBits(vout, b, i)
    {
      if !vout[2 + b * 8 + i].IsNull() {
        MaskBound(vout, b, i);
        ModSame(Pow(2, i));
        OrDisjoint(x, Pow(2, i), i);
        x := BitOr(x, Pow(2, i));
      }
      i := i + 1;
    }
    NothingBeyond(vout, b, i, 8);
    ByteFits(vout, b);
    chAvail := x;
  }

  lemma ModSame(p: nat)
    requires p > 0
    ensures p % p == 0
  {
    DivUnique(p, p, 1, 0);
  }

  lemma {:induction false} NothingBeyond(vout: seq<TxOut>, b: nat, i: nat, k: nat)
    requires i <= k && (i < k ==> 2 + b * 8 + i >= |vout|)
    ensures MaskBits(vout, b, k) == MaskBits(vout, b, i)
    decreases k
  {
    if i < k { NothingBeyond(vout, b, i, k - 1); }
  }

  // ----- reading it back

  lemma StandsParts(bytes: seq<Byte>, at: nat, a: seq<Byte>, b: seq<Byte>)
    requires StandsAt(bytes, at, a + b)
    ensures StandsAt(bytes, at, a) && StandsAt(bytes, at + |a|, b)
  {
    var all := bytes[at..at + |a + b|];
    assert all[..|a|] == bytes[at..at + |a|] && all[|a|..] == bytes[at + |a|..at + |a| + |b|];
  }

  function Availability(vout: seq<TxOut>, n: nat): (r: seq<bool>)
    ensures |r| == n && forall i :: 0 <= i < n ==> r[i] == Avail(vout, i)
  {
    seq(n, i requires 0 <= i < n => Avail(vout, i))
  }

  /** The eight flags of a mask byte. */
  function Flags(ch: Byte): (r: seq<bool>)
    ensures |r| == 8
  {
    seq(8, p requires 0 <= p < 8 => HasBit(ch, p))
  }

  lemma FlagsOfMask(vout: seq<TxOut>, b: nat)
    ensures MaskBits(vout, b, 8) < 256
    ensures Availability(vout, 2 + b * 8) + Flags(MaskBits(vout, b, 8)) == Availability(vout, 2 + (b + 1) * 8)
    ensures MaskBits(vout, b, 8) != 0 <==> Used(vout, b)
  {
    hide MaskBits, HasBit, Avail;
    ByteFits(vout, b);
    UsedByte(vout, b, 8);
    var now, then' := Availability(vout, 2 + b * 8) + Flags(MaskBits(vout, b, 8)), Availability(vout, 2 + (b + 1) * 8);
    forall i | 0 <= i < |then'| ensures now[i] == then'[i] {
      if i >= 2 + b * 8 {
        MaskBit(vout, b, 8, i - (2 + b * 8));
      }
    }
  }

  lemma {:induction false} MaskStands(bytes: seq<Byte>, at: nat, vout: seq<TxOut>, n: nat, b: nat)
    requires b < n && StandsAt(bytes, at, MaskBytes(vout, n))
    ensures at + b < |bytes| && bytes[at + b] == MaskBits(vout, b, 8)
    decreases n
  {
    hide MaskBits;
    ByteFits(vout, n - 1);
    StandsParts(bytes, at, MaskBytes(vout, n - 1), [MaskBits(vout, n - 1, 8)]);
    if b < n - 1 {
      MaskStands(bytes, at, vout, n - 1, b);
    } else {
      assert bytes[at + b..at + b + 1][0] == bytes[at + b];
    }
  }

  /** The mask bytes: the reader stops after the last one that is not zero. */
  method ReadMask(bytes: seq<Byte>, from: nat, nMaskCode: nat, first: seq<bool>, ghost restoring: bool, ghost vout: seq<TxOut>)
    returns (ok: bool, vAvail: seq<bool>, to: nat)
    requires from <= |bytes| && |first| == 2
    requires restoring ==> first == Availability(vout, 2) && nMaskCode == UsedCount(vout, AllBytes(vout))
    requires restoring ==> StandsAt(bytes, from, MaskBytes(vout, MaskSize(vout, AllBytes(vout))))
    ensures from <= to <= |bytes| && |vAvail| >= 2
    ensures restoring ==> var size := MaskSize(vout, AllBytes(vout)); ok && to == from + size && vAvail == Availability(vout, 2 + size * 8)
  {
    hide MaskBits, HasBit, Avail, MaskBytes, MaskSize, UsedCount, Used, StandsAt;
    var left := nMaskCode;
    vAvail, to := first, from;
    ghost var b := 0;
    ghost var size := MaskSize(vout, AllBytes(vout));
    MaskSizeBound(vout);
    UsedCountNone(vout);
    while left > 0
      invariant from <= to <= |bytes| && |vAvail| >= 2 && to == from + b
      invariant restoring ==> b <= size && vAvail == Availability(vout, 2 + b * 8)
      invariant restoring ==> left == UsedCount(vout, AllBytes(vout)) - UsedCount(vout, b)
      decreases |bytes| - to
    {
      if restoring {
        UsedCountGrows(vout, b, AllBytes(vout));
        MaskStands(bytes, from, vout, size, b);
        FlagsOfMask(vout, b);
        UsedCountStep(vout, b);
      }
      if to == |bytes| {
        return false, vAvail, to;
      }
      var chAvail := bytes[to];
      to := to + 1;
      vAvail := vAvail + Flags(chAvail);
      if chAvail != 0 {
        left := left - 1;
      }
      b := b + 1;
    }
    if restoring { UsedCountGrows(vout, b, AllBytes(vout)); }
    ok := true;
  }

  lemma MaskSizeBound(vout: seq<TxOut>)
    ensures MaskSize(vout, AllBytes(vout)) <= AllBytes(vout)
  {
  }

  lemma UsedCountNone(vout: seq<TxOut>)
    ensures UsedCount(vout, 0) == 0
  {
  }

  lemma UsedCountStep(vout: seq<TxOut>, b: nat)
    ensures UsedCount(vout, b + 1) == UsedCount(vout, b) + if Used(vout, b) then 1 else 0
  {
  }

  lemma {:induction false} OutStands(codec: OutCodec, bytes: seq<Byte>, at: nat, vout: seq<TxOut>, n: nat, i: nat)
    requires i < n <= |vout| && StandsAt(bytes, at, Outs(codec, vout, n)) && !vout[i].IsNull()
    ensures StandsAt(bytes, at + |Outs(codec, vout, i)|, codec.write(vout[i]))
    decreases n
  {
    StandsParts(bytes, at, Outs(codec, vout, n - 1), if vout[n - 1].IsNull() then [] else codec.write(vout[n - 1]));
    if i < n - 1 {
      OutStands(codec, bytes, at, vout, n - 1, i);
    }
  }

  /** The outputs that are available; the others stay null. */
  method ReadOuts(codec: OutCodec, bytes: seq<Byte>, from: nat, vAvail: seq<bool>, ghost restoring: bool, ghost c: CCoins)
    returns (ok: bool, vout: seq<TxOut>, to: nat)
    requires codec.Sound() && from <= |bytes|
    requires restoring ==> StorableFully(c) && |c.vout| <= |vAvail| && vAvail == Availability(c.vout, |vAvail|)
    requires restoring ==> Carries(codec, c.vout) && StandsAt(bytes, from, Outs(codec, c.vout, |c.vout|))
    ensures from <= to <= |bytes|
    ensures restoring ==> ok && to == from + |Outs(codec, c.vout, |c.vout|)| && Extends(c.vout, vout)
  {
    hide StandsAt;
    vout, to := [], from;
    for i := 0 to |vAvail|
      invariant from <= to <= |bytes| && |vout| == i
      invariant restoring ==> to == from + |Outs(codec, c.vout, if i <= |c.vout| then i else |c.vout|)|
      invariant restoring ==> forall j :: 0 <= j < i ==> vout[j] == if j < |c.vout| then c.vout[j] else NullOut
    {
      if restoring && vAvail[i] {
        OutStands(codec, bytes, from, c.vout, |c.vout|, i);
      }
      if vAvail[i] {
        var got := codec.read(bytes, to);
        if got.Failed? {
          return false, vout, to;
        }
        vout := vout + [got.out];
        to := got.to;
      } else {
        vout := vout + [NullOut];
      }
    }
    ok := true;
  }

  /** These outputs, and after them nothing but null ones. */
  ghost predicate Extends(vout: seq<TxOut>, more: seq<TxOut>) {
    |vout| <= |more| && forall j :: 0 <= j < |more| ==> more[j] == if j < |vout| then vout[j] else NullOut
  }

  /** The mask covers every output. */
  lemma MaskCovers(c: CCoins)
    requires StorableFully(c)
    ensures |c.vout| <= 2 + MaskSize(c.vout, AllBytes(c.vout)) * 8
  {
    var n := |c.vout| - 1;
    if n >= 2 {
      var b := (n - 2) / 8;
      assert Avail(c.vout, n) && 2 + b * 8 <= n < 10 + b * 8;
      assert Used(c.vout, b) && b < AllBytes(c.vout);
    }
  }

  lemma HeaderBack(c: CCoins)
    requires Storable(c)
    ensures var code := Header(c);
            && (code % 2 == 1 <==> c.coinBase) && (code / 2 % 2 == 1 <==> Avail(c.vout, 0)) && (code / 4 % 2 == 1 <==> Avail(c.vout, 1))
            && code / 8 + (if code / 2 % 4 != 0 then 0 else 1) == UsedCount(c.vout, AllBytes(c.vout))
  {
    hide Avail, UsedCount, AllBytes;
    StorableHasCode(c);
  }

  /** `Unserialize`.  Whatever follows it, what `Serialize` wrote is read back and nothing more. */
  method Unserialize(codec: OutCodec, bytes: seq<Byte>, ghost c: CCoins) returns (ok: bool, coins: CCoins, to: nat)
    requires codec.Sound()
    ensures to <= |bytes|
    ensures StorableFully(c) && Carries(codec, c.vout) && StandsAt(bytes, 0, Stored(codec, c)) ==> ok && coins == c && to == |Stored(codec, c)|
  {
    hide Written, MaskBytes, MaskSize, UsedCount, Outs, Header, AllBytes, Avail, Trimmed, StandsAt, Stored, Extends, OutCodec.Sound;
    ghost var restoring := StorableFully(c) && Carries(codec, c.vout) && StandsAt(bytes, 0, Stored(codec, c));
    if restoring { Layout(codec, bytes, c); HeaderBack(c); MaskCovers(c); }
    coins, to := NoCoins, 0;
    var nVersion, nCode, nHeight, vAvail, vout;
    ok, nVersion, to := ReadVarInt(bytes, 0);
    if !ok {
      return false, NoCoins, 0;
    }
    var from := to;
    ok, nCode, to := ReadVarInt(bytes, from);
    if !ok {
      return false, NoCoins, from;
    }
    var first := [nCode / 2 % 2 == 1, nCode / 4 % 2 == 1];
    var nMaskCode := nCode / 8 + if nCode / 2 % 4 != 0 then 0 else 1;
    ok, vAvail, to := ReadMask(bytes, to, nMaskCode, first, restoring, c.vout);
    if !ok {
      return false, NoCoins, to;
    }
    ok, vout, to := ReadOuts(codec, bytes, to, vAvail, restoring, c);
    if !ok {
      return false, NoCoins, to;
    }
    from := to;
    ok, nHeight, to := ReadVarInt(bytes, from);
    if !ok {
      return false, NoCoins, from;
    }
    var trimmed := Cleanup(vout);
    if restoring { TrimmedBack(c, vout); }
    coins := CCoins(nCode % 2 == 1, trimmed, nHeight, nVersion);
  }

  lemma TrimmedBack(c: CCoins, vout: seq<TxOut>)
    requires StorableFully(c) && Extends(c.vout, vout)
    ensures Trimmed(vout) == c.vout
  {
    TrimmedUnique(vout, |c.vout|);
    assert vout[..|c.vout|] == c.vout;
  }

  /** Where the parts of the stored form stand. */
  lemma Layout(codec: OutCodec, bytes: seq<Byte>, c: CCoins)
    requires Storable(c) && StandsAt(bytes, 0, Stored(codec, c))
    ensures var mask := MaskBytes(c.vout, MaskSize(c.vout, AllBytes(c.vout)));
            var outs := Outs(codec, c.vout, |c.vout|);
            var a := |Written(c.version)|;
            var b := a + |Written(Header(c))|;
            && StandsAt(bytes, 0, Written(c.version)) && StandsAt(bytes, a, Written(Header(c)))
            && StandsAt(bytes, b, mask) && StandsAt(bytes, b + |mask|, outs)
            && StandsAt(bytes, b + |mask| + |outs|, Written(c.height))
            && |Stored(codec, c)| == b + |mask| + |outs| + |Written(c.height)|
  {
    hide Written, MaskBytes, MaskSize, UsedCount, Outs, Header, AllBytes, Avail;
    var mask, outs := MaskBytes(c.vout, MaskSize(c.vout, AllBytes(c.vout))), Outs(codec, c.vout, |c.vout|);
    var v, h, end := Written(c.version), Written(Header(c)), Written(c.height);
    StandsParts(bytes, 0, v, h + (mask + (outs + end)));
    StandsParts(bytes, |v|, h, mask + (outs + end));
    StandsParts(bytes, |v| + |h|, mask, outs + end);
    StandsParts(bytes, |v| + |h| + |mask|, outs, end);
  }

  /** Storing and loading. */
  method StoreAndLoad(codec: OutCodec, c: CCoins, rest: seq<Byte>) returns (coins: CCoins, to: nat)
    requires codec.Sound() && StorableFully(c) && Carries(codec, c.vout)
    ensures coins == c && to == |Stored(codec, c)|
  {
    hide Stored, OutCodec.Sound;
    var s := Serialize(codec, c);
    assert (s + rest)[0..0 + |s|] == s;
    var ok;
    ok, coins, to := Unserialize(codec, s + rest, c);
  }
}
