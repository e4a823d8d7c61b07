/**
 The size of a partial Merkle tree on the wire (src/merkleblock.h): the documented guarantee of 10 + ceil(32.25 N)
 bytes for N stored hashes, and exactly when it holds.
 */
module MerkleSize {
  import opened NatMath
  import opened PartialMerkle
  import opened PartialMerkleTree

  /** `GetSizeOfCompactSize`. */
  function CompactSize(n: nat): nat {
    if n < 253 then 1 else if n <= 0xffff then 3 else if n <= 0xffff_ffff then 5 else 9
  }

  function FlagBytes(bits: nat): nat {
    (bits + 7) / 8
  }

  /** The number of transactions, the hashes and the bytes of flag bits. */
  function SerializedSize(e: Encoding): nat {
    4 + CompactSize(|e.hashes|) + 32 * |e.hashes| + CompactSize(FlagBytes(|e.bits|)) + FlagBytes(|e.bits|)
  }

  function DocumentedSize(n: nat): nat {
    10 + 32 * n + (n + 3) / 4
  }

  /** The bytes that nodes with a single child add to the flags of `n` hashes. */
  function ExtraBytes(n: nat, lone: nat): int
    requires n >= 1
  {
    FlagBytes(2 * n - 1 + lone) - FlagBytes(2 * n - 1)
  }

  // ----- how many nodes have a single child

  /** A node all of whose leaves are there has no descendant with a single child. */
  lemma {:induction false} FullHasNoLone(r: Request, h: nat, pos: nat)
    requires r.Ok() && (pos + 1) * Pow2(h) <= |r.txids|
    ensures Exists(|r.txids|, h, pos) && LoneCount(r, h, pos) == 0
    decreases h
  {
    MulStrict(pos, pos + 1, Pow2(h));
    if h > 0 {
      hide AnyWanted;
      var q := Pow2(h - 1);
      assert Pow2(h) == 2 * q;
      Halves(pos, q);
      Children(|r.txids|, h, pos);
      FullHasNoLone(r, h - 1, 2 * pos);
      FullHasNoLone(r, h - 1, 2 * pos + 1);
    }
  }

  lemma Halves(pos: nat, q: nat)
    requires q > 0
    ensures (2 * pos + 1) * q <= (pos + 1) * (2 * q) == (2 * pos + 2) * q
    ensures (2 * pos + 1) * q == pos * (2 * q) + q
  {
    MulAssoc(pos + 1, 2, q);
    MulMono(2 * pos + 1, 2 * pos + 2, q);
    MulAssoc(pos, 2, q);
    MulDistrib(2 * pos, 1, q);
  }

  /** At most one on every level: the last one. */
  lemma {:induction false} OneLonePerLevel(r: Request, h: nat, pos: nat)
    requires r.Ok() && Exists(|r.txids|, h, pos)
    ensures LoneCount(r, h, pos) <= h
    decreases h
  {
    hide AnyWanted, Width;
    if h > 0 {
      Children(|r.txids|, h, pos);
      if Lone(|r.txids|, h, pos) {
        OneLonePerLevel(r, h - 1, 2 * pos);
      } else {
        LeftIsFull(|r.txids|, h, pos);
        FullHasNoLone(r, h - 1, 2 * pos);
        OneLonePerLevel(r, h - 1, 2 * pos + 1);
      }
    }
  }

  lemma LeftIsFull(n: nat, h: nat, pos: nat)
    requires h > 0 && Exists(n, h, pos) && !Lone(n, h, pos)
    ensures (2 * pos + 1) * Pow2(h - 1) <= n
  {
  }

  // ----- the guarantee

  lemma FlagArithmetic(n: nat, lone: nat)
    requires n >= 1
    ensures FlagBytes(2 * n - 1) == (n + 3) / 4
    ensures 0 <= ExtraBytes(n, lone) <= (lone + 7) / 8
  {
  }

  /**
   The documented size is kept exactly when the two lengths and the bytes that single children add take no more than
   six bytes: in particular with fewer than 253 hashes, and, up to 0xffff of them, when no wanted transaction is below a
   node with a single child.
   */
  lemma SizeBound(node: NodeHash, r: Request, h: nat)
    requires r.Ok() && IsHeight(|r.txids|, h)
    ensures Exists(|r.txids|, h, 0)
    ensures var e, lone := Encoded(node, r, h), LoneCount(r, h, 0);
            var n := |e.hashes|;
            && n >= 1 && lone <= h
            && (SerializedSize(e) <= DocumentedSize(n) <==>
                  CompactSize(n) + CompactSize(FlagBytes(2 * n - 1 + lone)) + ExtraBytes(n, lone) <= 6)
            && (n < 253 && h <= 32 ==> SerializedSize(e) <= DocumentedSize(n))
            && (n <= 0xffff && lone == 0 ==> SerializedSize(e) <= DocumentedSize(n))
            && (n <= 0xffff && h <= 32 ==> SerializedSize(e) <= DocumentedSize(n) + (h + 7) / 8)
  {
    hide Build, IsHeight, LoneCount, SerializedSize, ExtraBytes, FlagBytes, CompactSize;
    RootRange(|r.txids|, h);
    BuildBits(node, r, h, 0);
    BuildSize(node, r, h, 0);
    OneLonePerLevel(r, h, 0);
    SizeArithmetic(Encoded(node, r, h), LoneCount(r, h, 0), h);
  }

  lemma SizeArithmetic(e: Encoding, lone: nat, h: nat)
    requires |e.hashes| >= 1 && |e.bits| == 2 * |e.hashes| - 1 + lone && lone <= h
    ensures var n := |e.hashes|;
            && (SerializedSize(e) <= DocumentedSize(n) <==>
                  CompactSize(n) + CompactSize(FlagBytes(2 * n - 1 + lone)) + ExtraBytes(n, lone) <= 6)
            && (n < 253 && h <= 32 ==> SerializedSize(e) <= DocumentedSize(n))
            && (n <= 0xffff && lone == 0 ==> SerializedSize(e) <= DocumentedSize(n))
            && (n <= 0xffff && h <= 32 ==> SerializedSize(e) <= DocumentedSize(n) + (h + 7) / 8)
  {
    var n := |e.hashes|;
    FlagArithmetic(n, lone);
    SmallSizes(n, lone);
    assert ExtraBytes(n, lone) == FlagBytes(2 * n - 1 + lone) - FlagBytes(2 * n - 1);
    hide ExtraBytes, FlagBytes, CompactSize;
  }

  lemma SmallSizes(n: nat, lone: nat)
    requires n >= 1
    ensures n < 253 && lone <= 32 ==> CompactSize(n) == CompactSize(FlagBytes(2 * n - 1 + lone)) == 1
    ensures n <= 0xffff ==> CompactSize(n) <= 3
    ensures n <= 0xffff && lone <= 32 ==> CompactSize(FlagBytes(2 * n - 1 + lone)) <= 3
  {
  }

  // ----- where it fails

  lemma {:induction false} AllWantedHashes(node: NodeHash, r: Request, h: nat, pos: nat)
    requires r.Ok() && Exists(|r.txids|, h, pos) && forall i :: 0 <= i < |r.wanted| ==> r.wanted[i]
    ensures |Build(node, r, h, pos).hashes| == Last(|r.txids|, h, pos) - First(h, pos)
    decreases h
  {
    hide Width, First, Last, CalcHash;
    RangeOk(|r.txids|, h, pos);
    assert r.wanted[First(h, pos)];
    if h == 0 {
      LeafRange(|r.txids|, pos);
    } else {
      Children(|r.txids|, h, pos);
      AllWantedHashes(node, r, h - 1, 2 * pos);
      if pos * 2 + 1 < Width(|r.txids|, h - 1) { AllWantedHashes(node, r, h - 1, 2 * pos + 1); }
    }
  }

  /** A block of 1025 transactions, all wanted. */
  function Large(): (r: Request)
    ensures r.Ok() && |r.txids| == 1025 && forall i :: 0 <= i < 1025 ==> r.wanted[i]
  {
    Request(seq(1025, i => i + 1), seq(1025, _ => true))
  }

  lemma Powers()
    ensures Pow2(10) == 1024 && Pow2(11) == 2048
  {
    assert Pow2(5) == 32;
    assert Pow2(10) == 32 * Pow2(5);
  }

  /** The last transaction is alone on every level but the root. */
  lemma {:induction false} Spine(g: nat)
    requires g <= 10
    ensures Exists(1025, g, Pow2(10 - g)) && LoneCount(Large(), g, Pow2(10 - g)) == g
    decreases g
  {
    SpinePosition(g);
    if g > 0 {
      var r, pos := Large(), Pow2(10 - g);
      Spine(g - 1);
      assert Pow2(10 - (g - 1)) == 2 * pos;
      Children(1025, g, pos);
      RangeOk(1025, g, pos);
      assert r.wanted[First(g, pos)];
      SpineLone(g);
    }
  }

  lemma {:induction false} SpinePosition(g: nat)
    requires g <= 10
    ensures Pow2(10 - g) * Pow2(g) == 1024
    decreases g
  {
    Powers();
    if g == 0 {
      assert Pow2(0) == 1;
    } else {
      SpinePosition(g - 1);
      assert Pow2(10 - (g - 1)) == 2 * Pow2(10 - g) && Pow2(g) == 2 * Pow2(g - 1);
      MulAssoc(Pow2(10 - g), 2, Pow2(g - 1));
    }
  }

  lemma SpineLone(g: nat)
    requires 0 < g <= 10
    ensures Lone(1025, g, Pow2(10 - g))
  {
    SpinePosition(g);
    var pos, q := Pow2(10 - g), Pow2(g - 1);
    assert Pow2(g) == 2 * q;
    Halves(pos, q);
    hide Pow2;
  }

  /** The documented size is exceeded by one byte. */
  lemma SizeBoundExceeded(node: NodeHash)
    ensures IsHeight(1025, 11)
    ensures var e := Encoded(node, Large(), 11); |e.hashes| == 1025 && SerializedSize(e) == DocumentedSize(1025) + 1
  {
    LargeHeight();
    hide Build, IsHeight, Pow2;
    RootRange(1025, 11);
    AllWantedHashes(node, Large(), 11, 0);
    BuildBits(node, Large(), 11, 0);
    LargeLone();
  }

  lemma LargeHeight()
    ensures IsHeight(1025, 11)
  {
    Powers();
    hide Pow2, Width;
    WidthIff(1025, 11, 1);
    forall k | 0 <= k < 11 ensures Width(1025, k) > 1 {
      Pow2Mono(k, 10);
      WidthIff(1025, k, 1);
    }
  }

  lemma {:induction false} Pow2Mono(m: nat, n: nat)
    requires m <= n
    ensures Pow2(m) <= Pow2(n)
    decreases n
  {
    if m < n { Pow2Mono(m, n - 1); }
  }

  lemma LargeLone()
    ensures Exists(1025, 11, 0) && LoneCount(Large(), 11, 0) == 10
  {
    Powers();
    assert Pow2(0) == 1;
    Spine(10);
    FullHasNoLone(Large(), 10, 0);
    hide Pow2, Width;
    Children(1025, 11, 0);
    RangeOk(1025, 11, 0);
    assert Large().wanted[First(11, 0)];
  }
}
