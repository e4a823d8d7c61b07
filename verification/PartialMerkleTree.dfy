/**
 The object `CPartialMerkleTree` (src/merkleblock.h, src/merkleblock.cpp): its traversals, the packing of
 the flag bits into bytes, and the two guarantees about a tree sent from one node to another.
 */
module PartialMerkleTree {
  import opened NatMath
  import opened PartialMerkle

  // ----- flag bits in bytes

  /** 1 << k. */
  function Mask(k: nat): bv8
    requires k < 8
  {
    if k == 0 then 1 else if k == 1 then 2 else if k == 2 then 4 else if k == 3 then 8
    else if k == 4 then 16 else if k == 5 then 32 else if k == 6 then 64 else 128
  }

  predicate Bit(b: bv8, k: nat)
    requires k < 8
  {
    b & Mask(k) != 0
  }

  /** The bit `k` places from the least significant one. */
  lemma BitIsShift(b: bv8, k: nat)
    requires k < 8
    ensures Bit(b, k) <==> (b >> k) & 1 == 1
  {
  }

  lemma SetBit(b: bv8, k: nat, j: nat)
    requires k < 8 && j < 8
    ensures Bit(b | Mask(k), j) <==> Bit(b, j) || j == k
  {
  }

  lemma NoBits(j: nat)
    requires j < 8
    ensures !Bit(0, j)
  {
  }

  predicate BitAt(bytes: seq<bv8>, p: nat)
    requires p < 8 * |bytes|
  {
    Bit(bytes[p / 8], p % 8)
  }

  /** Bits in whole bytes, filled up with zeros. */
  ghost predicate Packs(bits: seq<bool>, bytes: seq<bv8>) {
    && |bytes| == (|bits| + 7) / 8
    && forall p :: 0 <= p < 8 * |bytes| ==> (BitAt(bytes, p) <==> p < |bits| && bits[p])
  }

  /** Writing, least significant bit first. */
  method PackBits(bits: seq<bool>) returns (bytes: array<bv8>)
    ensures Packs(bits, bytes[..])
  {
    bytes := new bv8[(|bits| + 7) / 8](_ => 0);
    forall p | 0 <= p < 8 * bytes.Length ensures !BitAt(bytes[..], p) { NoBits(p % 8); }
    for p := 0 to |bits|
      invariant forall q :: 0 <= q < 8 * bytes.Length ==> (BitAt(bytes[..], q) <==> q < p && bits[q])
    {
      ghost var before := bytes[..];
      if bits[p] {
        bytes[p / 8] := bytes[p / 8] | Mask(p % 8);
      }
      forall q | 0 <= q < 8 * bytes.Length ensures BitAt(bytes[..], q) <==> q < p + 1 && bits[q] {
        assert BitAt(before, q) <==> q < p && bits[q];
        if q / 8 == p / 8 { SetBit(before[p / 8], p % 8, q % 8); }
      }
    }
  }

  /** Reading. */
  method UnpackBits(bytes: seq<bv8>) returns (bits: seq<bool>)
    ensures |bits| == 8 * |bytes| && forall p :: 0 <= p < |bits| ==> (bits[p] <==> BitAt(bytes, p))
  {
    bits := [];
    for p := 0 to 8 * |bytes|
      invariant |bits| == p && forall q :: 0 <= q < p ==> (bits[q] <==> BitAt(bytes, q))
    {
      bits := bits + [Bit(bytes[p / 8], p % 8)];
    }
  }

  /** What comes back is what was sent, with less than a byte of padding. */
  ghost predicate Padded(bits: seq<bool>, padded: seq<bool>) {
    |bits| <= |padded| && padded[..|bits|] == bits && (|padded| + 7) / 8 == (|bits| + 7) / 8
  }

  lemma UnpackInvertsPack(bits: seq<bool>, bytes: seq<bv8>, padded: seq<bool>)
    requires Packs(bits, bytes) && |padded| == 8 * |bytes|
    requires forall p :: 0 <= p < |padded| ==> (padded[p] <==> BitAt(bytes, p))
    ensures Padded(bits, padded)
  {
  }

  // ----- the whole tree

  ghost predicate IsHeight(n: nat, h: nat) {
    Width(n, h) <= 1 && forall k :: 0 <= k < h ==> Width(n, k) > 1
  }

  /** The root covers all transactions. */
  lemma RootRange(n: nat, h: nat)
    requires n > 0 && IsHeight(n, h)
    ensures Exists(n, h, 0) && First(h, 0) == 0 && Last(n, h, 0) == n
  {
    WidthIff(n, h, 1);
    WidthIff(n, h, 0);
  }

  ghost function Root(node: NodeHash, txids: seq<Hash>, h: nat): Hash
    requires |txids| > 0 && IsHeight(|txids|, h)
  {
    RootRange(|txids|, h);
    CalcHash(node, txids, h, 0)
  }

  ghost function Encoded(node: NodeHash, r: Request, h: nat): Encoding
    requires r.Ok() && IsHeight(|r.txids|, h)
  {
    RootRange(|r.txids|, h);
    Build(node, r, h, 0)
  }

  /** Everything `ExtractMatches` checks. */
  ghost predicate Accepted(node: NodeHash, n: nat, e: Encoding, h: nat) {
    var x := Extract(node, n, e, h, 0, 0, 0);
    && 0 < n <= MAX_BLOCK_SIZE / 60 && |e.hashes| <= n && |e.bits| >= |e.hashes|
    && !x.bad && (x.bitsUsed + 7) / 8 == (|e.bits| + 7) / 8 && x.hashUsed == |e.hashes|
  }

  /** The round trip: building, packing, unpacking and extracting gives the true root and exactly the
      wanted transactions in order. */
  lemma RoundTrip(node: NodeHash, r: Request, h: nat, padded: seq<bool>)
    requires r.Ok() && |r.txids| <= MAX_BLOCK_SIZE / 60 && IsHeight(|r.txids|, h) && Injective(node) && Distinct(r.txids)
    requires Padded(Encoded(node, r, h).bits, padded)
    ensures var e := Encoding(padded, Encoded(node, r, h).hashes);
            && Accepted(node, |r.txids|, e, h)
            && Extract(node, |r.txids|, e, h, 0, 0, 0).hash == Root(node, r.txids, h)
            && Extract(node, |r.txids|, e, h, 0, 0, 0).matches == Selected(r, 0, |r.txids|)
  {
    hide Build, Extract, Exists, Injective, Distinct, IsHeight;
    RootRange(|r.txids|, h);
    var b := Encoded(node, r, h);
    var e := Encoding(padded, b.hashes);
    BuildSize(node, r, h, 0);
    assert e.hashes[0..0 + |b.hashes|] == b.hashes;
    assert e.bits[0..0 + |b.bits|] == b.bits;
    assert StoredAt(node, r, e, h, 0, 0, 0);
    ExtractInvertsBuild(node, r, e, h, 0, 0, 0);
  }

  /** The documented size: as many hashes as transactions at most, and one and the height of the tree
      for every wanted one at most. */
  lemma HashesBound(node: NodeHash, r: Request, h: nat)
    requires r.Ok() && IsHeight(|r.txids|, h)
    ensures |Encoded(node, r, h).hashes| <= |r.txids|
    ensures |Encoded(node, r, h).hashes| <= 1 + |Selected(r, 0, |r.txids|)| * h
  {
    hide Build, IsHeight;
    RootRange(|r.txids|, h);
    BuildSize(node, r, h, 0);
  }

  /** The documented number of bits is kept exactly when no wanted transaction is below a node with a
      single child. */
  lemma BitsBound(node: NodeHash, r: Request, h: nat)
    requires r.Ok() && IsHeight(|r.txids|, h)
    ensures var e := Encoded(node, r, h);
            |e.bits| <= 2 * |e.hashes| - 1 <==>
            forall g, q {:trigger Lone(|r.txids|, g, q)} :: 0 < g <= h && Lone(|r.txids|, g, q) ==> !ParentOfMatch(r, g, q)
  {
    hide Build, IsHeight, ParentOfMatch;
    RootRange(|r.txids|, h);
    BuildBits(node, r, h, 0);
    LoneCountZero(r, h, 0);
  }

  /** It is exceeded with three transactions of which the last is wanted. */
  lemma BitsBoundExceeded(node: NodeHash)
    ensures IsHeight(3, 2)
    ensures var e := Encoded(node, Request([1, 2, 3], [false, false, true]), 2); |e.bits| > 2 * |e.hashes| - 1
  {
    hide Build, IsHeight, First, Last, Lone;
    var r := Request([1, 2, 3], [false, false, true]);
    TreeOfThree();
    BitsBound(node, r, 2);
    assert r.wanted[2];
    assert ParentOfMatch(r, 1, 1);
  }

  lemma TreeOfThree()
    ensures IsHeight(3, 2) && First(1, 1) == 2 && Last(3, 1, 1) == 3 && Lone(3, 1, 1)
  {
    assert Pow2(0) == 1 && Pow2(1) == 2 && Pow2(2) == 4;
    WidthIff(3, 0, 1);
    WidthIff(3, 1, 1);
    WidthIff(3, 2, 1);
    hide Width;
  }

  /** Authenticity: for the same number of transactions, bits and hashes from anywhere that lead to the
      true root give only transactions of the block, at increasing positions. */
  lemma Authentic(node: NodeHash, txids: seq<Hash>, e: Encoding, h: nat) returns (at: seq<nat>)
    requires |txids| > 0 && IsHeight(|txids|, h) && Injective(node)
    requires Accepted(node, |txids|, e, h) && Extract(node, |txids|, e, h, 0, 0, 0).hash == Root(node, txids, h)
    ensures TakenAt(txids, at, Extract(node, |txids|, e, h, 0, 0, 0).matches, 0, |txids|)
  {
    RootRange(|txids|, h);
    ExtractIsAuthentic(node, txids, e, h, 0, 0, 0);
    at := Positions(node, |txids|, e, h, 0, 0, 0);
  }

  /** `while (CalcTreeWidth(nHeight) > 1) nHeight++`. */
  method TreeHeight(n: nat) returns (h: nat)
    ensures IsHeight(n, h)
  {
    h := 0;
    while Width(n, h) > 1
      invariant forall k :: 0 <= k < h ==> Width(n, k) > 1
      decreases n - Pow2(h)
    {
      WidthIff(n, h, 1);
      assert Pow2(h + 1) == 2 * Pow2(h);
      h := h + 1;
    }
  }

  lemma BuildLeaf(node: NodeHash, r: Request, h: nat, pos: nat)
    requires r.Ok() && Exists(|r.txids|, h, pos) && (h == 0 || !ParentOfMatch(r, h, pos))
    ensures Build(node, r, h, pos) == Encoding([ParentOfMatch(r, h, pos)], [CalcHash(node, r.txids, h, pos)])
  {
  }

  lemma ExtractCases(node: NodeHash, n: nat, e: Encoding, h: nat, pos: nat, i: nat, j: nat)
    ensures i >= |e.bits| ==> Extract(node, n, e, h, pos, i, j) == Extracted(NULL_HASH, i, j, [], true)
    ensures i < |e.bits| && (h == 0 || !e.bits[i]) ==>
              Extract(node, n, e, h, pos, i, j) ==
              if j >= |e.hashes| then Extracted(NULL_HASH, i + 1, j, [], true)
              else Extracted(e.hashes[j], i + 1, j + 1, if h == 0 && e.bits[i] then [e.hashes[j]] else [], false)
    ensures i < |e.bits| && h > 0 && e.bits[i] ==>
              var left := Extract(node, n, e, h - 1, 2 * pos, i + 1, j);
              var right := Extract(node, n, e, h - 1, 2 * pos + 1, left.bitsUsed, left.hashUsed);
              Extract(node, n, e, h, pos, i, j) ==
              if pos * 2 + 1 < Width(n, h - 1) then
                Extracted(node(left.hash, right.hash), right.bitsUsed, right.hashUsed, left.matches + right.matches,
                          left.bad || right.bad || right.hash == left.hash)
              else left.(hash := node(left.hash, left.hash))
  {
    hide Width;
  }

  /** A traversal that goes well does not look beyond what it uses. */
  lemma {:induction false} ExtractMore(node: NodeHash, n: nat, e: Encoding, e': Encoding, h: nat, pos: nat, i: nat, j: nat)
    requires e.bits <= e'.bits && e.hashes <= e'.hashes && !Extract(node, n, e, h, pos, i, j).bad
    ensures Extract(node, n, e', h, pos, i, j) == Extract(node, n, e, h, pos, i, j)
    decreases h
  {
    hide Extract, Width;
    ExtractCases(node, n, e, h, pos, i, j);
    ExtractCases(node, n, e', h, pos, i, j);
    if i < |e.bits| && h > 0 && e.bits[i] {
      ExtractMore(node, n, e, e', h - 1, 2 * pos, i + 1, j);
      var left := Extract(node, n, e, h - 1, 2 * pos, i + 1, j);
      if pos * 2 + 1 < Width(n, h - 1) {
        ExtractMore(node, n, e, e', h - 1, 2 * pos + 1, left.bitsUsed, left.hashUsed);
      }
    }
  }

  /** Nothing can be added to an accepted tree but padding: with a hash more, or a byte of flags more, it is refused. */
  lemma AcceptedIsComplete(node: NodeHash, n: nat, e: Encoding, e': Encoding, h: nat)
    requires Accepted(node, n, e, h) && e.bits <= e'.bits && e.hashes <= e'.hashes
    ensures Accepted(node, n, e', h) <==> |e'.hashes| == |e.hashes| && (|e'.bits| + 7) / 8 == (|e.bits| + 7) / 8
  {
    hide Extract;
    ExtractMore(node, n, e, e', h, 0, 0, 0);
  }

  class Tree {
    const node: NodeHash
    var nTransactions: nat
    var vBits: seq<bool>
    var vHash: seq<Hash>
    var fBad: bool

    ghost function Stored(): Encoding
      reads this
    {
      Encoding(vBits, vHash)
    }

    /** From a block, and which of its transactions are wanted. */
    constructor Of(node: NodeHash, r: Request)
      requires r.Ok()
      ensures this.node == node && nTransactions == |r.txids| && !fBad
      ensures forall h :: IsHeight(|r.txids|, h) ==> Stored() == Encoded(node, r, h)
    {
      this.node, nTransactions, vBits, vHash, fBad := node, |r.txids|, [], [], false;
      new;
      var h := TreeHeight(nTransactions);
      RootRange(nTransactions, h);
      TraverseAndBuild(r, h, 0);
      assert [] + Build(node, r, h, 0).bits == Build(node, r, h, 0).bits;
      assert [] + Build(node, r, h, 0).hashes == Build(node, r, h, 0).hashes;
      forall k | IsHeight(|r.txids|, k) ensures k == h {}
    }

    /** From another node. */
    constructor Received(node: NodeHash, n: nat, bytes: seq<bv8>, hashes: seq<Hash>)
      ensures this.node == node && nTransactions == n && vHash == hashes && !fBad
      ensures |vBits| == 8 * |bytes| && forall p :: 0 <= p < |vBits| ==> (vBits[p] <==> BitAt(bytes, p))
    {
      var bits := UnpackBits(bytes);
      this.node, nTransactions, vBits, vHash, fBad := node, n, bits, hashes, false;
    }

    /** Is this node the parent of at least one wanted transaction? */
    method IsParentOfMatch(r: Request, h: nat, pos: nat) returns (found: bool)
      requires r.Ok() && nTransactions == |r.txids| && Exists(nTransactions, h, pos)
      ensures found <==> ParentOfMatch(r, h, pos)
    {
      found := false;
      RangeOk(nTransactions, h, pos);
      var p := First(h, pos);
      while p < (pos + 1) * Pow2(h) && p < nTransactions
        invariant First(h, pos) <= p <= Last(nTransactions, h, pos)
        invariant found <==> AnyWanted(r.wanted, First(h, pos), p)
      {
        found := found || r.wanted[p];
        p := p + 1;
      }
    }

    /** `TraverseAndBuild` appends the encoding of the node. */
    method TraverseAndBuild(r: Request, h: nat, pos: nat)
      requires r.Ok() && nTransactions == |r.txids| && Exists(nTransactions, h, pos)
      modifies this`vBits, this`vHash
      ensures vBits == old(vBits) + Build(node, r, h, pos).bits
      ensures vHash == old(vHash) + Build(node, r, h, pos).hashes
      decreases h
    {
      hide Exists, Width, ParentOfMatch, Build, CalcHash;
      var parent := IsParentOfMatch(r, h, pos);
      vBits := vBits + [parent];
      if h == 0 || !parent {
        // if at height 0, or nothing interesting below, store hash and stop
        BuildLeaf(node, r, h, pos);
        vHash := vHash + [CalcHash(node, r.txids, h, pos)];
      } else {
        Children(nTransactions, h, pos);
        BuildNode(node, r, h, pos);
        TraverseAndBuild(r, h - 1, pos * 2);
        if pos * 2 + 1 < Width(nTransactions, h - 1) {
          TraverseAndBuild(r, h - 1, pos * 2 + 1);
        }
      }
    }

    /** `TraverseAndExtract`. */
    method TraverseAndExtract(h: nat, pos: nat, bitsUsed: nat, hashUsed: nat) returns (hash: Hash, bitsUsed': nat, hashUsed': nat, vMatch: seq<Hash>)
      modifies this`fBad
      ensures Extracted(hash, bitsUsed', hashUsed', vMatch, fBad) ==
              var x := Extract(node, nTransactions, Stored(), h, pos, bitsUsed, hashUsed); x.(bad := old(fBad) || x.bad)
      decreases h
    {
      hide Width, Extract;
      ExtractCases(node, nTransactions, Stored(), h, pos, bitsUsed, hashUsed);
      bitsUsed', hashUsed', vMatch := bitsUsed, hashUsed, [];
      if bitsUsed' >= |vBits| {
        // overflowed the bits array - failure
        fBad := true;
        return NULL_HASH, bitsUsed', hashUsed', vMatch;
      }
      var parent := vBits[bitsUsed'];
      bitsUsed' := bitsUsed' + 1;
      if h == 0 || !parent {
        if hashUsed' >= |vHash| {
          // overflowed the hash array - failure
          fBad := true;
          return NULL_HASH, bitsUsed', hashUsed', vMatch;
        }
        hash := vHash[hashUsed'];
        hashUsed' := hashUsed' + 1;
        if h == 0 && parent {
          vMatch := [hash];
        }
      } else {
        var left, right, more;
        left, bitsUsed', hashUsed', vMatch := TraverseAndExtract(h - 1, pos * 2, bitsUsed', hashUsed');
        if pos * 2 + 1 < Width(nTransactions, h - 1) {
          right, bitsUsed', hashUsed', more := TraverseAndExtract(h - 1, pos * 2 + 1, bitsUsed', hashUsed');
          vMatch := vMatch + more;
          if right == left {
            // the transaction hashes covered by them must each be unique
            fBad := true;
          }
        } else {
          right := left;
        }
        hash := node(left, right);
      }
    }

    /** `ExtractMatches`: the null hash unless everything is in order. */
    method ExtractMatches(ghost h0: nat) returns (root: Hash, vMatch: seq<Hash>)
      requires IsHeight(nTransactions, h0)
      modifies this`fBad
      ensures if !old(fBad) && Accepted(node, nTransactions, Stored(), h0)
              then var x := Extract(node, nTransactions, Stored(), h0, 0, 0, 0); root == x.hash && vMatch == x.matches
              else root == NULL_HASH
    {
      vMatch := [];
      if nTransactions == 0 || nTransactions > MAX_BLOCK_SIZE / 60 || |vHash| > nTransactions || |vBits| < |vHash| {
        return NULL_HASH, vMatch;
      }
      var h := TreeHeight(nTransactions);
      HeightUnique(nTransactions, h, h0);
      hide Extract, IsHeight;
      var bitsUsed, hashUsed;
      root, bitsUsed, hashUsed, vMatch := TraverseAndExtract(h, 0, 0, 0);
      if fBad || (bitsUsed + 7) / 8 != (|vBits| + 7) / 8 || hashUsed != |vHash| {
        return NULL_HASH, vMatch;
      }
    }
  }

  /** A tree is built, sent, received and extracted. */
  method SendAndExtract(node: NodeHash, r: Request) returns (root: Hash, vMatch: seq<Hash>)
    requires r.Ok() && |r.txids| <= MAX_BLOCK_SIZE / 60 && Injective(node) && Distinct(r.txids)
    ensures forall h :: IsHeight(|r.txids|, h) ==> root == Root(node, r.txids, h)
    ensures vMatch == Selected(r, 0, |r.txids|)
  {
    hide Extract, Accepted, Injective, Distinct, IsHeight, Encoded, Root, Selected;
    var h := TreeHeight(|r.txids|);
    var t := new Tree.Of(node, r);
    assert t.Stored() == Encoded(node, r, h);
    var bytes := PackBits(t.vBits);
    var t' := new Tree.Received(node, t.nTransactions, bytes[..], t.vHash);
    UnpackInvertsPack(t.vBits, bytes[..], t'.vBits);
    RoundTrip(node, r, h, t'.vBits);
    assert t'.Stored() == Encoding(t'.vBits, Encoded(node, r, h).hashes);
    root, vMatch := t'.ExtractMatches(h);
    forall k | IsHeight(|r.txids|, k) ensures k == h { HeightUnique(|r.txids|, h, k); }
  }

  /** Whatever was received for a block of this many transactions: if the extracted root is that of the
      block, and not the null hash that stands for failure, the matches are transactions of the block. */
  method ExtractFor(t: Tree, root: Hash, ghost txids: seq<Hash>, ghost h: nat) returns (ok: bool, vMatch: seq<Hash>, ghost at: seq<nat>)
    requires |txids| == t.nTransactions > 0 && IsHeight(|txids|, h) && Injective(t.node)
    requires root == Root(t.node, txids, h)
    modifies t
    ensures ok <==> root != NULL_HASH && !old(t.fBad) && Accepted(t.node, |txids|, old(t.Stored()), h)
                    && Extract(t.node, |txids|, old(t.Stored()), h, 0, 0, 0).hash == root
    ensures ok ==> TakenAt(txids, at, vMatch, 0, |txids|)
  {
    hide Extract, Injective, IsHeight, Root, TakenAt, Accepted;
    at := [];
    var extracted;
    extracted, vMatch := t.ExtractMatches(h);
    ok := extracted == root && extracted != NULL_HASH;
    if ok {
      at := Authentic(t.node, txids, t.Stored(), h);
    }
  }

  lemma HeightUnique(n: nat, h: nat, k: nat)
    requires IsHeight(n, h) && IsHeight(n, k)
    ensures h == k
  {
  }
}
