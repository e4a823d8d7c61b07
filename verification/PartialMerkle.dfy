/**
 Partial Merkle trees: `CPartialMerkleTree` (src/merkleblock.h, src/merkleblock.cpp), which implements
 the construction and parsing of a partial merkle tree object of BIP 37.  The hash of two children is an
 arbitrary function `node`; where a statement needs it to be injective it says so.
 */
module PartialMerkle {
  import opened NatMath

  type Hash = nat
  type NodeHash = (Hash, Hash) -> Hash

  /** The all-zero hash, returned on failure. */
  const NULL_HASH: Hash := 0
  const MAX_BLOCK_SIZE: nat := 2000000

  ghost predicate Injective(node: NodeHash) {
    forall a, b, c, d {:trigger node(a, b), node(c, d)} :: node(a, b) == node(c, d) ==> a == c && b == d
  }

  ghost predicate Distinct(txids: seq<Hash>) {
    forall i, j :: 0 <= i < j < |txids| ==> txids[i] != txids[j]
  }

  // ----- the shape of the tree

  /** `CalcTreeWidth`: how many nodes there are at a height. */
  function Width(n: nat, h: nat): nat {
    (n + Pow2(h) - 1) / Pow2(h)
  }

  /** A node exists exactly when its first leaf does. */
  lemma WidthIff(n: nat, h: nat, pos: nat)
    ensures pos < Width(n, h) <==> pos * Pow2(h) < n
  {
    var p, w := Pow2(h), Width(n, h);
    assert w * p <= n + p - 1 < w * p + p by {
      assert n + p - 1 == p * w + (n + p - 1) % p;
    }
    if pos < w {
      MulMono(pos + 1, w, p);
      assert (pos + 1) * p == pos * p + p;
    } else {
      MulMono(w, pos, p);
    }
  }

  function First(h: nat, pos: nat): nat { pos * Pow2(h) }

  /** One past the last leaf below a node. */
  function Last(n: nat, h: nat, pos: nat): nat {
    if (pos + 1) * Pow2(h) <= n then (pos + 1) * Pow2(h) else n
  }

  predicate Exists(n: nat, h: nat, pos: nat) {
    pos * Pow2(h) < n
  }

  /** The leaves of a node are those of its left child followed by those of its right child, if any. */
  lemma Children(n: nat, h: nat, pos: nat)
    requires h > 0 && Exists(n, h, pos)
    ensures Exists(n, h - 1, 2 * pos) && First(h - 1, 2 * pos) == First(h, pos)
    ensures Last(n, h - 1, 2 * pos) <= Last(n, h, pos)
    ensures Exists(n, h - 1, 2 * pos + 1) ==>
              && First(h - 1, 2 * pos + 1) == Last(n, h - 1, 2 * pos)
              && Last(n, h - 1, 2 * pos + 1) == Last(n, h, pos)
    ensures !Exists(n, h - 1, 2 * pos + 1) ==> Last(n, h - 1, 2 * pos) == Last(n, h, pos)
    ensures First(h - 1, 2 * pos) < Last(n, h - 1, 2 * pos)
    ensures pos * 2 + 1 < Width(n, h - 1) <==> Exists(n, h - 1, 2 * pos + 1)
  {
    var q := Pow2(h - 1);
    assert Pow2(h) == 2 * q;
    assert (2 * pos) * q == pos * (2 * q);
    assert (2 * pos + 1) * q == pos * (2 * q) + q;
    assert (2 * pos + 2) * q == (pos + 1) * (2 * q) == pos * (2 * q) + 2 * q;
    WidthIff(n, h - 1, 2 * pos + 1);
  }

  lemma LeafRange(n: nat, pos: nat)
    ensures First(0, pos) == pos && (Exists(n, 0, pos) <==> pos < n) && (pos < n ==> Last(n, 0, pos) == pos + 1)
  {
    assert Pow2(0) == 1;
  }

  lemma RangeOk(n: nat, h: nat, pos: nat)
    requires Exists(n, h, pos)
    ensures First(h, pos) < Last(n, h, pos) <= n
  {
    MulStrict(pos, pos + 1, Pow2(h));
  }

  // ----- the full tree

  /** `CalcHash`. */
  function CalcHash(node: NodeHash, txids: seq<Hash>, h: nat, pos: nat): Hash
    requires Exists(|txids|, h, pos)
    decreases h
  {
    if h == 0 then assert Pow2(0) == 1; txids[pos]
    else
      Children(|txids|, h, pos);
      var left := CalcHash(node, txids, h - 1, 2 * pos);
      var right := if pos * 2 + 1 < Width(|txids|, h - 1) then CalcHash(node, txids, h - 1, 2 * pos + 1) else left;
      node(left, right)
  }

  /** With an injective hash of nodes, equal hashes at one height have equal first leaves. */
  lemma {:induction false} SameHashSameLeaf(node: NodeHash, txids: seq<Hash>, h: nat, pos: nat, pos': nat)
    requires Injective(node) && Exists(|txids|, h, pos) && Exists(|txids|, h, pos')
    requires CalcHash(node, txids, h, pos) == CalcHash(node, txids, h, pos')
    ensures txids[First(h, pos)] == txids[First(h, pos')]
    decreases h
  {
    if h == 0 {
      assert Pow2(0) == 1;
    } else {
      Children(|txids|, h, pos);
      Children(|txids|, h, pos');
      SameHashSameLeaf(node, txids, h - 1, 2 * pos, 2 * pos');
    }
  }

  /** Siblings never have the same hash if no transaction is in the block twice. */
  lemma SiblingsDiffer(node: NodeHash, txids: seq<Hash>, h: nat, pos: nat)
    requires Injective(node) && Distinct(txids) && Exists(|txids|, h, 2 * pos) && Exists(|txids|, h, 2 * pos + 1)
    ensures CalcHash(node, txids, h, 2 * pos) != CalcHash(node, txids, h, 2 * pos + 1)
  {
    if CalcHash(node, txids, h, 2 * pos) == CalcHash(node, txids, h, 2 * pos + 1) {
      SameHashSameLeaf(node, txids, h, 2 * pos, 2 * pos + 1);
      MulStrict(2 * pos, 2 * pos + 1, Pow2(h));
      assert false;
    }
  }

  // ----- building

  /** A block: its transaction ids and which of them are wanted. */
  datatype Request = Request(txids: seq<Hash>, wanted: seq<bool>) {
    predicate Ok() { |wanted| == |txids| > 0 }
  }

  predicate AnyWanted(wanted: seq<bool>, lo: nat, hi: nat)
    requires hi <= |wanted|
  {
    exists p :: lo <= p < hi && wanted[p]
  }

  /** The wanted transactions among leaves `lo` up to `hi`, in order. */
  function Selected(r: Request, lo: nat, hi: nat): seq<Hash>
    requires r.Ok() && lo <= hi <= |r.txids|
    decreases hi
  {
    if lo == hi then []
    else
      var rest := Selected(r, lo, hi - 1);
      if r.wanted[hi - 1] then rest + [r.txids[hi - 1]] else rest
  }

  lemma {:induction false} SelectedSplit(r: Request, lo: nat, mid: nat, hi: nat)
    requires r.Ok() && lo <= mid <= hi <= |r.txids|
    ensures Selected(r, lo, hi) == Selected(r, lo, mid) + Selected(r, mid, hi)
    decreases hi
  {
    if mid < hi {
      SelectedSplit(r, lo, mid, hi - 1);
    }
  }

  lemma {:induction false} SelectedNone(r: Request, lo: nat, hi: nat)
    requires r.Ok() && lo <= hi <= |r.txids|
    ensures Selected(r, lo, hi) == [] <==> !AnyWanted(r.wanted, lo, hi)
    decreases hi
  {
    if lo < hi {
      SelectedNone(r, lo, hi - 1);
    }
  }

  /** What a traversal stores. */
  datatype Encoding = Encoding(bits: seq<bool>, hashes: seq<Hash>)

  predicate ParentOfMatch(r: Request, h: nat, pos: nat)
    requires r.Ok()
  {
    AnyWanted(r.wanted, First(h, pos), Last(|r.txids|, h, pos))
  }

  ghost function Build(node: NodeHash, r: Request, h: nat, pos: nat): Encoding
    requires r.Ok() && Exists(|r.txids|, h, pos)
    decreases h
  {
    var parent := ParentOfMatch(r, h, pos);
    if h == 0 || !parent then Encoding([parent], [CalcHash(node, r.txids, h, pos)])
    else
      Children(|r.txids|, h, pos);
      var left := Build(node, r, h - 1, 2 * pos);
      if pos * 2 + 1 < Width(|r.txids|, h - 1) then
        var right := Build(node, r, h - 1, 2 * pos + 1);
        Encoding([parent] + left.bits + right.bits, left.hashes + right.hashes)
      else Encoding([parent] + left.bits, left.hashes)
  }

  /** No more hashes than leaves, and no more than one and the height for every wanted one; at least
      one bit for every hash. */
  lemma {:induction false} BuildSize(node: NodeHash, r: Request, h: nat, pos: nat)
    requires r.Ok() && Exists(|r.txids|, h, pos)
    ensures var lo, hi, e := First(h, pos), Last(|r.txids|, h, pos), Build(node, r, h, pos);
            && 1 <= |e.hashes| <= hi - lo && |e.hashes| <= 1 + |Selected(r, lo, hi)| * h && |e.hashes| <= |e.bits|
    decreases h
  {
    hide Width, First, Last, Exists, AnyWanted;
    var n, lo, hi := |r.txids|, First(h, pos), Last(|r.txids|, h, pos);
    RangeOk(n, h, pos);
    SelectedNone(r, lo, hi);
    if h == 0 {
      LeafRange(n, pos);
    } else {
      Children(n, h, pos);
      if ParentOfMatch(r, h, pos) {
        var mid := Last(n, h - 1, 2 * pos);
        BuildSize(node, r, h - 1, 2 * pos);
        SelectedSplit(r, lo, mid, hi);
        if pos * 2 + 1 < Width(n, h - 1) {
          BuildSize(node, r, h - 1, 2 * pos + 1);
        } else {
          assert Selected(r, mid, hi) == [];
        }
        OnePerLevel(|Selected(r, lo, mid)|, |Selected(r, mid, hi)|, h);
      }
    }
  }

  lemma OnePerLevel(a: nat, b: nat, h: nat)
    requires a + b >= 1 && h >= 1
    ensures (1 + a * (h - 1)) + (1 + b * (h - 1)) <= 1 + (a + b) * h
  {
    assert (a + b) * h == a * (h - 1) + b * (h - 1) + a + b;
  }

  // ----- extracting

  /** The state of a traversal of stored bits and hashes when it leaves a node. */
  datatype Extracted = Extracted(hash: Hash, bitsUsed: nat, hashUsed: nat, matches: seq<Hash>, bad: bool)

  /** `TraverseAndExtract`, from `i` bits and `j` hashes on. */
  function Extract(node: NodeHash, n: nat, e: Encoding, h: nat, pos: nat, i: nat, j: nat): Extracted
    decreases h
  {
    if i >= |e.bits| then Extracted(NULL_HASH, i, j, [], true)
    else if h == 0 || !e.bits[i] then
      if j >= |e.hashes| then Extracted(NULL_HASH, i + 1, j, [], true)
      else Extracted(e.hashes[j], i + 1, j + 1, if h == 0 && e.bits[i] then [e.hashes[j]] else [], false)
    else
      var left := Extract(node, n, e, h - 1, 2 * pos, i + 1, j);
      if pos * 2 + 1 < Width(n, h - 1) then
        var right := Extract(node, n, e, h - 1, 2 * pos + 1, left.bitsUsed, left.hashUsed);
        Extracted(node(left.hash, right.hash), right.bitsUsed, right.hashUsed, left.matches + right.matches,
                  left.bad || right.bad || right.hash == left.hash)
      else left.(hash := node(left.hash, left.hash))
  }

  /** `part` stands in `whole` from `at` on. */
  predicate Within<T(==)>(part: seq<T>, whole: seq<T>, at: nat) {
    at + |part| <= |whole| && whole[at..at + |part|] == part
  }

  lemma WithinParts<T>(a: seq<T>, b: seq<T>, whole: seq<T>, at: nat)
    requires Within(a + b, whole, at)
    ensures Within(a, whole, at) && Within(b, whole, at + |a|)
  {
    assert forall k :: 0 <= k < |a + b| ==> whole[at + k] == whole[at..at + |a + b|][k] == (a + b)[k];
    assert forall k :: 0 <= k < |a| ==> (a + b)[k] == a[k];
    assert forall k :: 0 <= k < |b| ==> (a + b)[|a| + k] == b[k];
    assert whole[at..at + |a|] == a;
    assert whole[at + |a|..at + |a| + |b|] == b;
  }

  lemma LeafSelected(node: NodeHash, r: Request, pos: nat)
    requires r.Ok() && pos < |r.txids|
    ensures ParentOfMatch(r, 0, pos) <==> r.wanted[pos]
    ensures Selected(r, pos, pos + 1) == if r.wanted[pos] then [r.txids[pos]] else []
    ensures Exists(|r.txids|, 0, pos) && CalcHash(node, r.txids, 0, pos) == r.txids[pos]
  {
    LeafRange(|r.txids|, pos);
    assert Selected(r, pos, pos) == [];
  }

  /** Extracting a node from `i` bits and `j` hashes on gives its hash and the wanted transactions below
      it, and uses up what was stored for it. */
  ghost predicate Restores(node: NodeHash, r: Request, e: Encoding, h: nat, pos: nat, i: nat, j: nat)
    requires r.Ok() && Exists(|r.txids|, h, pos)
  {
    RangeOk(|r.txids|, h, pos);
    var b := Build(node, r, h, pos);
    Extract(node, |r.txids|, e, h, pos, i, j) ==
      Extracted(CalcHash(node, r.txids, h, pos), i + |b.bits|, j + |b.hashes|,
                Selected(r, First(h, pos), Last(|r.txids|, h, pos)), false)
  }

  ghost predicate StoredAt(node: NodeHash, r: Request, e: Encoding, h: nat, pos: nat, i: nat, j: nat)
    requires r.Ok() && Exists(|r.txids|, h, pos)
  {
    Within(Build(node, r, h, pos).bits, e.bits, i) && Within(Build(node, r, h, pos).hashes, e.hashes, j)
  }

  /** Extracting what was built restores it. */
  lemma {:induction false} ExtractInvertsBuild(node: NodeHash, r: Request, e: Encoding, h: nat, pos: nat, i: nat, j: nat)
    requires r.Ok() && Exists(|r.txids|, h, pos) && Injective(node) && Distinct(r.txids)
    requires StoredAt(node, r, e, h, pos, i, j)
    ensures Restores(node, r, e, h, pos, i, j)
    decreases h
  {
    hide Width, Exists, ParentOfMatch, Injective, Distinct, StoredAt, Restores, Build, CalcHash, Extract;
    if h == 0 || !ParentOfMatch(r, h, pos) {
      ExtractStored(node, r, e, h, pos, i, j);
    } else {
      Children(|r.txids|, h, pos);
      StoredParts(node, r, e, h, pos, i, j);
      ExtractInvertsBuild(node, r, e, h - 1, 2 * pos, i + 1, j);
      if pos * 2 + 1 < Width(|r.txids|, h - 1) {
        var left := Build(node, r, h - 1, 2 * pos);
        ExtractInvertsBuild(node, r, e, h - 1, 2 * pos + 1, i + 1 + |left.bits|, j + |left.hashes|);
        SiblingsDiffer(node, r.txids, h - 1, pos);
        RestoreBoth(node, r, e, h, pos, i, j);
      } else {
        RestoreLone(node, r, e, h, pos, i, j);
      }
    }
  }

  lemma BuildNode(node: NodeHash, r: Request, h: nat, pos: nat)
    requires r.Ok() && Exists(|r.txids|, h, pos) && h > 0 && ParentOfMatch(r, h, pos)
    ensures Exists(|r.txids|, h - 1, 2 * pos)
    ensures var left := Build(node, r, h - 1, 2 * pos);
            Build(node, r, h, pos) ==
            if Exists(|r.txids|, h - 1, 2 * pos + 1) then
              var right := Build(node, r, h - 1, 2 * pos + 1);
              Encoding([true] + (left.bits + right.bits), left.hashes + right.hashes)
            else Encoding([true] + left.bits, left.hashes)
  {
    hide Width, Exists, ParentOfMatch;
    Children(|r.txids|, h, pos);
    if Exists(|r.txids|, h - 1, 2 * pos + 1) {
      var left, right := Build(node, r, h - 1, 2 * pos), Build(node, r, h - 1, 2 * pos + 1);
      assert [true] + left.bits + right.bits == [true] + (left.bits + right.bits);
    }
  }

  /** Where the children of a node are stored. */
  lemma StoredParts(node: NodeHash, r: Request, e: Encoding, h: nat, pos: nat, i: nat, j: nat)
    requires r.Ok() && Exists(|r.txids|, h, pos) && h > 0 && ParentOfMatch(r, h, pos) && StoredAt(node, r, e, h, pos, i, j)
    ensures Exists(|r.txids|, h - 1, 2 * pos) && i < |e.bits| && e.bits[i] && StoredAt(node, r, e, h - 1, 2 * pos, i + 1, j)
    ensures var left := Build(node, r, h - 1, 2 * pos);
            Exists(|r.txids|, h - 1, 2 * pos + 1) ==> StoredAt(node, r, e, h - 1, 2 * pos + 1, i + 1 + |left.bits|, j + |left.hashes|)
  {
    hide Width, Exists, ParentOfMatch, Within, Build;
    Children(|r.txids|, h, pos);
    BuildNode(node, r, h, pos);
    var left := Build(node, r, h - 1, 2 * pos);
    if pos * 2 + 1 < Width(|r.txids|, h - 1) {
      var right := Build(node, r, h - 1, 2 * pos + 1);
      WithinParts([true], left.bits + right.bits, e.bits, i);
      WithinParts(left.bits, right.bits, e.bits, i + 1);
      WithinParts(left.hashes, right.hashes, e.hashes, j);
    } else {
      WithinParts([true], left.bits, e.bits, i);
    }
    WithinFirst(true, e.bits, i);
  }

  lemma RestoreBoth(node: NodeHash, r: Request, e: Encoding, h: nat, pos: nat, i: nat, j: nat)
    requires r.Ok() && Exists(|r.txids|, h, pos) && h > 0 && ParentOfMatch(r, h, pos) && i < |e.bits| && e.bits[i]
    requires Exists(|r.txids|, h - 1, 2 * pos) && Restores(node, r, e, h - 1, 2 * pos, i + 1, j)
    requires var left := Build(node, r, h - 1, 2 * pos);
             Exists(|r.txids|, h - 1, 2 * pos + 1) && Restores(node, r, e, h - 1, 2 * pos + 1, i + 1 + |left.bits|, j + |left.hashes|)
    requires CalcHash(node, r.txids, h - 1, 2 * pos) != CalcHash(node, r.txids, h - 1, 2 * pos + 1)
    ensures Restores(node, r, e, h, pos, i, j)
  {
    hide Width, Exists, ParentOfMatch, Selected, First, Last;
    Children(|r.txids|, h, pos);
    RangeOk(|r.txids|, h, pos);
    SelectedSplit(r, First(h, pos), Last(|r.txids|, h - 1, 2 * pos), Last(|r.txids|, h, pos));
  }

  lemma RestoreLone(node: NodeHash, r: Request, e: Encoding, h: nat, pos: nat, i: nat, j: nat)
    requires r.Ok() && Exists(|r.txids|, h, pos) && h > 0 && ParentOfMatch(r, h, pos) && i < |e.bits| && e.bits[i]
    requires Exists(|r.txids|, h - 1, 2 * pos) && Restores(node, r, e, h - 1, 2 * pos, i + 1, j)
    requires !Exists(|r.txids|, h - 1, 2 * pos + 1)
    ensures Restores(node, r, e, h, pos, i, j)
  {
    hide Width, Exists, ParentOfMatch, Selected, First, Last;
    Children(|r.txids|, h, pos);
  }

  lemma WithinFirst<T>(x: T, whole: seq<T>, at: nat)
    requires Within([x], whole, at)
    ensures at < |whole| && whole[at] == x
  {
    assert whole[at] == whole[at..at + 1][0];
  }

  /** The case of a node whose own hash was stored. */
  lemma ExtractStored(node: NodeHash, r: Request, e: Encoding, h: nat, pos: nat, i: nat, j: nat)
    requires r.Ok() && Exists(|r.txids|, h, pos) && (h == 0 || !ParentOfMatch(r, h, pos)) && StoredAt(node, r, e, h, pos, i, j)
    ensures Restores(node, r, e, h, pos, i, j)
  {
    hide Width, First, Last, Exists, AnyWanted, Within;
    var n, lo, hi := |r.txids|, First(h, pos), Last(|r.txids|, h, pos);
    RangeOk(n, h, pos);
    WithinFirst(ParentOfMatch(r, h, pos), e.bits, i);
    WithinFirst(CalcHash(node, r.txids, h, pos), e.hashes, j);
    SelectedNone(r, lo, hi);
    if h == 0 {
      LeafRange(n, pos);
      LeafSelected(node, r, pos);
    }
  }

  // ----- authenticity

  /** The leaf positions at which `Extract` reports a match. */
  ghost function Positions(node: NodeHash, n: nat, e: Encoding, h: nat, pos: nat, i: nat, j: nat): seq<nat>
    decreases h
  {
    if i >= |e.bits| then []
    else if h == 0 || !e.bits[i] then
      if j < |e.hashes| && h == 0 && e.bits[i] then [pos] else []
    else
      var left := Positions(node, n, e, h - 1, 2 * pos, i + 1, j);
      if pos * 2 + 1 < Width(n, h - 1) then
        var x := Extract(node, n, e, h - 1, 2 * pos, i + 1, j);
        left + Positions(node, n, e, h - 1, 2 * pos + 1, x.bitsUsed, x.hashUsed)
      else left
  }

  ghost predicate Increasing(s: seq<nat>) {
    forall i, j :: 0 <= i < j < |s| ==> s[i] < s[j]
  }

  /** `matches` are the transactions at these positions, which increase and lie between `lo` and `hi`. */
  ghost predicate TakenAt(txids: seq<Hash>, at: seq<nat>, matches: seq<Hash>, lo: nat, hi: nat) {
    && |at| == |matches| && Increasing(at)
    && forall k :: 0 <= k < |at| ==> lo <= at[k] < hi && at[k] < |txids| && matches[k] == txids[at[k]]
  }

  /** Whatever bits and hashes are given: if the hash of the node comes out right, then every match is a
      transaction below that node. */
  lemma {:induction false} ExtractIsAuthentic(node: NodeHash, txids: seq<Hash>, e: Encoding, h: nat, pos: nat, i: nat, j: nat)
    requires Injective(node) && Exists(|txids|, h, pos)
    requires var x := Extract(node, |txids|, e, h, pos, i, j); !x.bad && x.hash == CalcHash(node, txids, h, pos)
    ensures TakenAt(txids, Positions(node, |txids|, e, h, pos, i, j), Extract(node, |txids|, e, h, pos, i, j).matches,
                    First(h, pos), Last(|txids|, h, pos))
    decreases h
  {
    hide Width, First, Last, Exists, Injective, TakenAt;
    var n := |txids|;
    if h == 0 {
      LeafRange(n, pos);
      TakenLeaf(txids, pos, e.bits[i]);
    } else if e.bits[i] {
      Children(n, h, pos);
      var left := Extract(node, n, e, h - 1, 2 * pos, i + 1, j);
      var l := CalcHash(node, txids, h - 1, 2 * pos);
      if pos * 2 + 1 < Width(n, h - 1) {
        var right := Extract(node, n, e, h - 1, 2 * pos + 1, left.bitsUsed, left.hashUsed);
        NodeInjective(node, left.hash, right.hash, l, CalcHash(node, txids, h - 1, 2 * pos + 1));
        ExtractIsAuthentic(node, txids, e, h - 1, 2 * pos, i + 1, j);
        ExtractIsAuthentic(node, txids, e, h - 1, 2 * pos + 1, left.bitsUsed, left.hashUsed);
        TakenBoth(txids, Positions(node, n, e, h - 1, 2 * pos, i + 1, j), left.matches,
                  Positions(node, n, e, h - 1, 2 * pos + 1, left.bitsUsed, left.hashUsed), right.matches,
                  First(h, pos), Last(n, h - 1, 2 * pos), Last(n, h, pos));
      } else {
        NodeInjective(node, left.hash, left.hash, l, l);
        ExtractIsAuthentic(node, txids, e, h - 1, 2 * pos, i + 1, j);
      }
    } else {
      TakenNone(txids, First(h, pos), Last(n, h, pos));
    }
  }

  lemma NodeInjective(node: NodeHash, a: Hash, b: Hash, c: Hash, d: Hash)
    requires Injective(node) && node(a, b) == node(c, d)
    ensures a == c && b == d
  {
  }

  lemma TakenNone(txids: seq<Hash>, lo: nat, hi: nat)
    ensures TakenAt(txids, [], [], lo, hi)
  {
  }

  lemma TakenLeaf(txids: seq<Hash>, pos: nat, matched: bool)
    requires pos < |txids|
    ensures TakenAt(txids, if matched then [pos] else [], if matched then [txids[pos]] else [], pos, pos + 1)
  {
  }

  lemma TakenBoth(txids: seq<Hash>, at: seq<nat>, m: seq<Hash>, at': seq<nat>, m': seq<Hash>, lo: nat, mid: nat, hi: nat)
    requires TakenAt(txids, at, m, lo, mid) && TakenAt(txids, at', m', mid, hi) && lo <= mid <= hi
    ensures TakenAt(txids, at + at', m + m', lo, hi)
  {
  }

  // ----- how many bits

  /** A node of which only the left child exists. */
  predicate Lone(n: nat, h: nat, pos: nat) {
    h > 0 && Exists(n, h, pos) && !Exists(n, h - 1, 2 * pos + 1)
  }

  /** How many such nodes the traversal descends from. */
  function LoneCount(r: Request, h: nat, pos: nat): nat
    requires r.Ok() && Exists(|r.txids|, h, pos)
    decreases h
  {
    if h == 0 || !ParentOfMatch(r, h, pos) then 0
    else
      Children(|r.txids|, h, pos);
      var left := LoneCount(r, h - 1, 2 * pos);
      if Lone(|r.txids|, h, pos) then left + 1 else left + LoneCount(r, h - 1, 2 * pos + 1)
  }

  /** The exact number of bits. */
  lemma {:induction false} BuildBits(node: NodeHash, r: Request, h: nat, pos: nat)
    requires r.Ok() && Exists(|r.txids|, h, pos)
    ensures var e := Build(node, r, h, pos); |e.bits| == 2 * |e.hashes| - 1 + LoneCount(r, h, pos)
    decreases h
  {
    hide Exists, Width, ParentOfMatch;
    if h > 0 && ParentOfMatch(r, h, pos) {
      Children(|r.txids|, h, pos);
      BuildBits(node, r, h - 1, 2 * pos);
      if pos * 2 + 1 < Width(|r.txids|, h - 1) {
        BuildBits(node, r, h - 1, 2 * pos + 1);
      }
    }
  }

  /** A node of a lower level that begins below another one also ends below it. */
  lemma Nested(n: nat, h: nat, pos: nat, g: nat, q: nat)
    requires g <= h && First(h, pos) <= First(g, q) < Last(n, h, pos)
    ensures Last(n, g, q) <= Last(n, h, pos)
    ensures g == h ==> q == pos
  {
    var p, u := Pow2(g), Pow2(h - g);
    var c := (pos + 1) * u;
    PowAdd(2, h - g, g);
    MulAssoc(pos + 1, u, p);
    WithinMultiple(n, q, c, p);
    if g == h { SameMultiple(q, pos, p); }
  }

  lemma WithinMultiple(n: nat, q: nat, c: nat, p: nat)
    requires q * p < n && q * p < c * p
    ensures (q + 1) * p <= c * p
  {
    if q >= c { MulMono(c, q, p); }
    NextMultiple(q, c, p);
  }

  lemma NextMultiple(q: nat, c: nat, p: nat)
    ensures q < c ==> (q + 1) * p <= c * p
  {
    if q < c { MulMono(q + 1, c, p); }
  }

  lemma SameMultiple(a: nat, b: nat, p: nat)
    requires p >= 1 && b * p <= a * p < (b + 1) * p
    ensures a == b
  {
    NextMultiple(a, b, p);
    if a > b { MulMono(b + 1, a, p); }
  }

  /** No wanted transaction is below a lone node of the subtree of `(h, pos)`. */
  ghost predicate NoLoneWanted(r: Request, h: nat, pos: nat)
    requires r.Ok()
  {
    forall g, q {:trigger Lone(|r.txids|, g, q)} ::
      0 < g <= h && Lone(|r.txids|, g, q) && First(h, pos) <= First(g, q) < Last(|r.txids|, h, pos) ==> !ParentOfMatch(r, g, q)
  }

  lemma {:induction false} LoneCountZero(r: Request, h: nat, pos: nat)
    requires r.Ok() && Exists(|r.txids|, h, pos)
    ensures LoneCount(r, h, pos) == 0 <==> NoLoneWanted(r, h, pos)
    decreases h
  {
    hide Exists, Width, Last, First;
    var n := |r.txids|;
    RangeOk(n, h, pos);
    if h > 0 {
      Children(n, h, pos);
      if !ParentOfMatch(r, h, pos) {
        forall g, q | 0 < g <= h && Lone(n, g, q) && First(h, pos) <= First(g, q) < Last(n, h, pos) ensures !ParentOfMatch(r, g, q) {
          Nested(n, h, pos, g, q);
        }
      } else {
        LoneCountZero(r, h - 1, 2 * pos);
        if !Lone(n, h, pos) { LoneCountZero(r, h - 1, 2 * pos + 1); }
        NoLoneParts(r, h, pos);
      }
    }
  }

  lemma NoLoneParts(r: Request, h: nat, pos: nat)
    requires r.Ok() && h > 0 && Exists(|r.txids|, h, pos) && ParentOfMatch(r, h, pos)
    ensures NoLoneWanted(r, h, pos) <==>
            !Lone(|r.txids|, h, pos) && NoLoneWanted(r, h - 1, 2 * pos) && NoLoneWanted(r, h - 1, 2 * pos + 1)
  {
    hide ParentOfMatch, Last, First, Exists;
    var n := |r.txids|;
    Children(n, h, pos);
    RangeOk(n, h, pos);
    if NoLoneWanted(r, h, pos) {
      NoLoneBelow(r, h, pos);
    } else if !Lone(n, h, pos) && NoLoneWanted(r, h - 1, 2 * pos) && NoLoneWanted(r, h - 1, 2 * pos + 1) {
      forall g, q | 0 < g <= h && Lone(n, g, q) && First(h, pos) <= First(g, q) < Last(n, h, pos) ensures !ParentOfMatch(r, g, q) {
        Nested(n, h, pos, g, q);
      }
    }
  }

  lemma NoLoneBelow(r: Request, h: nat, pos: nat)
    requires r.Ok() && h > 0 && Exists(|r.txids|, h, pos) && ParentOfMatch(r, h, pos) && NoLoneWanted(r, h, pos)
    ensures !Lone(|r.txids|, h, pos) && NoLoneWanted(r, h - 1, 2 * pos) && NoLoneWanted(r, h - 1, 2 * pos + 1)
  {
    hide ParentOfMatch, Exists;
    var n := |r.txids|;
    Children(n, h, pos);
    RangeOk(n, h, pos);
    assert First(h, pos) <= First(h, pos) < Last(n, h, pos);
    assert !Lone(n, h, pos);
    assert Exists(n, h - 1, 2 * pos + 1);
  }
}
