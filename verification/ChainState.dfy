/**
 The block index, the active chain and its coins as they change: header and data arrival, and best-chain
 activation (src/main.cpp).  A block is valid when its coins, nullifiers and anchors fit the chain it builds on
 and every other rule accepts it.  There are no system errors, no pruning and no manual invalidation.
 */
module ChainState {
  import opened BlockTree
  import opened SkipList
  import opened ActiveChain
  import opened ChainSelection
  import opened Linkage
  import Undo
  import Ledger
  import CoinsLayer
  import CoinsView
  import CoinsTip

  class State {
    const genesis: Ptr
    /** The verdict of ConnectBlock, given valid ancestors. */
    ghost const ok: Ptr -> bool
    const active: Chain
    /** pcoinsTip and the undo files. */
    const coins: CoinsTip.Tip

    var tree: Tree
    var st: Statuses
    /** Entries with BLOCK_FAILED_VALID, and with BLOCK_FAILED_CHILD, in `nStatus`. */
    var failedValid: set<Ptr>
    var failedChild: set<Ptr>
    /** setBlockIndexCandidates, mapBlocksUnlinked and nBlockSequenceId. */
    var candidates: set<Ptr>
    var unlinked: Waiting
    var nextSequenceId: nat
    /** Earlier states of the entries that are remembered. */
    ghost var seen: set<Statuses>

    function Failed(): set<Ptr>
      reads this
    {
      failedValid + failedChild
    }

    /** Holds between any two steps; `best` is the best tip so far (see ChainSelection.Selecting). */
    ghost predicate Activating(best: Ptr)
      reads this, active
    {
      && Linked(tree) && SkipsBuilt(tree) && active.Valid(tree) && tree.Keys == st.Keys && Known(tree, best)
      && Arriving(tree, st, Failed(), unlinked, [])
      && Selecting(tree, st, ok, Failed(), candidates, active.Tip(), best)
      && genesis != NULL && ok(genesis)
      && (forall p :: p in tree && tree[p].prev == NULL ==> p == genesis)
      && Failed() <= tree.Keys && candidates <= tree.Keys
      && nextSequenceId > 0 && Numbered(st, nextSequenceId) && History(seen, tree, st, unlinked, [])
    }

    /** Holds between calls: nothing better than the tip has been seen to connect. */
    ghost predicate Valid()
      reads this, active
    {
      Activating(active.Tip())
    }

    /** The coins are those of the active chain. */
    ghost predicate CoinsOk()
      reads active, coins, coins.coins, coins.coins.Repr
    {
      Tied() && coins.At(active.Tip())
    }

    /** A verdict is whether a chain leads to any coins at all. */
    ghost predicate Tied() {
      && active !in coins.Repr() && coins.rules.genesis == genesis
      && forall p :: p != NULL ==> (ok(p) <==> Ledger.LedgerOf(coins.rules, p).Balanced?)
    }

    /** The entries are those of the blocks behind their hashes. */
    ghost predicate Books()
      reads this`tree, this`st
    {
      this !in coins.Repr() && Fits(coins.rules, tree, st)
    }

    constructor (coins: CoinsTip.Tip)
      requires coins.At(NULL)
      ensures Valid() && CoinsOk() && Books() && fresh(active) && tree == map[] && this.coins == coins
    {
      hide History, LinkedLater, Numbered, CoinsTip.Tip.At, Ledger.RulesOk, Ledger.LedgerOf;
      AtStart(coins);
      NothingNumbered();
      NoHistory(map[], map[], map[], []);
      this.genesis, this.coins, ok := coins.rules.genesis, coins, (p: Ptr) => Ledger.LedgerOf(coins.rules, p).Balanced?;
      tree, st := map[], map[];
      failedValid, failedChild, candidates := {}, {}, {};
      unlinked, nextSequenceId, seen := map[], 1, {};
      active := new Chain();
    }

    /** Setting one failure mark and dropping the block as a candidate. */
    method MarkFailed(x: Ptr, child: bool, ghost best: Ptr)
      requires Activating(best) && x in tree && !Sound(tree, ok, x)
      requires st[x].haveData ==> HasChain(st, x)
      modifies this`failedValid, this`failedChild, this`candidates
      ensures Activating(best)
      ensures Failed() == old(Failed()) + {x} && candidates == old(candidates) - {x}
    {
      hide History, LinkedLater, Numbered, Arriving, Selecting, SkipsBuilt, Path, Sound;
      MarkKeepsArriving(tree, st, Failed(), unlinked, {x});
      FailKeeps(tree, st, ok, Failed(), candidates, active.Tip(), best, x);
      if child {
        failedChild := failedChild + {x};
      } else {
        failedValid := failedValid + {x};
      }
      candidates := candidates - {x};
      assert Failed() == old(Failed()) + {x};
    }

    /** Dropping a candidate that is already marked. */
    method EraseCandidate(x: Ptr, ghost best: Ptr)
      requires Activating(best) && x in Failed()
      modifies this`candidates
      ensures Activating(best) && candidates == old(candidates) - {x}
    {
      hide History, LinkedLater, Numbered, Arriving, SkipsBuilt, Sound, Path, Linked, Known, Selecting;
      MarkedIsUnsound(tree, st, ok, Failed(), candidates, active.Tip(), best, x);
      FailKeeps(tree, st, ok, Failed(), candidates, active.Tip(), best, x);
      assert Failed() + {x} == Failed();
      candidates := candidates - {x};
    }

    /** Remove the entire chain between the failed ancestor `x` and the candidate `m` from the set: everything above
        `x` is marked, and neither that nor `x` is a candidate. */
    method MarkFailedChain(m: Ptr, x: Ptr, ghost best: Ptr)
      requires Activating(best) && m in tree && HasChain(st, m) && x in Failed() && Ancestor(tree, x, m)
      modifies this`failedValid, this`failedChild, this`candidates
      ensures Activating(best)
      ensures Failed() == old(Failed()) + AboveOn(tree, m, x)
      ensures candidates == old(candidates) - AboveOn(tree, m, x) - {x} <= old(candidates) - {m}
    {
      hide History, LinkedLater, Numbered, Arriving, Selecting, SkipsBuilt;
      var f := m;
      NoneAbove(tree, m);
      while f != x
        invariant Activating(best) && f in tree && HasChain(st, f) && Ancestor(tree, x, f) && Ancestor(tree, f, m)
        invariant Failed() == old(Failed()) + AboveOn(tree, m, f) && candidates == old(candidates) - AboveOn(tree, m, f)
        decreases tree[f].height
      {
        ghost var g := f;
        f := MarkAndStep(x, f, best);
        OneMoreAbove(tree, m, g);
      }
      EraseCandidate(x, best);
      InAbove(tree, m, x);
    }

    method MarkAndStep(x: Ptr, f: Ptr, ghost best: Ptr) returns (next: Ptr)
      requires Activating(best) && f in tree && HasChain(st, f) && x in Failed() && Ancestor(tree, x, f) && x != f
      modifies this`failedValid, this`failedChild, this`candidates
      ensures Activating(best)
      ensures Failed() == old(Failed()) + {f} && candidates == old(candidates) - {f}
      ensures next in tree && HasChain(st, next) && Ancestor(tree, x, next) && tree[next].height < tree[f].height && next == tree[f].prev
    {
      NotSoundAbove(tree, ok, Failed(), x, f);
      ParentOnPath(tree, st, Failed(), unlinked, x, f);
      next := tree[f].prev;
      assert NodeLinked(tree, f);
      MarkFailed(f, true, best);
    }

    /** `FindMostWorkChain`: the best candidate whose path back to the active chain carries no failure
        mark.  Candidates with a failed ancestor are marked and dropped on the way. */
    method FindMostWorkChain(ghost best: Ptr) returns (m: Ptr)
      requires Activating(best)
      modifies this`failedValid, this`failedChild, this`candidates
      ensures Activating(best) && old(Failed()) <= Failed()
      ensures m == NULL ==> candidates == {}
      ensures m != NULL ==> m in tree && HasChain(st, m) && IsBest(tree, st, candidates, m) && Clean(tree, Failed(), m)
    {
      hide History, LinkedLater, Numbered, Arriving, Selecting, SkipsBuilt, Linked;
      while true
        invariant Activating(best) && old(Failed()) <= Failed()
        decreases candidates
      {
        if candidates == {} {
          return NULL;
        }
        m := BestCandidate(best);
        var usable := CheckCandidate(m, best);
        if usable {
          return m;
        }
      }
    }

    /** Check whether all blocks on the path between the active chain and the candidate are usable. */
    method CheckCandidate(m: Ptr, ghost best: Ptr) returns (usable: bool)
      requires Activating(best) && m in candidates && m in tree && HasChain(st, m)
      modifies this`failedValid, this`failedChild, this`candidates
      ensures Activating(best) && old(Failed()) <= Failed()
      ensures usable ==> Clean(tree, Failed(), m) && candidates == old(candidates)
      ensures !usable ==> candidates <= old(candidates) - {m}
    {
      hide History, LinkedLater, Numbered, Arriving, Selecting, SkipsBuilt;
      var test, failedChain := m, false;
      while test != NULL && !active.Contains(tree, test)
        invariant Known(tree, test) && CleanAbove(tree, Failed(), m, test)
        invariant test != NULL ==> Ancestor(tree, test, m) && HasChain(st, test)
        modifies {}
        decreases HeightOf(tree, test) + 1
      {
        if test in Failed() {
          failedChain := true;
          break;
        }
        StepDown(tree, st, Failed(), unlinked, m, test);
        test := tree[test].prev;
      }
      if failedChain {
        // Candidate chain is not usable: remove the entire chain from the set.
        MarkFailedChain(m, test, best);
        return false;
      }
      CleanBelowActive(m, test, best);
      return true;
    }

    /** The last element of the ordered candidate set. */
    method BestCandidate(ghost best: Ptr) returns (m: Ptr)
      requires Activating(best) && candidates != {}
      ensures m != NULL && m in candidates && m in tree && HasChain(st, m) && IsBest(tree, st, candidates, m)
    {
      ghost var b := BestExists(tree, st, candidates);
      m :| m in candidates && forall p :: p in candidates ==> !Worse(tree, st, m, p);
    }

    lemma CleanBelowActive(m: Ptr, test: Ptr, best: Ptr)
      requires Activating(best) && m in tree && Known(tree, test)
      requires test != NULL ==> Ancestor(tree, test, m) && active.Contains(tree, test)
      requires CleanAbove(tree, Failed(), m, test)
      ensures Clean(tree, Failed(), m)
    {
      var tip := active.Tip();
      SoundIsClean(tree, ok, Failed(), tip);
      forall a | a in Path(tree, m) ensures a !in Failed() {
        AncestorAtHeight(tree, a, m);
        if test != NULL && tree[a].height <= tree[test].height {
          AncestorAtHeight(tree, test, m);
          active.ContainsIsAncestry(tree, test);
          AncestorAtHeight(tree, test, tip);
          SharedPrefix(tree, m, tip, tree[test].height);
          assert a == Path(tree, m)[..tree[test].height + 1][tree[a].height];
          assert a in Path(tree, tip);
        }
      }
    }

    /** `PruneBlockIndexCandidates`: walk the ordered set from its worst element up to the tip. */
    method PruneBlockIndexCandidates()
      requires Linked(tree) && tree.Keys == st.Keys && active.Tip() in tree && candidates <= tree.Keys
      modifies this`candidates
      ensures candidates == set c | c in old(candidates) && AtLeast(tree, st, c, active.Tip())
    {
      while candidates != {}
        invariant candidates <= old(candidates)
        invariant forall c :: c in old(candidates) && AtLeast(tree, st, c, active.Tip()) ==> c in candidates
        decreases candidates
      {
        ghost var w := WorstExists(tree, st, candidates);
        var c :| c in candidates && forall p :: p in candidates ==> !Worse(tree, st, p, c);
        if !Worse(tree, st, c, active.Tip()) {
          assert forall p :: p in candidates ==> !Worse(tree, st, p, c) && AtLeast(tree, st, p, active.Tip());
          break;
        }
        candidates := candidates - {c};
      }
    }

    /** `DisconnectTip`.  The genesis block is never disconnected. */
    method DisconnectTip(ghost best: Ptr)
      requires Activating(best) && CoinsOk() && Books() && active.Tip() != NULL && tree[active.Tip()].prev != NULL
      modifies active, coins.Repr()
      ensures Activating(best) && CoinsOk() && active.Tip() == tree[old(active.Tip())].prev
    {
      hide History, LinkedLater, Numbered, CoinsTip.Tip.At, Ledger.LedgerOf;
      var tip := active.Tip();
      assert NodeLinked(tree, tip) && EntryOk(tree, st, Failed(), unlinked, [], tip);
      DisconnectKeeps(tree, st, ok, Failed(), candidates, tip, best);
      FitsOne(coins.rules, tree, st, tip);
      coins.Disconnect(tip);
      active.SetTip(tree, tree[tip].prev);
    }

    /** `ConnectTip` on the next block, and `PruneBlockIndexCandidates` or `InvalidBlockFound`.
        A block that fails is never the genesis block, so there is a tip to report. */
    method ConnectTip(x: Ptr, ghost best: Ptr) returns (connected: bool, ghost best': Ptr)
      requires Activating(best) && CoinsOk() && Books() && x in tree && tree[x].prev == active.Tip() && HasChain(st, x)
      modifies this`failedValid, this`failedChild, this`candidates, active, coins.Repr()
      ensures connected == ok(x) && CoinsOk()
      ensures connected ==> active.Tip() == x && Failed() == old(Failed()) && best' == Better(tree, st, best, x) && candidates != {}
      ensures !connected ==> active.Tip() == old(active.Tip()) && best' == best && active.Tip() != NULL
      ensures !connected ==> Failed() == old(Failed()) + {x}
      ensures candidates <= old(candidates)
      ensures Activating(best') && AtLeast(tree, st, best', best)
    {
      hide History, LinkedLater, Numbered, CoinsTip.Tip.At, Ledger.LedgerOf, Undo.TxsWellFormed, State.Tied, Arriving, Selecting, SkipsBuilt, Path, Sound, Fits, Worse;
      NextFits(x, best);
      connected := coins.Connect(x);
      if connected {
        best' := MakeTip(x, best);
      } else {
        best' := best;
        RefutedByTip(tree, ok, x);
        AtLeastReflexive(tree, st, best);
        MarkFailed(x, false, best);
      }
    }

    /** The next block is one the coins can be moved on to. */
    lemma NextFits(x: Ptr, best: Ptr)
      requires Activating(best) && Tied() && Books() && x in tree && tree[x].prev == active.Tip() && HasChain(st, x)
      ensures var r := coins.rules;
              && x != NULL && active !in coins.Repr() && r.genesis == genesis && (ok(x) <==> Ledger.LedgerOf(r, x).Balanced?)
              && (x == genesis <==> active.Tip() == NULL) && ok(genesis)
              && (x != genesis ==> Ledger.Follows(r, x) && r.block(x).prev == active.Tip())
              && (x != genesis ==> Undo.TxsWellFormed(r.block(x).vtx) && r.block(x).vtx != [])
      ensures st[x].haveData
    {
      hide History, LinkedLater, Numbered, Ledger.LedgerOf, Undo.TxsWellFormed, Selecting, SkipsBuilt, Path, Fits;
      assert NodeLinked(tree, x) && EntryOk(tree, st, Failed(), unlinked, [], x);
      FitsOne(coins.rules, tree, st, x);
    }

    /** `UpdateTip`, then `PruneBlockIndexCandidates`. */
    method MakeTip(x: Ptr, ghost best: Ptr) returns (ghost best': Ptr)
      requires Activating(best) && x in tree && tree[x].prev == active.Tip() && HasChain(st, x) && ok(x)
      modifies this`candidates, active
      ensures active.Tip() == x && best' == Better(tree, st, best, x) && candidates != {} && candidates <= old(candidates)
      ensures Activating(best') && AtLeast(tree, st, best', best)
    {
      active.SetTip(tree, x);
      PruneBlockIndexCandidates();
      best' := Better(tree, st, best, x);
      ConnectKeeps(tree, st, ok, Failed(), old(candidates), old(active.Tip()), best, x, candidates);
    }

    /** The blocks above `height` on the path of `m`, up to `target`, highest first. */
    method BlocksToConnect(m: Ptr, height: int, target: nat) returns (list: seq<Ptr>)
      requires Linked(tree) && SkipsBuilt(tree) && m in tree && -1 <= height <= target <= tree[m].height
      ensures |list| == target - height
      ensures forall i :: 0 <= i < |list| ==> list[i] == PathAt(tree, m, target - i)
    {
      list := [];
      var iter;
      ghost var turns;
      iter, turns := GetAncestor(tree, m, target);
      while iter != NULL && tree[iter].height != height
        invariant |list| <= target - height
        invariant iter == if |list| > target then NULL else Path(tree, m)[target - |list|]
        invariant forall i :: 0 <= i < |list| ==> list[i] == Path(tree, m)[target - i]
        decreases target - |list|
      {
        PrevOnPath(tree, m, target - |list|);
        list := list + [iter];
        iter := tree[iter].prev;
      }
    }

    /** Connect the block at height `h` on the way to `m`. */
    method ConnectNext(m: Ptr, x: Ptr, ghost h: nat, ghost best: Ptr) returns (connected: bool, ghost best': Ptr)
      requires Activating(best) && CoinsOk() && Books() && OnTheWay(m) && h <= tree[m].height && x == PathAt(tree, m, h)
      requires active.Tip() == PathAt(tree, m, h - 1)
      modifies this`failedValid, this`failedChild, this`candidates, active, coins.Repr()
      ensures Activating(best') && CoinsOk() && AtLeast(tree, st, best', best) && candidates <= old(candidates)
      ensures connected ==> Failed() == old(Failed()) && active.Tip() == PathAt(tree, m, h) && OnTheWay(m)
      ensures !connected ==> Failed() > old(Failed())
    {
      hide History, LinkedLater, Numbered, State.CoinsOk, Fits;
      AncestorChains(tree, st, Failed(), unlinked, m, h);
      assert x in Path(tree, m);
      connected, best' := ConnectTip(x, best);
    }

    /** `m` is a candidate none of whose ancestors is marked. */
    ghost predicate OnTheWay(m: Ptr)
      requires Linked(tree)
      reads this
    {
      m in tree && m in st && HasChain(st, m) && Clean(tree, Failed(), m)
    }

    predicate Improved(oldTip: Ptr)
      reads this, active
    {
      active.Tip() in tree && (oldTip in tree ==> tree[active.Tip()].work > tree[oldTip].work)
    }

    /** Connect a batch of blocks, lowest first, until one fails or the tip has more work than before. */
    method ConnectBatch(m: Ptr, list: seq<Ptr>, target: nat, oldTip: Ptr, ghost best: Ptr)
      returns (invalidFound: bool, improved: bool, ghost best': Ptr)
      requires Activating(best) && CoinsOk() && Books() && OnTheWay(m)
      requires |list| <= target + 1 && target <= tree[m].height
      requires forall i :: 0 <= i < |list| ==> list[i] == PathAt(tree, m, target - i)
      requires active.Tip() == PathAt(tree, m, target - |list|)
      modifies this`failedValid, this`failedChild, this`candidates, active, coins.Repr()
      ensures Activating(best') && CoinsOk() && AtLeast(tree, st, best', best) && candidates <= old(candidates)
      ensures !invalidFound ==> Failed() == old(Failed()) && OnTheWay(m)
      ensures invalidFound ==> Failed() > old(Failed())
      ensures improved ==> Improved(oldTip)
      ensures !invalidFound && !improved ==> active.Tip() == PathAt(tree, m, target)
    {
      hide History, LinkedLater, Numbered, Arriving, Selecting, SkipsBuilt, Path, AtLeast, PathAt, Clean, Linked, Known, HasChain, State.CoinsOk, Fits;
      AtLeastReflexive(tree, st, best);
      best', invalidFound, improved := best, false, false;
      var i := |list|;
      while i > 0
        invariant 0 <= i <= |list|
        invariant Activating(best') && CoinsOk() && AtLeast(tree, st, best', best) && OnTheWay(m)
        invariant Failed() == old(Failed()) && candidates <= old(candidates)
        invariant active.Tip() == PathAt(tree, m, target - i)
      {
        i := i - 1;
        ghost var prior := best';
        var connected;
        connected, best' := ConnectNext(m, list[i], target - i, best');
        AtLeastTransitive(tree, st, best', prior, best);
        if !connected {
          // The block violates a consensus rule.
          invalidFound := true;
          return;
        }
        if Improved(oldTip) {
          // We're in a better position than we were. Return temporarily to release the lock.
          improved := true;
          return;
        }
      }
    }

    /** Disconnect active blocks which are no longer in the best chain, down to the fork with `m`. */
    method DisconnectToFork(m: Ptr, ghost best: Ptr) returns (height: int)
      requires Activating(best) && CoinsOk() && Books() && OnTheWay(m)
      modifies active, coins.Repr()
      ensures Activating(best) && CoinsOk() && -1 <= height <= tree[m].height && active.Tip() == PathAt(tree, m, height)
    {
      hide History, LinkedLater, Numbered, Arriving, Selecting, SkipsBuilt, State.CoinsOk, Fits;
      var fork := active.FindFork(tree, m);
      SameGenesis(m, fork, best);
      while active.Tip() != NULL && active.Tip() != fork
        invariant Activating(best) && CoinsOk()
        invariant fork == NULL ==> active.Tip() == NULL
        invariant fork != NULL ==> active.Tip() in tree && Ancestor(tree, fork, active.Tip())
        modifies active, coins.Repr()
        decreases HeightOf(tree, active.Tip())
      {
        PathEnds(tree, fork, active.Tip());
        DisconnectTip(best);
      }
      height := HeightOf(tree, fork);
    }

    /** All chains begin with the genesis block, so they fork from each other somewhere. */
    lemma SameGenesis(m: Ptr, fork: Ptr, best: Ptr)
      requires Activating(best) && m in tree && Known(tree, fork)
      requires forall q :: q in tree && active.Contains(tree, q) && Ancestor(tree, q, m) ==> tree[q].height <= HeightOf(tree, fork)
      ensures fork == NULL ==> active.Tip() == NULL
    {
      hide History, LinkedLater, Numbered, Arriving, Selecting, SkipsBuilt;
      if active.Tip() != NULL {
        var root := Path(tree, m)[0];
        Roots(tree, genesis, m);
        Roots(tree, genesis, active.Tip());
        active.ContainsIsAncestry(tree, root);
        assert tree[root].height <= HeightOf(tree, fork);
      }
    }

    /** `ActivateBestChainStep`: make some progress towards making `m` the active block. */
    method ActivateBestChainStep(m: Ptr, ghost best: Ptr) returns (invalidFound: bool, ghost best': Ptr)
      requires Activating(best) && CoinsOk() && Books() && OnTheWay(m)
      modifies this`failedValid, this`failedChild, this`candidates, active, coins.Repr()
      ensures Activating(best') && CoinsOk() && AtLeast(tree, st, best', best) && candidates <= old(candidates)
      ensures invalidFound ==> Failed() > old(Failed())
      ensures !invalidFound ==> Failed() == old(Failed())
      ensures !invalidFound && active.Tip() != m ==> Improved(old(active.Tip()))
    {
      hide History, LinkedLater, Numbered, Arriving, Selecting, SkipsBuilt, Path, AtLeast, PathAt, Clean, Linked, Known, HasChain, State.CoinsOk, Fits;
      AtLeastReflexive(tree, st, best);
      best', invalidFound := best, false;
      var oldTip := active.Tip();
      var height := DisconnectToFork(m, best);
      var goOn := true;
      while goOn && height != tree[m].height
        invariant -1 <= height <= tree[m].height
        invariant Activating(best') && CoinsOk() && AtLeast(tree, st, best', best) && candidates <= old(candidates)
        invariant invalidFound ==> Failed() > old(Failed())
        invariant !invalidFound ==> Failed() == old(Failed())
        invariant goOn ==> !invalidFound && active.Tip() == PathAt(tree, m, height) && OnTheWay(m)
        invariant !goOn && !invalidFound ==> Improved(oldTip)
        decreases goOn, tree[m].height - height
      {
        // Don't iterate the entire list of potential improvements toward the best tip.
        var target := if height + 32 <= tree[m].height then height + 32 else tree[m].height;
        var list := BlocksToConnect(m, height, target);
        height := target;
        var improved;
        ghost var prior := best';
        invalidFound, improved, best' := ConnectBatch(m, list, target, oldTip, best');
        AtLeastTransitive(tree, st, best', prior, best);
        goOn := !invalidFound && !improved;
      }
      PathTop(tree, m);
    }

    /** Blocks with more work than the tip. */
    ghost function Ahead(): set<Ptr>
      requires Known(tree, active.Tip())
      reads this, active
    {
      set p | p in tree && (active.Tip() == NULL || tree[p].work > tree[active.Tip()].work)
    }

    /** `ActivateBestChain`.  It terminates: every step either marks a block as failed or leaves fewer
        blocks ahead of the tip.  It ends on the best sound chain there is, and never on a worse one
        than it started from, even when a reorganisation fails midway. */
    method ActivateBestChain()
      requires Valid() && CoinsOk() && Books()
      modifies this`failedValid, this`failedChild, this`candidates, active, coins.Repr()
      ensures Valid() && CoinsOk() && old(Failed()) <= Failed()
      ensures AtLeast(tree, st, active.Tip(), old(active.Tip()))
      ensures Connectable(tree, st, ok, active.Tip())
      ensures forall p :: p in tree && HasChain(st, p) && Sound(tree, ok, p) ==> AtLeast(tree, st, active.Tip(), p)
      // In terms of work and order of arrival.
      ensures forall p :: p in tree && HasChain(st, p) && Sound(tree, ok, p) && p != active.Tip() ==> Beats(active.Tip(), p)
      ensures old(active.Tip()) != NULL && active.Tip() != old(active.Tip()) ==> Beats(active.Tip(), old(active.Tip()))
    {
      hide History, LinkedLater, Numbered, Arriving, Selecting, SkipsBuilt, Path, AtLeast, Clean, Sound, Worse, State.CoinsOk, Fits;
      TipIsLinked();
      ghost var best := active.Tip();
      AtLeastReflexive(tree, st, best);
      while true
        invariant Activating(best) && CoinsOk() && AtLeast(tree, st, best, old(active.Tip())) && old(Failed()) <= Failed()
        decreases tree.Keys - Failed(), Ahead()
      {
        ghost var marked, ahead, tip := Failed(), Ahead(), active.Tip();
        var m := FindMostWorkChain(best);
        // Whether we have anything to do at all.
        if m == NULL {
          Unsettleable(best);
          TipIsAhead(old(active.Tip()));
          return;
        }
        if m == active.Tip() {
          Settle(best);
          TipIsAhead(old(active.Tip()));
          return;
        }
        ghost var prior := best;
        var invalidFound;
        invalidFound, best := ActivateBestChainStep(m, best);
        AtLeastTransitive(tree, st, best, prior, old(active.Tip()));
        if m == active.Tip() {
          Settle(best);
          TipIsAhead(old(active.Tip()));
          return;
        }
        if Failed() == marked {
          assert active.Tip() in ahead && active.Tip() !in Ahead() && Ahead() <= ahead;
        } else {
          assert tree.Keys - Failed() < tree.Keys - marked;
        }
      }
    }

    /** More work, or the same work and received earlier. */
    ghost predicate Beats(a: Ptr, b: Ptr)
      reads this
    {
      a in tree && b in tree && a in st && b in st &&
      (tree[a].work > tree[b].work || (tree[a].work == tree[b].work && st[a].sequenceId < st[b].sequenceId))
    }

    lemma TipIsAhead(oldTip: Ptr)
      requires Valid() && Settled() && Known(tree, oldTip) && AtLeast(tree, st, active.Tip(), oldTip)
      requires oldTip != NULL ==> HasChain(st, oldTip)
      ensures forall p :: p in tree && HasChain(st, p) && Sound(tree, ok, p) && p != active.Tip() ==> Beats(active.Tip(), p)
      ensures oldTip != NULL && active.Tip() != oldTip ==> Beats(active.Tip(), oldTip)
    {
      hide History, Numbered, Arriving, SkipsBuilt, Path, AtLeast, Worse, Sound;
      var tip := active.Tip();
      TipIsLinked();
      forall p | p in tree && HasChain(st, p) && p != tip && AtLeast(tree, st, tip, p) ensures Beats(tip, p) {
        NullIsWorst(tree, st, p, tip);
        LinkedHasNumber(tip);
        BetterMeans(tree, st, nextSequenceId, tip, p);
      }
    }

    lemma LinkedHasNumber(p: Ptr)
      requires Valid() && p in tree && HasChain(st, p)
      ensures st[p].sequenceId != 0
    {
      assert EntryOk(tree, st, Failed(), unlinked, [], p);
    }

    lemma Settle(best: Ptr)
      requires Activating(best) && active.Tip() != NULL
      requires forall p :: p in candidates ==> !Worse(tree, st, active.Tip(), p)
      ensures active.Tip() == best && Connectable(tree, st, ok, best)
      ensures forall p :: p in tree && HasChain(st, p) && Sound(tree, ok, p) ==> AtLeast(tree, st, active.Tip(), p)
    {
      assert best in candidates && best == active.Tip();
      BestCandidateSettles(tree, st, ok, Failed(), candidates, active.Tip(), best);
    }

    lemma Unsettleable(best: Ptr)
      requires Activating(best) && candidates == {}
      ensures active.Tip() == NULL == best && Connectable(tree, st, ok, best)
      ensures forall p :: p in tree && HasChain(st, p) ==> !Sound(tree, ok, p)
    {
      forall p | p in tree && HasChain(st, p) && Sound(tree, ok, p) ensures false {
        SoundIsClean(tree, ok, Failed(), p);
        assert Viable(tree, st, Failed(), p);
      }
    }

    /** A header hangs together with the block behind its hash. */
    ghost predicate HeaderFits(p: Ptr, prev: Ptr) {
      p != NULL && p != genesis ==>
        && coins.rules.block(p).hash == p && coins.rules.block(p).prev == prev
        && coins.rules.block(p).height == coins.rules.block(prev).height + 1
    }

    /** `AddToBlockIndex`: a known hash changes nothing; a new header becomes a leaf without data.  The genesis block has
        no parent. */
    method AddToBlockIndex(p: Ptr, prev: Ptr, proof: nat)
      requires Valid() && Books() && p != NULL && proof > 0 && HeaderFits(p, prev) && coins.rules.genesis == genesis
      requires p !in tree ==> (p == genesis <==> prev !in tree)
      modifies this`tree, this`st
      ensures Valid() && Books()
      ensures p in old(tree) ==> tree == old(tree) && st == old(st)
      ensures p !in old(tree) ==> tree.Keys == old(tree.Keys) + {p} && Extends(old(tree), tree)
      ensures p !in old(tree) && prev in old(tree) ==> tree[p].prev == prev && tree[p].work == tree[prev].work + proof
      ensures p !in old(tree) ==> st == old(st)[p := Status(0, 0, false, 0)]
    {
      if p in tree {
        return;
      }
      hide History, LinkedLater, Numbered, Arriving, Selecting, SkipsBuilt, Path, Undo.TxsWellFormed;
      var parent := if prev in tree then prev else NULL;
      var skip := BuildSkip(tree, parent);
      var n := if parent == NULL then Node(NULL, 0, proof, skip)
               else Node(parent, tree[parent].height + 1, tree[parent].work + proof, skip);
      LeafFits(coins.rules, tree, st, p, n);
      AddLeaf(p, n);
    }

    method AddLeaf(p: Ptr, n: Node)
      requires Valid() && IsLeafFor(tree, p, n) && (n.prev == NULL ==> p == genesis)
      modifies this`tree, this`st
      ensures Valid()
      ensures tree == old(tree)[p := n] && st == old(st)[p := Status(0, 0, false, 0)] && Extends(old(tree), tree)
    {
      hide History, LinkedLater, Numbered, Arriving, Selecting, SkipsBuilt, Path;
      LeafKeepsSkips(tree, p, n);
      UnlinkedNumbered(st, p, Status(0, 0, false, 0), nextSequenceId);
      HeaderKeepsHistory(seen, tree, st, unlinked, p, n);
      HeaderKeepsArriving(tree, st, Failed(), unlinked, p, n);
      HeaderKeeps(tree, st, ok, Failed(), candidates, active.Tip(), p, n);
      PathExtends(tree, tree[p := n], active.Tip());
      tree := tree[p := n];
      st := st[p := Status(0, 0, false, 0)];
    }

    /** As `Valid`, while the blocks in `queue` are being linked. */
    ghost predicate Linking(queue: seq<Ptr>)
      reads this, active
    {
      && Linked(tree) && SkipsBuilt(tree) && active.Valid(tree) && tree.Keys == st.Keys
      && Arriving(tree, st, Failed(), unlinked, queue)
      && Selecting(tree, st, ok, Failed(), candidates, active.Tip(), active.Tip())
      && genesis != NULL && ok(genesis)
      && (forall p :: p in tree && tree[p].prev == NULL ==> p == genesis)
      && Failed() <= tree.Keys && candidates <= tree.Keys
      && nextSequenceId > 0 && Numbered(st, nextSequenceId) && History(seen, tree, st, unlinked, queue)
    }

    /** Entries that already had a chain keep every field, their sequence number among them. */
    twostate predicate LinkedKept()
      reads this
    {
      tree == old(tree) && st.Keys == old(st.Keys) && forall p :: p in st && HasChain(old(st), p) ==> st[p] == old(st)[p]
    }

    ghost function Unlinked(): set<Ptr>
      reads this
    {
      set p | p in st && !HasChain(st, p)
    }

    /** One turn of the linking loop. */
    method LinkFront(queue: seq<Ptr>) returns (rest: seq<Ptr>)
      requires Linking(queue) && queue != []
      modifies this`st, this`unlinked, this`candidates, this`nextSequenceId
      ensures Linking(rest) && LinkedKept() && old(candidates) <= candidates && SameData(old(st), st)
      ensures Unlinked() < old(Unlinked()) && NewlyNumbered(old(st), st, old(nextSequenceId)) && nextSequenceId >= old(nextSequenceId)
    {
      hide History, LinkedLater, SkipsBuilt, Path, Selecting, Arriving, Worse, EqualRange, Numbered;
      var x := queue[0];
      rest := queue[1..];
      FrontIsPending(tree, st, Failed(), unlinked, queue);
      var s := LinkedStatus(tree, st, x, nextSequenceId);
      LinkStepKeeps(tree, st, Failed(), unlinked, queue, nextSequenceId);
      LinkKeeps(tree, st, ok, Failed(), candidates, active.Tip(), x, s);
      LinkedNumbered(st, x, s, nextSequenceId);
      LinkKeepsHistory(seen, tree, st, Failed(), unlinked, queue, nextSequenceId);
      st := st[x := s];
      nextSequenceId := nextSequenceId + 1;
      if active.Tip() == NULL || !Worse(tree, st, x, active.Tip()) {
        candidates := candidates + {x};
      }
      rest := rest + EqualRange(unlinked, x);
      unlinked := unlinked - {x};
      assert x in old(Unlinked()) && x !in Unlinked();
    }

    /** The first part of `ReceivedBlockTransactions`: the data of `p` is there, and the block waits or can be linked. */
    method TakeData(p: Ptr, nTx: nat) returns (queue: seq<Ptr>)
      requires Valid() && p in tree && !st[p].haveData && p !in Failed() && nTx > 0
      modifies this`st, this`unlinked
      ensures Linking(queue) && Received(old(st), st, p, nTx, nextSequenceId)
    {
      hide History, Numbered, NewlyNumbered, Arriving, Selecting, SkipsBuilt, Path;
      Unready(p);
      UnlinkedNumbered(st, p, Status(nTx, 0, true, 0), nextSequenceId);
      DataKeepsHistory(seen, tree, st, Failed(), unlinked, p, nTx);
      DataKeepsArriving(tree, st, Failed(), unlinked, p, nTx);
      UnlinkedKeeps(tree, st, ok, Failed(), candidates, active.Tip(), p, Status(nTx, 0, true, 0));
      NoneNewly(st, p, Status(nTx, 0, true, 0), nextSequenceId);
      queue := DataQueue(tree, st, p);
      unlinked := DataWaiting(tree, st, Failed(), unlinked, p);
      st := st[p := Status(nTx, 0, true, 0)];
    }

    /** `ReceivedBlockTransactions`: the data of `p` arrives and everything that waited for it is linked, with numbers that
        have not been given before. */
    method ReceivedBlockTransactions(p: Ptr, nTx: nat)
      requires Valid() && p in tree && !st[p].haveData && p !in Failed() && nTx > 0
      modifies this`st, this`unlinked, this`candidates, this`nextSequenceId
      ensures Valid() && LinkedKept() && old(candidates) <= candidates
      ensures SameData(old(st)[p := Status(nTx, 0, true, 0)], st)
      ensures NewlyNumbered(old(st), st, old(nextSequenceId))
    {
      hide History, Numbered, NewlyNumbered, Arriving, Selecting, SkipsBuilt, Path;
      var queue := TakeData(p, nTx);
      while queue != []
        invariant Linking(queue) && old(candidates) <= candidates && nextSequenceId >= old(nextSequenceId)
        invariant Received(old(st), st, p, nTx, old(nextSequenceId))
        decreases Unlinked()
      {
        ghost var st1, next1 := st, nextSequenceId;
        queue := LinkFront(queue);
        ReceivedStep(old(st), st1, st, p, nTx, old(nextSequenceId), next1);
      }
    }

    lemma TipIsLinked()
      requires Valid()
      ensures active.Tip() != NULL ==> active.Tip() in st && HasChain(st, active.Tip())
    {
    }

    lemma Unready(p: Ptr)
      requires Valid() && p in tree && !st[p].haveData
      ensures !HasChain(st, p) && st[p].nTx == 0
    {
      assert EntryOk(tree, st, Failed(), unlinked, [], p);
    }

    /** The tip is at least as good as every block whose whole chain is there and connects. */
    ghost predicate Settled()
      requires Linked(tree) && tree.Keys == st.Keys && Known(tree, active.Tip())
      reads this, active
    {
      forall p :: p in tree && HasChain(st, p) && Sound(tree, ok, p) ==> AtLeast(tree, st, active.Tip(), p)
    }

    /** The state as a value. */
    function Snap(): Snapshot
      reads this, active
    {
      Snapshot(tree, st, Failed(), active.Tip())
    }

    /** `AcceptBlockHeader`; `headerOk` stands for CheckBlockHeader and ContextualCheckBlockHeader. */
    method AcceptBlockHeader(p: Ptr, prev: Ptr, proof: nat, headerOk: bool) returns (accepted: bool)
      requires Valid() && Books() && p != NULL && proof > 0 && HeaderFits(p, prev) && coins.rules.genesis == genesis
      modifies this`tree, this`st
      ensures Valid() && Books() && Grew(old(tree), old(st), tree, st)
      ensures accepted <==> Acceptable(genesis, old(Snap()), p, prev, headerOk)
      ensures accepted ==> p in tree && p !in Failed()
      ensures tree.Keys == old(tree.Keys) + if accepted then {p} else {}
      ensures HeaderOnly(old(st), st)
    {
      hide History, LinkedLater, Numbered, Arriving, Selecting, SkipsBuilt, Linked, Known, Fits;
      GrewReflexive(tree, st);
      if p in tree {
        return p !in Failed();
      }
      if !headerOk || (p != genesis && (prev !in tree || prev in Failed())) {
        return false;
      }
      GenesisFirst();
      AddToBlockIndex(p, if p == genesis then NULL else prev, proof);
      HeaderLinksNone(old(st), st);
      return true;
    }

    lemma GenesisFirst()
      requires Valid()
      ensures NULL !in tree
    {
    }

    /** The second half of `AcceptBlock`: a block that ContextualCheckBlock refuses is marked, any other one stored. */
    method StoreBlock(p: Ptr, contextOk: bool, nTx: nat)
      requires Valid() && CoinsOk() && Books() && p in tree && !st[p].haveData && p !in Failed()
      requires nTx > 0 && BlockFits(p, contextOk)
      modifies this`st, this`unlinked, this`candidates, this`nextSequenceId, this`failedValid, this`failedChild
      ensures Valid() && Books() && Grew(old(tree), old(st), tree, st)
      ensures if contextOk then SameData(old(st)[p := Status(nTx, 0, true, 0)], st) && Failed() == old(Failed())
              else st == old(st) && Failed() == old(Failed()) + {p}
    {
      hide History, LinkedLater, Numbered, Arriving, Selecting, SkipsBuilt, Path, State.CoinsOk, Fits, Undo.TxsWellFormed;
      GenesisOfCoins();
      Unready(p);
      if !contextOk {
        Refuted(p);
        MarkFailed(p, false, active.Tip());
        GrewReflexive(tree, st);
      } else {
        ghost var next := nextSequenceId;
        ReceivedBlockTransactions(p, nTx);
        DataFits(coins.rules, tree, old(st), st, p);
        NumberedLater(old(st), st, next);
      }
    }

    /** `AcceptBlock` on a block that has passed CheckBlock; `contextOk` stands for ContextualCheckBlock, one of the rules
        that are not about coins.  An unrequested block is not processed unless it has more work than the tip and is not
        too far ahead. */
    method AcceptBlock(p: Ptr, prev: Ptr, proof: nat, headerOk: bool, contextOk: bool, nTx: nat, requested: bool) returns (r: bool)
      requires Valid() && CoinsOk() && Books() && p != NULL && proof > 0 && HeaderFits(p, prev)
      requires nTx > 0 && BlockFits(p, contextOk)
      modifies this`tree, this`st, this`unlinked, this`candidates, this`nextSequenceId, this`failedValid, this`failedChild
      ensures Valid() && Books() && Grew(old(tree), old(st), tree, st) && (!r ==> HeaderOnly(old(st), st))
      ensures Stores(genesis, old(Snap()), p, prev, headerOk, contextOk, nTx, requested, Snap(), r)
    {
      hide History, LinkedLater, Numbered, State.Valid, State.CoinsOk, Fits, Undo.TxsWellFormed, Stores, HeaderOnly, State.BlockFits, Wanted;
      GenesisOfCoins();
      var accepted := AcceptBlockHeader(p, prev, proof, headerOk);
      ghost var s := Snap();
      TipIsKnown();
      if !accepted {
        r := false;
      } else if st[p].haveData {
        r := true;
      } else {
        r := true;
        var wanted := IsWanted(p, requested);
        if wanted {
          StoreBlock(p, contextOk, nTx);
          GrewTransitive(old(tree), old(st), s.tree, s.st, tree, st);
          r := contextOk;
        }
      }
      Stored(genesis, old(Snap()), s, p, prev, headerOk, contextOk, nTx, requested, Snap(), r);
    }

    /** The tests of `AcceptBlock` on a block without data. */
    method IsWanted(p: Ptr, requested: bool) returns (wanted: bool)
      requires Valid() && p in tree && !st[p].haveData
      ensures Known(tree, active.Tip()) && wanted == Wanted(tree, active.Tip(), p, requested)
    {
      hide History, LinkedLater, Numbered, Arriving, Selecting, SkipsBuilt, Path;
      Unready(p);
      var hasMoreWork := active.Tip() == NULL || tree[p].work > tree[active.Tip()].work;
      var tooFarAhead := tree[p].height > active.Height() + MIN_BLOCKS_TO_KEEP;
      wanted := requested || (st[p].nTx == 0 && hasMoreWork && !tooFarAhead);
    }

    lemma TipIsKnown()
      requires Valid()
      ensures Known(tree, active.Tip()) && tree.Keys == st.Keys
    {
    }

    lemma GenesisOfCoins()
      requires CoinsOk()
      ensures coins.rules.genesis == genesis
    {
    }

    /** What CheckBlock has established, and what a refusal by ContextualCheckBlock means. */
    ghost predicate BlockFits(p: Ptr, contextOk: bool) {
      && (p != genesis ==> Undo.TxsWellFormed(coins.rules.block(p).vtx) && coins.rules.block(p).vtx != [])
      && (!contextOk ==> p != genesis && !coins.rules.others(p))
    }

    lemma Refuted(p: Ptr)
      requires Valid() && CoinsOk() && p in tree && p != genesis && !coins.rules.others(p)
      ensures !Sound(tree, ok, p)
    {
      hide History, LinkedLater, Numbered, CoinsTip.Tip.At, Arriving, Selecting, SkipsBuilt;
      NotBalanced(coins.rules, p);
      RefutedByTip(tree, ok, p);
    }

    /** `ProcessNewBlock`: check the block, accept it, then make the best chain active.  A block that is refused
        activates nothing. */
    method ProcessNewBlock(p: Ptr, prev: Ptr, proof: nat, headerOk: bool, checkOk: bool, contextOk: bool, nTx: nat, requested: bool) returns (r: bool)
      requires Valid() && CoinsOk() && Books() && p != NULL && proof > 0 && HeaderFits(p, prev)
      requires checkOk ==> nTx > 0 && BlockFits(p, contextOk)
      modifies this`tree, this`st, this`unlinked, this`candidates, this`nextSequenceId, this`failedValid, this`failedChild, active, coins.Repr()
      ensures Valid() && CoinsOk() && Books() && Grew(old(tree), old(st), tree, st)
      ensures AtLeast(tree, st, active.Tip(), old(active.Tip())) && old(Failed()) <= Failed()
      ensures !checkOk ==> !r && Snap() == old(Snap())
      ensures checkOk ==> Stores(genesis, old(Snap()), p, prev, headerOk, contextOk, nTx, requested, Snap(), r)
      ensures r ==> Settled()
      ensures !r ==> active.Tip() == old(active.Tip())
      ensures old(Settled()) ==> Settled()
    {
      hide History, LinkedLater, Numbered, Arriving, Selecting, SkipsBuilt, Path, AtLeast, Sound, State.CoinsOk, Fits, Undo.TxsWellFormed;
      GrewReflexive(tree, st);
      AtLeastReflexive(tree, st, active.Tip());
      TipIsLinked();
      if !checkOk {
        return false;
      }
      r := AcceptBlock(p, prev, proof, headerOk, contextOk, nTx, requested);
      GrewKeepsOrder(old(tree), old(st), tree, st, active.Tip(), active.Tip());
      if !r {
        if old(Settled()) {
          HeaderKeepsSettled(old(tree), old(st), tree, st, ok, active.Tip());
        }
        return false;
      }
      ActivateBestChain();
    }

    /** A header arrives. */
    method TakeHeader(p: Ptr, prev: Ptr, proof: nat, headerOk: bool)
      requires Valid() && CoinsOk() && Books() && Settled() && p != NULL && proof > 0 && HeaderFits(p, prev)
      modifies this`tree, this`st
      ensures Valid() && Books() && Settled() && Arrived(genesis, old(Snap()), Header(p, prev, proof, headerOk), Snap())
    {
      hide History, LinkedLater, Numbered, Arriving, Selecting, SkipsBuilt, Path, AtLeast, Sound, State.CoinsOk, Fits;
      GenesisOfCoins();
      var accepted := AcceptBlockHeader(p, prev, proof, headerOk);
      HeaderKeepsSettled(old(tree), old(st), tree, st, ok, active.Tip());
    }

    /** A block arrives. */
    method TakeBlock(e: Event)
      requires Valid() && CoinsOk() && Books() && Settled() && e.Block? && EventOk(e)
      modifies this`tree, this`st, this`unlinked, this`candidates, this`nextSequenceId, this`failedValid, this`failedChild, active, coins.Repr()
      ensures Valid() && CoinsOk() && Books() && Settled() && Arrived(genesis, old(Snap()), e, Snap())
    {
      hide History, LinkedLater, Numbered, Arriving, Selecting, SkipsBuilt, Path, AtLeast, Sound, State.CoinsOk, Fits, Undo.TxsWellFormed, Arrived, Stores;
      var r := ProcessNewBlock(e.p, e.prev, e.proof, e.headerOk, e.checkOk, e.contextOk, e.nTx, e.requested);
      BlockArrived(genesis, old(Snap()), e, Snap(), r);
    }

    /** One arrival, or a flush in between. */
    method Handle(e: Event)
      requires Valid() && CoinsOk() && Books() && Settled() && EventOk(e)
      modifies this`tree, this`st, this`unlinked, this`candidates, this`nextSequenceId, this`failedValid, this`failedChild, active, coins.Repr()
      ensures Valid() && CoinsOk() && Books() && Settled() && Arrived(genesis, old(Snap()), e, Snap())
    {
      hide History, LinkedLater, Numbered, Arriving, Selecting, SkipsBuilt, Path, AtLeast, Sound, State.CoinsOk, Fits, Undo.TxsWellFormed, Arrived, Grew;
      match e
      case Header(p, prev, proof, headerOk) =>
        TakeHeader(p, prev, proof, headerOk);
      case Block(_, _, _, _, _, _, _, _) =>
        TakeBlock(e);
      case Flush =>
        GrewReflexive(tree, st);
        AtLeastReflexive(tree, st, active.Tip());
        FlushArrived(genesis, Snap());
        FlushStateToDisk();
    }

    ghost predicate EventOk(e: Event) {
      e.Flush? ||
      (&& e.p != NULL && e.proof > 0 && HeaderFits(e.p, e.prev)
       && (e.Block? && e.checkOk ==> e.nTx > 0 && BlockFits(e.p, e.contextOk)))
    }

    /** `FlushStateToDisk`. */
    method FlushStateToDisk()
      requires CoinsOk() && Books()
      modifies coins.Repr()
      ensures unchanged(this) && unchanged(active)
      ensures CoinsOk() && Ledger.LedgerOf(coins.rules, active.Tip()) == Ledger.Balanced(coins.coins.BaseView())
    {
      hide History, LinkedLater, Numbered, CoinsTip.Tip.At, Ledger.LedgerOf;
      coins.Flush(active.Tip());
    }

    /**
     Any sequence of header and block arrivals, in any order.  `trace` holds the states before and after every arrival:
     each arrival does what it should, in every state the tip is the best there is, and it never gets worse; and at the
     end the coins are what the blocks of the active chain lead to.
     */
    method Run(events: seq<Event>) returns (trace: seq<Snapshot>)
      requires Valid() && CoinsOk() && Books() && Settled()
      requires forall i :: 0 <= i < |events| ==> EventOk(events[i])
      modifies this, active, coins.Repr()
      ensures Valid() && CoinsOk() && Books() && |trace| == |events| + 1 && trace[0] == old(Snap()) && trace[|events|] == Snap()
      ensures forall i :: 0 <= i < |events| ==> Arrived(genesis, trace[i], events[i], trace[i + 1])
      ensures forall i :: 0 <= i <= |events| ==> BestTip(ok, trace[i])
      ensures forall i, j :: 0 <= i <= j <= |events| ==> NoWorse(trace[i], trace[j])
      // The tip changes only for more work, and among blocks of equal work it is one that was linked first.
      ensures forall i, j :: 0 <= i <= j <= |events| ==> OnlyForMoreWork(trace[i], trace[j]) && FirstReceived(ok, trace[i], trace[j])
      ensures forall i, j :: 0 <= i <= j <= |events| ==> FirstSibling(ok, trace[i], trace[j])
      ensures Ledger.LedgerOf(coins.rules, active.Tip()) == Ledger.Balanced(coins.coins.View())
    {
      hide History, LinkedLater, Numbered, Arriving, Selecting, SkipsBuilt, Path, AtLeast, Sound, State.CoinsOk, Fits, Undo.TxsWellFormed, Arrived,
        BestTip, NoWorse, OnlyForMoreWork, FirstReceived, FirstSibling, SiblingsSince, Traced;
      trace := [Snap()];
      SnapIsBest();
      Remember();
      TraceStarts(genesis, ok, events, Snap());
      for i := 0 to |events|
        invariant Valid() && CoinsOk() && Books() && Settled() && |trace| == i + 1 && trace[0] == old(Snap()) && trace[i] == Snap()
        invariant Traced(genesis, ok, events, trace, i) && forall j :: 0 <= j <= i ==> trace[j].st in seen
      {
        Handle(events[i]);
        SnapIsBest();
        Remember();
        TraceStep(genesis, ok, events, trace, i, Snap());
        trace := trace + [Snap()];
      }
      CoinsAreThere();
      TraceMeans(genesis, ok, events, trace, |events|);
    }

    /** The entries as they are now are remembered. */
    ghost method Remember()
      requires Valid()
      modifies this`seen
      ensures Valid() && seen == old(seen) + {st} && forall was :: was in seen ==> SiblingsSince(was, tree, st)
    {
      hide Numbered, Selecting, SkipsBuilt, Path, Arriving;
      NowIsHistory(seen, tree, st, Failed(), unlinked);
      seen := seen + {st};
    }

    lemma CoinsAreThere()
      requires CoinsOk()
      ensures Ledger.LedgerOf(coins.rules, active.Tip()) == Ledger.Balanced(coins.coins.View())
    {
    }

    lemma SnapIsBest()
      requires Valid() && Settled()
      ensures BestTip(ok, Snap()) && NoWorse(Snap(), Snap())
    {
      hide History, LinkedLater, Numbered, Arriving, SkipsBuilt, Path;
      GrewReflexive(tree, st);
      AtLeastReflexive(tree, st, active.Tip());
    }
  }

  lemma NotBalanced(r: Ledger.Rules, p: Ptr)
    requires p != NULL && p != r.genesis && !r.others(p)
    ensures !Ledger.LedgerOf(r, p).Balanced?
  {
  }

  /** A new node: an empty database, a cache on it, and no block. */
  method NewNode(genesis: Ptr, block: Ptr -> Undo.Block, others: Ptr -> bool) returns (s: State)
    requires genesis != NULL && block(genesis).height == 0
    ensures s.Valid() && s.CoinsOk() && s.Books() && s.Settled() && s.tree == map[]
    ensures s.coins.rules.genesis == genesis && s.coins.rules.block == block && s.coins.rules.others == others
  {
    hide CoinsView.CoinsViewCache.Overlay, CoinsView.CoinsViewCache.LayerOk;
    var db := new CoinsView.CoinsViewDB();
    var cache := new CoinsView.CoinsViewCache.OnDatabase(db);
    var rules := Ledger.Rules(genesis, CoinsLayer.View(map[], {}, map[CoinsLayer.EmptyRoot := []], CoinsLayer.NullHash, CoinsLayer.EmptyRoot), block, others);
    var tip := new CoinsTip.Tip(rules, cache);
    s := new State(tip);
  }

  /** The index, the failure marks and the tip. */
  datatype Snapshot = Snapshot(tree: Tree, st: Statuses, failed: set<Ptr>, tip: Ptr)

  /** The header is known and not marked, or it may be added. */
  predicate Acceptable(genesis: Ptr, s: Snapshot, p: Ptr, prev: Ptr, headerOk: bool) {
    if p in s.tree then p !in s.failed else headerOk && (p == genesis || (prev in s.tree && prev !in s.failed))
  }

  /** A block is processed when it was asked for, or has more work than the tip and is not too far ahead of it. */
  predicate Wanted(t: Tree, tip: Ptr, p: Ptr, requested: bool)
    requires p in t && Known(t, tip)
  {
    requested || ((tip == NULL || t[p].work > t[tip].work) && t[p].height <= HeightOf(t, tip) + MIN_BLOCKS_TO_KEEP)
  }

  /** What storing a block comes to: whose data is there afterwards, when the block is marked, and the answer. */
  ghost predicate Stores(genesis: Ptr, s: Snapshot, p: Ptr, prev: Ptr, headerOk: bool, contextOk: bool, nTx: nat, requested: bool, s': Snapshot, r: bool) {
    var accepted := Acceptable(genesis, s, p, prev, headerOk);
    var had := p in s.st && s.st[p].haveData;
    && s.tree.Keys == s.st.Keys && s'.tree.Keys == s'.st.Keys && Known(s'.tree, s.tip)
    && s'.tree.Keys == s.tree.Keys + (if accepted then {p} else {})
    && (forall q :: q in s.st && q != p ==> s'.st[q].haveData == s.st[q].haveData && s'.st[q].nTx == s.st[q].nTx)
    && s.failed <= s'.failed
    && if !accepted then !r && (p in s'.st ==> s'.st[p].haveData == had)
       else if had || !Wanted(s'.tree, s.tip, p, requested) then r && s'.st[p].haveData == had
       else if contextOk then r && s'.st[p].haveData && s'.st[p].nTx == nTx
       else !r && !s'.st[p].haveData && p in s'.failed
  }

  /** First the header, then the data. */
  lemma Stored(genesis: Ptr, s: Snapshot, s1: Snapshot, p: Ptr, prev: Ptr, headerOk: bool, contextOk: bool, nTx: nat, requested: bool, s': Snapshot, r: bool)
    requires s.tree.Keys == s.st.Keys && s1.tree.Keys == s1.st.Keys && Known(s1.tree, s.tip)
    requires s1.tree.Keys == s.tree.Keys + (if Acceptable(genesis, s, p, prev, headerOk) then {p} else {})
    requires HeaderOnly(s.st, s1.st) && s1.failed == s.failed && s'.tree == s1.tree
    requires if Acceptable(genesis, s, p, prev, headerOk) && !s1.st[p].haveData && Wanted(s1.tree, s.tip, p, requested)
             then r == contextOk && if contextOk then SameData(s1.st[p := Status(nTx, 0, true, 0)], s'.st) && s'.failed == s1.failed
                                                 else s'.st == s1.st && s'.failed == s1.failed + {p}
             else r == Acceptable(genesis, s, p, prev, headerOk) && s'.st == s1.st && s'.failed == s1.failed
    ensures Stores(genesis, s, p, prev, headerOk, contextOk, nTx, requested, s', r)
  {
  }

  /** One arrival leads from `s` to `s'`. */
  ghost predicate Arrived(genesis: Ptr, s: Snapshot, e: Event, s': Snapshot) {
    && Grew(s.tree, s.st, s'.tree, s'.st) && Known(s'.tree, s.tip) && Known(s'.tree, s'.tip) && AtLeast(s'.tree, s'.st, s'.tip, s.tip)
    && match e
       case Header(p, prev, proof, headerOk) =>
         && s'.tree.Keys == s.tree.Keys + (if Acceptable(genesis, s, p, prev, headerOk) then {p} else {})
         && HeaderOnly(s.st, s'.st) && s'.failed == s.failed && s'.tip == s.tip
       case Block(p, prev, proof, headerOk, checkOk, contextOk, nTx, requested) =>
         if !checkOk then s' == s
         else exists r :: Stores(genesis, s, p, prev, headerOk, contextOk, nTx, requested, s', r) && (!r ==> s'.tip == s.tip)
       case Flush => s' == s
  }

  /** A block gains data only by arriving, passing both checks, and either having been asked for or having more work than the
      tip and being at most 288 blocks ahead of it. */
  lemma NewDataNeedsReason(genesis: Ptr, s: Snapshot, e: Event, s': Snapshot, q: Ptr)
    requires Arrived(genesis, s, e, s') && q in s'.st && s'.st[q].haveData && !(q in s.st && s.st[q].haveData)
    ensures e.Block? && e.p == q && e.checkOk && e.contextOk && s'.st[q].nTx == e.nTx && q in s'.tree && Known(s'.tree, s.tip)
    ensures e.requested ||
            ((s.tip == NULL || s'.tree[q].work > s'.tree[s.tip].work) && s'.tree[q].height <= HeightOf(s'.tree, s.tip) + 288)
  {
    hide Grew, AtLeast;
  }

  /** Conversely, such a block that is acceptable always gains data. */
  lemma ReasonGivesData(genesis: Ptr, s: Snapshot, e: Event, s': Snapshot)
    requires Arrived(genesis, s, e, s') && e.Block? && e.checkOk && e.contextOk && Acceptable(genesis, s, e.p, e.prev, e.headerOk)
    ensures e.p in s'.tree && e.p in s'.st && Known(s'.tree, s.tip)
    ensures e.requested ||
            ((s.tip == NULL || s'.tree[e.p].work > s'.tree[s.tip].work) && s'.tree[e.p].height <= HeightOf(s'.tree, s.tip) + 288)
            ==> s'.st[e.p].haveData
  {
    hide Grew, AtLeast;
  }

  lemma BlockArrived(genesis: Ptr, s: Snapshot, e: Event, s': Snapshot, r: bool)
    requires Grew(s.tree, s.st, s'.tree, s'.st) && Known(s'.tree, s.tip) && Known(s'.tree, s'.tip) && AtLeast(s'.tree, s'.st, s'.tip, s.tip)
    requires e.Block? && (!r ==> s'.tip == s.tip)
    requires if e.checkOk then Stores(genesis, s, e.p, e.prev, e.headerOk, e.contextOk, e.nTx, e.requested, s', r) else s' == s
    ensures Arrived(genesis, s, e, s')
  {
    hide Stores, Grew, AtLeast;
  }

  lemma FlushArrived(genesis: Ptr, s: Snapshot)
    requires Grew(s.tree, s.st, s.tree, s.st) && Known(s.tree, s.tip) && AtLeast(s.tree, s.st, s.tip, s.tip)
    ensures Arrived(genesis, s, Flush, s)
  {
  }

  /** The tip connects, and is at least as good as every block whose whole chain is there and connects. */
  ghost predicate BestTip(ok: Ptr -> bool, s: Snapshot) {
    && Linked(s.tree) && s.tree.Keys == s.st.Keys && Known(s.tree, s.tip) && Connectable(s.tree, s.st, ok, s.tip)
    && forall p :: p in s.tree && HasChain(s.st, p) && Sound(s.tree, ok, p) ==> AtLeast(s.tree, s.st, s.tip, p)
  }

  /** The index alone determines the best tip, whatever the order in which it came about. */
  lemma BestTipUnique(ok: Ptr -> bool, s: Snapshot, s': Snapshot)
    requires BestTip(ok, s) && BestTip(ok, s') && s.tree == s'.tree && s.st == s'.st
    ensures s.tip == s'.tip
  {
    hide Path, Sound;
    AtLeastTotal(s.tree, s.st, s.tip, s'.tip);
  }

  /** The later tip is at least as good as the earlier one. */
  ghost predicate NoWorse(s: Snapshot, s': Snapshot) {
    && Grew(s.tree, s.st, s'.tree, s'.st) && Known(s'.tree, s.tip) && Known(s'.tree, s'.tip)
    && AtLeast(s'.tree, s'.st, s'.tip, s.tip) && (s.tip != NULL ==> s.tip in s.st && HasChain(s.st, s.tip))
  }

  /** `p` and all it builds on have data in `s`. */
  predicate IsLinked(s: Snapshot, p: Ptr) {
    p in s.st && HasChain(s.st, p)
  }

  /** If the later tip is another one it has strictly more work. */
  ghost predicate OnlyForMoreWork(s: Snapshot, s': Snapshot) {
    s.tip != NULL && s'.tip != s.tip ==> s.tip in s'.tree && s'.tip in s'.tree && s'.tree[s'.tip].work > s'.tree[s.tip].work
  }

  /** Every valid block whose chain is there has less work than the tip, or as much and was not linked before the tip was: if
      it was linked in the earlier state `s`, so was the tip. */
  ghost predicate FirstReceived(ok: Ptr -> bool, s: Snapshot, s': Snapshot) {
    && Linked(s'.tree) && s'.tree.Keys == s'.st.Keys
    && forall p :: p in s'.tree && HasChain(s'.st, p) && Sound(s'.tree, ok, p) ==>
         && s'.tip in s'.tree
         && (s'.tree[p].work < s'.tree[s'.tip].work ||
             (s'.tree[p].work == s'.tree[s'.tip].work && (IsLinked(s, p) ==> IsLinked(s, s'.tip))))
  }

  lemma FirstIsPreferred(ok: Ptr -> bool, s: Snapshot, s': Snapshot)
    requires BestTip(ok, s) && BestTip(ok, s') && NoWorse(s, s')
    ensures OnlyForMoreWork(s, s') && FirstReceived(ok, s, s')
  {
    hide Path, Sound;
    forall p | p in s'.tree && HasChain(s'.st, p) && Sound(s'.tree, ok, p)
      ensures && s'.tip in s'.tree
              && (s'.tree[p].work < s'.tree[s'.tip].work ||
                  (s'.tree[p].work == s'.tree[s'.tip].work && (IsLinked(s, p) ==> IsLinked(s, s'.tip))))
    {
      assert AtLeast(s'.tree, s'.st, s'.tip, p);
    }
    if s.tip != NULL && s'.tip != s.tip && IsLinked(s, s'.tip) {
      SoundBefore(s.tree, s'.tree, ok, s'.tip);
      assert AtLeast(s.tree, s.st, s.tip, s'.tip);
      AtLeastTotal(s'.tree, s'.st, s.tip, s'.tip);
    }
  }

  /** If a sibling of the tip with as much work is valid and linked, and its data was there in the earlier state, then so was
      that of the tip: of two blocks that waited for the same parent the one received first is preferred. */
  ghost predicate FirstSibling(ok: Ptr -> bool, s: Snapshot, s': Snapshot) {
    && Linked(s'.tree) && s'.tree.Keys == s'.st.Keys
    && forall p :: p in s'.tree && HasChain(s'.st, p) && Sound(s'.tree, ok, p) && s'.tip in s'.tree
                   && s'.tree[p].prev == s'.tree[s'.tip].prev && s'.tree[p].work == s'.tree[s'.tip].work && Had(s.st, p) ==>
         Had(s.st, s'.tip)
  }

  lemma SiblingIsPreferred(ok: Ptr -> bool, s: Snapshot, s': Snapshot)
    requires BestTip(ok, s') && SiblingsSince(s.st, s'.tree, s'.st)
    ensures FirstSibling(ok, s, s')
  {
    hide Path, Sound;
    forall p | p in s'.tree && HasChain(s'.st, p) && Sound(s'.tree, ok, p) && s'.tip in s'.tree
               && s'.tree[p].prev == s'.tree[s'.tip].prev && s'.tree[p].work == s'.tree[s'.tip].work && Had(s.st, p)
      ensures Had(s.st, s'.tip)
    {
      assert AtLeast(s'.tree, s'.st, s'.tip, p);
    }
  }

  /** The first `n` arrivals. */
  ghost predicate Traced(genesis: Ptr, ok: Ptr -> bool, events: seq<Event>, trace: seq<Snapshot>, n: nat) {
    && n <= |events| && |trace| == n + 1
    && (forall i :: 0 <= i < n ==> Arrived(genesis, trace[i], events[i], trace[i + 1]))
    && (forall i :: 0 <= i <= n ==> BestTip(ok, trace[i]))
    && (forall i, j :: 0 <= i <= j <= n ==> NoWorse(trace[i], trace[j]))
    && (forall i, j :: 0 <= i <= j <= n ==> SiblingsSince(trace[i].st, trace[j].tree, trace[j].st))
  }

  lemma TraceStarts(genesis: Ptr, ok: Ptr -> bool, events: seq<Event>, s: Snapshot)
    requires BestTip(ok, s) && SiblingsSince(s.st, s.tree, s.st)
    ensures Traced(genesis, ok, events, [s], 0)
  {
    hide BestTip, NoWorse, SiblingsSince;
    NoWorseReflexive(ok, s);
  }

  lemma TraceStep(genesis: Ptr, ok: Ptr -> bool, events: seq<Event>, trace: seq<Snapshot>, n: nat, next: Snapshot)
    requires Traced(genesis, ok, events, trace, n) && n < |events| && Arrived(genesis, trace[n], events[n], next) && BestTip(ok, next)
    requires SiblingsSince(next.st, next.tree, next.st) && forall i :: 0 <= i <= n ==> SiblingsSince(trace[i].st, next.tree, next.st)
    ensures Traced(genesis, ok, events, trace + [next], n + 1)
  {
    hide Arrived, BestTip, NoWorse, SiblingsSince;
    NoWorseReflexive(ok, next);
    ArrivedNoWorse(genesis, ok, trace[n], events[n], next);
    var more := trace + [next];
    assert more[n + 1] == next && forall i :: 0 <= i <= n ==> more[i] == trace[i];
    forall i, j | 0 <= i <= j <= n + 1 ensures NoWorse(more[i], more[j]) {
      if i <= n && j == n + 1 {
        assert NoWorse(trace[i], trace[n]);
        NoWorseTransitive(trace[i], trace[n], next);
      }
    }
  }

  lemma TraceMeans(genesis: Ptr, ok: Ptr -> bool, events: seq<Event>, trace: seq<Snapshot>, n: nat)
    requires Traced(genesis, ok, events, trace, n)
    ensures forall i :: 0 <= i < n ==> Arrived(genesis, trace[i], events[i], trace[i + 1])
    ensures forall i :: 0 <= i <= n ==> BestTip(ok, trace[i])
    ensures forall i, j :: 0 <= i <= j <= n ==> NoWorse(trace[i], trace[j])
    ensures forall i, j :: 0 <= i <= j <= n ==> OnlyForMoreWork(trace[i], trace[j]) && FirstReceived(ok, trace[i], trace[j])
    ensures forall i, j :: 0 <= i <= j <= n ==> FirstSibling(ok, trace[i], trace[j])
  {
    hide Arrived, BestTip, NoWorse, SiblingsSince, OnlyForMoreWork, FirstReceived, FirstSibling;
    forall i, j | 0 <= i <= j <= n
      ensures OnlyForMoreWork(trace[i], trace[j]) && FirstReceived(ok, trace[i], trace[j]) && FirstSibling(ok, trace[i], trace[j])
    {
      assert NoWorse(trace[i], trace[j]);
      FirstIsPreferred(ok, trace[i], trace[j]);
      SiblingIsPreferred(ok, trace[i], trace[j]);
    }
  }

  lemma SoundBefore(t: Tree, t': Tree, ok: Ptr -> bool, p: Ptr)
    requires Linked(t) && Linked(t') && Extends(t, t') && p in t && Sound(t', ok, p)
    ensures Sound(t, ok, p)
  {
    PathExtends(t, t', p);
  }

  lemma NoWorseReflexive(ok: Ptr -> bool, s: Snapshot)
    requires BestTip(ok, s)
    ensures NoWorse(s, s)
  {
    hide Path, Sound;
    GrewReflexive(s.tree, s.st);
    AtLeastReflexive(s.tree, s.st, s.tip);
  }

  lemma ArrivedNoWorse(genesis: Ptr, ok: Ptr -> bool, s: Snapshot, e: Event, s': Snapshot)
    requires BestTip(ok, s) && Arrived(genesis, s, e, s')
    ensures NoWorse(s, s')
  {
    hide Path, Sound, Stores, AtLeast, Grew;
  }

  lemma NoWorseTransitive(s: Snapshot, s': Snapshot, s'': Snapshot)
    requires NoWorse(s, s') && NoWorse(s', s'')
    ensures NoWorse(s, s'')
  {
    GrewTransitive(s.tree, s.st, s'.tree, s'.st, s''.tree, s''.st);
    if s'.tip != NULL {
      GrewKeepsOrder(s'.tree, s'.st, s''.tree, s''.st, s'.tip, s.tip);
    }
    AtLeastTransitive(s''.tree, s''.st, s''.tip, s'.tip, s.tip);
  }

  /** New entries carry no data and old ones are as they were. */
  ghost predicate HeaderOnly(st: Statuses, st': Statuses) {
    && (forall q :: q in st ==> q in st' && st'[q] == st[q])
    && (forall q :: q in st' && q !in st ==> !HasChain(st', q) && !st'[q].haveData)
  }

  /** What became linked since then has a number from `next` on. */
  ghost predicate NewlyNumbered(st: Statuses, st': Statuses, next: nat) {
    forall q :: q in st' && HasChain(st', q) && !(q in st && HasChain(st, q)) ==> st'[q].sequenceId >= next
  }

  lemma NothingNumbered()
    ensures Numbered(map[], 1)
  {
  }

  /** The data of `p` has arrived, linked entries are as they were, and newly linked ones have new numbers. */
  ghost predicate Received(st: Statuses, st': Statuses, p: Ptr, nTx: nat, next: nat) {
    && SameData(st[p := Status(nTx, 0, true, 0)], st') && NewlyNumbered(st, st', next) && p in st
    && forall q :: q in st && HasChain(st, q) ==> q in st' && st'[q] == st[q]
  }

  lemma ReceivedStep(st: Statuses, st': Statuses, st'': Statuses, p: Ptr, nTx: nat, next: nat, next': nat)
    requires Received(st, st', p, nTx, next) && NewlyNumbered(st', st'', next') && next <= next'
    requires SameData(st', st'') && forall q :: q in st' && HasChain(st', q) ==> q in st'' && st''[q] == st'[q]
    ensures Received(st, st'', p, nTx, next)
  {
    NewlyTransitive(st, st', st'', next, next');
  }

  lemma NewlyTransitive(st: Statuses, st': Statuses, st'': Statuses, next: nat, next': nat)
    requires NewlyNumbered(st, st', next) && NewlyNumbered(st', st'', next') && next <= next'
    requires forall p :: p in st' && HasChain(st', p) ==> p in st'' && st''[p] == st'[p]
    ensures NewlyNumbered(st, st'', next)
  {
  }

  lemma NoneNewly(st: Statuses, p: Ptr, s: Status, next: nat)
    requires s.nChainTx == 0
    ensures NewlyNumbered(st, st[p := s], next)
  {
  }

  lemma NumberedLater(st: Statuses, st': Statuses, next: nat)
    requires Numbered(st, next) && NewlyNumbered(st, st', next)
    ensures LinkedLater(st, st')
  {
  }

  /** The same blocks have data, with as many transactions. */
  ghost predicate SameData(st: Statuses, st': Statuses) {
    st.Keys == st'.Keys && forall q :: q in st ==> st'[q].haveData == st[q].haveData && st'[q].nTx == st[q].nTx
  }

  lemma HeaderKeepsSettled(t: Tree, st: Statuses, t': Tree, st': Statuses, ok: Ptr -> bool, tip: Ptr)
    requires Linked(t) && Linked(t') && Grew(t, st, t', st') && HeaderOnly(st, st') && Known(t, tip)
    requires forall p :: p in t && HasChain(st, p) && Sound(t, ok, p) ==> AtLeast(t, st, tip, p)
    ensures forall p :: p in t' && HasChain(st', p) && Sound(t', ok, p) ==> AtLeast(t', st', tip, p)
    ensures AtLeast(t', st', tip, tip)
  {
    forall p | p in t' && HasChain(st', p) && Sound(t', ok, p) ensures AtLeast(t', st', tip, p) {
      PathExtends(t, t', p);
      assert AtLeast(t, st, tip, p);
    }
  }

  lemma GrewKeepsOrder(t: Tree, st: Statuses, t': Tree, st': Statuses, a: Ptr, b: Ptr)
    requires Grew(t, st, t', st') && Known(t, a) && Known(t, b) && AtLeast(t, st, a, b)
    requires (a != NULL ==> HasChain(st, a)) && (b != NULL ==> HasChain(st, b))
    ensures Known(t', a) && Known(t', b) && AtLeast(t', st', a, b)
  {
  }

  const MIN_BLOCKS_TO_KEEP: nat := 288

  datatype Event =
    | Header(p: Ptr, prev: Ptr, proof: nat, headerOk: bool)
    | Block(p: Ptr, prev: Ptr, proof: nat, headerOk: bool, checkOk: bool, contextOk: bool, nTx: nat, requested: bool)
    | Flush

  /** The index only grows, and an entry with a complete chain no longer changes: in particular its
      sequence number is fixed before it can become a candidate. */
  ghost predicate Grew(t: Tree, st: Statuses, t': Tree, st': Statuses) {
    && t.Keys == st.Keys && t'.Keys == st'.Keys && Extends(t, t')
    && (forall p :: p in st && HasChain(st, p) ==> p in st' && st'[p] == st[p])
    && LinkedLater(st, st')
  }

  lemma GrewReflexive(t: Tree, st: Statuses)
    requires t.Keys == st.Keys
    ensures Grew(t, st, t, st)
  {
  }

  lemma GrewTransitive(t: Tree, st: Statuses, t': Tree, st': Statuses, t'': Tree, st'': Statuses)
    requires Grew(t, st, t', st') && Grew(t', st', t'', st'')
    ensures Grew(t, st, t'', st'')
  {
    hide LinkedLater;
    LaterTransitive(st, st', st'');
  }

  lemma LaterTransitive(st: Statuses, st': Statuses, st'': Statuses)
    requires LinkedLater(st, st') && LinkedLater(st', st'')
    requires forall p :: p in st && HasChain(st, p) ==> p in st' && st'[p] == st[p]
    requires forall p :: p in st' && HasChain(st', p) ==> p in st'' && st''[p] == st'[p]
    ensures LinkedLater(st, st'')
  {
    forall p, q | p in st && HasChain(st, p) && q in st'' && HasChain(st'', q) && !(q in st && HasChain(st, q))
      ensures st[p].sequenceId < st''[q].sequenceId
    {
      assert HasChain(st', p);
      if q in st' && HasChain(st', q) { assert st''[q] == st'[q]; }
    }
  }

  /** A header links nothing. */
  lemma HeaderLinksNone(st: Statuses, st': Statuses)
    requires HeaderOnly(st, st')
    ensures LinkedLater(st, st')
  {
  }

  lemma RefutedByTip(t: Tree, ok: Ptr -> bool, p: Ptr)
    requires Linked(t) && p in t && !ok(p)
    ensures !Sound(t, ok, p)
  {
    assert p in Path(t, p);
  }

  /** The entry of the path of `m` at a height, or null just below the root. */
  ghost function PathAt(t: Tree, m: Ptr, height: int): Ptr
    requires Linked(t) && m in t && -1 <= height <= t[m].height
  {
    if height == -1 then NULL else Path(t, m)[height]
  }

  lemma PathTop(t: Tree, m: Ptr)
    requires Linked(t) && m in t
    ensures PathAt(t, m, t[m].height) == m
  {
  }

  lemma {:induction false} AncestorChains(t: Tree, st: Statuses, failed: set<Ptr>, w: Waiting, m: Ptr, h: nat)
    requires Linked(t) && Arriving(t, st, failed, w, []) && m in t && HasChain(st, m) && h <= t[m].height
    ensures HasChain(st, Path(t, m)[h])
    ensures t[Path(t, m)[h]].prev == PathAt(t, m, h - 1)
    decreases t[m].height - h
  {
    PrevOnPath(t, m, h);
    if h < t[m].height {
      AncestorChains(t, st, failed, w, m, h + 1);
      assert EntryOk(t, st, failed, w, [], Path(t, m)[h + 1]);
    }
  }

  lemma PathEnds(t: Tree, a: Ptr, p: Ptr)
    requires Linked(t) && p in t && p != a
    ensures Known(t, t[p].prev) && HeightOf(t, t[p].prev) < t[p].height
    ensures Ancestor(t, a, p) ==> t[p].prev in t && Ancestor(t, a, t[p].prev)
  {
    assert NodeLinked(t, p);
    assert Path(t, p) == Path(t, t[p].prev) + [p];
  }

  /** No entry of the path of `m` above `test` is marked. */
  ghost predicate CleanAbove(t: Tree, failed: set<Ptr>, m: Ptr, test: Ptr)
    requires Linked(t) && Known(t, m) && Known(t, test)
  {
    forall a :: a in Path(t, m) && t[a].height > HeightOf(t, test) ==> a !in failed
  }

  /** One step down from an unmarked entry of the path.  Its data is there: nothing has been pruned. */
  lemma StepDown(t: Tree, st: Statuses, failed: set<Ptr>, w: Waiting, m: Ptr, test: Ptr)
    requires Linked(t) && Arriving(t, st, failed, w, []) && m in t && test in t
    requires Ancestor(t, test, m) && HasChain(st, test) && test !in failed && CleanAbove(t, failed, m, test)
    ensures st[test].haveData
    ensures Known(t, t[test].prev) && HeightOf(t, t[test].prev) < t[test].height
    ensures t[test].prev != NULL ==> Ancestor(t, t[test].prev, m) && HasChain(st, t[test].prev)
    ensures CleanAbove(t, failed, m, t[test].prev)
  {
    assert NodeLinked(t, test) && EntryOk(t, st, failed, w, [], test);
    var prev := t[test].prev;
    AncestorAtHeight(t, test, m);
    PrevOnPath(t, m, t[test].height);
    forall a | a in Path(t, m) && t[a].height > HeightOf(t, prev) ensures a !in failed {
      AncestorAtHeight(t, a, m);
    }
  }

  /** The entries of the path of `m` above `x`. */
  ghost function AboveOn(t: Tree, m: Ptr, x: Ptr): set<Ptr>
    requires Linked(t) && m in t && x in t
  {
    set a | a in Path(t, m) && t[a].height > t[x].height
  }

  lemma NoneAbove(t: Tree, m: Ptr)
    requires Linked(t) && m in t
    ensures AboveOn(t, m, m) == {} && Ancestor(t, m, m)
  {
  }

  lemma OneMoreAbove(t: Tree, m: Ptr, g: Ptr)
    requires Linked(t) && m in t && Ancestor(t, g, m) && t[g].prev in t
    ensures AboveOn(t, m, t[g].prev) == AboveOn(t, m, g) + {g} && Ancestor(t, t[g].prev, m)
  {
    assert NodeLinked(t, g);
    AncestorAtHeight(t, g, m);
    PrevOnPath(t, m, t[g].height);
    forall a | a in Path(t, m) && t[a].height > t[t[g].prev].height ensures a == g || t[a].height > t[g].height {
      AncestorAtHeight(t, a, m);
    }
  }

  lemma InAbove(t: Tree, m: Ptr, x: Ptr)
    requires Linked(t) && m in t && Ancestor(t, x, m)
    ensures m == x || m in AboveOn(t, m, x)
  {
    AncestorAtHeight(t, x, m);
  }

  lemma Roots(t: Tree, genesis: Ptr, p: Ptr)
    requires Linked(t) && p in t && forall q :: q in t && t[q].prev == NULL ==> q == genesis
    ensures Path(t, p)[0] == genesis && genesis in t
  {
    assert NodeLinked(t, Path(t, p)[0]);
  }

  /** The entry is that of the block: hash, parent and height, and transactions that are well formed if they are there. */
  ghost predicate EntryFits(r: Ledger.Rules, t: Tree, st: Statuses, p: Ptr)
    requires p in t && p in st
  {
    if p == r.genesis then t[p].prev == NULL && t[p].height == 0
    else
      && r.block(p).hash == p && r.block(p).prev == t[p].prev && r.block(p).height == t[p].height
      && (st[p].haveData ==> Undo.TxsWellFormed(r.block(p).vtx) && r.block(p).vtx != [])
  }

  ghost predicate Fits(r: Ledger.Rules, t: Tree, st: Statuses) {
    && t.Keys == st.Keys && r.genesis != NULL && r.block(r.genesis).height == 0
    && forall p :: p in t ==> EntryFits(r, t, st, p)
  }

  lemma LeafFits(r: Ledger.Rules, t: Tree, st: Statuses, p: Ptr, n: Node)
    requires Fits(r, t, st) && p !in t
    requires if p == r.genesis then n.prev == NULL && n.height == 0
             else && n.prev in t && n.height == t[n.prev].height + 1 && r.block(p).hash == p && r.block(p).prev == n.prev
                  && r.block(p).height == r.block(n.prev).height + 1
    ensures Fits(r, t[p := n], st[p := Status(0, 0, false, 0)])
  {
    hide Undo.TxsWellFormed;
    var t', st' := t[p := n], st[p := Status(0, 0, false, 0)];
    forall q | q in t' ensures EntryFits(r, t', st', q) {
      if q != p { assert EntryFits(r, t, st, q); }
    }
    assert p != r.genesis ==> EntryFits(r, t, st, n.prev);
  }

  /** Fits says nothing about data but whether it is there. */
  lemma DataFits(r: Ledger.Rules, t: Tree, st: Statuses, st': Statuses, p: Ptr)
    requires Fits(r, t, st) && st'.Keys == st.Keys && p in t
    requires forall q :: q in st && q != p ==> st'[q].haveData == st[q].haveData
    requires p != r.genesis && st'[p].haveData ==> Undo.TxsWellFormed(r.block(p).vtx) && r.block(p).vtx != []
    ensures Fits(r, t, st')
  {
    hide Undo.TxsWellFormed;
    forall q | q in t ensures EntryFits(r, t, st', q) { assert EntryFits(r, t, st, q); }
  }

  lemma FitsOne(r: Ledger.Rules, t: Tree, st: Statuses, p: Ptr)
    requires Linked(t) && Fits(r, t, st) && p in t
    ensures p == r.genesis ==> t[p].prev == NULL
    ensures p != r.genesis ==> r.block(p).prev == t[p].prev
    ensures p != r.genesis && t[p].prev != NULL ==> Ledger.Follows(r, p)
    ensures p != r.genesis && st[p].haveData ==> Undo.TxsWellFormed(r.block(p).vtx) && r.block(p).vtx != []
  {
    hide Undo.TxsWellFormed;
    assert NodeLinked(t, p) && EntryFits(r, t, st, p);
    assert t[p].prev != NULL ==> EntryFits(r, t, st, t[p].prev);
  }

  lemma AtStart(coins: CoinsTip.Tip)
    requires coins.At(NULL)
    ensures var r := coins.rules; r.genesis != NULL && r.block(r.genesis).height == 0 && Ledger.LedgerOf(r, r.genesis).Balanced?
  {
  }

  lemma NotSoundAbove(t: Tree, ok: Ptr -> bool, failed: set<Ptr>, x: Ptr, f: Ptr)
    requires Linked(t) && f in t && FailuresJustified(t, ok, failed) && x in failed && Ancestor(t, x, f)
    ensures !Sound(t, ok, f)
  {
    if Sound(t, ok, f) { SoundAncestor(t, ok, x, f); }
  }

  /** Below a linked block every entry is linked. */
  lemma ParentOnPath(t: Tree, st: Statuses, failed: set<Ptr>, w: Waiting, x: Ptr, f: Ptr)
    requires Linked(t) && Arriving(t, st, failed, w, []) && f in t && HasChain(st, f) && Ancestor(t, x, f) && x != f
    ensures t[f].prev in t && HasChain(st, t[f].prev) && Ancestor(t, x, t[f].prev)
  {
    assert NodeLinked(t, f) && EntryOk(t, st, failed, w, [], f);
    assert Path(t, f) == Path(t, t[f].prev) + [f];
  }
}
