/**
 The stack of coin views: the database at the bottom and any number of write-back caches on it
 (src/coins.cpp, src/txdb.cpp).  A cache answers as the plain maps `View()` would, whatever it and the
 caches below it happen to hold.
 */
module CoinsView {
  import opened Coins
  import opened CoinsLayer

  class CoinsViewDB {
    var coins: map<Txid, CCoins>
    var nullifiers: set<Nullifier>
    var anchors: map<Root, CommitTree>
    var bestBlock: BlockHash
    var bestAnchor: Root

    constructor ()
      ensures Valid() && View() == CoinsLayer.View(map[], {}, map[EmptyRoot := []], NullHash, EmptyRoot)
    {
      coins, nullifiers, anchors, bestBlock, bestAnchor := map[], {}, map[], NullHash, EmptyRoot;
    }

    ghost predicate Valid()
      reads this
    {
      && (forall t :: t in coins ==> coins[t].IsTrimmed() && !coins[t].IsPruned())
      && RootsOk(DatabaseAnchors(anchors))
    }

    ghost function View(): View
      reads this
    {
      CoinsLayer.View(coins, nullifiers, DatabaseAnchors(anchors), bestBlock, bestAnchor)
    }

    /** `CCoinsViewDB::BatchWrite`: a pruned entry erases, and a null hash leaves the stored one. */
    method BatchWrite(mapCoins: CoinsMap, hashBlock: BlockHash, hashAnchor: Root, mapAnchors: AnchorsMap, mapNullifiers: NullifiersMap)
      requires Valid() && CoinsOk(mapCoins, View().coins, Database)
      requires AnchorsOk(mapAnchors, View().anchors) && NullifiersOk(mapNullifiers, View().nullifiers)
      modifies this
      ensures Valid()
      ensures View().coins == OverlayCoins(mapCoins, old(View().coins))
      ensures View().anchors == OverlayAnchors(mapAnchors, old(View().anchors))
      ensures View().nullifiers == OverlayNullifiers(mapNullifiers, old(View().nullifiers))
      ensures bestBlock == if hashBlock == NullHash then old(bestBlock) else hashBlock
      ensures bestAnchor == if hashAnchor == NoRoot then old(bestAnchor) else hashAnchor
    {
      WriteCoins(mapCoins);
      WriteAnchors(mapAnchors);
      WriteNullifiers(mapNullifiers);
      if hashBlock != NullHash {
        bestBlock := hashBlock;
      }
      if hashAnchor != NoRoot {
        bestAnchor := hashAnchor;
      }
    }

    method WriteCoins(mapCoins: CoinsMap)
      requires Valid() && CoinsOk(mapCoins, coins, Database)
      modifies this`coins
      ensures Valid() && coins == OverlayCoins(mapCoins, old(coins))
    {
      hide AllNull, RootsOk, CoinsOk, OverlayCoins, StoreCoins;
      var m := mapCoins;
      while m != map[]
        invariant Valid() && CoinsOk(m, coins, Database)
        invariant OverlayCoins(m, coins) == OverlayCoins(mapCoins, old(coins))
        decreases m.Keys
      {
        var t :| t in m;
        StoreCoinsKeeps(m, coins, t);
        StoredTrimmed(m, coins, t);
        coins := StoreCoins(coins, t, m[t]);
        m := m - {t};
      }
      OverlayNoCoins(coins);
    }

    method WriteAnchors(mapAnchors: AnchorsMap)
      requires Valid() && AnchorsOk(mapAnchors, DatabaseAnchors(anchors))
      modifies this`anchors
      ensures Valid() && DatabaseAnchors(anchors) == OverlayAnchors(mapAnchors, old(DatabaseAnchors(anchors)))
    {
      hide AnchorsOk, RootsOk, DatabaseAnchors, OverlayAnchors;
      var m := mapAnchors;
      while m != map[]
        invariant AnchorsOk(m, DatabaseAnchors(anchors))
        invariant OverlayAnchors(m, DatabaseAnchors(anchors)) == OverlayAnchors(mapAnchors, old(DatabaseAnchors(anchors)))
        decreases m.Keys
      {
        var t :| t in m;
        StoreAnchorKeeps(m, anchors, t);
        anchors := StoreAnchor(anchors, t, m[t]);
        m := m - {t};
      }
      OverlayNoAnchors(DatabaseAnchors(anchors));
    }

    method WriteNullifiers(mapNullifiers: NullifiersMap)
      requires NullifiersOk(mapNullifiers, nullifiers)
      modifies this`nullifiers
      ensures nullifiers == OverlayNullifiers(mapNullifiers, old(nullifiers))
    {
      hide OverlayNullifiers;
      var m := mapNullifiers;
      while m != map[]
        invariant NullifiersOk(m, nullifiers)
        invariant OverlayNullifiers(m, nullifiers) == OverlayNullifiers(mapNullifiers, old(nullifiers))
        decreases m.Keys
      {
        var t :| t in m;
        StoreNullifierKeeps(m, nullifiers, t);
        nullifiers := StoreNullifier(nullifiers, t, m[t]);
        m := m - {t};
      }
      OverlayNoNullifiers(nullifiers);
    }
  }

  datatype Base = Db(db: CoinsViewDB) | Parent(cache: CoinsViewCache)

  class CoinsViewCache {
    const base: Base
    /** The objects below this cache, and it; and how many caches there are. */
    ghost const Repr: set<object>
    ghost const depth: nat

    var hashBlock: BlockHash
    var hashAnchor: Root
    var cacheCoins: CoinsMap
    var cacheAnchors: AnchorsMap
    var cacheNullifiers: NullifiersMap
    var hasModifier: bool

    /** The shape of the stack never changes. */
    ghost predicate Stacked()
      decreases depth
    {
      && this in Repr
      && match base
         case Db(d) => Repr == {this, d}
         case Parent(c) => Repr == {this} + c.Repr && this !in c.Repr && c in c.Repr && c.depth < depth && c.Stacked()
    }

    /** What is below is valid and not being modified, and this layer fits on the answers it gives. */
    ghost predicate Valid()
      reads this, Repr
      decreases depth
    {
      && Stacked()
      && match base
         case Db(d) => d.Valid() && LayerOk(d.View(), Database)
         case Parent(c) => c.Valid() && !c.hasModifier && LayerOk(c.View(), Cache(c.cacheCoins.Keys))
    }

    ghost predicate LayerOk(b: View, below: Below)
      reads this
    {
      && CoinsOk(cacheCoins, b.coins, below)
      && AnchorsOk(cacheAnchors, b.anchors)
      && NullifiersOk(cacheNullifiers, b.nullifiers)
    }

    ghost function BaseView(): View
      requires Stacked()
      reads Repr
      decreases depth, 0
    {
      match base
      case Db(d) => d.View()
      case Parent(c) => c.View()
    }

    ghost function BaseBelow(): Below
      requires Stacked()
      reads Repr
    {
      match base
      case Db(d) => Database
      case Parent(c) => Cache(c.cacheCoins.Keys)
    }

    /** The maps this cache stands for: its own entries over the answers from below. */
    ghost function View(): View
      requires Stacked()
      reads Repr
      decreases depth, 1
    {
      Overlay(BaseView())
    }

    ghost function Overlay(b: View): View
      reads this
    {
      CoinsLayer.View(OverlayCoins(cacheCoins, b.coins), OverlayNullifiers(cacheNullifiers, b.nullifiers),
                      OverlayAnchors(cacheAnchors, b.anchors),
                      if hashBlock == NullHash then b.bestBlock else hashBlock,
                      if hashAnchor == NoRoot then b.bestAnchor else hashAnchor)
    }

    lemma ViewRootsOk()
      requires Valid()
      ensures RootsOk(View().anchors)
    {
      OverlayRootsOk(cacheAnchors, BaseView().anchors);
    }

    /** A cache directly on the database. */
    constructor OnDatabase(db: CoinsViewDB)
      requires db.Valid()
      ensures Valid() && base == Db(db) && fresh(this) && View() == db.View() && !hasModifier
      ensures hashBlock == NullHash && hashAnchor == NoRoot
    {
      base, Repr, depth := Db(db), {this, db}, 0;
      hashBlock, hashAnchor, cacheCoins, cacheAnchors, cacheNullifiers := NullHash, NoRoot, map[], map[], map[];
      hasModifier := false;
      new;
      OverlayNothing(db.View());
    }

    /** A cache on another cache. */
    constructor OnCache(parent: CoinsViewCache)
      requires parent.Valid() && !parent.hasModifier
      ensures Valid() && base == Parent(parent) && fresh(this) && View() == parent.View() && !hasModifier
      ensures hashBlock == NullHash && hashAnchor == NoRoot
    {
      hide CoinsOk, AnchorsOk, NullifiersOk, OverlayAnchors, OverlayNullifiers, OverlayCoins, RootsOk;
      base, Repr, depth := Parent(parent), {this} + parent.Repr, parent.depth + 1;
      hashBlock, hashAnchor, cacheCoins, cacheAnchors, cacheNullifiers := NullHash, NoRoot, map[], map[], map[];
      hasModifier := false;
      new;
      parent.ViewRootsOk();
      NothingFits(parent.View(), Cache(parent.cacheCoins.Keys));
      OverlayNothing(parent.View());
    }

    /** A query: it may pull entries into this cache and those below, but changes no answer. */
    twostate predicate OnlyRead()
      requires Stacked()
      reads Repr
    {
      && View() == old(View()) && BaseView() == old(BaseView())
      && old(cacheCoins.Keys) <= cacheCoins.Keys
      && hasModifier == old(hasModifier)
    }

    /** Replacing the coins entries of this layer. */
    method SetCoinsMap(m: CoinsMap)
      requires Valid() && CoinsOk(m, BaseView().coins, BaseBelow())
      modifies this`cacheCoins
      ensures Valid() && cacheCoins == m && BaseView() == old(BaseView()) && BaseBelow() == old(BaseBelow())
      ensures View() == old(View()).(coins := OverlayCoins(m, BaseView().coins))
    {
      hide CoinsOk, AnchorsOk, NullifiersOk, OverlayAnchors, OverlayNullifiers, OverlayCoins;
      cacheCoins := m;
    }

    /** `GetCoins` of what is below. */
    method BaseGetCoins(txid: Txid) returns (found: bool, coins: CCoins)
      requires Valid()
      modifies Repr - {this}
      ensures Valid() && BaseView() == old(BaseView())
      ensures Answers(BaseView().coins, txid, found, coins)
      ensures found && BaseBelow().Cache? ==> txid in BaseBelow().keys
      decreases depth, 0
    {
      hide CoinsOk, AnchorsOk, NullifiersOk, AllNull;
      match base
      case Db(d) =>
        found := txid in d.coins;
        coins := if found then d.coins[txid] else NoCoins;
      case Parent(c) =>
        ghost var keys := c.cacheCoins.Keys;
        found, coins := c.GetCoins(txid);
        MoreKeys(cacheCoins, c.View().coins, keys, c.cacheCoins.Keys);
    }

    /** `FetchCoins` and `GetCoins`. */
    method GetCoins(txid: Txid) returns (found: bool, coins: CCoins)
      requires Valid()
      modifies Repr
      ensures Valid() && OnlyRead()
      ensures Answers(View().coins, txid, found, coins)
      ensures found ==> txid in cacheCoins && cacheCoins[txid].coins == coins
      decreases depth, 1
    {
      hide CoinsOk, AnchorsOk, NullifiersOk, AllNull, OverlayAnchors, OverlayNullifiers;
      if txid in cacheCoins {
        EntryAnswers(cacheCoins, BaseView().coins, BaseBelow(), txid);
        return true, cacheCoins[txid].coins;
      }
      found, coins := BaseGetCoins(txid);
      if !found {
        return;
      }
      // If the parent only has an empty entry for this txid, we can consider our version as fresh.
      Fetched(cacheCoins, BaseView().coins, BaseBelow(), txid, coins, false);
      SetCoinsMap(cacheCoins[txid := CoinsEntry(coins, false, coins.IsPruned())]);
    }

    method SetAnchorsMap(m: AnchorsMap)
      requires Valid() && AnchorsOk(m, BaseView().anchors)
      modifies this`cacheAnchors
      ensures Valid() && cacheAnchors == m && BaseView() == old(BaseView()) && BaseBelow() == old(BaseBelow())
      ensures View() == old(View()).(anchors := OverlayAnchors(m, BaseView().anchors))
    {
      hide CoinsOk, AnchorsOk, NullifiersOk, OverlayAnchors, OverlayNullifiers, OverlayCoins;
      cacheAnchors := m;
    }

    method SetNullifiersMap(m: NullifiersMap)
      requires Valid() && NullifiersOk(m, BaseView().nullifiers)
      modifies this`cacheNullifiers
      ensures Valid() && cacheNullifiers == m && BaseView() == old(BaseView()) && BaseBelow() == old(BaseBelow())
      ensures View() == old(View()).(nullifiers := OverlayNullifiers(m, BaseView().nullifiers))
    {
      hide CoinsOk, AnchorsOk, NullifiersOk, OverlayAnchors, OverlayNullifiers, OverlayCoins;
      cacheNullifiers := m;
    }

    method SetHashes(block: BlockHash, anchor: Root)
      requires Valid()
      modifies this`hashBlock, this`hashAnchor
      ensures Valid() && hashBlock == block && hashAnchor == anchor && BaseView() == old(BaseView())
      ensures View() == old(View()).(bestBlock := if block == NullHash then BaseView().bestBlock else block,
                                     bestAnchor := if anchor == NoRoot then BaseView().bestAnchor else anchor)
    {
      hide CoinsOk, AnchorsOk, NullifiersOk, OverlayAnchors, OverlayNullifiers, OverlayCoins;
      hashBlock, hashAnchor := block, anchor;
    }

    method BaseGetAnchorAt(rt: Root) returns (found: bool, tree: CommitTree)
      requires Valid()
      modifies Repr - {this}
      ensures Valid() && BaseView() == old(BaseView())
      ensures found <==> rt in BaseView().anchors
      ensures found ==> tree == BaseView().anchors[rt]
      decreases depth, 0
    {
      hide CoinsOk, AnchorsOk, NullifiersOk, OverlayAnchors, OverlayNullifiers, OverlayCoins;
      match base
      case Db(d) =>
        if rt == EmptyRoot {
          return true, [];
        }
        found := rt in d.anchors;
        tree := if found then d.anchors[rt] else [];
      case Parent(c) =>
        ghost var keys := c.cacheCoins.Keys;
        found, tree := c.GetAnchorAt(rt);
        MoreKeys(cacheCoins, c.View().coins, keys, c.cacheCoins.Keys);
    }

    method GetAnchorAt(rt: Root) returns (found: bool, tree: CommitTree)
      requires Valid()
      modifies Repr
      ensures Valid() && OnlyRead()
      ensures found <==> rt in View().anchors
      ensures found ==> tree == View().anchors[rt] && rt in cacheAnchors
      decreases depth, 1
    {
      hide CoinsOk, AnchorsOk, NullifiersOk, OverlayNullifiers, OverlayCoins;
      if rt in cacheAnchors {
        return cacheAnchors[rt].entered, cacheAnchors[rt].tree;
      }
      found, tree := BaseGetAnchorAt(rt);
      if !found {
        return;
      }
      AnchorFetched(cacheAnchors, BaseView().anchors, rt);
      SetAnchorsMap(cacheAnchors[rt := AnchorEntry(true, tree, false)]);
    }

    method BaseGetNullifier(nf: Nullifier) returns (spent: bool)
      requires Valid()
      modifies Repr - {this}
      ensures Valid() && BaseView() == old(BaseView())
      ensures spent <==> nf in BaseView().nullifiers
      decreases depth, 0
    {
      hide CoinsOk, AnchorsOk, NullifiersOk, OverlayAnchors, OverlayNullifiers, OverlayCoins;
      match base
      case Db(d) =>
        spent := nf in d.nullifiers;
      case Parent(c) =>
        ghost var keys := c.cacheCoins.Keys;
        spent := c.GetNullifier(nf);
        MoreKeys(cacheCoins, c.View().coins, keys, c.cacheCoins.Keys);
    }

    method GetNullifier(nf: Nullifier) returns (spent: bool)
      requires Valid()
      modifies Repr
      ensures Valid() && OnlyRead()
      ensures spent <==> nf in View().nullifiers
      decreases depth, 1
    {
      hide CoinsOk, AnchorsOk, OverlayAnchors, OverlayCoins;
      if nf in cacheNullifiers {
        return cacheNullifiers[nf].entered;
      }
      spent := BaseGetNullifier(nf);
      var m := cacheNullifiers[nf := NullifierEntry(spent, false)];
      assert OverlayNullifiers(m, BaseView().nullifiers) == OverlayNullifiers(cacheNullifiers, BaseView().nullifiers);
      SetNullifiersMap(m);
    }

    method BaseGetBestBlock() returns (block: BlockHash)
      requires Valid()
      modifies Repr - {this}
      ensures Valid() && BaseView() == old(BaseView()) && block == BaseView().bestBlock
      decreases depth, 0
    {
      hide CoinsOk, AnchorsOk, NullifiersOk, OverlayAnchors, OverlayNullifiers, OverlayCoins;
      match base
      case Db(d) =>
        block := d.bestBlock;
      case Parent(c) =>
        ghost var keys := c.cacheCoins.Keys;
        block := c.GetBestBlock();
        MoreKeys(cacheCoins, c.View().coins, keys, c.cacheCoins.Keys);
    }

    method BaseGetBestAnchor() returns (anchor: Root)
      requires Valid()
      modifies Repr - {this}
      ensures Valid() && BaseView() == old(BaseView()) && anchor == BaseView().bestAnchor
      decreases depth, 0
    {
      hide CoinsOk, AnchorsOk, NullifiersOk, OverlayAnchors, OverlayNullifiers, OverlayCoins;
      match base
      case Db(d) =>
        anchor := d.bestAnchor;
      case Parent(c) =>
        ghost var keys := c.cacheCoins.Keys;
        anchor := c.GetBestAnchor();
        MoreKeys(cacheCoins, c.View().coins, keys, c.cacheCoins.Keys);
    }

    method GetBestBlock() returns (block: BlockHash)
      requires Valid()
      modifies Repr
      ensures Valid() && OnlyRead() && block == View().bestBlock && hashBlock == block
      decreases depth, 1
    {
      hide CoinsOk, AnchorsOk, NullifiersOk, OverlayAnchors, OverlayNullifiers, OverlayCoins;
      if hashBlock == NullHash {
        block := BaseGetBestBlock();
        SetHashes(block, hashAnchor);
      }
      return hashBlock;
    }

    method GetBestAnchor() returns (anchor: Root)
      requires Valid()
      modifies Repr
      ensures Valid() && OnlyRead() && anchor == View().bestAnchor && hashAnchor == anchor
      decreases depth, 1
    {
      hide CoinsOk, AnchorsOk, NullifiersOk, OverlayAnchors, OverlayNullifiers, OverlayCoins;
      if hashAnchor == NoRoot {
        anchor := BaseGetBestAnchor();
        SetHashes(hashBlock, anchor);
      }
      return hashAnchor;
    }

    /** `ModifyCoins`: the entry to be modified, marked as dirty; empty when there is none. */
    method ModifyCoins(txid: Txid) returns (coins: CCoins)
      requires Valid() && !hasModifier
      modifies Repr
      ensures Valid() && View() == old(View()) && BaseView() == old(BaseView()) && hasModifier
      ensures coins.IsTrimmed() && txid in cacheCoins && cacheCoins[txid].isDirty
      ensures if txid in View().coins then coins == View().coins[txid] else coins.IsPruned()
    {
      hide CoinsOk, AnchorsOk, NullifiersOk, AllNull, OverlayAnchors, OverlayNullifiers, OverlayCoins;
      hasModifier := true;
      if txid in cacheCoins {
        Dirtied(cacheCoins, BaseView().coins, BaseBelow(), txid);
        SetCoinsMap(cacheCoins[txid := cacheCoins[txid].(isDirty := true)]);
      } else {
        PullDirty(txid);
      }
      EntryAnswers(cacheCoins, BaseView().coins, BaseBelow(), txid);
      coins := cacheCoins[txid].coins;
    }

    /** Make a dirty entry of what the view below answers. */
    method PullDirty(txid: Txid)
      requires Valid() && txid !in cacheCoins
      modifies Repr
      ensures Valid() && View() == old(View()) && BaseView() == old(BaseView()) && hasModifier == old(hasModifier)
      ensures txid in cacheCoins && cacheCoins[txid].isDirty
    {
      hide CoinsOk, AnchorsOk, NullifiersOk, AllNull, OverlayAnchors, OverlayNullifiers, OverlayCoins;
      var found, c := BaseGetCoins(txid);
      if !found {
        // The parent view does not have this entry; mark it as fresh.
        c := NoCoins;
        NoCoinsIsPruned();
      }
      Fetched(cacheCoins, BaseView().coins, BaseBelow(), txid, c, true);
      SetCoinsMap(cacheCoins[txid := CoinsEntry(c, true, c.IsPruned())]);
    }

    /** The end of a modification: clean up, and drop an entry that is fresh and fully spent. */
    method EndModify(txid: Txid, coins: CCoins)
      requires Valid() && hasModifier && txid in cacheCoins && cacheCoins[txid].isDirty
      modifies this
      ensures Valid() && !hasModifier && BaseView() == old(BaseView())
      ensures View() == old(View()).(coins := WithCoins(old(View()).coins, txid, coins))
    {
      hide CoinsOk, AnchorsOk, NullifiersOk, AllNull, OverlayAnchors, OverlayNullifiers, OverlayCoins;
      hasModifier := false;
      var c := coins.Cleaned();
      if cacheCoins[txid].isFresh && c.IsPruned() {
        Dropped(cacheCoins, BaseView().coins, BaseBelow(), txid);
        SetCoinsMap(cacheCoins - {txid});
      } else {
        Modified(cacheCoins, BaseView().coins, BaseBelow(), txid, c);
        SetCoinsMap(cacheCoins[txid := cacheCoins[txid].(coins := c)]);
      }
    }

    method SetNullifier(nf: Nullifier, spent: bool)
      requires Valid()
      modifies this`cacheNullifiers
      ensures Valid() && BaseView() == old(BaseView())
      ensures View() == old(View()).(nullifiers := if spent then old(View()).nullifiers + {nf} else old(View()).nullifiers - {nf})
    {
      hide CoinsOk, AnchorsOk, OverlayAnchors, OverlayCoins;
      var m := cacheNullifiers[nf := NullifierEntry(spent, true)];
      assert OverlayNullifiers(m, BaseView().nullifiers)
          == if spent then View().nullifiers + {nf} else View().nullifiers - {nf};
      SetNullifiersMap(m);
    }

    /** `PushAnchor`: add the tree and make its root the best anchor. */
    method PushAnchor(tree: CommitTree)
      requires Valid()
      modifies Repr
      ensures Valid() && hasModifier == old(hasModifier) && BaseView() == old(BaseView())
      ensures View() == Pushed(old(View()), tree) && hashAnchor == RootOf(tree)
    {
      hide CoinsOk, AnchorsOk, NullifiersOk, OverlayNullifiers, OverlayCoins;
      var newrt := RootOf(tree);
      var current := GetBestAnchor();
      if current != newrt {
        AnchorWritten(cacheAnchors, BaseView().anchors, newrt, AnchorEntry(true, tree, true));
        SetAnchorsMap(cacheAnchors[newrt := AnchorEntry(true, tree, true)]);
        SetHashes(hashBlock, newrt);
      }
    }

    /** `PopAnchor`: take the best anchor out and go back to `newrt`.  The assertion that the best anchor
        can be found holds when it is one of the anchors. */
    method PopAnchor(newrt: Root)
      requires Valid() && newrt != NoRoot
      requires View().bestAnchor == newrt || (View().bestAnchor in View().anchors && View().bestAnchor != EmptyRoot)
      modifies Repr
      ensures Valid() && hasModifier == old(hasModifier) && BaseView() == old(BaseView())
      ensures View() == Popped(old(View()), newrt) && hashAnchor == newrt
    {
      hide CoinsOk, AnchorsOk, NullifiersOk, OverlayNullifiers, OverlayCoins, OverlayAnchors;
      var current := GetBestAnchor();
      if current != newrt {
        RemoveAnchor(current);
        SetHashes(hashBlock, newrt);
      }
    }

    /** Pull an anchor up and mark it as unentered. */
    method RemoveAnchor(current: Root)
      requires Valid() && current in View().anchors && current != EmptyRoot
      modifies Repr
      ensures Valid() && hasModifier == old(hasModifier) && BaseView() == old(BaseView())
      ensures View() == old(View()).(anchors := old(View()).anchors - {current})
    {
      hide CoinsOk, AnchorsOk, NullifiersOk, OverlayNullifiers, OverlayCoins, OverlayAnchors;
      var found, tree := GetAnchorAt(current);
      var entry := cacheAnchors[current].(entered := false, isDirty := true);
      AnchorRemoved(cacheAnchors, BaseView().anchors, current);
      SetAnchorsMap(cacheAnchors[current := entry]);
    }

    method SetBestBlock(block: BlockHash)
      requires Valid() && block != NullHash
      modifies this`hashBlock, this`hashAnchor
      ensures Valid() && hasModifier == old(hasModifier) && BaseView() == old(BaseView())
      ensures View() == old(View()).(bestBlock := block) && hashBlock == block && hashAnchor == old(hashAnchor)
    {
      hide CoinsOk, AnchorsOk, NullifiersOk, OverlayAnchors, OverlayNullifiers, OverlayCoins;
      SetHashes(block, hashAnchor);
    }

    method MergeCoinsMap(mapCoins: CoinsMap)
      requires Valid() && CoinsOk(mapCoins, View().coins, Cache(cacheCoins.Keys))
      modifies this`cacheCoins
      ensures Valid() && BaseView() == old(BaseView())
      ensures View() == old(View()).(coins := OverlayCoins(mapCoins, old(View()).coins))
    {
      hide CoinsOk, AnchorsOk, NullifiersOk, OverlayAnchors, OverlayNullifiers, OverlayCoins, AllNull;
      var m := mapCoins;
      while m != map[]
        invariant Valid() && CoinsOk(m, View().coins, Cache(cacheCoins.Keys))
        invariant BaseView() == old(BaseView()) && View() == old(View()).(coins := View().coins)
        invariant OverlayCoins(m, View().coins) == OverlayCoins(mapCoins, old(View()).coins)
        decreases m.Keys
      {
        var t :| t in m;
        MergeCoinsKeeps(m, cacheCoins, BaseView().coins, BaseBelow(), t);
        // The FRESH assertion: a modified entry the parent lacks was never below the parent either.
        assert m[t].isDirty && t !in cacheCoins && !m[t].coins.IsPruned() ==> m[t].isFresh;
        SetCoinsMap(MergeCoins(cacheCoins, t, m[t]));
        m := m - {t};
      }
      OverlayNoCoins(View().coins);
    }

    method MergeAnchorsMap(mapAnchors: AnchorsMap)
      requires Valid() && AnchorsOk(mapAnchors, View().anchors)
      modifies this`cacheAnchors
      ensures Valid() && BaseView() == old(BaseView())
      ensures View() == old(View()).(anchors := OverlayAnchors(mapAnchors, old(View()).anchors))
    {
      hide CoinsOk, AnchorsOk, NullifiersOk, OverlayAnchors, OverlayNullifiers, OverlayCoins, AllNull;
      var m := mapAnchors;
      while m != map[]
        invariant Valid() && AnchorsOk(m, View().anchors)
        invariant BaseView() == old(BaseView()) && View() == old(View()).(anchors := View().anchors)
        invariant OverlayAnchors(m, View().anchors) == OverlayAnchors(mapAnchors, old(View()).anchors)
        decreases m.Keys
      {
        var t :| t in m;
        MergeAnchorKeeps(m, cacheAnchors, BaseView().anchors, t);
        SetAnchorsMap(MergeAnchor(cacheAnchors, t, m[t]));
        m := m - {t};
      }
      OverlayNoAnchors(View().anchors);
    }

    method MergeNullifiersMap(mapNullifiers: NullifiersMap)
      requires Valid() && NullifiersOk(mapNullifiers, View().nullifiers)
      modifies this`cacheNullifiers
      ensures Valid() && BaseView() == old(BaseView())
      ensures View() == old(View()).(nullifiers := OverlayNullifiers(mapNullifiers, old(View()).nullifiers))
    {
      hide CoinsOk, AnchorsOk, NullifiersOk, OverlayAnchors, OverlayNullifiers, OverlayCoins, AllNull;
      var m := mapNullifiers;
      while m != map[]
        invariant Valid() && NullifiersOk(m, View().nullifiers)
        invariant BaseView() == old(BaseView()) && View() == old(View()).(nullifiers := View().nullifiers)
        invariant OverlayNullifiers(m, View().nullifiers) == OverlayNullifiers(mapNullifiers, old(View()).nullifiers)
        decreases m.Keys
      {
        var t :| t in m;
        MergeNullifierKeeps(m, cacheNullifiers, BaseView().nullifiers, t);
        SetNullifiersMap(MergeNullifier(cacheNullifiers, t, m[t]));
        m := m - {t};
      }
      OverlayNoNullifiers(View().nullifiers);
    }

    /** `CCoinsViewCache::BatchWrite`: take over the modifications of a child. */
    method BatchWrite(mapCoins: CoinsMap, hashBlockIn: BlockHash, hashAnchorIn: Root, mapAnchors: AnchorsMap, mapNullifiers: NullifiersMap)
      requires Valid() && !hasModifier
      requires CoinsOk(mapCoins, View().coins, Cache(cacheCoins.Keys))
      requires AnchorsOk(mapAnchors, View().anchors) && NullifiersOk(mapNullifiers, View().nullifiers)
      modifies this
      ensures Valid() && !hasModifier
      ensures View() == CoinsLayer.View(
                          OverlayCoins(mapCoins, old(View()).coins),
                          OverlayNullifiers(mapNullifiers, old(View()).nullifiers),
                          OverlayAnchors(mapAnchors, old(View()).anchors),
                          if hashBlockIn == NullHash then old(BaseView()).bestBlock else hashBlockIn,
                          if hashAnchorIn == NoRoot then old(BaseView()).bestAnchor else hashAnchorIn)
    {
      hide CoinsOk, AnchorsOk, NullifiersOk, OverlayAnchors, OverlayNullifiers, OverlayCoins, AllNull;
      MergeCoinsMap(mapCoins);
      MergeAnchorsMap(mapAnchors);
      MergeNullifiersMap(mapNullifiers);
      SetHashes(hashBlockIn, hashAnchorIn);
    }

    /** The best block below a cache below: what a null hash falls back on. */
    ghost function FallbackBlock(): BlockHash
      requires Stacked()
      reads Repr
    {
      match base
      case Db(d) => d.bestBlock
      case Parent(c) => c.BaseView().bestBlock
    }

    ghost function FallbackAnchor(): Root
      requires Stacked()
      reads Repr
    {
      match base
      case Db(d) => d.bestAnchor
      case Parent(c) => c.BaseView().bestAnchor
    }

    /** `Flush`: push the modifications to what is below.  Afterwards it answers every coins, anchor and
        nullifier query as this cache did.  The best block agrees exactly when this cache has read or
        set it, or when nothing below has set another one. */
    method Flush()
      requires Valid() && !hasModifier
      modifies Repr
      ensures Valid() && !hasModifier && (base.Parent? ==> base.cache.Valid() && !base.cache.hasModifier)
      ensures base.Db? ==> base.db.Valid()
      ensures hashBlock == old(hashBlock) && hashAnchor == old(hashAnchor)
      ensures View().coins == BaseView().coins == old(View()).coins
      ensures View().anchors == BaseView().anchors == old(View()).anchors
      ensures View().nullifiers == BaseView().nullifiers == old(View()).nullifiers
      ensures BaseView().bestBlock == if old(hashBlock) != NullHash then old(hashBlock) else old(FallbackBlock())
      ensures BaseView().bestBlock == old(View()).bestBlock
         <==> old(hashBlock) != NullHash || old(FallbackBlock()) == old(BaseView()).bestBlock
      ensures BaseView().bestAnchor == old(View()).bestAnchor
         <==> old(hashAnchor) != NoRoot || old(FallbackAnchor()) == old(BaseView()).bestAnchor
      ensures old(hashBlock) != NullHash && old(hashAnchor) != NoRoot ==> View() == old(View()) == BaseView()
    {
      hide CoinsOk, AnchorsOk, NullifiersOk, OverlayAnchors, OverlayNullifiers, OverlayCoins, AllNull;
      match base {
        case Db(d) =>
          d.BatchWrite(cacheCoins, hashBlock, hashAnchor, cacheAnchors, cacheNullifiers);
        case Parent(c) =>
          c.BatchWrite(cacheCoins, hashBlock, hashAnchor, cacheAnchors, cacheNullifiers);
      }
      Cleared();
    }

    /** The layer is emptied. */
    method Cleared()
      requires Stacked() && (base.Db? ==> base.db.Valid()) && (base.Parent? ==> base.cache.Valid() && !base.cache.hasModifier)
      modifies this`cacheCoins, this`cacheAnchors, this`cacheNullifiers
      ensures Valid() && BaseView() == old(BaseView())
      ensures View() == BaseView().(bestBlock := View().bestBlock, bestAnchor := View().bestAnchor)
    {
      hide CoinsOk, AnchorsOk, NullifiersOk, OverlayAnchors, OverlayNullifiers, OverlayCoins, RootsOk;
      if base.Parent? { base.cache.ViewRootsOk(); }
      NothingFits(BaseView(), BaseBelow());
      OverlayNothing(BaseView());
      cacheCoins, cacheAnchors, cacheNullifiers := map[], map[], map[];
    }
  }

  /** A cache that never read the best block is flushed into one that has set it: what was set is lost. */
  method FlushLosesBestBlock(block: BlockHash) returns (before: BlockHash, after: BlockHash)
    requires block != NullHash
    ensures before == block && after == NullHash
  {
    hide CoinsViewCache.Overlay, CoinsViewCache.LayerOk;
    var db := new CoinsViewDB();
    var parent := new CoinsViewCache.OnDatabase(db);
    parent.SetBestBlock(block);
    before := parent.GetBestBlock();
    var child := new CoinsViewCache.OnCache(parent);
    child.Flush();
    after := parent.GetBestBlock();
  }

  /** The coins of a plain view with those of `txid` replaced; a fully spent transaction goes. */
  ghost function WithCoins(m: map<Txid, CCoins>, txid: Txid, coins: CCoins): map<Txid, CCoins> {
    if coins.IsPruned() then m - {txid} else m[txid := coins.Cleaned()]
  }

  ghost function Pushed(v: View, tree: CommitTree): View {
    if v.bestAnchor == RootOf(tree) then v
    else v.(anchors := v.anchors[RootOf(tree) := tree], bestAnchor := RootOf(tree))
  }

  ghost function Popped(v: View, newrt: Root): View {
    if v.bestAnchor == newrt then v else v.(anchors := v.anchors - {v.bestAnchor}, bestAnchor := newrt)
  }

  lemma NoCoinsIsPruned()
    ensures NoCoins.IsPruned()
  {
  }

  lemma StoredTrimmed(m: CoinsMap, db: map<Txid, CCoins>, t: Txid)
    requires t in m && CoinsOk(m, db, Database)
    requires forall u :: u in db ==> db[u].IsTrimmed() && !db[u].IsPruned()
    ensures forall u :: u in StoreCoins(db, t, m[t]) ==> StoreCoins(db, t, m[t])[u].IsTrimmed() && !StoreCoins(db, t, m[t])[u].IsPruned()
  {
    hide AllNull;
    assert CoinsEntryOk(m[t], t, db, Database);
  }

  lemma Dirtied(m: CoinsMap, b: map<Txid, CCoins>, below: Below, t: Txid)
    requires CoinsOk(m, b, below) && t in m
    ensures var m' := m[t := m[t].(isDirty := true)];
            CoinsOk(m', b, below) && OverlayCoins(m', b) == OverlayCoins(m, b)
  {
    hide AllNull, OverlayCoins;
    var m' := m[t := m[t].(isDirty := true)];
    forall u | u in m' ensures CoinsEntryOk(m'[u], u, b, below) {
      assert CoinsEntryOk(m[u], u, b, below);
    }
  }

  /** A modification written into a dirty entry. */
  lemma Modified(m: CoinsMap, b: map<Txid, CCoins>, below: Below, t: Txid, c: CCoins)
    requires CoinsOk(m, b, below) && t in m && m[t].isDirty && c.IsTrimmed()
    ensures CoinsOk(m[t := m[t].(coins := c)], b, below)
    ensures OverlayCoins(m[t := m[t].(coins := c)], b) == if c.IsPruned() then OverlayCoins(m, b) - {t} else OverlayCoins(m, b)[t := c]
  {
    hide AllNull, OverlayCoins;
    var m' := m[t := m[t].(coins := c)];
    forall u | u in m' ensures CoinsEntryOk(m'[u], u, b, below) {
      assert CoinsEntryOk(m[u], u, b, below);
    }
  }

  /** Dropping a fresh entry leaves the answers of one that is fully spent. */
  lemma Dropped(m: CoinsMap, b: map<Txid, CCoins>, below: Below, t: Txid)
    requires CoinsOk(m, b, below) && t in m && m[t].isFresh
    ensures CoinsOk(m - {t}, b, below) && OverlayCoins(m - {t}, b) == OverlayCoins(m, b) - {t}
  {
    hide AllNull, OverlayCoins;
    assert CoinsEntryOk(m[t], t, b, below);
    forall u | u in m - {t} ensures CoinsEntryOk((m - {t})[u], u, b, below) {
      assert CoinsEntryOk(m[u], u, b, below);
    }
  }

  lemma AnchorRemoved(m: AnchorsMap, b: map<Root, CommitTree>, t: Root)
    requires AnchorsOk(m, b) && t in m && t != EmptyRoot
    ensures var e := m[t].(entered := false, isDirty := true);
            AnchorsOk(m[t := e], b) && OverlayAnchors(m[t := e], b) == OverlayAnchors(m, b) - {t}
  {
    assert AnchorEntryOk(m[t], t, b);
    AnchorWritten(m, b, t, m[t].(entered := false, isDirty := true));
  }

  lemma AnchorWritten(m: AnchorsMap, b: map<Root, CommitTree>, t: Root, e: AnchorEntry)
    requires AnchorsOk(m, b) && t == RootOf(e.tree) && e.isDirty && (t == EmptyRoot ==> e.entered)
    ensures AnchorsOk(m[t := e], b)
    ensures OverlayAnchors(m[t := e], b) == if e.entered then OverlayAnchors(m, b)[t := e.tree] else OverlayAnchors(m, b) - {t}
  {
    hide OverlayAnchors;
    var m' := m[t := e];
    forall u | u in m' ensures AnchorEntryOk(m'[u], u, b) {
      if u != t { assert AnchorEntryOk(m[u], u, b); }
    }
  }

  lemma AnchorFetched(m: AnchorsMap, b: map<Root, CommitTree>, t: Root)
    requires AnchorsOk(m, b) && t !in m && t in b
    ensures var m' := m[t := AnchorEntry(true, b[t], false)];
            AnchorsOk(m', b) && OverlayAnchors(m', b) == OverlayAnchors(m, b)
  {
    hide OverlayAnchors;
    var m' := m[t := AnchorEntry(true, b[t], false)];
    forall u | u in m' ensures AnchorEntryOk(m'[u], u, b) {
      if u != t { assert AnchorEntryOk(m[u], u, b); }
    }
  }

  /** What a view may answer for `txid`: a fully spent entry may be there or not. */
  ghost predicate Answers(m: map<Txid, CCoins>, txid: Txid, found: bool, coins: CCoins) {
    if found then coins.IsTrimmed() && (if coins.IsPruned() then txid !in m else txid in m && m[txid] == coins)
    else txid !in m
  }

  lemma EntryAnswers(m: CoinsMap, b: map<Txid, CCoins>, below: Below, t: Txid)
    requires CoinsOk(m, b, below) && t in m
    ensures Answers(OverlayCoins(m, b), t, true, m[t].coins)
  {
    assert CoinsEntryOk(m[t], t, b, below);
  }

  lemma MoreKeys(m: CoinsMap, b: map<Txid, CCoins>, keys: set<Txid>, keys': set<Txid>)
    requires CoinsOk(m, b, Cache(keys)) && keys <= keys'
    ensures CoinsOk(m, b, Cache(keys'))
  {
    forall t | t in m ensures CoinsEntryOk(m[t], t, b, Cache(keys')) {
      assert CoinsEntryOk(m[t], t, b, Cache(keys));
    }
  }

  /** An entry pulled from below changes nothing, dirty or not. */
  lemma Fetched(m: CoinsMap, b: map<Txid, CCoins>, below: Below, t: Txid, coins: CCoins, dirty: bool)
    requires CoinsOk(m, b, below) && t !in m && Answers(b, t, true, coins)
    requires !coins.IsPruned() && below.Cache? ==> t in below.keys
    ensures var m' := m[t := CoinsEntry(coins, dirty, coins.IsPruned())];
            CoinsOk(m', b, below) && OverlayCoins(m', b) == OverlayCoins(m, b)
  {
    hide AllNull, OverlayCoins;
    var m' := m[t := CoinsEntry(coins, dirty, coins.IsPruned())];
    forall u | u in m' ensures CoinsEntryOk(m'[u], u, b, below) {
      if u != t { assert CoinsEntryOk(m[u], u, b, below); }
    }
  }

  lemma OverlayNoAnchors(b: map<Root, CommitTree>)
    ensures OverlayAnchors(map[], b) == b
    ensures AnchorsOk(map[], b) ==> RootsOk(b)
  {
  }

  lemma OverlayRootsOk(m: AnchorsMap, b: map<Root, CommitTree>)
    requires AnchorsOk(m, b)
    ensures RootsOk(OverlayAnchors(m, b))
  {
    var o := OverlayAnchors(m, b);
    forall t | t in o ensures t == RootOf(o[t]) {
      if t in m { assert AnchorEntryOk(m[t], t, b); }
    }
    assert EmptyRoot in m ==> AnchorEntryOk(m[EmptyRoot], EmptyRoot, b);
  }

  lemma OverlayNoNullifiers(b: set<Nullifier>)
    ensures OverlayNullifiers(map[], b) == b
  {
  }

  lemma NothingFits(v: View, below: Below)
    requires RootsOk(v.anchors)
    ensures CoinsOk(map[], v.coins, below) && AnchorsOk(map[], v.anchors) && NullifiersOk(map[], v.nullifiers)
  {
  }

  lemma OverlayNothing(v: View)
    ensures OverlayCoins(map[], v.coins) == v.coins
    ensures OverlayAnchors(map[], v.anchors) == v.anchors
    ensures OverlayNullifiers(map[], v.nullifiers) == v.nullifiers
  {
    OverlayNoCoins(v.coins);
    OverlayNoAnchors(v.anchors);
    OverlayNoNullifiers(v.nullifiers);
  }
}
