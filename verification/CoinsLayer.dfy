/**
 The chain state as a plain value, one write-back cache as a layer over such a value, and what
 merging a layer into the one below does to the answers (src/coins.cpp, CCoinsViewCache; src/txdb.cpp,
 CCoinsViewDB).  CoinsView holds the objects.
 */
module CoinsLayer {
  import opened Coins

  /** A commitment tree is its sequence of commitments, and its root determines it. */
  type CommitTree = seq<Commitment>
  datatype Root = NoRoot | RootOf(tree: CommitTree)
  const EmptyRoot: Root := RootOf([])

  type BlockHash = nat
  const NullHash: BlockHash := 0

  /** The plain maps a view stands for.  A fully spent transaction is absent. */
  datatype View = View(coins: map<Txid, CCoins>, nullifiers: set<Nullifier>, anchors: map<Root, CommitTree>,
                       bestBlock: BlockHash, bestAnchor: Root)

  datatype CoinsEntry = CoinsEntry(coins: CCoins, isDirty: bool, isFresh: bool)
  datatype AnchorEntry = AnchorEntry(entered: bool, tree: CommitTree, isDirty: bool)
  datatype NullifierEntry = NullifierEntry(entered: bool, isDirty: bool)

  type CoinsMap = map<Txid, CoinsEntry>
  type AnchorsMap = map<Root, AnchorEntry>
  type NullifiersMap = map<Nullifier, NullifierEntry>

  /** What lies below a layer: the database, or a cache holding these entries. */
  datatype Below = Database | Cache(keys: set<Txid>)

  // ----- coins

  /** The answers of a layer over the answers `b` of what is below it. */
  ghost function OverlayCoins(m: CoinsMap, b: map<Txid, CCoins>): (r: map<Txid, CCoins>)
    ensures forall t :: t in r <==> if t in m then !m[t].coins.IsPruned() else t in b
    ensures forall t :: t in r ==> r[t] == if t in m then m[t].coins else b[t]
  {
    map t | t in m.Keys + b.Keys && (t in m ==> !m[t].coins.IsPruned()) :: if t in m then m[t].coins else b[t]
  }

  /** An entry that is not dirty agrees with what is below; a fresh one is absent below; one that is
      not fresh came out of the cache below, which therefore holds an entry for it. */
  ghost predicate CoinsEntryOk(e: CoinsEntry, t: Txid, b: map<Txid, CCoins>, below: Below) {
    && e.coins.IsTrimmed()
    && (!e.isDirty ==> if e.coins.IsPruned() then t !in b else t in b && b[t] == e.coins)
    && (e.isFresh ==> t !in b)
    && (!e.isFresh && below.Cache? ==> t in below.keys)
  }

  ghost predicate CoinsOk(m: CoinsMap, b: map<Txid, CCoins>, below: Below) {
    forall t {:trigger CoinsEntryOk(m[t], t, b, below)} :: t in m ==> CoinsEntryOk(m[t], t, b, below)
  }

  /** One turn of the first loop of `CCoinsViewCache::BatchWrite`. */
  function MergeCoins(pm: CoinsMap, t: Txid, e: CoinsEntry): CoinsMap {
    if !e.isDirty then pm
    else if t !in pm then
      if e.coins.IsPruned() then pm else pm[t := CoinsEntry(e.coins, true, true)]
    else if pm[t].isFresh && e.coins.IsPruned() then pm - {t}
    else pm[t := CoinsEntry(e.coins, true, pm[t].isFresh)]
  }

  /** `o` is changed to `o'` at `t` alone, where it now gives what an entry holding `c` gives. */
  ghost predicate SetAt(o: map<Txid, CCoins>, o': map<Txid, CCoins>, t: Txid, c: CCoins) {
    && (forall u :: u != t ==> (u in o <==> u in o'))
    && (forall u :: u != t && u in o ==> u in o' && o[u] == o'[u])
    && (if c.IsPruned() then t !in o' else t in o' && o'[t] == c)
  }

  /** After the merge the parent answers for `t` as the child did, and everything else as before. */
  lemma MergeCoinsAnswer(e: CoinsEntry, pm: CoinsMap, b: map<Txid, CCoins>, below: Below, t: Txid)
    requires CoinsOk(pm, b, below) && CoinsEntryOk(e, t, OverlayCoins(pm, b), Cache(pm.Keys))
    ensures SetAt(OverlayCoins(pm, b), OverlayCoins(MergeCoins(pm, t, e), b), t, e.coins)
  {
    hide AllNull, CoinsOk, OverlayCoins;
    var o, o' := OverlayCoins(pm, b), OverlayCoins(MergeCoins(pm, t, e), b);
    if t in pm { MergeTarget(pm, b, below, t); }
  }

  lemma MergeTarget(pm: CoinsMap, b: map<Txid, CCoins>, below: Below, t: Txid)
    requires CoinsOk(pm, b, below) && t in pm
    ensures CoinsEntryOk(pm[t], t, b, below)
  {
  }

  lemma MergeCoinsParent(e: CoinsEntry, pm: CoinsMap, b: map<Txid, CCoins>, below: Below, t: Txid)
    requires CoinsOk(pm, b, below) && CoinsEntryOk(e, t, OverlayCoins(pm, b), Cache(pm.Keys))
    ensures CoinsOk(MergeCoins(pm, t, e), b, below)
    // The assertion on the FRESH flag.
    ensures e.isDirty && t !in pm && !e.coins.IsPruned() ==> e.isFresh
  {
    hide AllNull;
    var pm' := MergeCoins(pm, t, e);
    forall u | u in pm' ensures CoinsEntryOk(pm'[u], u, b, below) {
      if u in pm { assert CoinsEntryOk(pm[u], u, b, below); }
    }
  }

  /** The remaining entries of the child still fit, and seen through them nothing has changed. */
  lemma RestStillFits(m: CoinsMap, o: map<Txid, CCoins>, o': map<Txid, CCoins>, below: Below, below': Below, t: Txid)
    requires t in m && CoinsOk(m, o, below) && SetAt(o, o', t, m[t].coins)
    requires below.Cache? <==> below'.Cache?
    requires below.Cache? ==> forall u :: u in below.keys && u != t ==> u in below'.keys
    ensures CoinsOk(m - {t}, o', below')
    ensures OverlayCoins(m - {t}, o') == OverlayCoins(m, o)
  {
    hide AllNull, OverlayCoins;
    forall u | u in m - {t} ensures CoinsEntryOk((m - {t})[u], u, o', below') {
      assert CoinsEntryOk(m[u], u, o, below);
    }
  }

  /** Merging one entry changes no answer seen through the child. */
  lemma MergeCoinsKeeps(m: CoinsMap, pm: CoinsMap, b: map<Txid, CCoins>, below: Below, t: Txid)
    requires t in m && CoinsOk(pm, b, below) && CoinsOk(m, OverlayCoins(pm, b), Cache(pm.Keys))
    ensures m[t].isDirty && t !in pm && !m[t].coins.IsPruned() ==> m[t].isFresh
    ensures var pm' := MergeCoins(pm, t, m[t]);
            && CoinsOk(pm', b, below)
            && CoinsOk(m - {t}, OverlayCoins(pm', b), Cache(pm'.Keys))
            && OverlayCoins(m - {t}, OverlayCoins(pm', b)) == OverlayCoins(m, OverlayCoins(pm, b))
  {
    assert CoinsEntryOk(m[t], t, OverlayCoins(pm, b), Cache(pm.Keys));
    hide AllNull, CoinsOk, OverlayCoins, SetAt, CoinsEntryOk;
    var pm' := MergeCoins(pm, t, m[t]);
    MergeCoinsAnswer(m[t], pm, b, below, t);
    MergeCoinsParent(m[t], pm, b, below, t);
    RestStillFits(m, OverlayCoins(pm, b), OverlayCoins(pm', b), Cache(pm.Keys), Cache(pm'.Keys), t);
  }

  /** One turn of the loop of `CCoinsViewDB::BatchWrite`. */
  function StoreCoins(db: map<Txid, CCoins>, t: Txid, e: CoinsEntry): map<Txid, CCoins> {
    if !e.isDirty then db else if e.coins.IsPruned() then db - {t} else db[t := e.coins]
  }

  lemma StoreCoinsKeeps(m: CoinsMap, db: map<Txid, CCoins>, t: Txid)
    requires t in m && CoinsOk(m, db, Database)
    ensures var db' := StoreCoins(db, t, m[t]);
            CoinsOk(m - {t}, db', Database) && OverlayCoins(m - {t}, db') == OverlayCoins(m, db)
  {
    hide AllNull;
    var db' := StoreCoins(db, t, m[t]);
    assert CoinsEntryOk(m[t], t, db, Database);
    RestStillFits(m, db, db', Database, Database, t);
  }

  lemma OverlayNoCoins(b: map<Txid, CCoins>)
    ensures OverlayCoins(map[], b) == b
  {
  }

  // ----- anchors

  ghost function OverlayAnchors(m: AnchorsMap, b: map<Root, CommitTree>): (r: map<Root, CommitTree>)
    ensures forall t :: t in r <==> if t in m then m[t].entered else t in b
    ensures forall t :: t in r ==> r[t] == if t in m then m[t].tree else b[t]
  {
    map t | t in m.Keys + b.Keys && (t in m ==> m[t].entered) :: if t in m then m[t].tree else b[t]
  }

  ghost predicate RootsOk(b: map<Root, CommitTree>) {
    EmptyRoot in b && forall t :: t in b ==> t == RootOf(b[t])
  }

  ghost predicate AnchorEntryOk(e: AnchorEntry, t: Root, b: map<Root, CommitTree>) {
    && t == RootOf(e.tree)
    && (!e.isDirty ==> (e.entered <==> t in b))
    && (t == EmptyRoot ==> e.entered)
  }

  /** Every entry holds the tree its key is the root of, and the empty root is never taken out. */
  ghost predicate AnchorsOk(m: AnchorsMap, b: map<Root, CommitTree>) {
    && RootsOk(b)
    && forall t {:trigger AnchorEntryOk(m[t], t, b)} :: t in m ==> AnchorEntryOk(m[t], t, b)
  }

  function MergeAnchor(pm: AnchorsMap, t: Root, e: AnchorEntry): AnchorsMap {
    if !e.isDirty then pm
    else if t !in pm then pm[t := AnchorEntry(e.entered, e.tree, true)]
    else if pm[t].entered != e.entered then pm[t := pm[t].(entered := e.entered, isDirty := true)]
    else pm
  }

  /** The merge does not copy the tree into an existing entry; the root being its key, none is lost. */
  lemma MergeAnchorKeeps(m: AnchorsMap, pm: AnchorsMap, b: map<Root, CommitTree>, t: Root)
    requires t in m && AnchorsOk(pm, b) && AnchorsOk(m, OverlayAnchors(pm, b))
    ensures var pm' := MergeAnchor(pm, t, m[t]);
            && AnchorsOk(pm', b)
            && AnchorsOk(m - {t}, OverlayAnchors(pm', b))
            && OverlayAnchors(m - {t}, OverlayAnchors(pm', b)) == OverlayAnchors(m, OverlayAnchors(pm, b))
  {
    assert AnchorEntryOk(m[t], t, OverlayAnchors(pm, b));
    MergeAnchorParent(m[t], pm, b, t);
    AnchorsStillFit(m, OverlayAnchors(pm, b), OverlayAnchors(MergeAnchor(pm, t, m[t]), b), t);
  }

  lemma MergeAnchorParent(e: AnchorEntry, pm: AnchorsMap, b: map<Root, CommitTree>, t: Root)
    requires AnchorsOk(pm, b) && AnchorEntryOk(e, t, OverlayAnchors(pm, b))
    ensures AnchorsOk(MergeAnchor(pm, t, e), b)
    ensures AnchorSetAt(OverlayAnchors(pm, b), OverlayAnchors(MergeAnchor(pm, t, e), b), t, e)
    ensures RootsOk(OverlayAnchors(MergeAnchor(pm, t, e), b))
  {
    hide OverlayAnchors;
    var pm' := MergeAnchor(pm, t, e);
    var o' := OverlayAnchors(pm', b);
    assert t in pm ==> AnchorEntryOk(pm[t], t, b);
    forall u | u in pm' ensures AnchorEntryOk(pm'[u], u, b) {
      if u in pm { assert AnchorEntryOk(pm[u], u, b); }
    }
    forall u | u in o' ensures u == RootOf(o'[u]) {
      if u in pm' { assert AnchorEntryOk(pm'[u], u, b); }
    }
    assert EmptyRoot in pm' ==> AnchorEntryOk(pm'[EmptyRoot], EmptyRoot, b);
  }

  ghost predicate AnchorSetAt(o: map<Root, CommitTree>, o': map<Root, CommitTree>, t: Root, e: AnchorEntry) {
    && (forall u :: u != t ==> (u in o <==> u in o'))
    && (forall u :: u != t && u in o ==> u in o' && o[u] == o'[u])
    && (if e.entered then t in o' && o'[t] == e.tree else t !in o')
  }

  lemma AnchorsStillFit(m: AnchorsMap, o: map<Root, CommitTree>, o': map<Root, CommitTree>, t: Root)
    requires t in m && AnchorsOk(m, o) && AnchorSetAt(o, o', t, m[t]) && RootsOk(o')
    ensures AnchorsOk(m - {t}, o')
    ensures OverlayAnchors(m - {t}, o') == OverlayAnchors(m, o)
  {
    hide OverlayAnchors;
    forall u | u in m - {t} ensures AnchorEntryOk((m - {t})[u], u, o') {
      assert AnchorEntryOk(m[u], u, o);
    }
  }

  function StoreAnchor(db: map<Root, CommitTree>, t: Root, e: AnchorEntry): map<Root, CommitTree> {
    if !e.isDirty then db else if !e.entered then db - {t} else db[t := e.tree]
  }

  /** `CCoinsViewDB::GetAnchorAt` answers for the empty root whatever is stored. */
  function DatabaseAnchors(db: map<Root, CommitTree>): map<Root, CommitTree> {
    db[EmptyRoot := []]
  }

  lemma StoreAnchorKeeps(m: AnchorsMap, db: map<Root, CommitTree>, t: Root)
    requires t in m && AnchorsOk(m, DatabaseAnchors(db))
    ensures var db' := StoreAnchor(db, t, m[t]);
            && AnchorsOk(m - {t}, DatabaseAnchors(db'))
            && OverlayAnchors(m - {t}, DatabaseAnchors(db')) == OverlayAnchors(m, DatabaseAnchors(db))
  {
    var db' := StoreAnchor(db, t, m[t]);
    assert AnchorEntryOk(m[t], t, DatabaseAnchors(db));
    forall u | u in DatabaseAnchors(db') ensures u == RootOf(DatabaseAnchors(db')[u]) {
      if u != t { assert u in DatabaseAnchors(db); }
    }
    AnchorsStillFit(m, DatabaseAnchors(db), DatabaseAnchors(db'), t);
  }

  /** Were the empty root ever taken out of a cache over the database, the flush would lose that. */
  lemma EmptyRootCannotBeRemoved(db: map<Root, CommitTree>)
    ensures var e := AnchorEntry(false, [], true);
            EmptyRoot !in OverlayAnchors(map[EmptyRoot := e], DatabaseAnchors(db))
            && EmptyRoot in DatabaseAnchors(StoreAnchor(db, EmptyRoot, e))
  {
  }

  // ----- nullifiers

  ghost function OverlayNullifiers(m: NullifiersMap, b: set<Nullifier>): (r: set<Nullifier>)
    ensures forall t :: t in r <==> if t in m then m[t].entered else t in b
  {
    set t | t in m.Keys + b && (t in m ==> m[t].entered)
  }

  ghost predicate NullifiersOk(m: NullifiersMap, b: set<Nullifier>) {
    forall t :: t in m && !m[t].isDirty ==> (m[t].entered <==> t in b)
  }

  function MergeNullifier(pm: NullifiersMap, t: Nullifier, e: NullifierEntry): NullifiersMap {
    if !e.isDirty then pm
    else if t !in pm then pm[t := NullifierEntry(e.entered, true)]
    else if pm[t].entered != e.entered then pm[t := NullifierEntry(e.entered, true)]
    else pm
  }

  lemma MergeNullifierKeeps(m: NullifiersMap, pm: NullifiersMap, b: set<Nullifier>, t: Nullifier)
    requires t in m && NullifiersOk(pm, b) && NullifiersOk(m, OverlayNullifiers(pm, b))
    ensures var pm' := MergeNullifier(pm, t, m[t]);
            && NullifiersOk(pm', b)
            && NullifiersOk(m - {t}, OverlayNullifiers(pm', b))
            && OverlayNullifiers(m - {t}, OverlayNullifiers(pm', b)) == OverlayNullifiers(m, OverlayNullifiers(pm, b))
  {
    var pm' := MergeNullifier(pm, t, m[t]);
    var o, o' := OverlayNullifiers(pm, b), OverlayNullifiers(pm', b);
    assert forall u :: u != t ==> (u in o <==> u in o');
    assert OverlayNullifiers(m - {t}, o') == OverlayNullifiers(m, o);
  }

  function StoreNullifier(db: set<Nullifier>, t: Nullifier, e: NullifierEntry): set<Nullifier> {
    if !e.isDirty then db else if !e.entered then db - {t} else db + {t}
  }

  lemma StoreNullifierKeeps(m: NullifiersMap, db: set<Nullifier>, t: Nullifier)
    requires t in m && NullifiersOk(m, db)
    ensures var db' := StoreNullifier(db, t, m[t]);
            NullifiersOk(m - {t}, db') && OverlayNullifiers(m - {t}, db') == OverlayNullifiers(m, db)
  {
    var db' := StoreNullifier(db, t, m[t]);
    assert OverlayNullifiers(m - {t}, db') == OverlayNullifiers(m, db);
  }
}
