/**
 The tables of the address manager as values, and what it means for its redundant indexes to agree
 (src/addrman.h, src/addrman.cpp, Check_).  AddrMan holds the object that updates them.
 */
module AddrTables {
  type NetAddr = nat
  type Key = nat

  const NULL_KEY: Key := 0

  const TRIED_BUCKET_COUNT: nat := 256
  const NEW_BUCKET_COUNT: nat := 1024
  const BUCKET_SIZE: nat := 64
  const NEW_BUCKETS_PER_ADDRESS: nat := 8

  type TriedBucket = n: nat | n < 256
  type NewBucket = n: nat | n < 1024
  type Position = n: nat | n < 64

  datatype Service = Service(ip: NetAddr, port: nat)

  /** The keyed hashes that place an address: GetTriedBucket, GetNewBucket and GetBucketPosition. */
  datatype Hashes = Hashes(
    triedBucket: (Key, Service) -> TriedBucket,
    newBucket: (Key, Service, NetAddr) -> NewBucket,
    position: (Key, bool, nat, Service) -> Position)

  /** `CAddrInfo`. */
  datatype Info = Info(addr: Service, services: set<nat>, time: nat, source: NetAddr,
                       lastTry: int, lastSuccess: int, attempts: nat,
                       refCount: int, inTried: bool, randomPos: int)

  const HORIZON_DAYS: int := 30
  const RETRIES: int := 3
  const MAX_FAILURES: int := 10
  const MIN_FAIL_DAYS: int := 7
  const GETADDR_MAX_PCT: int := 23
  const GETADDR_MAX: int := 2500

  /** `IsTerrible`: the statistics are bad enough that the entry can just be deleted. */
  predicate IsTerrible(i: Info, now: int) {
    if i.lastTry != 0 && i.lastTry >= now - 60 then false
    else
      || i.time > now + 10 * 60
      || i.time == 0 || now - i.time > HORIZON_DAYS * 24 * 60 * 60
      || (i.lastSuccess == 0 && i.attempts >= RETRIES)
      || (now - i.lastSuccess > MIN_FAIL_DAYS * 24 * 60 * 60 && i.attempts >= MAX_FAILURES)
  }

  /** An entry tried within the last minute is kept; any other one goes when it comes from more than ten minutes ahead, has
      not been heard of for thirty days, has failed three times without ever having succeeded, or has failed ten times with
      no success for a week; and for no other reason. */
  lemma TerribleExactly(i: Info, now: int)
    ensures i.lastTry != 0 && now - i.lastTry <= 60 ==> !IsTerrible(i, now)
    ensures i.lastTry == 0 || now - i.lastTry > 60 ==>
              && (i.time == 0 || now - i.time > 2_592_000 || i.time - now > 600 ==> IsTerrible(i, now))
              && (i.lastSuccess == 0 && i.attempts >= 3 ==> IsTerrible(i, now))
              && (now - i.lastSuccess > 604_800 && i.attempts >= 10 ==> IsTerrible(i, now))
    ensures i.time != 0 && -600 <= now - i.time <= 2_592_000 && i.attempts < 3 ==> !IsTerrible(i, now)
    ensures i.time != 0 && -600 <= now - i.time <= 2_592_000 && i.lastSuccess != 0 && i.attempts < 10 ==> !IsTerrible(i, now)
    ensures i.time != 0 && -600 <= now - i.time <= 2_592_000 && i.lastSuccess != 0 && now - i.lastSuccess <= 604_800 ==> !IsTerrible(i, now)
  {
  }

  /** `CAddress`: what is handed out of an entry. */
  datatype Address = Address(addr: Service, services: set<nat>, time: nat)

  function AddressOf(i: Info): Address {
    Address(i.addr, i.services, i.time)
  }

  datatype Slot = Slot(bucket: nat, pos: nat)

  type Infos = map<int, Info>
  /** A table of buckets; a slot that is not in the map holds -1. */
  type Table = map<Slot, int>

  function NewSlot(h: Hashes, key: Key, a: Service, bucket: nat): Slot {
    Slot(bucket, h.position(key, true, bucket, a))
  }

  function TriedSlot(h: Hashes, key: Key, a: Service): Slot {
    Slot(h.triedBucket(key, a), h.position(key, false, h.triedBucket(key, a), a))
  }

  // ----- mapAddr

  /** mapAddr and mapInfo are inverse to each other. */
  ghost predicate AddrOk(info: Infos, addr: map<NetAddr, int>) {
    && (forall n :: n in info ==> info[n].addr.ip in addr && addr[info[n].addr.ip] == n)
    && (forall a :: a in addr ==> addr[a] in info && info[addr[a]].addr.ip == a)
  }

  // ----- vRandom

  /** vRandom and nRandomPos are inverse to each other. */
  ghost predicate RandomOk(info: Infos, random: seq<int>) {
    && (forall n :: n in info ==> 0 <= info[n].randomPos < |random| && random[info[n].randomPos] == n)
    && (forall i :: 0 <= i < |random| ==> random[i] in info && info[random[i]].randomPos == i)
  }

  // ----- vvNew

  ghost function Refs(news: Table, n: int): set<Slot> {
    set s | s in news && news[s] == n
  }

  /** Every slot in use is the hashed slot of an entry that is not tried, and nRefCount counts the slots. */
  ghost predicate NewSlotOk(h: Hashes, key: Key, info: Infos, news: Table, s: Slot)
    requires s in news
  {
    && news[s] in info && !info[news[s]].inTried
    && s.bucket < NEW_BUCKET_COUNT && s == NewSlot(h, key, info[news[s]].addr, s.bucket)
  }

  ghost predicate NewOk(h: Hashes, key: Key, info: Infos, news: Table) {
    && (forall s {:trigger NewSlotOk(h, key, info, news, s)} :: s in news ==> NewSlotOk(h, key, info, news, s))
    && (forall n :: n in info ==> info[n].refCount == |Refs(news, n)|)
  }

  // ----- vvTried

  /** The tried entries are exactly those in the tried table, each in its hashed slot. */
  ghost predicate TriedOk(h: Hashes, key: Key, info: Infos, tried: Table) {
    && (forall s :: s in tried ==> tried[s] in info && info[tried[s]].inTried && s == TriedSlot(h, key, info[tried[s]].addr))
    && (forall n :: n in info && info[n].inTried ==>
          TriedSlot(h, key, info[n].addr) in tried && tried[TriedSlot(h, key, info[n].addr)] == n)
  }

  // ----- counters

  ghost function TriedIds(info: Infos): set<int> {
    set n | n in info && info[n].inTried
  }

  ghost function NewIds(info: Infos): set<int> {
    set n | n in info && !info[n].inTried
  }

  /** nTried counts the tried entries and nNew the others, except those in `limbo`, which are on their
      way from one table to the other. */
  ghost predicate CountsOk(info: Infos, nTried: int, nNew: int, limbo: set<int>) {
    nTried == |TriedIds(info)| && nNew == |NewIds(info) - limbo|
  }

  /** Fewer references than the cap, and none at all only for the entries in `except`. */
  ghost predicate RefsBounded(info: Infos, except: set<int>) {
    forall n :: n in info && n !in except && !info[n].inTried ==> 1 <= info[n].refCount <= NEW_BUCKETS_PER_ADDRESS
  }

  ghost predicate TimesOk(info: Infos) {
    forall n :: n in info ==>
      info[n].lastTry >= 0 && info[n].lastSuccess >= 0 && (info[n].inTried ==> info[n].lastSuccess != 0)
  }

  // ----- what each elementary change keeps

  /** Nothing the address, new and tried indexes depend on is different. */
  ghost predicate SameSlots(i: Info, j: Info) {
    i.addr == j.addr && i.refCount == j.refCount && i.inTried == j.inTried
  }

  lemma SlotsKept(h: Hashes, key: Key, info: Infos, n: int, i: Info, addr: map<NetAddr, int>, news: Table, tried: Table)
    requires n in info && SameSlots(info[n], i)
    ensures AddrOk(info, addr) ==> AddrOk(info[n := i], addr)
    ensures NewOk(h, key, info, news) ==> NewOk(h, key, info[n := i], news)
    ensures TriedOk(h, key, info, tried) ==> TriedOk(h, key, info[n := i], tried)
    ensures TriedIds(info[n := i]) == TriedIds(info) && NewIds(info[n := i]) == NewIds(info)
  {
    var info' := info[n := i];
    if NewOk(h, key, info, news) {
      forall s | s in news ensures NewSlotOk(h, key, info', news, s) {
        assert NewSlotOk(h, key, info, news, s);
      }
    }
  }

  lemma RandomKept(info: Infos, n: int, i: Info, random: seq<int>)
    requires n in info && i.randomPos == info[n].randomPos && RandomOk(info, random)
    ensures RandomOk(info[n := i], random)
  {
  }

  /** Exchanging two places of vRandom. */
  lemma SwapKeepsRandom(info: Infos, random: seq<int>, i: int, j: int)
    requires RandomOk(info, random) && 0 <= i < |random| && 0 <= j < |random| && i != j
    ensures var a, b := random[i], random[j];
            a != b && RandomOk(info[a := info[a].(randomPos := j)][b := info[b].(randomPos := i)], random[i := b][j := a])
  {
  }

  /** A new entry without references, at the end of vRandom. */
  lemma CreateKeeps(h: Hashes, key: Key, info: Infos, n: int, i: Info, addr: map<NetAddr, int>, random: seq<int>, news: Table, tried: Table)
    requires AddrOk(info, addr) && RandomOk(info, random) && NewOk(h, key, info, news) && TriedOk(h, key, info, tried)
    requires n !in info && i.addr.ip !in addr && i.randomPos == |random| && i.refCount == 0 && !i.inTried
    ensures AddrOk(info[n := i], addr[i.addr.ip := n])
    ensures RandomOk(info[n := i], random + [n])
    ensures NewOk(h, key, info[n := i], news)
    ensures TriedOk(h, key, info[n := i], tried)
    ensures TriedIds(info[n := i]) == TriedIds(info) && NewIds(info[n := i]) == NewIds(info) + {n}
  {
    var info' := info[n := i];
    forall s | s in news ensures NewSlotOk(h, key, info', news, s) && news[s] != n {
      assert NewSlotOk(h, key, info, news, s);
    }
    assert Refs(news, n) == {};
  }

  /** Taking out an entry without references that is last in vRandom. */
  lemma DeleteKeeps(h: Hashes, key: Key, info: Infos, n: int, addr: map<NetAddr, int>, random: seq<int>, news: Table, tried: Table)
    requires AddrOk(info, addr) && RandomOk(info, random) && NewOk(h, key, info, news) && TriedOk(h, key, info, tried)
    requires n in info && info[n].refCount == 0 && !info[n].inTried && info[n].randomPos == |random| - 1
    ensures AddrOk(info - {n}, addr - {info[n].addr.ip})
    ensures RandomOk(info - {n}, random[..|random| - 1])
    ensures NewOk(h, key, info - {n}, news)
    ensures TriedOk(h, key, info - {n}, tried)
    ensures TriedIds(info - {n}) == TriedIds(info) && NewIds(info - {n}) == NewIds(info) - {n}
  {
    var info' := info - {n};
    assert Refs(news, n) == {};
    forall s | s in news ensures NewSlotOk(h, key, info', news, s) {
      assert NewSlotOk(h, key, info, news, s);
      assert s in Refs(news, news[s]);
    }
  }

  /** Clearing a slot of the new table takes one reference. */
  lemma ClearSlotKeeps(h: Hashes, key: Key, info: Infos, s: Slot, news: Table, tried: Table)
    requires NewOk(h, key, info, news) && TriedOk(h, key, info, tried) && s in news
    ensures var n := news[s];
            && n in info && !info[n].inTried && info[n].refCount > 0
            && NewOk(h, key, info[n := info[n].(refCount := info[n].refCount - 1)], news - {s})
            && TriedOk(h, key, info[n := info[n].(refCount := info[n].refCount - 1)], tried)
  {
    assert NewSlotOk(h, key, info, news, s);
    var n := news[s];
    var info', news' := info[n := info[n].(refCount := info[n].refCount - 1)], news - {s};
    assert s in Refs(news, n) && Refs(news', n) == Refs(news, n) - {s};
    forall u | u in news' ensures NewSlotOk(h, key, info', news', u) {
      assert NewSlotOk(h, key, info, news, u);
    }
    forall m | m in info' ensures info'[m].refCount == |Refs(news', m)| {
      if m != n { assert Refs(news', m) == Refs(news, m); }
    }
  }

  /** Filling an empty slot of the new table adds one. */
  lemma FillSlotKeeps(h: Hashes, key: Key, info: Infos, n: int, bucket: nat, news: Table, tried: Table)
    requires NewOk(h, key, info, news) && TriedOk(h, key, info, tried)
    requires n in info && !info[n].inTried && bucket < NEW_BUCKET_COUNT && NewSlot(h, key, info[n].addr, bucket) !in news
    ensures var info' := info[n := info[n].(refCount := info[n].refCount + 1)];
            && NewOk(h, key, info', news[NewSlot(h, key, info[n].addr, bucket) := n])
            && TriedOk(h, key, info', tried)
  {
    var s := NewSlot(h, key, info[n].addr, bucket);
    var info', news' := info[n := info[n].(refCount := info[n].refCount + 1)], news[s := n];
    assert Refs(news', n) == Refs(news, n) + {s};
    forall u | u in news' ensures NewSlotOk(h, key, info', news', u) {
      if u != s { assert NewSlotOk(h, key, info, news, u); }
    }
    forall m | m in info' ensures info'[m].refCount == |Refs(news', m)| {
      if m != n { assert Refs(news', m) == Refs(news, m); }
    }
  }

  /** Leaving the tried table. */
  lemma LeaveTriedKeeps(h: Hashes, key: Key, info: Infos, s: Slot, news: Table, tried: Table)
    requires NewOk(h, key, info, news) && TriedOk(h, key, info, tried) && s in tried
    ensures var n := tried[s];
            var info' := info[n := info[n].(inTried := false)];
            && n in info && info[n].inTried && info[n].refCount == 0
            && NewOk(h, key, info', news) && TriedOk(h, key, info', tried - {s})
            && TriedIds(info') == TriedIds(info) - {n} && NewIds(info') == NewIds(info) + {n}
  {
    var n := tried[s];
    var info' := info[n := info[n].(inTried := false)];
    forall u | u in news ensures NewSlotOk(h, key, info', news, u) && news[u] != n {
      assert NewSlotOk(h, key, info, news, u);
    }
    assert Refs(news, n) == {};
  }

  /** Entering the tried table at an empty hashed slot. */
  lemma EnterTriedKeeps(h: Hashes, key: Key, info: Infos, n: int, news: Table, tried: Table)
    requires NewOk(h, key, info, news) && TriedOk(h, key, info, tried)
    requires n in info && !info[n].inTried && info[n].refCount == 0 && TriedSlot(h, key, info[n].addr) !in tried
    ensures var info' := info[n := info[n].(inTried := true)];
            && NewOk(h, key, info', news) && TriedOk(h, key, info', tried[TriedSlot(h, key, info[n].addr) := n])
            && TriedIds(info') == TriedIds(info) + {n} && NewIds(info') == NewIds(info) - {n}
  {
    var info' := info[n := info[n].(inTried := true)];
    assert Refs(news, n) == {};
    forall u | u in news ensures NewSlotOk(h, key, info', news, u) {
      assert NewSlotOk(h, key, info, news, u);
      assert u in Refs(news, news[u]);
    }
  }

  // ----- all indexes together

  datatype Tables = Tables(idCount: int, info: Infos, addr: map<NetAddr, int>, random: seq<int>,
                           nTried: int, tried: Table, nNew: int, news: Table)

  /** The indexes agree.  Entries in `limbo` are in no table and not counted. */
  ghost predicate Agree(h: Hashes, key: Key, t: Tables, limbo: set<int>) {
    && AddrOk(t.info, t.addr) && RandomOk(t.info, t.random)
    && NewOk(h, key, t.info, t.news) && TriedOk(h, key, t.info, t.tried)
    && CountsOk(t.info, t.nTried, t.nNew, limbo) && limbo <= NewIds(t.info)
    && |t.random| == |t.info| && t.idCount >= 0
    && (forall n :: n in t.info ==> 0 <= n < t.idCount)
  }

  /** Apart from their place in vRandom, all entries but those in `ex` are the same. */
  ghost predicate KeptExcept(info: Infos, info': Infos, ex: set<int>) {
    && (forall m :: m in info && m !in ex ==> m in info')
    && (forall m :: m in info' && m !in ex ==> m in info && info'[m] == info[m].(randomPos := info'[m].randomPos))
  }

  lemma KeptTransitive(info: Infos, info': Infos, info'': Infos, ex: set<int>, ex': set<int>)
    requires KeptExcept(info, info', ex) && KeptExcept(info', info'', ex')
    ensures KeptExcept(info, info'', ex + ex')
  {
  }

  function WithInfo(t: Tables, n: int, i: Info): Tables {
    t.(info := t.info[n := i])
  }

  lemma StatisticsKeepAgree(h: Hashes, key: Key, t: Tables, limbo: set<int>, n: int, i: Info)
    requires Agree(h, key, t, limbo) && n in t.info && SameSlots(t.info[n], i) && i.randomPos == t.info[n].randomPos
    ensures Agree(h, key, WithInfo(t, n, i), limbo)
  {
    hide AddrOk, RandomOk, NewOk, TriedOk;
    SlotsKept(h, key, t.info, n, i, t.addr, t.news, t.tried);
    RandomKept(t.info, n, i, t.random);
    assert t.info[n := i].Keys == t.info.Keys;
  }

  function Created(t: Tables, i: Info): Tables {
    t.(idCount := t.idCount + 1, info := t.info[t.idCount := i], addr := t.addr[i.addr.ip := t.idCount],
       random := t.random + [t.idCount], nNew := t.nNew + 1)
  }

  lemma CreateCounts(info: Infos, n: int, i: Info)
    requires n !in info && !i.inTried
    ensures |NewIds(info[n := i]) - {}| == |NewIds(info) - {}| + 1 && TriedIds(info[n := i]) == TriedIds(info)
  {
    assert NewIds(info[n := i]) - {} == NewIds(info) - {} + {n};
  }

  lemma CreateKeepsAgree(h: Hashes, key: Key, t: Tables, i: Info)
    requires Agree(h, key, t, {}) && i.addr.ip !in t.addr && i.randomPos == |t.random| && i.refCount == 0 && !i.inTried
    ensures t.idCount !in t.info && Agree(h, key, Created(t, i), {})
  {
    var n := t.idCount;
    assert n !in t.info;
    hide AddrOk, RandomOk, NewOk, TriedOk;
    CreateKeeps(h, key, t.info, n, i, t.addr, t.random, t.news, t.tried);
    CreateCounts(t.info, n, i);
    assert t.info[n := i].Keys == t.info.Keys + {n};
  }

  function Swapped(t: Tables, i: nat, j: nat): Tables
    requires i < |t.random| && j < |t.random| && t.random[i] in t.info && t.random[j] in t.info
  {
    if i == j then t
    else
      var a, b := t.random[i], t.random[j];
      var info := t.info[a := t.info[a].(randomPos := j)];
      t.(info := info[b := info[b].(randomPos := i)], random := t.random[i := b][j := a])
  }

  lemma SwapKeepsAgree(h: Hashes, key: Key, t: Tables, limbo: set<int>, i: nat, j: nat)
    requires Agree(h, key, t, limbo) && i < |t.random| && j < |t.random|
    ensures t.random[i] in t.info && t.random[j] in t.info
    ensures Agree(h, key, Swapped(t, i, j), limbo)
    ensures KeptExcept(t.info, Swapped(t, i, j).info, {}) && Swapped(t, i, j).info.Keys == t.info.Keys
    ensures Swapped(t, i, j).info[t.random[i]].randomPos == j
  {
    hide AddrOk, NewOk, TriedOk, CountsOk;
    if i != j {
      var a, b := t.random[i], t.random[j];
      SwapKeepsRandom(t.info, t.random, i, j);
      var info := t.info[a := t.info[a].(randomPos := j)];
      SlotsKept(h, key, t.info, a, t.info[a].(randomPos := j), t.addr, t.news, t.tried);
      SlotsKept(h, key, info, b, info[b].(randomPos := i), t.addr, t.news, t.tried);
      CountsKept(t.info, info[b := info[b].(randomPos := i)], t.nTried, t.nNew, limbo);
      assert info[b := info[b].(randomPos := i)].Keys == t.info.Keys;
    }
  }

  lemma CountsKept(info: Infos, info': Infos, nTried: int, nNew: int, limbo: set<int>)
    requires TriedIds(info) == TriedIds(info') && NewIds(info) == NewIds(info')
    ensures CountsOk(info, nTried, nNew, limbo) <==> CountsOk(info', nTried, nNew, limbo)
  {
  }

  /** `Delete` once the entry is last in vRandom. */
  function RemovedLast(t: Tables, n: int): Tables
    requires n in t.info && |t.random| > 0
  {
    t.(random := t.random[..|t.random| - 1], addr := t.addr - {t.info[n].addr.ip}, info := t.info - {n}, nNew := t.nNew - 1)
  }

  lemma RemoveLastKeepsAgree(h: Hashes, key: Key, t: Tables, limbo: set<int>, n: int)
    requires Agree(h, key, t, limbo) && n in t.info && n !in limbo && !t.info[n].inTried && t.info[n].refCount == 0
    requires t.info[n].randomPos == |t.random| - 1
    ensures |t.random| > 0 && Agree(h, key, RemovedLast(t, n), limbo)
  {
    assert |t.random| > 0;
    hide AddrOk, RandomOk, NewOk, TriedOk;
    DeleteKeeps(h, key, t.info, n, t.addr, t.random, t.news, t.tried);
    assert NewIds(t.info - {n}) - limbo == NewIds(t.info) - limbo - {n};
    assert n in NewIds(t.info) - limbo;
    assert (t.info - {n}).Keys == t.info.Keys - {n};
  }

  /** What `Delete` asserts, and that the entry is at its place in vRandom. */
  predicate Deletable(t: Tables, n: int) {
    && n in t.info && !t.info[n].inTried && t.info[n].refCount == 0
    && 0 <= t.info[n].randomPos < |t.random| && t.random[t.info[n].randomPos] == n
    && t.random[|t.random| - 1] in t.info
  }

  /** `Delete`: swap to the end of vRandom, then remove. */
  function Deleted(t: Tables, n: int): Tables
    requires Deletable(t, n)
  {
    RemovedLast(Swapped(t, t.info[n].randomPos, |t.random| - 1), n)
  }

  lemma PlaceOf(h: Hashes, key: Key, t: Tables, limbo: set<int>, n: int)
    requires Agree(h, key, t, limbo) && n in t.info
    ensures 0 <= t.info[n].randomPos < |t.random| && t.random[t.info[n].randomPos] == n
  {
  }

  lemma DeletedKeepsAgree(h: Hashes, key: Key, t: Tables, limbo: set<int>, n: int)
    requires Agree(h, key, t, limbo) && n in t.info && n !in limbo && !t.info[n].inTried && t.info[n].refCount == 0
    ensures Deletable(t, n) && Agree(h, key, Deleted(t, n), limbo)
    ensures KeptExcept(t.info, Deleted(t, n).info, {n}) && n !in Deleted(t, n).info && Deleted(t, n).info.Keys <= t.info.Keys
  {
    hide Agree;
    var i, j := t.info[n].randomPos, |t.random| - 1;
    PlaceOf(h, key, t, limbo, n);
    SwapKeepsAgree(h, key, t, limbo, i, j);
    RemoveLastKeepsAgree(h, key, Swapped(t, i, j), limbo, n);
  }

  function SlotCleared(t: Tables, s: Slot): Tables
    requires s in t.news && t.news[s] in t.info
  {
    var n := t.news[s];
    t.(info := t.info[n := t.info[n].(refCount := t.info[n].refCount - 1)], news := t.news - {s})
  }

  lemma ClearSlotKeepsAgree(h: Hashes, key: Key, t: Tables, limbo: set<int>, s: Slot)
    requires Agree(h, key, t, limbo) && s in t.news
    ensures t.news[s] in t.info && !t.info[t.news[s]].inTried && t.info[t.news[s]].refCount > 0
    ensures Agree(h, key, SlotCleared(t, s), limbo)
  {
    hide AddrOk, RandomOk, NewOk, TriedOk;
    ClearSlotKeeps(h, key, t.info, s, t.news, t.tried);
    RefCountKeeps(h, key, t, limbo, t.news[s], t.info[t.news[s]].refCount - 1);
  }

  /** The other indexes do not look at nRefCount. */
  lemma RefCountKeeps(h: Hashes, key: Key, t: Tables, limbo: set<int>, n: int, c: int)
    requires Agree(h, key, t, limbo) && n in t.info
    ensures var info := t.info[n := t.info[n].(refCount := c)];
            && AddrOk(info, t.addr) && RandomOk(info, t.random) && CountsOk(info, t.nTried, t.nNew, limbo)
            && limbo <= NewIds(info) && |t.random| == |info| && NewIds(info) == NewIds(t.info) && TriedIds(info) == TriedIds(t.info)
  {
    hide NewOk, TriedOk;
    var info := t.info[n := t.info[n].(refCount := c)];
    assert TriedIds(info) == TriedIds(t.info) && NewIds(info) == NewIds(t.info);
    assert info.Keys == t.info.Keys;
  }

  function SlotFilled(h: Hashes, key: Key, t: Tables, n: int, bucket: nat): Tables
    requires n in t.info
  {
    t.(info := t.info[n := t.info[n].(refCount := t.info[n].refCount + 1)], news := t.news[NewSlot(h, key, t.info[n].addr, bucket) := n])
  }

  lemma FillSlotKeepsAgree(h: Hashes, key: Key, t: Tables, limbo: set<int>, n: int, bucket: nat)
    requires Agree(h, key, t, limbo) && n in t.info && !t.info[n].inTried && bucket < NEW_BUCKET_COUNT
    requires NewSlot(h, key, t.info[n].addr, bucket) !in t.news
    ensures Agree(h, key, SlotFilled(h, key, t, n, bucket), limbo)
  {
    hide AddrOk, RandomOk, NewOk, TriedOk;
    FillSlotKeeps(h, key, t.info, n, bucket, t.news, t.tried);
    RefCountKeeps(h, key, t, limbo, n, t.info[n].refCount + 1);
  }

  function LeftTried(t: Tables, s: Slot): Tables
    requires s in t.tried && t.tried[s] in t.info
  {
    var n := t.tried[s];
    t.(info := t.info[n := t.info[n].(inTried := false)], tried := t.tried - {s}, nTried := t.nTried - 1)
  }

  lemma LeaveTriedKeepsAgree(h: Hashes, key: Key, t: Tables, limbo: set<int>, s: Slot)
    requires Agree(h, key, t, limbo) && s in t.tried
    ensures t.tried[s] in t.info && t.tried[s] !in limbo && t.info[t.tried[s]].inTried && t.info[t.tried[s]].refCount == 0
    ensures Agree(h, key, LeftTried(t, s), limbo + {t.tried[s]})
  {
    hide NewOk, TriedOk;
    LeaveTriedKeeps(h, key, t.info, s, t.news, t.tried);
    var n := t.tried[s];
    var info := t.info[n := t.info[n].(inTried := false)];
    assert info.Keys == t.info.Keys;
    assert NewIds(info) - (limbo + {n}) == NewIds(t.info) - limbo;
    assert n in TriedIds(t.info);
  }

  function EnteredTried(h: Hashes, key: Key, t: Tables, n: int): Tables
    requires n in t.info
  {
    t.(info := t.info[n := t.info[n].(inTried := true)], tried := t.tried[TriedSlot(h, key, t.info[n].addr) := n], nTried := t.nTried + 1)
  }

  lemma EnterTriedKeepsAgree(h: Hashes, key: Key, t: Tables, limbo: set<int>, n: int)
    requires Agree(h, key, t, limbo) && n in limbo && n in t.info && !t.info[n].inTried && t.info[n].refCount == 0
    requires TriedSlot(h, key, t.info[n].addr) !in t.tried
    ensures Agree(h, key, EnteredTried(h, key, t, n), limbo - {n})
  {
    hide NewOk, TriedOk;
    EnterTriedKeeps(h, key, t.info, n, t.news, t.tried);
    var info := t.info[n := t.info[n].(inTried := true)];
    assert info.Keys == t.info.Keys;
    assert NewIds(info) - (limbo - {n}) == NewIds(t.info) - limbo;
    assert n !in TriedIds(t.info);
  }

  /** Counting an entry out of, or into, the new table. */
  lemma LimboCounts(h: Hashes, key: Key, t: Tables, limbo: set<int>, n: int)
    requires n in t.info && !t.info[n].inTried && n !in limbo
    ensures Agree(h, key, t, limbo) <==> Agree(h, key, t.(nNew := t.nNew - 1), limbo + {n})
  {
    hide AddrOk, RandomOk, NewOk, TriedOk;
    assert NewIds(t.info) - (limbo + {n}) == NewIds(t.info) - limbo - {n};
    assert n in NewIds(t.info) - limbo;
  }

  lemma Inhabited(s: set<int>)
    ensures s == {} || exists n :: n in s
  {
    var none: set<int> := {};
    if forall n :: n in s ==> n in none {
      assert forall n | n in s :: n in none;
      assert s <= none;
    }
  }

  lemma SameIds(s: set<int>, t: set<int>)
    requires forall n :: n in s <==> n in t
    ensures s == t
  {
    assert forall n | n in s :: n in t;
    assert forall n | n in t :: n in s;
    assert s <= t && t <= s;
  }

  // ----- lists of ids

  ghost predicate Distinct(order: seq<int>) {
    forall i, j :: 0 <= i < j < |order| ==> order[i] != order[j]
  }

  /** `order` lists the members of `ids`, each once. */
  ghost predicate Enumerates(order: seq<int>, ids: set<int>) {
    && Distinct(order)
    && (forall i :: 0 <= i < |order| ==> order[i] in ids)
    && (forall n :: n in ids ==> n in order)
  }

  lemma {:induction false} DistinctBound(order: seq<int>, ids: set<int>)
    requires Distinct(order) && forall i :: 0 <= i < |order| ==> order[i] in ids
    ensures |order| <= |ids|
    decreases |order|
  {
    if order != [] {
      var last := order[|order| - 1];
      DistinctBound(order[..|order| - 1], ids - {last});
    }
  }

  lemma {:induction false} EnumerationCounts(order: seq<int>, ids: set<int>)
    requires Enumerates(order, ids)
    ensures |order| == |ids|
    decreases |order|
  {
    if order == [] {
      SameIds(ids, {});
    } else {
      var init, last := order[..|order| - 1], order[|order| - 1];
      forall n | n in ids - {last} ensures n in init {
        var i :| 0 <= i < |order| && order[i] == n;
        assert init[i] == n;
      }
      EnumerationCounts(init, ids - {last});
    }
  }
}
