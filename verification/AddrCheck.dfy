/**
 What `CAddrMan::Check_` (src/addrman.cpp) finds out about the tables, loop by loop, and how much of their
 agreement that is.  AddrMan holds the method itself.
 */
module AddrCheck {
  import opened AddrTables

  /** What the first loop asks of an entry by itself. */
  predicate StatsOk(i: Info) {
    && (if i.inTried then i.lastSuccess != 0 && i.refCount == 0 else 1 <= i.refCount <= NEW_BUCKETS_PER_ADDRESS)
    && i.lastTry >= 0 && i.lastSuccess >= 0
  }

  /** Looking up a missing address yields 0, and inserts it. */
  predicate AddrPasses(info: Infos, addr: map<NetAddr, int>, n: int)
    requires n in info
  {
    if info[n].addr.ip in addr then addr[info[n].addr.ip] == n else n == 0
  }

  predicate RandomPasses(info: Infos, random: seq<int>, n: int)
    requires n in info
  {
    0 <= info[n].randomPos < |random| && random[info[n].randomPos] == n
  }

  predicate EntryPasses(t: Tables, n: int)
    requires n in t.info
  {
    StatsOk(t.info[n]) && AddrPasses(t.info, t.addr, n) && RandomPasses(t.info, t.random, n)
  }

  ghost predicate EntriesPass(t: Tables) {
    forall n :: n in t.info ==> EntryPasses(t, n)
  }

  /** All that `Check_` tests of the tables. */
  ghost predicate Passes(h: Hashes, key: Key, t: Tables) {
    && EntriesPass(t) && |t.random| == t.nTried + t.nNew && CountsOk(t.info, t.nTried, t.nNew, {})
    && TriedOk(h, key, t.info, t.tried) && NewOk(h, key, t.info, t.news)
  }

  /** Tables as they are between calls. */
  ghost predicate Sane(h: Hashes, key: Key, t: Tables) {
    Agree(h, key, t, {}) && RefsBounded(t.info, {}) && TimesOk(t.info)
  }

  /** A bucket of the new table is one of an array. */
  ghost predicate Shaped(news: Table) {
    forall s :: s in news ==> s.bucket < NEW_BUCKET_COUNT
  }

  // ----- vRandom

  ghost function Places(info: Infos, ids: set<int>): set<int>
    requires ids <= info.Keys
  {
    set n | n in ids :: info[n].randomPos
  }

  lemma {:induction false} PlacesCount(info: Infos, random: seq<int>, ids: set<int>)
    requires ids <= info.Keys && forall n :: n in ids ==> RandomPasses(info, random, n)
    ensures |Places(info, ids)| == |ids|
    decreases ids
  {
    if ids != {} {
      Inhabited(ids);
      var n :| n in ids;
      var rest := ids - {n};
      PlacesCount(info, random, rest);
      forall p ensures p in Places(info, ids) - {info[n].randomPos} <==> p in Places(info, rest) {
        if p in Places(info, ids) - {info[n].randomPos} {
          var m :| m in ids && info[m].randomPos == p;
          assert m in rest;
        }
        if p in Places(info, rest) {
          var m :| m in rest && info[m].randomPos == p;
          assert RandomPasses(info, random, m) && RandomPasses(info, random, n);
        }
      }
      SameIds(Places(info, ids) - {info[n].randomPos}, Places(info, rest));
      assert info[n].randomPos in Places(info, ids);
    }
  }

  lemma {:induction false} RangeCount(s: set<int>, k: nat)
    requires forall p :: p in s ==> 0 <= p < k
    ensures |s| <= k
    decreases k
  {
    if k > 0 {
      RangeCount(s - {k - 1}, k - 1);
    } else {
      SameIds(s, {});
    }
  }

  /** As many places as entries: every place is taken. */
  lemma PlacesAreTaken(info: Infos, random: seq<int>, i: int)
    requires |random| == |info| && 0 <= i < |random| && forall n :: n in info ==> RandomPasses(info, random, n)
    ensures random[i] in info && info[random[i]].randomPos == i
  {
    var places := Places(info, info.Keys);
    PlacesCount(info, random, info.Keys);
    assert |places| == |random|;
    if i !in places {
      assert forall p :: p in places + {i} ==> 0 <= p < |random|;
      RangeCount(places + {i}, |random|);
    }
    var n :| n in info.Keys && info[n].randomPos == i;
    assert RandomPasses(info, random, n);
  }

  lemma AllPlacesTaken(info: Infos, random: seq<int>)
    requires |random| == |info| && forall n :: n in info ==> RandomPasses(info, random, n)
    ensures RandomOk(info, random)
  {
    forall i | 0 <= i < |random| ensures random[i] in info && info[random[i]].randomPos == i {
      PlacesAreTaken(info, random, i);
    }
    forall n | n in info ensures 0 <= info[n].randomPos < |random| && random[info[n].randomPos] == n {
      assert RandomPasses(info, random, n);
    }
  }

  lemma IdsSplit(info: Infos)
    ensures |info| == |TriedIds(info)| + |NewIds(info)| == |TriedIds(info)| + |NewIds(info) - {}|
  {
    assert NewIds(info) - {} == NewIds(info);
    forall n ensures n in info.Keys <==> n in TriedIds(info) + NewIds(info) {}
    SameIds(info.Keys, TriedIds(info) + NewIds(info));
    assert TriedIds(info) !! NewIds(info);
  }

  /**
   What has been found good is everything the manager relies on, up to two things no loop looks at:
   addresses in mapAddr that no entry has, and ids beyond the counter.
   */
  lemma PassesMeans(h: Hashes, key: Key, t: Tables)
    ensures Sane(h, key, t) <==>
              Passes(h, key, t) && AddrOk(t.info, t.addr) && t.idCount >= 0 && forall n :: n in t.info ==> 0 <= n < t.idCount
    ensures Passes(h, key, t) ==> RandomOk(t.info, t.random) && RefsBounded(t.info, {}) && TimesOk(t.info)
  {
    hide TriedOk, NewOk, AddrOk, RandomOk;
    if Sane(h, key, t) { SanePasses(h, key, t); }
    if Passes(h, key, t) {
      IdsSplit(t.info);
      forall n | n in t.info ensures RandomPasses(t.info, t.random, n) && StatsOk(t.info[n]) {
        assert EntryPasses(t, n);
      }
      AllPlacesTaken(t.info, t.random);
    }
  }

  lemma SanePasses(h: Hashes, key: Key, t: Tables)
    requires Sane(h, key, t)
    ensures Passes(h, key, t)
  {
    IdsSplit(t.info);
    forall n | n in t.info ensures EntryPasses(t, n) {
      assert t.info[n].addr.ip in t.addr && t.addr[t.info[n].addr.ip] == n;
      if t.info[n].inTried { NoReferences(h, key, t, n); }
    }
  }

  lemma NoReferences(h: Hashes, key: Key, t: Tables, n: int)
    requires NewOk(h, key, t.info, t.news) && n in t.info && t.info[n].inTried
    ensures t.info[n].refCount == 0
  {
    assert forall s :: s in t.news ==> NewSlotOk(h, key, t.info, t.news, s);
    assert Refs(t.news, n) == {};
  }

  lemma AllStatsOk(t: Tables)
    requires EntriesPass(t)
    ensures forall n :: n in t.info ==> StatsOk(t.info[n])
  {
    forall n | n in t.info ensures StatsOk(t.info[n]) { assert EntryPasses(t, n); }
  }

  /** With nothing in vRandom and the tables, only an empty mapInfo passes. */
  lemma ClearedPasses(h: Hashes, key: Key, t: Tables)
    requires t == Tables(0, t.info, t.addr, [], 0, map[], 0, map[])
    ensures Passes(h, key, t) <==> t.info == map[]
    ensures Sane(h, key, t) <==> t.info == map[] && t.addr == map[]
  {
    if t.info != map[] {
      Inhabited(t.info.Keys);
      var n :| n in t.info;
      assert !EntryPasses(t, n);
    } else {
      SameIds(TriedIds(t.info), {});
      SameIds(NewIds(t.info) - {}, {});
    }
    PassesMeans(h, key, t);
  }

  // ----- mapAddr

  /** Looking up an address that is missing inserts it. */
  function Found(addr: map<NetAddr, int>, ip: NetAddr): map<NetAddr, int> {
    if ip in addr then addr else addr[ip := 0]
  }

  /** What has become of `addr` while the entries in `seen` passed: only the address of entry 0 may be added. */
  ghost predicate LookedUp(info: Infos, addr: map<NetAddr, int>, addr': map<NetAddr, int>, seen: set<int>) {
    && seen <= info.Keys
    && (forall ip :: ip in addr ==> ip in addr' && addr'[ip] == addr[ip])
    && (forall ip :: ip in addr' && ip !in addr ==> addr'[ip] == 0 && 0 in seen && info[0].addr.ip == ip)
    && (forall n :: n in seen ==> info[n].addr.ip in addr' && addr'[info[n].addr.ip] == n)
  }

  lemma LookUp(info: Infos, addr: map<NetAddr, int>, addr': map<NetAddr, int>, seen: set<int>, n: int)
    requires LookedUp(info, addr, addr', seen) && n in info && n !in seen
    ensures AddrPasses(info, addr', n) <==> AddrPasses(info, addr, n)
    ensures AddrPasses(info, addr', n) ==> LookedUp(info, addr, Found(addr', info[n].addr.ip), seen + {n})
  {
  }

  lemma LookUpStarts(info: Infos, addr: map<NetAddr, int>)
    ensures LookedUp(info, addr, addr, {})
  {
  }

  lemma AllLookedUp(info: Infos, addr: map<NetAddr, int>, addr': map<NetAddr, int>)
    requires LookedUp(info, addr, addr', info.Keys)
    ensures forall n :: n in info ==> info[n].addr.ip in addr' && addr'[info[n].addr.ip] == n
    ensures AddrOk(info, addr) ==> addr' == addr
  {
    if AddrOk(info, addr) {
      forall ip | ip in addr' ensures ip in addr {}
      assert addr'.Keys == addr.Keys;
    }
  }

  /** The entries in `seen` sorted into tried and new ones. */
  ghost predicate Sorted(info: Infos, seen: set<int>, setTried: set<int>, mapNew: map<int, int>) {
    && (forall n :: n in setTried <==> n in seen && n in info && info[n].inTried)
    && (forall n :: n in mapNew <==> n in seen && n in info && !info[n].inTried)
    && (forall n :: n in mapNew ==> mapNew[n] == info[n].refCount)
  }

  lemma AllSorted(info: Infos, setTried: set<int>, mapNew: map<int, int>)
    requires Sorted(info, info.Keys, setTried, mapNew)
    ensures setTried == TriedIds(info) && mapNew == map n | n in NewIds(info) :: info[n].refCount
  {
    SameIds(setTried, TriedIds(info));
    var refs := map n | n in NewIds(info) :: info[n].refCount;
    SameIds(mapNew.Keys, refs.Keys);
    forall n | n in refs ensures n in mapNew && mapNew[n] == refs[n] {
      assert n in refs.Keys && n in NewIds(info);
    }
    assert mapNew == refs;
  }

  // ----- vvTried

  ghost predicate TriedHolds(h: Hashes, key: Key, info: Infos, tried: Table, s: Slot)
    requires s in tried
  {
    tried[s] in info && info[tried[s]].inTried && s == TriedSlot(h, key, info[tried[s]].addr)
  }

  /** The slots in `done` have been looked at, and `left` of the tried ids have not been found yet. */
  ghost predicate Ticking(h: Hashes, key: Key, info: Infos, tried: Table, done: set<Slot>, left: set<int>) {
    && done <= tried.Keys && (forall s :: s in done ==> TriedHolds(h, key, info, tried, s))
    && forall n :: n in left <==> n in TriedIds(info) && forall s :: s in done ==> tried[s] != n
  }

  lemma TickingStep(h: Hashes, key: Key, info: Infos, tried: Table, done: set<Slot>, left: set<int>, s: Slot)
    requires Ticking(h, key, info, tried, done, left) && s in tried && s !in done
    requires tried[s] in left && tried[s] in info && s == TriedSlot(h, key, info[tried[s]].addr)
    ensures Ticking(h, key, info, tried, done + {s}, left - {tried[s]})
  {
    hide TriedSlot;
    var done', left' := done + {s}, left - {tried[s]};
    TickingKnows(h, key, info, tried, done, left, tried[s]);
    forall u | u in done' ensures TriedHolds(h, key, info, tried, u) {}
    forall n ensures n in left' <==> n in TriedIds(info) && forall u :: u in done' ==> tried[u] != n {
      assert s in done';
      if n in left' {
        forall u | u in done' ensures tried[u] != n {}
      } else if n in TriedIds(info) && n != tried[s] {
        var u :| u in done && tried[u] == n;
        assert u in done';
      }
    }
  }

  lemma TickingStarts(h: Hashes, key: Key, info: Infos, tried: Table)
    ensures Ticking(h, key, info, tried, {}, TriedIds(info))
  {
  }

  lemma TickingKnows(h: Hashes, key: Key, info: Infos, tried: Table, done: set<Slot>, left: set<int>, n: int)
    requires Ticking(h, key, info, tried, done, left) && n in left
    ensures n in info && n in TriedIds(info)
  {
  }

  lemma SlotParts(h: Hashes, key: Key, a: Service, s: Slot)
    ensures s == TriedSlot(h, key, a) <==> h.triedBucket(key, a) == s.bucket && h.position(key, false, s.bucket, a) == s.pos
  {
  }

  /** A slot that does not hold a tried entry that is still to be found is wrong. */
  lemma TickingFails(h: Hashes, key: Key, info: Infos, tried: Table, done: set<Slot>, left: set<int>, s: Slot)
    requires Ticking(h, key, info, tried, done, left) && s in tried && s !in done
    requires tried[s] !in left || (tried[s] in info && s != TriedSlot(h, key, info[tried[s]].addr))
    ensures !TriedOk(h, key, info, tried)
  {
    hide TriedSlot;
    if tried[s] !in left && tried[s] in TriedIds(info) {
      var s' :| s' in done && tried[s'] == tried[s];
      assert TriedHolds(h, key, info, tried, s');
    }
  }

  lemma TickingEnds(h: Hashes, key: Key, info: Infos, tried: Table, left: set<int>)
    requires Ticking(h, key, info, tried, tried.Keys, left)
    ensures left == {} <==> TriedOk(h, key, info, tried)
  {
    hide TriedSlot;
    assert forall s :: s in tried ==> TriedHolds(h, key, info, tried, s);
    if left == {} {
      forall n | n in info && info[n].inTried
        ensures TriedSlot(h, key, info[n].addr) in tried && tried[TriedSlot(h, key, info[n].addr)] == n
      {
        assert n in TriedIds(info);
        var s :| s in tried.Keys && tried[s] == n;
        assert TriedHolds(h, key, info, tried, s);
      }
    }
    if TriedOk(h, key, info, tried) {
      forall n ensures n !in left {
        if n in TriedIds(info) { assert tried[TriedSlot(h, key, info[n].addr)] == n; }
      }
      SameIds(left, {});
    }
  }

  // ----- vvNew

  ghost function RefsIn(news: Table, slots: set<Slot>, n: int): set<Slot> {
    set s | s in slots && s in news && news[s] == n
  }

  /** The slots in `done` have been looked at, and `mapNew` holds how many references are still to be found. */
  ghost predicate Counting(h: Hashes, key: Key, info: Infos, news: Table, done: set<Slot>, mapNew: map<int, int>) {
    && (forall s {:trigger NewSlotOk(h, key, info, news, s)} :: s in done && s in news ==> NewSlotOk(h, key, info, news, s))
    && (forall n :: n in mapNew <==> n in NewIds(info) && |RefsIn(news, done, n)| < info[n].refCount)
    && (forall n :: n in mapNew ==> mapNew[n] == info[n].refCount - |RefsIn(news, done, n)|)
    && (forall n :: n in NewIds(info) ==> |RefsIn(news, done, n)| <= info[n].refCount)
  }

  lemma CountingStarts(h: Hashes, key: Key, info: Infos, news: Table, mapNew: map<int, int>)
    requires forall n :: n in info ==> StatsOk(info[n])
    requires mapNew == map n | n in NewIds(info) :: info[n].refCount
    ensures Counting(h, key, info, news, {}, mapNew)
  {
    forall n ensures RefsIn(news, {}, n) == {} {}
  }

  lemma CountingKnows(h: Hashes, key: Key, info: Infos, news: Table, done: set<Slot>, mapNew: map<int, int>, n: int)
    requires Counting(h, key, info, news, done, mapNew) && n in mapNew
    ensures n in info && !info[n].inTried
  {
  }

  lemma RefsInStep(news: Table, done: set<Slot>, s: Slot, n: int)
    requires s in news && s !in done
    ensures |RefsIn(news, done + {s}, n)| == |RefsIn(news, done, n)| + if news[s] == n then 1 else 0
  {
    if news[s] == n {
      assert RefsIn(news, done + {s}, n) == RefsIn(news, done, n) + {s};
    } else {
      assert RefsIn(news, done + {s}, n) == RefsIn(news, done, n);
    }
  }

  function CountedDown(mapNew: map<int, int>, n: int): map<int, int>
    requires n in mapNew
  {
    if mapNew[n] == 1 then mapNew - {n} else mapNew[n := mapNew[n] - 1]
  }

  lemma CountingStep(h: Hashes, key: Key, info: Infos, news: Table, done: set<Slot>, mapNew: map<int, int>, s: Slot)
    requires Counting(h, key, info, news, done, mapNew) && s in news && s !in done && NewSlotOk(h, key, info, news, s)
    requires news[s] in mapNew
    ensures Counting(h, key, info, news, done + {s}, CountedDown(mapNew, news[s]))
  {
    hide RefsIn, NewSlotOk;
    forall n ensures |RefsIn(news, done + {s}, n)| == |RefsIn(news, done, n)| + if news[s] == n then 1 else 0 {
      RefsInStep(news, done, s, n);
    }
  }

  lemma RefsInAll(news: Table, n: int)
    ensures RefsIn(news, news.Keys, n) == Refs(news, n)
  {
  }

  /** A slot that holds no entry with references still to be found is wrong. */
  lemma CountingFails(h: Hashes, key: Key, info: Infos, news: Table, done: set<Slot>, mapNew: map<int, int>, s: Slot)
    requires Counting(h, key, info, news, done, mapNew) && s in news && s !in done && done <= news.Keys
    requires news[s] !in mapNew || !NewSlotOk(h, key, info, news, s)
    ensures !NewOk(h, key, info, news)
  {
    if NewOk(h, key, info, news) {
      assert NewSlotOk(h, key, info, news, s);
      var n := news[s];
      assert n in NewIds(info);
      assert RefsIn(news, done, n) + {s} <= Refs(news, n);
      SlotsCount(RefsIn(news, done, n) + {s}, Refs(news, n));
    }
  }

  lemma {:induction false} SlotsCount(a: set<Slot>, b: set<Slot>)
    requires a <= b
    ensures |a| <= |b|
    decreases a
  {
    if a != {} {
      var s :| s in a;
      SlotsCount(a - {s}, b - {s});
    }
  }

  lemma CountingEnds(h: Hashes, key: Key, info: Infos, news: Table, mapNew: map<int, int>)
    requires Counting(h, key, info, news, news.Keys, mapNew) && forall n :: n in info ==> StatsOk(info[n])
    ensures mapNew == map[] <==> NewOk(h, key, info, news)
  {
    forall n ensures RefsIn(news, news.Keys, n) == Refs(news, n) { RefsInAll(news, n); }
    assert forall s :: s in news ==> NewSlotOk(h, key, info, news, s);
    if mapNew == map[] {
      forall n | n in info ensures info[n].refCount == |Refs(news, n)| {
        if info[n].inTried { assert Refs(news, n) == {}; } else { assert n in NewIds(info); }
      }
    }
    if NewOk(h, key, info, news) {
      forall n ensures n !in mapNew {}
      SameIds(mapNew.Keys, {});
      assert mapNew == map[];
    }
  }
}
